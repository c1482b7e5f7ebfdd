/** Historical verification as it runs: the trust parser's loop, the separation loop and the lifetime flags. */
module HistoricalMachine {
  import opened Prelude
  import opened Json
  import opened Receipt
  import opened Verify
  import opened ChainMachine
  import opened Historical
  import Timestamp

  /** One lifecycle entry: the key text and its two bounds, or a refusal. */
  method ReadEntry(kid: string, entry: Value)
    returns (ok: bool, key: string, from: Option<string>, until: Option<string>)
    ensures ok == KeyEntryOk(kid, entry)
    ensures ok ==> Some(key) == TextOf(entry, "publicKey")
    ensures ok ==> from == TextOf(entry, "validFrom") && until == TextOf(entry, "retiredAt")
  {
    hide Timestamp.Instant;
    key, from, until := "", None, None;
    if kid == "" || !entry.Obj? || !ExactKeys(entry, {"publicKey", "retiredAt"}, {"validFrom"})
        || !HasText(entry, "publicKey") {
      return false, key, from, until;
    }
    key := Get(entry, "publicKey").s;
    if Has(entry, "validFrom") && !Get(entry, "validFrom").Null? {
      var activation := Get(entry, "validFrom");
      if !activation.Str? || Timestamp.Instant(activation.s).None? { return false, key, from, until; }
      from := Some(activation.s);
    }
    var retirement := Get(entry, "retiredAt");
    if !retirement.Null? {
      if !retirement.Str? || Timestamp.Instant(retirement.s).None? { return false, key, from, until; }
      until := Some(retirement.s);
    }
    if from.Some? && until.Some? && Timestamp.Instant(from.value).value >= Timestamp.Instant(until.value).value {
      return false, key, from, until;
    }
    ok := true;
  }

  function Lookup(m: map<string, string>, kid: string): Option<string> {
    if kid in m then Some(m[kid]) else None
  }

  lemma ReadAll(keys: map<string, Value>, flat: map<string, Value>, validFrom: map<string, string>,
                retiredAt: map<string, string>)
    requires flat.Keys <= keys.Keys && validFrom.Keys <= keys.Keys && retiredAt.Keys <= keys.Keys
    requires forall kid | kid in keys ::
      && KeyEntryOk(kid, keys[kid]) && kid in flat && flat[kid].Str?
      && Some(flat[kid].s) == TextOf(keys[kid], "publicKey")
      && Lookup(validFrom, kid) == TextOf(keys[kid], "validFrom")
      && Lookup(retiredAt, kid) == TextOf(keys[kid], "retiredAt")
    ensures LifecycleTrust(keys) == Trust(Obj(flat), validFrom, retiredAt, true)
  {
    hide KeyEntryOk;
    var want := LifecycleTrust(keys);
    assert flat == want.keyring.members by {
      forall kid | kid in keys ensures flat[kid] == want.keyring.members[kid] {
        assert Some(flat[kid].s) == TextOf(keys[kid], "publicKey");
      }
    }
    assert validFrom == want.validFrom;
    assert retiredAt == want.retiredAt;
  }

  /** Every lifecycle entry, in whatever order the map yields them. */
  method ReadLifecycle(keys: map<string, Value>) returns (r: Option<Trust>)
    ensures r.Some? <==> forall kid | kid in keys :: KeyEntryOk(kid, keys[kid])
    ensures r.Some? ==> r.value == LifecycleTrust(keys)
  {
    hide KeyEntryOk, TextOf;
    var flat: map<string, Value> := map[];
    var validFrom: map<string, string>, retiredAt: map<string, string> := map[], map[];
    var left := keys.Keys;
    while left != {}
      invariant left <= keys.Keys
      invariant flat.Keys <= keys.Keys - left && validFrom.Keys <= keys.Keys - left
              && retiredAt.Keys <= keys.Keys - left
      invariant forall kid | kid in keys && kid !in left ::
        && KeyEntryOk(kid, keys[kid]) && kid in flat && flat[kid].Str?
        && Some(flat[kid].s) == TextOf(keys[kid], "publicKey")
        && Lookup(validFrom, kid) == TextOf(keys[kid], "validFrom")
        && Lookup(retiredAt, kid) == TextOf(keys[kid], "retiredAt")
      decreases |left|
    {
      var kid :| kid in left;
      var ok, key, from, until := ReadEntry(kid, keys[kid]);
      if !ok { return None; }
      flat := flat[kid := Str(key)];
      if from.Some? { validFrom := validFrom[kid := from.value]; }
      if until.Some? { retiredAt := retiredAt[kid := until.value]; }
      left := left - {kid};
    }
    ReadAll(keys, flat, validFrom, retiredAt);
    return Some(Trust(Obj(flat), validFrom, retiredAt, true));
  }

  method ParseHistoricalKeyring(doc: Option<Value>) returns (r: Option<Trust>)
    ensures r == ParseTrust(doc)
  {
    hide KeyEntryOk, LooksLifecycle;
    if doc.None? || !doc.value.Obj? { return None; }
    var d := doc.value;
    if !LooksLifecycle(d) {
      var flat: map<string, Value> := map[];
      var left := d.members.Keys;
      while left != {}
        invariant left <= d.members.Keys
        invariant forall kid | kid in d.members && kid !in left :: kid != "" && HasText(d, kid)
        invariant forall kid | kid in d.members && kid !in left :: kid in flat && flat[kid] == d.members[kid]
        invariant forall kid | kid in flat :: kid in d.members && kid !in left
        decreases |left|
      {
        var kid :| kid in left;
        if kid == "" || !HasText(d, kid) { return None; }
        flat := flat[kid := d.members[kid]];
        left := left - {kid};
      }
      assert flat == d.members;
      return Some(Trust(Obj(flat), map[], map[], false));
    }
    if !ExactKeys(d, {"spec", "keys"}, {}) || !HasOneOf(d, "spec", {LIFECYCLE_SPEC}) || !Get(d, "keys").Obj?
        || Get(d, "keys").members == map[] {
      return None;
    }
    r := ReadLifecycle(Get(d, "keys").members);
  }

  /** The index again, each receipt stored without the duplicate check the verifier already made. */
  method Reindex(es: seq<Entry>) returns (m: BySeq)
    requires es != [] && Index(es, es[0].f.chain, 0, map[]).Some?
    ensures m == Index(es, es[0].f.chain, 0, map[]).value
  {
    m := map[];
    var i := 0;
    while i < |es|
      invariant 0 <= i <= |es|
      invariant Index(es, es[0].f.chain, 0, map[]) == Index(es, es[0].f.chain, i, m)
    {
      m := m[es[i].f.seqno := es[i]];
      i := i + 1;
    }
  }

  method CheckSeparation(env: Env, keyring: Value, es: seq<Entry>, kid: string, material: bytes)
    returns (r: Option<Code>)
    ensures r == SeparationFailure(env, keyring, es, 0, kid, material)
  {
    hide Material;
    var i := 0;
    while i < |es|
      invariant 0 <= i <= |es|
      invariant SeparationFailure(env, keyring, es, 0, kid, material)
              == SeparationFailure(env, keyring, es, i, kid, material)
    {
      var key := Material(env, keyring, es[i].f.kid);
      if key.None? { return Some(RECEIPT_ROOT_INVALID); }
      if kid == es[i].f.kid || material == key.value { return Some(WITNESS_KEY_NOT_SEPARATE); }
      i := i + 1;
    }
    return None;
  }

  /** One pass over the covered receipts that raises the two lifetime flags. */
  method CheckLifetimes(t: Trust, w: Trust, m: BySeq, f: CheckpointFacts)
    returns (beforeActivation: bool, afterRetirement: bool)
    requires forall s: nat | s <= f.highestSeq :: s in m
    ensures beforeActivation == (!Activated(w, f.kid, f.ts) || !CoveredActivated(t, m, f.highestSeq, f.ts))
    ensures afterRetirement == (Timestamp.Instant(f.ts).None? || !CoveredNotRetired(t, m, f.highestSeq, f.ts))
  {
    hide Timestamp.Instant;
    var at := Timestamp.Instant(f.ts);
    beforeActivation := false;
    if f.kid in w.validFrom {
      var from := Timestamp.Instant(w.validFrom[f.kid]);
      beforeActivation := at.None? || from.None? || at.value < from.value;
    }
    afterRetirement := at.None?;
    var s := 0;
    while s <= f.highestSeq
      invariant 0 <= s <= f.highestSeq + 1
      invariant beforeActivation
              == (!Activated(w, f.kid, f.ts) || exists i: nat :: i < s && !Activated(t, m[i].f.kid, f.ts))
      invariant afterRetirement == (at.None? || exists i: nat :: i < s && !NotYetRetired(t, m[i].f.kid, f.ts))
    {
      var kid := m[s].f.kid;
      if kid in t.validFrom {
        var from := Timestamp.Instant(t.validFrom[kid]);
        if at.None? || from.None? || at.value < from.value { beforeActivation := true; }
      }
      if kid in t.retiredAt {
        var until := Timestamp.Instant(t.retiredAt[kid]);
        if at.None? || until.None? || at.value >= until.value { afterRetirement := true; }
      }
      s := s + 1;
    }
  }

  /** The anchoring half, on a full index. */
  method Anchor(t: Trust, w: Trust, m: BySeq, n: nat, f: CheckpointFacts, chain: Option<string>) returns (r: Result)
    requires forall s: nat | s < n :: s in m
    ensures r == Anchored(t, w, m, n, f, chain)
  {
    hide Activated, CoveredActivated, CoveredNotRetired, Timestamp.Instant;
    if Some(f.chain) != chain {
      return Unattributed(CONFLICT, CHECKPOINT_CONFLICT, INTACT, CONFLICTING, t.lifecycle, true, AVAILABLE, chain, n);
    }
    if f.highestSeq > n - 1 {
      return Unattributed(CONFLICT, CHECKPOINT_AHEAD, INTACT, CONFLICTING, t.lifecycle, true,
                          MISSING_RELATIVE_TO_CHECKPOINT, chain, n);
    }
    if m[f.highestSeq].f.hash != f.headHash {
      return Unattributed(CONFLICT, CHECKPOINT_CONFLICT, INTACT, CONFLICTING, t.lifecycle, true, AVAILABLE, chain, n);
    }
    var k := if f.highestSeq == n - 1 then ANCHORED_HEAD else ANCHORED_PREFIX;
    var early, late := CheckLifetimes(t, w, m, f);
    if early {
      return Unattributed(UNVERIFIED_, CHECKPOINT_BEFORE_ACTIVATION, INTACT, k, t.lifecycle, true, AVAILABLE, chain, n);
    }
    if late {
      return Unattributed(UNVERIFIED_, CHECKPOINT_AFTER_RETIREMENT, INTACT, k, t.lifecycle, true, AVAILABLE, chain, n);
    }
    return Result(if k == ANCHORED_HEAD then VERIFIED else PARTIAL,
                  if k == ANCHORED_HEAD then HEAD_ANCHORED else PREFIX_ANCHORED,
                  INTACT, k, ATTRIBUTABLE_AS_OF, t.lifecycle, true, AVAILABLE, chain, n,
                  Some(f.highestSeq), Some(f.ts));
  }

  /** The witness half, on a chain that verified. */
  method Witness(env: Env, t: Trust, es: seq<Entry>, m: BySeq, chain: Option<string>, checkpoint: Option<Value>,
                 checkpointRoot: Option<Value>)
    returns (r: Result)
    requires forall s: nat | s < |es| :: s in m
    ensures r == Witnessed(env, t, es, m, chain, checkpoint, checkpointRoot)
  {
    hide ParseTrust, CheckpointShape, CheckpointView, CheckpointStatus, Material, SeparationFailure, Anchored;
    var n := |es|;
    if checkpoint.None? {
      return Unattributed(UNVERIFIED_, NO_WITNESS, INTACT, UNANSWERED_COMPLETENESS, t.lifecycle, false, NOT_PROVIDED,
                          chain, n);
    }
    if checkpointRoot.None? {
      return Unattributed(UNVERIFIED_, WITNESS_ROOT_NOT_PROVIDED, UNANSWERED_INTEGRITY, UNANSWERED_COMPLETENESS,
                          t.lifecycle, true, AVAILABLE, chain, n);
    }
    var root := ParseHistoricalKeyring(checkpointRoot);
    if root.None? {
      return Unattributed(UNVERIFIED_, WITNESS_ROOT_INVALID, UNANSWERED_INTEGRITY, UNANSWERED_COMPLETENESS, t.lifecycle,
                          true, AVAILABLE, chain, n);
    }
    var w, cp := root.value, checkpoint.value;
    if !CheckpointShape(cp) {
      return Unattributed(INVALID, WITNESS_MALFORMED, BROKEN, UNANSWERED_COMPLETENESS, t.lifecycle, true, AVAILABLE,
                          chain, n);
    }
    var f := CheckpointView(cp);
    var cpv := VerifyCheckpoint(env, cp, Some(w.keyring));
    if cpv == CpUnverified {
      return Unattributed(UNVERIFIED_, WITNESS_KEY_NOT_TRUSTED, UNANSWERED_INTEGRITY, UNANSWERED_COMPLETENESS,
                          t.lifecycle, true, AVAILABLE, chain, n);
    }
    if cpv != CpOk {
      return Unattributed(INVALID, WITNESS_INTEGRITY_FAILURE, BROKEN, UNANSWERED_COMPLETENESS, t.lifecycle, true,
                          AVAILABLE, chain, n);
    }
    var material := Material(env, w.keyring, f.kid);
    if material.None? {
      return Unattributed(UNVERIFIED_, WITNESS_ROOT_INVALID, UNANSWERED_INTEGRITY, UNANSWERED_COMPLETENESS, t.lifecycle,
                          true, AVAILABLE, chain, n);
    }
    var failure := CheckSeparation(env, t.keyring, es, f.kid, material.value);
    if failure.Some? {
      var integrity := if failure.value == RECEIPT_ROOT_INVALID then UNANSWERED_INTEGRITY else INTACT;
      return Unattributed(UNVERIFIED_, failure.value, integrity, UNANSWERED_COMPLETENESS, t.lifecycle, true, AVAILABLE,
                          chain, n);
    }
    if f.kid in w.retiredAt {
      return Unattributed(UNVERIFIED_, WITNESS_KEY_RETIRED, INTACT, UNANSWERED_COMPLETENESS, t.lifecycle, true,
                          AVAILABLE, chain, n);
    }
    r := Anchor(t, w, m, n, f, chain);
  }

  method VerifyHistoricalChain(env: Env, receipts: Option<Value>, receiptRoot: Option<Value>,
                               checkpoint: Option<Value>, checkpointRoot: Option<Value>, identity: Option<Value>)
    returns (r: Result)
    ensures r == HistoricalVerdict(env, receipts, receiptRoot, checkpoint, checkpointRoot, identity)
  {
    hide ParseTrust, Verdict, AllShaped, Index, Witnessed, ShownChain, ReceiptShape, View;
    var given := checkpoint.Some?;
    var available := if given then AVAILABLE else NOT_PROVIDED;
    var chain, count := ShownChain(receipts), ShownCount(receipts);
    var root := ParseHistoricalKeyring(receiptRoot);
    if root.None? {
      return Unattributed(INVALID, RECEIPT_ROOT_INVALID, UNANSWERED_INTEGRITY, UNANSWERED_COMPLETENESS, false, given,
                          available, None, 0);
    }
    var t := root.value;
    var status, _ := VerifyChain(env, receipts, Some(t.keyring), identity, None);
    if status != VALID {
      if status == TAMPERED {
        return Unattributed(INVALID, RECEIPT_INTEGRITY_FAILURE, BROKEN, UNANSWERED_COMPLETENESS, t.lifecycle, given,
                            available, chain, count);
      }
      if status == UNTRUSTED {
        return Unattributed(INVALID, RECEIPT_IDENTITY_UNTRUSTED, UNANSWERED_INTEGRITY, UNANSWERED_COMPLETENESS,
                            t.lifecycle, given, available, chain, count);
      }
      return Unattributed(INVALID, RECEIPT_MALFORMED, UNANSWERED_INTEGRITY, UNANSWERED_COMPLETENESS, t.lifecycle, given,
                          available, chain, count);
    }
    ValidHasIndex(env, receipts, Some(t.keyring), identity, None);
    var shaped := CheckShapes(receipts.value.items);
    var m := Reindex(shaped.value);
    r := Witness(env, t, shaped.value, m, chain, checkpoint, checkpointRoot);
  }
}
