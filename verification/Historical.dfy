/** Historical verification: key lifetimes, a separate witness, and what a checkpoint attributes. */
module Historical {
  import opened Prelude
  import opened Json
  import opened Receipt
  import opened Verify
  import opened ChainMeaning
  import Timestamp

  // ---- trust documents -------------------------------------------------------------------------

  /** A key set with the activation and retirement instants it declares. */
  datatype Trust = Trust(keyring: Value, validFrom: map<string, string>, retiredAt: map<string, string>,
                         lifecycle: bool)

  const LIFECYCLE_SPEC := "noa.signing-key-lifecycle/0.1"

  predicate LooksLifecycle(doc: Value) {
    HasOneOf(doc, "spec", {LIFECYCLE_SPEC}) || (Has(doc, "keys") && !Get(doc, "keys").Str?)
  }

  predicate FlatOk(doc: Value) { doc.Obj? && forall kid | kid in doc.members :: kid != "" && HasText(doc, kid) }

  /** A field that is null, or a string naming an instant. */
  predicate NullOrInstant(v: Value) { v.Null? || (v.Str? && Timestamp.Instant(v.s).Some?) }

  predicate KeyEntryOk(kid: string, entry: Value) {
    && kid != "" && entry.Obj?
    && ExactKeys(entry, {"publicKey", "retiredAt"}, {"validFrom"})
    && HasText(entry, "publicKey")
    && (Has(entry, "validFrom") ==> NullOrInstant(Get(entry, "validFrom")))
    && NullOrInstant(Get(entry, "retiredAt"))
    && (HasStr(entry, "validFrom") && HasStr(entry, "retiredAt") ==>
          Timestamp.Instant(Get(entry, "validFrom").s).value < Timestamp.Instant(Get(entry, "retiredAt").s).value)
  }

  predicate LifecycleOk(doc: Value) {
    && ExactKeys(doc, {"spec", "keys"}, {})
    && HasOneOf(doc, "spec", {LIFECYCLE_SPEC})
    && Get(doc, "keys").Obj? && Get(doc, "keys").members != map[]
    && forall kid | kid in Get(doc, "keys").members :: KeyEntryOk(kid, Get(doc, "keys").members[kid])
  }

  function LifecycleTrust(keys: map<string, Value>): Trust
    requires forall kid | kid in keys :: KeyEntryOk(kid, keys[kid])
  {
    Trust(
      Obj(map kid | kid in keys :: assert KeyEntryOk(kid, keys[kid]); Str(Get(keys[kid], "publicKey").s)),
      map kid | kid in keys && TextOf(keys[kid], "validFrom").Some? :: TextOf(keys[kid], "validFrom").value,
      map kid | kid in keys && TextOf(keys[kid], "retiredAt").Some? :: TextOf(keys[kid], "retiredAt").value,
      true)
  }

  function ParseTrust(doc: Option<Value>): Option<Trust> {
    if doc.None? || !doc.value.Obj? then None
    else if !LooksLifecycle(doc.value) then
      if FlatOk(doc.value) then Some(Trust(doc.value, map[], map[], false)) else None
    else if LifecycleOk(doc.value) then Some(LifecycleTrust(Get(doc.value, "keys").members))
    else None
  }

  // ---- results ---------------------------------------------------------------------------------

  datatype Classification = INVALID | UNVERIFIED_ | CONFLICT | PARTIAL | VERIFIED

  datatype Code =
    | RECEIPT_ROOT_INVALID | RECEIPT_INTEGRITY_FAILURE | RECEIPT_IDENTITY_UNTRUSTED | RECEIPT_MALFORMED
    | NO_WITNESS | WITNESS_ROOT_NOT_PROVIDED | WITNESS_ROOT_INVALID | WITNESS_MALFORMED
    | WITNESS_KEY_NOT_TRUSTED | WITNESS_INTEGRITY_FAILURE | WITNESS_KEY_NOT_SEPARATE | WITNESS_KEY_RETIRED
    | CHECKPOINT_CONFLICT | CHECKPOINT_AHEAD | CHECKPOINT_BEFORE_ACTIVATION | CHECKPOINT_AFTER_RETIREMENT
    | PREFIX_ANCHORED | HEAD_ANCHORED

  datatype Integrity = INTACT | BROKEN | UNANSWERED_INTEGRITY

  datatype Completeness = ANCHORED_HEAD | ANCHORED_PREFIX | CONFLICTING | UNANSWERED_COMPLETENESS

  datatype Attribution = ATTRIBUTABLE_AS_OF | UNATTRIBUTABLE

  datatype Availability = NOT_PROVIDED | AVAILABLE | MISSING_RELATIVE_TO_CHECKPOINT

  datatype Result = Result(
    classification: Classification, code: Code,
    integrity: Integrity, completeness: Completeness, attribution: Attribution,
    retirementProvided: bool, witnessProvided: bool, availability: Availability,
    chain: Option<string>, count: nat, attributedThroughSeq: Option<nat>, asOf: Option<string>)

  /** A result that attributes nothing. */
  function Unattributed(c: Classification, code: Code, i: Integrity, k: Completeness, retirement: bool, given: bool,
                        a: Availability, chain: Option<string>, count: nat): (r: Result)
    ensures r.attribution == UNATTRIBUTABLE && r.classification == c && r.code == code
  {
    Result(c, code, i, k, UNATTRIBUTABLE, retirement, given, a, chain, count, None, None)
  }

  // ---- lifetimes -------------------------------------------------------------------------------

  /** `ts` is an instant, and not before `from`. */
  predicate NotBefore(ts: string, from: string) {
    match (Timestamp.Instant(ts), Timestamp.Instant(from))
    case (Some(t), Some(f)) => f <= t
    case _ => false
  }

  /** `ts` is an instant, and strictly before `end`. */
  predicate Precedes(ts: string, end: string) {
    match (Timestamp.Instant(ts), Timestamp.Instant(end))
    case (Some(t), Some(e)) => t < e
    case _ => false
  }

  predicate Activated(t: Trust, kid: string, ts: string) { kid in t.validFrom ==> NotBefore(ts, t.validFrom[kid]) }

  predicate NotYetRetired(t: Trust, kid: string, ts: string) { kid in t.retiredAt ==> Precedes(ts, t.retiredAt[kid]) }

  /** Every signer at a covered seq had been activated by the checkpoint time. */
  predicate CoveredActivated(t: Trust, m: BySeq, last: nat, ts: string) {
    forall s: nat | s <= last && s in m :: Activated(t, m[s].f.kid, ts)
  }

  predicate CoveredNotRetired(t: Trust, m: BySeq, last: nat, ts: string) {
    forall s: nat | s <= last && s in m :: NotYetRetired(t, m[s].f.kid, ts)
  }

  // ---- witness separation ----------------------------------------------------------------------

  /** The key bytes a trusted key id stands for. */
  function Material(env: Env, keyring: Value, kid: string): Option<bytes> {
    var key :- KeyOf(Some(keyring), kid);
    env.spki(key)
  }

  /** The receipts in input order, from `i`: the first that shares the witness's id or key bytes, or has none. */
  function SeparationFailure(env: Env, keyring: Value, es: seq<Entry>, i: nat, kid: string,
                             material: bytes): Option<Code>
    requires i <= |es|
    decreases |es| - i
  {
    if i == |es| then None
    else
      match Material(env, keyring, es[i].f.kid)
      case None => Some(RECEIPT_ROOT_INVALID)
      case Some(b) =>
        if kid == es[i].f.kid || material == b then Some(WITNESS_KEY_NOT_SEPARATE)
        else SeparationFailure(env, keyring, es, i + 1, kid, material)
  }

  // ---- the verdict -----------------------------------------------------------------------------

  /** The anchoring decision, once the witness is authentic, separate and current. */
  ghost function Anchored(t: Trust, w: Trust, m: BySeq, n: nat, f: CheckpointFacts, chain: Option<string>): Result {
    if Some(f.chain) != chain then
      Unattributed(CONFLICT, CHECKPOINT_CONFLICT, INTACT, CONFLICTING, t.lifecycle, true, AVAILABLE, chain, n)
    else if f.highestSeq > n - 1 then
      Unattributed(CONFLICT, CHECKPOINT_AHEAD, INTACT, CONFLICTING, t.lifecycle, true, MISSING_RELATIVE_TO_CHECKPOINT,
                   chain, n)
    else if f.highestSeq !in m || m[f.highestSeq].f.hash != f.headHash then
      Unattributed(CONFLICT, CHECKPOINT_CONFLICT, INTACT, CONFLICTING, t.lifecycle, true, AVAILABLE, chain, n)
    else
      var k := if f.highestSeq == n - 1 then ANCHORED_HEAD else ANCHORED_PREFIX;
      if !Activated(w, f.kid, f.ts) || !CoveredActivated(t, m, f.highestSeq, f.ts) then
        Unattributed(UNVERIFIED_, CHECKPOINT_BEFORE_ACTIVATION, INTACT, k, t.lifecycle, true, AVAILABLE, chain, n)
      else if Timestamp.Instant(f.ts).None? || !CoveredNotRetired(t, m, f.highestSeq, f.ts) then
        Unattributed(UNVERIFIED_, CHECKPOINT_AFTER_RETIREMENT, INTACT, k, t.lifecycle, true, AVAILABLE, chain, n)
      else
        Result(if k == ANCHORED_HEAD then VERIFIED else PARTIAL,
               if k == ANCHORED_HEAD then HEAD_ANCHORED else PREFIX_ANCHORED,
               INTACT, k, ATTRIBUTABLE_AS_OF, t.lifecycle, true, AVAILABLE, chain, n, Some(f.highestSeq), Some(f.ts))
  }

  /** The witness, on a chain that verified under the receipt root. */
  ghost function Witnessed(env: Env, t: Trust, es: seq<Entry>, m: BySeq, chain: Option<string>,
                           checkpoint: Option<Value>, checkpointRoot: Option<Value>): Result {
    var n := |es|;
    if checkpoint.None? then
      Unattributed(UNVERIFIED_, NO_WITNESS, INTACT, UNANSWERED_COMPLETENESS, t.lifecycle, false, NOT_PROVIDED, chain, n)
    else if checkpointRoot.None? then
      Unattributed(UNVERIFIED_, WITNESS_ROOT_NOT_PROVIDED, UNANSWERED_INTEGRITY, UNANSWERED_COMPLETENESS, t.lifecycle,
                   true, AVAILABLE, chain, n)
    else
      match ParseTrust(checkpointRoot)
      case None =>
        Unattributed(UNVERIFIED_, WITNESS_ROOT_INVALID, UNANSWERED_INTEGRITY, UNANSWERED_COMPLETENESS, t.lifecycle,
                     true, AVAILABLE, chain, n)
      case Some(w) =>
        var cp := checkpoint.value;
        if !CheckpointShape(cp) then
          Unattributed(INVALID, WITNESS_MALFORMED, BROKEN, UNANSWERED_COMPLETENESS, t.lifecycle, true, AVAILABLE, chain,
                       n)
        else
          var f := CheckpointView(cp);
          match CheckpointStatus(env, cp, Some(w.keyring))
          case CpUnverified =>
            Unattributed(UNVERIFIED_, WITNESS_KEY_NOT_TRUSTED, UNANSWERED_INTEGRITY, UNANSWERED_COMPLETENESS,
                         t.lifecycle, true, AVAILABLE, chain, n)
          case CpBad =>
            Unattributed(INVALID, WITNESS_INTEGRITY_FAILURE, BROKEN, UNANSWERED_COMPLETENESS, t.lifecycle, true,
                         AVAILABLE, chain, n)
          case CpOk =>
            match Material(env, w.keyring, f.kid)
            case None =>
              Unattributed(UNVERIFIED_, WITNESS_ROOT_INVALID, UNANSWERED_INTEGRITY, UNANSWERED_COMPLETENESS,
                           t.lifecycle, true, AVAILABLE, chain, n)
            case Some(material) =>
              match SeparationFailure(env, t.keyring, es, 0, f.kid, material)
              case Some(code) =>
                var integrity := if code == RECEIPT_ROOT_INVALID then UNANSWERED_INTEGRITY else INTACT;
                Unattributed(UNVERIFIED_, code, integrity, UNANSWERED_COMPLETENESS, t.lifecycle, true, AVAILABLE,
                             chain, n)
              case None =>
                if f.kid in w.retiredAt then
                  Unattributed(UNVERIFIED_, WITNESS_KEY_RETIRED, INTACT, UNANSWERED_COMPLETENESS, t.lifecycle, true,
                               AVAILABLE, chain, n)
                else Anchored(t, w, m, n, f, chain)
  }

  /** The chain id shown, read leniently from the first element. */
  function ShownChain(receipts: Option<Value>): Option<string> {
    if receipts.Some? && receipts.value.Arr? && receipts.value.items != [] && Has(receipts.value.items[0], "scope")
       && HasStr(Get(receipts.value.items[0], "scope"), "chain")
    then Some(Get(Get(receipts.value.items[0], "scope"), "chain").s) else None
  }

  function ShownCount(receipts: Option<Value>): nat {
    if receipts.Some? && receipts.value.Arr? then |receipts.value.items| else 0
  }

  ghost function HistoricalVerdict(env: Env, receipts: Option<Value>, receiptRoot: Option<Value>,
                                   checkpoint: Option<Value>, checkpointRoot: Option<Value>,
                                   identity: Option<Value>): Result {
    var given := checkpoint.Some?;
    var available := if given then AVAILABLE else NOT_PROVIDED;
    match ParseTrust(receiptRoot)
    case None =>
      Unattributed(INVALID, RECEIPT_ROOT_INVALID, UNANSWERED_INTEGRITY, UNANSWERED_COMPLETENESS, false, given,
                   available, None, 0)
    case Some(t) =>
      var chain, count := ShownChain(receipts), ShownCount(receipts);
      match Verdict(env, receipts, Some(t.keyring), identity, None).0
      case TAMPERED =>
        Unattributed(INVALID, RECEIPT_INTEGRITY_FAILURE, BROKEN, UNANSWERED_COMPLETENESS, t.lifecycle, given, available,
                     chain, count)
      case UNTRUSTED =>
        Unattributed(INVALID, RECEIPT_IDENTITY_UNTRUSTED, UNANSWERED_INTEGRITY, UNANSWERED_COMPLETENESS, t.lifecycle,
                     given, available, chain, count)
      case VALID =>
        ValidHasIndex(env, receipts, Some(t.keyring), identity, None);
        var es := Entries(receipts.value.items);
        Witnessed(env, t, es, Index(es, es[0].f.chain, 0, map[]).value, chain, checkpoint, checkpointRoot)
      case _ =>
        Unattributed(INVALID, RECEIPT_MALFORMED, UNANSWERED_INTEGRITY, UNANSWERED_COMPLETENESS, t.lifecycle, given,
                     available, chain, count)
  }

  /** A VALID chain has receipts, shapes and an index holding every seq. */
  lemma ValidHasIndex(env: Env, receipts: Option<Value>, keyring: Option<Value>, identity: Option<Value>,
                      checkpoint: Option<Value>)
    requires Verdict(env, receipts, keyring, identity, checkpoint).0 == VALID
    ensures receipts.Some? && receipts.value.Arr? && receipts.value.items != [] && AllShaped(receipts.value.items)
    ensures var es := Entries(receipts.value.items);
            && Acceptable(env, es, keyring, identity, checkpoint)
            && Index(es, es[0].f.chain, 0, map[]).Some?
            && Full(Index(es, es[0].f.chain, 0, map[]).value, es)
  {
    hide Verdict, AllShaped, TrustOk, EntryGood, CheckpointGood, OneTenant, OneKeyPerAgent, Linked, Indexes, Index,
         Distinct, OneChain;
    ValidMeans(env, receipts, keyring, identity, checkpoint);
    var es := Entries(receipts.value.items);
    IndexMeaning(es);
    FullIndex(Index(es, es[0].f.chain, 0, map[]).value, es);
  }
}
