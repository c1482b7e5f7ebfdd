/** The chain verifier as it runs: loops over maps and flags, proved against the specification. */
module ChainMachine {
  import opened Prelude
  import opened Json
  import opened JsonMachine
  import opened StrictBytes
  import opened Receipt
  import opened Verify
  import opened BytesEntry

  method ReceiptHashInput(r: Value) returns (b: bytes)
    ensures b == HashInput(r)
  {
    var copy := r;
    if Has(copy, "chain") && copy.members["chain"].Obj? {
      copy := Obj(copy.members["chain" := Obj(copy.members["chain"].members - {"hash"})]);
    }
    if Has(copy, "sig") && copy.members["sig"].Obj? {
      copy := Obj(copy.members["sig" := Obj(copy.members["sig"].members - {"value"})]);
    }
    CutScalar(r, "chain", "hash");
    CutScalar(Cut(r, "chain", "hash"), "sig", "value");
    b := Jcs(copy);
  }

  lemma CutScalar(v: Value, k: string, sub: string)
    ensures Has(v, k) && !v.members[k].Obj? ==> Cut(v, k, sub) == v
  {
    if Has(v, k) && !v.members[k].Obj? {
      assert v.members[k := v.members[k]] == v.members;
    }
  }

  method CheckpointInput(cp: Value) returns (b: bytes)
    ensures b == CheckpointHashInput(cp)
  {
    var copy := cp;
    if Has(copy, "sig") && copy.members["sig"].Obj? {
      copy := Obj(copy.members["sig" := Obj(copy.members["sig"].members - {"value"})]);
    }
    CutScalar(cp, "sig", "value");
    b := Jcs(copy);
  }

  method CheckSignature(env: Env, key: string, domain: string, input: bytes, sig: string) returns (ok: bool)
    ensures ok == SignatureOk(env, key, domain, input, sig)
  {
    hide Message;
    var raw := env.b64(sig);
    if raw.None? { return false; }
    var pub := env.spki(key);
    if pub.None? { return false; }
    return env.sigOk(pub.value, Message(env, domain, input), raw.value);
  }

  method VerifyCheckpoint(env: Env, cp: Value, keyring: Option<Value>) returns (r: CpStatus)
    ensures r == CheckpointStatus(env, cp, keyring)
  {
    hide CheckpointHashInput, CheckpointShape, KeyOf, SignatureOk;
    if !CheckpointShape(cp) { return CpBad; }
    var f := CheckpointView(cp);
    var key := KeyOf(keyring, f.kid);
    if key.None? { return CpUnverified; }
    var input := CheckpointInput(cp);
    var ok := CheckSignature(env, key.value, CHECKPOINT_DOMAIN, input, f.sig);
    return if ok then CpOk else CpBad;
  }

  /** Every element through the structural validator, before any hashing. */
  method CheckShapes(recs: seq<Value>) returns (r: Option<seq<Entry>>)
    ensures r.Some? <==> AllShaped(recs)
    ensures r.Some? ==> r.value == Entries(recs)
  {
    hide ReceiptShape, View;
    var es: seq<Entry> := [];
    var i := 0;
    while i < |recs|
      invariant 0 <= i <= |recs| && |es| == i
      invariant forall j | 0 <= j < i :: ReceiptShape(recs[j]) && es[j] == EntryOf(recs[j])
    {
      if !ReceiptShape(recs[i]) { return None; }
      es := es + [EntryOf(recs[i])];
      i := i + 1;
    }
    assert es == Entries(recs);
    return Some(es);
  }

  /** One chain partition and no repeated sequence number. */
  method BuildIndex(es: seq<Entry>) returns (r: Option<BySeq>)
    requires es != []
    ensures r == Index(es, es[0].f.chain, 0, map[])
  {
    var chain := es[0].f.chain;
    var m: BySeq := map[];
    var i := 0;
    while i < |es|
      invariant 0 <= i <= |es|
      invariant Index(es, chain, 0, map[]) == Index(es, chain, i, m)
    {
      if es[i].f.chain != chain { return None; }
      if es[i].f.seqno in m { return None; }
      m := m[es[i].f.seqno := es[i]];
      i := i + 1;
    }
    return Some(m);
  }

  /** The last present tenant carried across absences, stopping at a gap. */
  method CheckTenants(m: BySeq, n: nat) returns (ok: bool)
    ensures ok == TenantsAgree(m, n, 0, None)
  {
    var lastPresent, have := "", false;
    var s := 0;
    while s < n
      invariant 0 <= s <= n
      invariant TenantsAgree(m, n, 0, None) == TenantsAgree(m, n, s, if have then Some(lastPresent) else None)
    {
      if s !in m { return true; }
      var t := m[s].f.tenant;
      if t.Some? {
        if have && t.value != lastPresent { return false; }
        lastPresent := t.value;
        have := true;
      }
      s := s + 1;
    }
    return true;
  }

  /** The checks on one receipt, in order; none when all pass. */
  method CheckReceipt(env: Env, keyring: Option<Value>, identity: Option<Value>, e: Entry, prev: Option<Entry>,
                      pinned: map<string, string>)
    returns (r: Option<Status>)
    ensures r == Refusal(env, keyring, identity, e, prev, pinned)
  {
    hide HashInput, HashText, KeyOf, Authorized, SignatureOk;
    var input := ReceiptHashInput(e.r);
    if HashText(env, input) != e.f.hash { return Some(TAMPERED); }
    if e.f.agent in pinned && pinned[e.f.agent] != e.f.kid { return Some(TAMPERED); }
    if keyring.Some? {
      var key := KeyOf(keyring, e.f.kid);
      if key.None? { return Some(TAMPERED); }
      var ok := CheckSignature(env, key.value, RECEIPT_DOMAIN, input, e.f.sig);
      if !ok { return Some(TAMPERED); }
      if identity.Some? && !Authorized(identity.value, e.f.agent, e.f.kid) { return Some(UNTRUSTED); }
    }
    if prev.None? {
      if e.f.prevHash.Some? { return Some(TAMPERED); }
    } else if e.f.prevHash != Some(prev.value.f.hash) {
      return Some(TAMPERED);
    }
    return None;
  }

  /** The seq-order walk with its pins, its seen ids and its warnings. */
  method WalkChain(env: Env, keyring: Option<Value>, identity: Option<Value>, m: BySeq, n: nat) returns (r: Outcome)
    ensures r == WalkFrom(env, keyring, identity, m, n, 0, START)
  {
    hide Refusal, TsWarning;
    var pinned: map<string, string> := map[];
    var seenIds: set<string> := {};
    var warnings: seq<Warning> := [];
    var prev: Option<Entry> := None;
    var s := 0;
    while s < n
      invariant 0 <= s <= n
      invariant prev == Before(m, s)
      invariant WalkFrom(env, keyring, identity, m, n, 0, START)
              == WalkFrom(env, keyring, identity, m, n, s, Walk(pinned, seenIds, warnings))
    {
      if s !in m { return Refuse(TAMPERED); }
      var e := m[s];
      var refusal := CheckReceipt(env, keyring, identity, e, prev, pinned);
      if refusal.Some? { return Refuse(refusal.value); }
      pinned := pinned[e.f.agent := e.f.kid];
      ghost var was := warnings;
      if prev.Some? {
        warnings := warnings + TsWarning(prev.value, e, s);
      }
      ghost var ts := if prev.Some? then TsWarning(prev.value, e, s) else [];
      ghost var dup := if e.f.id in seenIds then [DuplicateId(s)] else [];
      assert warnings == was + ts;
      if e.f.id in seenIds {
        warnings := warnings + [DuplicateId(s)];
        assert seenIds == seenIds + {e.f.id};
      } else {
        seenIds := seenIds + {e.f.id};
      }
      assert warnings == was + ts + dup;
      prev := Some(e);
      s := s + 1;
    }
    return Go(Walk(pinned, seenIds, warnings));
  }

  method CheckCheckpoint(env: Env, keyring: Option<Value>, identity: Option<Value>, genesis: Entry, head: Entry,
                         cp: Value)
    returns (r: Option<Status>)
    ensures r == CheckpointRefusal(env, keyring, identity, genesis, head, cp)
  {
    hide CheckpointStatus, CheckpointShape, Authorized;
    var cpv := VerifyCheckpoint(env, cp, keyring);
    if cpv == CpBad { return Some(TAMPERED); }
    assert CheckpointShape(cp) by { NotBadIsShaped(env, cp, keyring); }
    var f := CheckpointView(cp);
    if keyring.Some? && cpv != CpOk { return Some(TAMPERED); }
    if f.chain != genesis.f.chain { return Some(TAMPERED); }
    if f.highestSeq != head.f.seqno { return Some(TAMPERED); }
    if f.headHash != head.f.hash { return Some(TAMPERED); }
    if keyring.Some? && identity.Some?
        && !Authorized(identity.value, genesis.f.agent, f.kid) { return Some(UNTRUSTED); }
    return None;
  }

  lemma NotBadIsShaped(env: Env, cp: Value, keyring: Option<Value>)
    requires CheckpointStatus(env, cp, keyring) != CpBad
    ensures CheckpointShape(cp)
  {
  }

  /** The whole verifier. Only an accepting run reports warnings. */
  method VerifyChain(env: Env, receipts: Option<Value>, keyring: Option<Value>, identity: Option<Value>,
                     checkpoint: Option<Value>)
    returns (status: Status, warnings: seq<Warning>)
    ensures (status, warnings) == Verdict(env, receipts, keyring, identity, checkpoint)
  {
    hide TrustOk, AllShaped, Index, TenantsAgree, WalkFrom, CheckpointRefusal;
    if receipts.None? || !receipts.value.Arr? || receipts.value.items == [] { return MALFORMED, []; }
    if !TrustOk(keyring, identity) { return MALFORMED, []; }
    var recs := receipts.value.items;
    var shaped := CheckShapes(recs);
    if shaped.None? { return MALFORMED, []; }
    var es := shaped.value;
    var index := BuildIndex(es);
    if index.None? { return TAMPERED, []; }
    var m := index.value;
    var n := |recs|;
    var sameTenant := CheckTenants(m, n);
    if !sameTenant { return TAMPERED, []; }
    var walked := WalkChain(env, keyring, identity, m, n);
    if walked.Refuse? { return walked.status, []; }
    if checkpoint.Some? && 0 in m && n > 0 && n - 1 in m {
      var refusal := CheckCheckpoint(env, keyring, identity, m[0], m[n - 1], checkpoint.value);
      if refusal.Some? { return refusal.value, []; }
    }
    return if keyring.Some? then VALID else UNVERIFIED, walked.walk.warnings;
  }

  /** The byte entry: the gate, then the unchanged verifier on the admitted tree. */
  method VerifyChainBytes(env: Env, data: bytes, keyring: Option<Value>, identity: Option<Value>,
                          checkpoint: Option<Value>, profile: string)
    returns (status: Status, warnings: seq<Warning>)
    ensures (status, warnings) == BytesVerdict(env, data, keyring, identity, checkpoint, profile)
  {
    hide Admits, Verdict;
    var v := AdmitChainBytes(data, profile);
    if v.None? { return MALFORMED, []; }
    status, warnings := VerifyChain(env, v, keyring, identity, checkpoint);
  }
}
