/** The chain verifier as a specification: every verdict, and the warnings of an accepted run. */
module Verify {
  import opened Prelude
  import opened Utf
  import opened Json
  import opened Receipt
  import Timestamp

  /**
   * The foreign functions: SHA-256, strict base64, the key loader, and the Ed25519 check of a
   * signature over a message. Nothing is assumed about them except where a lemma says so.
   */
  datatype Env = Env(
    sha: bytes -> bytes,
    b64: string -> Option<bytes>,
    spki: string -> Option<bytes>,
    sigOk: (bytes, bytes, bytes) -> bool)

  datatype Status = VALID | UNVERIFIED | TAMPERED | MALFORMED | UNTRUSTED

  datatype Warning = TsBackwards(at: nat) | TsNotComparable(at: nat) | DuplicateId(at: nat)

  const RECEIPT_DOMAIN := "NOA-Receipt-v0.1-sig:"
  const CHECKPOINT_DOMAIN := "NOA-Checkpoint-v0.1-sig:"

  /** The recorded form of a digest. */
  function HashText(env: Env, input: bytes): string { "sha256:" + Hex(env.sha(input)) }

  /** What is signed: a tag naming the artifact kind, then the raw digest. */
  function Message(env: Env, domain: string, input: bytes): bytes { EncodeText(domain) + env.sha(input) }

  // ---- trust inputs ----------------------------------------------------------------------------

  predicate IdentityOk(identity: Value) {
    identity.Obj? && forall a | a in identity.members ::
      identity.members[a].Arr? && forall x | x in identity.members[a].items :: x.Str?
  }

  predicate TrustOk(keyring: Option<Value>, identity: Option<Value>) {
    (keyring.Some? ==> keyring.value.Obj?) && (identity.Some? ==> IdentityOk(identity.value))
  }

  /** The key text listed for a key id. */
  function KeyOf(keyring: Option<Value>, kid: string): Option<string> {
    if keyring.Some? && HasText(keyring.value, kid) then Some(Get(keyring.value, kid).s) else None
  }

  predicate SignatureOk(env: Env, key: string, domain: string, input: bytes, sig: string) {
    match (env.b64(sig), env.spki(key))
    case (Some(raw), Some(pub)) => env.sigOk(pub, Message(env, domain, input), raw)
    case _ => false
  }

  predicate Authorized(identity: Value, agent: string, kid: string) {
    Has(identity, agent) && Get(identity, agent).Arr? && Str(kid) in Get(identity, agent).items
  }

  // ---- the index by sequence number ------------------------------------------------------------

  /** A receipt with the fields the walk reads. */
  datatype Entry = Entry(r: Value, f: Facts)

  function EntryOf(r: Value): Entry
    requires ReceiptShape(r)
  {
    Entry(r, View(r))
  }

  predicate AllShaped(recs: seq<Value>) { forall i | 0 <= i < |recs| :: ReceiptShape(recs[i]) }

  function Entries(recs: seq<Value>): (es: seq<Entry>)
    requires AllShaped(recs)
    ensures |es| == |recs| && forall i | 0 <= i < |recs| :: es[i] == EntryOf(recs[i])
  {
    seq(|recs|, i requires 0 <= i < |recs| => EntryOf(recs[i]))
  }

  type BySeq = map<nat, Entry>

  function Index(es: seq<Entry>, chain: string, i: nat, acc: BySeq): Option<BySeq>
    requires i <= |es|
    decreases |es| - i
  {
    if i == |es| then Some(acc)
    else if es[i].f.chain != chain || es[i].f.seqno in acc then None
    else Index(es, chain, i + 1, acc[es[i].f.seqno := es[i]])
  }

  /** The tenant carried across absences from seq `s` on, up to a gap. */
  predicate TenantsAgree(m: BySeq, n: nat, s: nat, last: Option<string>)
    decreases n - s
  {
    if s >= n || s !in m then true
    else
      match m[s].f.tenant
      case None => TenantsAgree(m, n, s + 1, last)
      case Some(t) => (last.Some? ==> last.value == t) && TenantsAgree(m, n, s + 1, Some(t))
  }

  // ---- the walk --------------------------------------------------------------------------------

  datatype Walk = Walk(pinned: map<string, string>, seen: set<string>, warnings: seq<Warning>)

  datatype Outcome = Refuse(status: Status) | Go(walk: Walk)

  function TsWarning(prev: Entry, e: Entry, s: nat): seq<Warning> {
    match Timestamp.TsOrder(prev.f.ts, e.f.ts)
    case Backwards => [TsBackwards(s)]
    case NotComparable => [TsNotComparable(s)]
    case InOrder => []
  }

  /** The recorded hash is the hash of everything it covers. */
  ghost predicate HashOk(env: Env, e: Entry) { HashText(env, HashInput(e.r)) == e.f.hash }

  /** The listed key of the receipt's key id signed it. */
  ghost predicate Signed(env: Env, keyring: Option<Value>, e: Entry) {
    match KeyOf(keyring, e.f.kid)
    case Some(key) => SignatureOk(env, key, RECEIPT_DOMAIN, HashInput(e.r), e.f.sig)
    case None => false
  }

  /** The verdict of seq `s` alone, in the order the checks are made. */
  ghost function Refusal(env: Env, keyring: Option<Value>, identity: Option<Value>, e: Entry, prev: Option<Entry>,
                         pinned: map<string, string>): (r: Option<Status>)
    ensures r.Some? ==> r.value == TAMPERED || r.value == UNTRUSTED
  {
    if !HashOk(env, e) then Some(TAMPERED)
    else if e.f.agent in pinned && pinned[e.f.agent] != e.f.kid then Some(TAMPERED)
    else if keyring.Some? && !Signed(env, keyring, e) then Some(TAMPERED)
    else if keyring.Some? && identity.Some? && !Authorized(identity.value, e.f.agent, e.f.kid) then Some(UNTRUSTED)
    else if e.f.prevHash != (if prev.Some? then Some(prev.value.f.hash) else None) then Some(TAMPERED)
    else None
  }

  /** The previous receipt, where there is one. */
  function Before(m: BySeq, s: nat): Option<Entry> {
    if s > 0 && s - 1 in m then Some(m[s - 1]) else None
  }

  ghost function Step(env: Env, keyring: Option<Value>, identity: Option<Value>, m: BySeq, s: nat,
                      w: Walk): (r: Outcome)
    ensures r.Refuse? ==> r.status == TAMPERED || r.status == UNTRUSTED
  {
    if s !in m then Refuse(TAMPERED)
    else
      var e := m[s];
      var prev := Before(m, s);
      match Refusal(env, keyring, identity, e, prev, w.pinned)
      case Some(status) => Refuse(status)
      case None =>
        var ts := if prev.Some? then TsWarning(prev.value, e, s) else [];
        var dup := if e.f.id in w.seen then [DuplicateId(s)] else [];
        Go(Walk(w.pinned[e.f.agent := e.f.kid], w.seen + {e.f.id}, w.warnings + ts + dup))
  }

  ghost function WalkFrom(env: Env, keyring: Option<Value>, identity: Option<Value>, m: BySeq, n: nat, s: nat,
                          w: Walk): (r: Outcome)
    ensures r.Refuse? ==> r.status == TAMPERED || r.status == UNTRUSTED
    decreases n - s
  {
    if s >= n then Go(w)
    else
      match Step(env, keyring, identity, m, s, w)
      case Refuse(status) => Refuse(status)
      case Go(w') => WalkFrom(env, keyring, identity, m, n, s + 1, w')
  }

  const START := Walk(map[], {}, [])

  // ---- the checkpoint --------------------------------------------------------------------------

  datatype CpStatus = CpBad | CpUnverified | CpOk

  ghost function CheckpointStatus(env: Env, cp: Value, keyring: Option<Value>): CpStatus {
    if !CheckpointShape(cp) then CpBad
    else
      var f := CheckpointView(cp);
      match KeyOf(keyring, f.kid)
      case None => CpUnverified
      case Some(key) => if SignatureOk(env, key, CHECKPOINT_DOMAIN, CheckpointHashInput(cp), f.sig) then CpOk else CpBad
  }

  ghost function CheckpointRefusal(env: Env, keyring: Option<Value>, identity: Option<Value>, genesis: Entry,
                                   head: Entry, cp: Value): (r: Option<Status>)
    ensures r.Some? ==> r.value == TAMPERED || r.value == UNTRUSTED
  {
    var cpv := CheckpointStatus(env, cp, keyring);
    if cpv == CpBad then Some(TAMPERED)
    else
      var f := CheckpointView(cp);
      if keyring.Some? && cpv != CpOk then Some(TAMPERED)
      else if f.chain != genesis.f.chain then Some(TAMPERED)
      else if f.highestSeq != head.f.seqno then Some(TAMPERED)
      else if f.headHash != head.f.hash then Some(TAMPERED)
      else if keyring.Some? && identity.Some?
          && !Authorized(identity.value, genesis.f.agent, f.kid) then Some(UNTRUSTED)
      else None
  }

  // ---- the verdict -----------------------------------------------------------------------------

  ghost function IndexedVerdict(env: Env, m: BySeq, n: nat, keyring: Option<Value>, identity: Option<Value>,
                                checkpoint: Option<Value>): (Status, seq<Warning>) {
    if !TenantsAgree(m, n, 0, None) then (TAMPERED, [])
    else
      match WalkFrom(env, keyring, identity, m, n, 0, START)
      case Refuse(status) => (status, [])
      case Go(w) =>
        var refusal :=
          if checkpoint.Some? && 0 in m && n > 0 && n - 1 in m
          then CheckpointRefusal(env, keyring, identity, m[0], m[n - 1], checkpoint.value)
          else None;
        match refusal
        case Some(status) => (status, [])
        case None => (if keyring.Some? then VALID else UNVERIFIED, w.warnings)
  }

  ghost function ChainVerdict(env: Env, es: seq<Entry>, keyring: Option<Value>, identity: Option<Value>,
                              checkpoint: Option<Value>): (Status, seq<Warning>)
    requires es != []
  {
    match Index(es, es[0].f.chain, 0, map[])
    case None => (TAMPERED, [])
    case Some(m) => IndexedVerdict(env, m, |es|, keyring, identity, checkpoint)
  }

  ghost function Verdict(env: Env, receipts: Option<Value>, keyring: Option<Value>, identity: Option<Value>,
                         checkpoint: Option<Value>): (Status, seq<Warning>) {
    if receipts.None? || !receipts.value.Arr? || receipts.value.items == [] then (MALFORMED, [])
    else if !TrustOk(keyring, identity) then (MALFORMED, [])
    else if !AllShaped(receipts.value.items) then (MALFORMED, [])
    else ChainVerdict(env, Entries(receipts.value.items), keyring, identity, checkpoint)
  }
}
