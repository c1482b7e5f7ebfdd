/** The receipt and checkpoint shapes, and what of them is hashed. */
module Receipt {
  import opened Prelude
  import opened Json
  import opened JsonRoundTrip
  import Timestamp

  // ---- field checks ----------------------------------------------------------------------------

  predicate Has(v: Value, k: string) { v.Obj? && k in v.members }

  function Get(v: Value, k: string): Value
    requires Has(v, k)
  {
    v.members[k]
  }

  predicate HasStr(v: Value, k: string) { Has(v, k) && Get(v, k).Str? }

  /** The text a member holds, if it holds one. */
  function TextOf(v: Value, k: string): Option<string> {
    if HasStr(v, k) then Some(Get(v, k).s) else None
  }

  predicate HasText(v: Value, k: string) { HasStr(v, k) && Get(v, k).s != "" }

  predicate HasBool(v: Value, k: string) { Has(v, k) && Get(v, k).Bool? }

  predicate HasOneOf(v: Value, k: string, options: set<string>) { HasStr(v, k) && Get(v, k).s in options }

  /** An optional field that, when present, is a string or null. */
  predicate MayStr(v: Value, k: string) { Has(v, k) ==> Get(v, k).Str? || Get(v, k).Null? }

  /** No unknown field and every required one. */
  predicate ExactKeys(v: Value, required: set<string>, optional: set<string>) {
    v.Obj? && required <= v.members.Keys <= required + optional
  }

  predicate IsHash(s: string) {
    |s| == 71 && s[..7] == "sha256:" && forall i | 7 <= i < 71 :: LowerHex(s[i])
  }

  predicate IsParamsHash(s: string) {
    IsHash(s) || (|s| == 76 && s[..12] == "hmac-sha256:" && forall i | 12 <= i < 76 :: LowerHex(s[i]))
  }

  predicate HasHash(v: Value, k: string) { HasStr(v, k) && IsHash(Get(v, k).s) }

  predicate HasInstant(v: Value, k: string) { HasStr(v, k) && Timestamp.IsInstant(Get(v, k).s) }

  predicate HasSeq(v: Value, k: string) { Has(v, k) && Get(v, k).Int? && 0 <= Get(v, k).n <= MAX_SAFE }

  // ---- the receipt -----------------------------------------------------------------------------

  predicate ScopeOk(v: Value) {
    ExactKeys(v, {"chain"}, {"tenant"}) && HasText(v, "chain") && (Has(v, "tenant") ==> HasStr(v, "tenant"))
  }

  predicate AgentOk(v: Value) {
    && ExactKeys(v, {"id", "principal"}, {"model"})
    && HasText(v, "id")
    && HasOneOf(v, "principal", {"HUMAN", "SERVICE", "POLICY", "SANDBOX_SIM"})
    && MayStr(v, "model")
  }

  predicate ActionOk(v: Value) {
    && ExactKeys(v, {"id", "canonical", "riskClass", "paramsHash", "reversible"}, {"rollbackRef"})
    && HasText(v, "id") && HasText(v, "canonical")
    && HasOneOf(v, "riskClass", {"LOW", "MEDIUM", "HIGH", "CRITICAL", "IRREVERSIBLE"})
    && HasStr(v, "paramsHash") && IsParamsHash(Get(v, "paramsHash").s)
    && HasBool(v, "reversible")
    && MayStr(v, "rollbackRef")
  }

  predicate ApprovalOk(v: Value) {
    v.Null? || (ExactKeys(v, {"by", "at"}, {}) && HasStr(v, "by") && HasInstant(v, "at"))
  }

  predicate ComplianceOk(v: Value) {
    || v.Null?
    || (&& ExactKeys(v, {"policyHash", "readSetHash", "inputsHash"}, {"verdict"})
        && HasHash(v, "policyHash") && HasHash(v, "readSetHash") && HasHash(v, "inputsHash")
        && (Has(v, "verdict") ==> HasOneOf(v, "verdict", {"ALLOW", "DENY"})))
  }

  predicate GovernanceOk(v: Value) {
    && ExactKeys(v, {"mode", "verdict", "sandboxed"}, {"ruleId", "approval", "compliance"})
    && HasOneOf(v, "mode", {"off", "shadow", "approvals_on", "on"})
    && HasOneOf(v, "verdict", {"ALLOWED", "BLOCKED", "DEFERRED", "EXECUTED", "FAILED", "ROLLED_BACK", "SIMULATED"})
    && HasBool(v, "sandboxed")
    && MayStr(v, "ruleId")
    && (Has(v, "approval") ==> ApprovalOk(Get(v, "approval")))
    && (Has(v, "compliance") ==> ComplianceOk(Get(v, "compliance")))
  }

  /** The four cross-field rules: a receipt may not contradict itself. */
  predicate Coherent(agent: Value, action: Value, gov: Value)
    requires AgentOk(agent) && ActionOk(action) && GovernanceOk(gov)
  {
    var sandboxed := Get(gov, "sandboxed").b;
    var reversible := Get(action, "reversible").b;
    && (Get(agent, "principal").s == "SANDBOX_SIM" ==> sandboxed)
    && (Get(gov, "verdict").s == "SIMULATED" ==> sandboxed)
    && (!reversible ==> !Has(action, "rollbackRef") || Get(action, "rollbackRef").Null?)
    && (Get(gov, "verdict").s == "ROLLED_BACK" ==> reversible)
  }

  predicate ChainOk(v: Value) {
    && ExactKeys(v, {"seq", "prevHash", "hash"}, {})
    && HasSeq(v, "seq")
    && (Get(v, "prevHash").Null? || HasHash(v, "prevHash"))
    && HasHash(v, "hash")
  }

  predicate SigOk(v: Value) {
    && ExactKeys(v, {"alg", "kid", "value"}, {})
    && HasOneOf(v, "alg", {"ed25519"}) && HasText(v, "kid") && HasText(v, "value")
  }

  const RECEIPT_KEYS: set<string> := {"spec", "id", "ts", "scope", "agent", "action", "governance", "chain", "sig"}

  /** The strict structural validator. */
  predicate ReceiptShape(r: Value) {
    && ExactKeys(r, RECEIPT_KEYS, {})
    && HasOneOf(r, "spec", {"noa.receipt/0.1"})
    && HasText(r, "id") && |Get(r, "id").s| <= 128
    && HasInstant(r, "ts")
    && ScopeOk(Get(r, "scope"))
    && AgentOk(Get(r, "agent")) && ActionOk(Get(r, "action")) && GovernanceOk(Get(r, "governance"))
    && Coherent(Get(r, "agent"), Get(r, "action"), Get(r, "governance"))
    && ChainOk(Get(r, "chain"))
    && SigOk(Get(r, "sig"))
  }

  /** The fields of a well-shaped receipt that the chain walk reads. */
  datatype Facts = Facts(
    id: string, ts: string, chain: string, tenant: Option<string>, agent: string,
    seqno: nat, prevHash: Option<string>, hash: string, kid: string, sig: string)

  function View(r: Value): Facts
    requires ReceiptShape(r)
  {
    var scope, chain, sig := Get(r, "scope"), Get(r, "chain"), Get(r, "sig");
    Facts(
      Get(r, "id").s, Get(r, "ts").s, Get(scope, "chain").s,
      if Has(scope, "tenant") then Some(Get(scope, "tenant").s) else None,
      Get(Get(r, "agent"), "id").s,
      Get(chain, "seq").n,
      if Get(chain, "prevHash").Str? then Some(Get(chain, "prevHash").s) else None,
      Get(chain, "hash").s, Get(sig, "kid").s, Get(sig, "value").s)
  }

  // ---- the checkpoint --------------------------------------------------------------------------

  predicate CheckpointShape(cp: Value) {
    && ExactKeys(cp, {"spec", "chain", "highestSeq", "headHash", "ts", "sig"}, {})
    && HasOneOf(cp, "spec", {"noa.checkpoint/0.1"})
    && HasText(cp, "chain") && HasSeq(cp, "highestSeq") && HasHash(cp, "headHash") && HasInstant(cp, "ts")
    && SigOk(Get(cp, "sig"))
  }

  datatype CheckpointFacts = CheckpointFacts(
    chain: string, highestSeq: nat, headHash: string, ts: string, kid: string, sig: string)

  function CheckpointView(cp: Value): CheckpointFacts
    requires CheckpointShape(cp)
  {
    var sig := Get(cp, "sig");
    CheckpointFacts(Get(cp, "chain").s, Get(cp, "highestSeq").n, Get(cp, "headHash").s, Get(cp, "ts").s,
                    Get(sig, "kid").s, Get(sig, "value").s)
  }

  // ---- what is hashed --------------------------------------------------------------------------

  /** An object without one of its fields; anything else is left alone. */
  function Without(v: Value, k: string): Value {
    if v.Obj? then Obj(v.members - {k}) else v
  }

  /** A document with field `k` replaced by that field without `sub`. */
  function Cut(v: Value, k: string, sub: string): Value {
    if Has(v, k) then Obj(v.members[k := Without(v.members[k], sub)]) else v
  }

  /** A receipt without chain.hash and without sig.value: exactly what its hash covers. */
  function Strip(r: Value): Value { Cut(Cut(r, "chain", "hash"), "sig", "value") }

  /** A receipt without sig.value only. */
  function Unsigned(r: Value): Value { Cut(r, "sig", "value") }

  ghost function HashInput(r: Value): bytes { Print(Strip(r)) }

  ghost function CheckpointHashInput(cp: Value): bytes { Print(Cut(cp, "sig", "value")) }

  // ---- the hash covers everything but the two values that depend on it ------------------------

  /** A value with nothing inside it, and inside the integer bounds. */
  predicate Scalar(v: Value) {
    !v.Arr? && !v.Obj? && (v.Int? ==> -MAX_SAFE <= v.n <= MAX_SAFE)
  }

  /** Room for `n` more levels, under either depth rule, at `depth`. */
  predicate Room(lim: Limits, depth: nat, n: nat) { depth + n <= lim.maxDepth }

  /** An object of scalars under permitted names. */
  predicate Flat(v: Value) {
    v.Obj? && forall k | k in v.members :: k !in FORBIDDEN && Scalar(v.members[k])
  }

  lemma FlatWellFormed(v: Value, lim: Limits, depth: nat)
    requires Room(lim, depth, 1)
    requires Scalar(v) || Flat(v)
    ensures WellFormed(v, lim, depth)
  {
  }

  lemma NestedWellFormed(v: Value, lim: Limits, depth: nat)
    requires Room(lim, depth, 1) && v.Obj?
    requires forall k | k in v.members :: k !in FORBIDDEN && WellFormed(v.members[k], lim, depth + 1)
    ensures WellFormed(v, lim, depth)
  {
  }

  lemma PartsFlat(v: Value)
    ensures ScopeOk(v) || AgentOk(v) || ActionOk(v) || ChainOk(v) || SigOk(v) ==> Flat(v)
  {
    hide IsHash, IsParamsHash;
  }

  lemma SigFlat(v: Value, k: string)
    requires Flat(v)
    ensures Flat(Without(v, k))
  {
  }

  lemma GovernanceWellFormed(v: Value, lim: Limits, depth: nat)
    requires GovernanceOk(v) && Room(lim, depth, 2)
    ensures WellFormed(v, lim, depth)
  {
    hide WellFormed, IsHash;
    forall k | k in v.members ensures k !in FORBIDDEN && WellFormed(v.members[k], lim, depth + 1) {
      FlatWellFormed(v.members[k], lim, depth + 1);
    }
    NestedWellFormed(v, lim, depth);
  }

  lemma PartWellFormed(r: Value, k: string, lim: Limits)
    requires ReceiptShape(r) && Room(lim, 0, 3) && k in r.members
    ensures k !in FORBIDDEN && WellFormed(r.members[k], lim, 1)
    ensures k == "chain" || k == "sig" ==> Flat(r.members[k])
  {
    hide WellFormed, GovernanceOk, ScopeOk, AgentOk, ActionOk, ChainOk, SigOk, Coherent, Flat;
    if k == "governance" {
      GovernanceWellFormed(r.members[k], lim, 1);
    } else {
      PartsFlat(r.members[k]);
      FlatWellFormed(r.members[k], lim, 1);
    }
  }

  /** Cutting one field of a flat part keeps a document within the bounds. */
  lemma CutWellFormed(v: Value, k: string, sub: string, lim: Limits)
    requires v.Obj? && Room(lim, 0, 3)
    requires forall j | j in v.members :: j !in FORBIDDEN && WellFormed(v.members[j], lim, 1)
    requires Has(v, k) && Flat(Get(v, k))
    ensures WellFormed(Cut(v, k, sub), lim, 0)
    ensures var t := Cut(v, k, sub);
            t.Obj? && forall j | j in t.members :: j !in FORBIDDEN && WellFormed(t.members[j], lim, 1)
  {
    hide WellFormed, Flat;
    SigFlat(Get(v, k), sub);
    FlatWellFormed(Without(Get(v, k), sub), lim, 1);
    NestedWellFormed(Cut(v, k, sub), lim, 0);
  }

  /** A well-shaped receipt is within every parser bound, before and after stripping. */
  lemma ReceiptWellFormed(r: Value, lim: Limits)
    requires ReceiptShape(r) && Room(lim, 0, 3)
    ensures WellFormed(r, lim, 0) && WellFormed(Strip(r), lim, 0)
  {
    hide WellFormed, GovernanceOk, ScopeOk, AgentOk, ActionOk, ChainOk, SigOk, Coherent, Flat;
    forall k | k in r.members ensures k !in FORBIDDEN && WellFormed(r.members[k], lim, 1) {
      PartWellFormed(r, k, lim);
    }
    NestedWellFormed(r, lim, 0);
    PartWellFormed(r, "chain", lim);
    PartWellFormed(r, "sig", lim);
    CutWellFormed(r, "chain", "hash", lim);
    CutWellFormed(Cut(r, "chain", "hash"), "sig", "value", lim);
  }

  lemma CheckpointWellFormed(cp: Value, lim: Limits)
    requires CheckpointShape(cp) && Room(lim, 0, 3)
    ensures WellFormed(cp, lim, 0) && WellFormed(Cut(cp, "sig", "value"), lim, 0)
  {
    hide WellFormed, IsHash, SigOk, Flat;
    PartsFlat(Get(cp, "sig"));
    forall k | k in cp.members ensures k !in FORBIDDEN && WellFormed(cp.members[k], lim, 1) {
      FlatWellFormed(cp.members[k], lim, 1);
    }
    NestedWellFormed(cp, lim, 0);
    CutWellFormed(cp, "sig", "value", lim);
  }

  /**
   * Two well-shaped receipts with the same hash input and the same recorded hash are the same
   * receipt up to the signature value.
   */
  lemma HashInputDetermines(a: Value, b: Value)
    requires ReceiptShape(a) && ReceiptShape(b)
    requires HashInput(a) == HashInput(b) && View(a).hash == View(b).hash
    ensures Unsigned(a) == Unsigned(b)
  {
    hide Print, ReceiptShape, WellFormed, Strip, Unsigned;
    ReceiptWellFormed(a, GO_LIMITS);
    ReceiptWellFormed(b, GO_LIMITS);
    PrintInjective(Strip(a), Strip(b), GO_LIMITS);
    StripDetermines(a, b);
  }

  /**
   * Two well-shaped checkpoints with the same hash input are the same checkpoint up to the signature value,
   * and say the same thing.
   */
  lemma CheckpointInputDetermines(a: Value, b: Value)
    requires CheckpointShape(a) && CheckpointShape(b) && CheckpointHashInput(a) == CheckpointHashInput(b)
    ensures Unsigned(a) == Unsigned(b)
    ensures CheckpointView(a).(sig := "") == CheckpointView(b).(sig := "")
    ensures CheckpointView(a).sig == CheckpointView(b).sig ==> a == b
  {
    hide Print, CheckpointShape, WellFormed, Cut, CheckpointView;
    CheckpointWellFormed(a, GO_LIMITS);
    CheckpointWellFormed(b, GO_LIMITS);
    PrintInjective(Cut(a, "sig", "value"), Cut(b, "sig", "value"), GO_LIMITS);
    UnsignedCheckpoint(a, b);
  }

  lemma UnsignedCheckpoint(a: Value, b: Value)
    requires CheckpointShape(a) && CheckpointShape(b) && Unsigned(a) == Unsigned(b)
    ensures CheckpointView(a).(sig := "") == CheckpointView(b).(sig := "")
    ensures CheckpointView(a).sig == CheckpointView(b).sig ==> a == b
  {
    hide IsHash, HasInstant, HasOneOf;
    var ua, ub := Unsigned(a).members, Unsigned(b).members;
    assert forall k | k in a.members && k != "sig" :: ua[k] == a.members[k];
    assert forall k | k in b.members && k != "sig" :: ub[k] == b.members[k];
    var sa, sb := Without(Get(a, "sig"), "value"), Without(Get(b, "sig"), "value");
    assert sa == ua["sig"] == ub["sig"] == sb;
    assert Get(Get(a, "sig"), "kid") == sa.members["kid"] == sb.members["kid"] == Get(Get(b, "sig"), "kid");
    if CheckpointView(a).sig == CheckpointView(b).sig {
      WithoutDetermines(Get(a, "sig"), Get(b, "sig"), "value");
      assert a.members == b.members;
    }
  }

  lemma StripDetermines(a: Value, b: Value)
    requires ReceiptShape(a) && ReceiptShape(b)
    requires Strip(a) == Strip(b) && View(a).hash == View(b).hash
    ensures Unsigned(a) == Unsigned(b)
  {
    hide IsHash, HasInstant, GovernanceOk, ActionOk, AgentOk, ScopeOk, SigOk, Coherent;
    var sa, sb := Strip(a).members, Strip(b).members;
    assert sa["chain"] == Without(Get(a, "chain"), "hash") && sb["chain"] == Without(Get(b, "chain"), "hash");
    WithoutDetermines(Get(a, "chain"), Get(b, "chain"), "hash");
    var ua, ub := Unsigned(a).members, Unsigned(b).members;
    forall k | k in ua ensures k in ub && ua[k] == ub[k] {
      assert k in sa && k in sb;
      if k != "chain" { assert ua[k] == sa[k] && ub[k] == sb[k]; }
    }
    assert ua == ub;
  }

  lemma WithoutDetermines(a: Value, b: Value, k: string)
    requires Has(a, k) && Has(b, k) && Get(a, k) == Get(b, k)
    requires Without(a, k) == Without(b, k)
    ensures a == b
  {
    var ma, mb := a.members - {k}, b.members - {k};
    assert ma == mb;
    forall j ensures j in a.members <==> j in b.members {
      assert j != k ==> (j in a.members <==> j in ma) && (j in b.members <==> j in mb);
    }
    forall j | j in a.members ensures a.members[j] == b.members[j] {
      assert j != k ==> a.members[j] == ma[j] && b.members[j] == mb[j];
    }
    assert a.members == b.members;
  }

  /** Filling in chain.hash and sig.value does not change what is hashed. */
  lemma FillingKeepsHashInput(r: Value, hash: string, sig: string)
    requires Has(r, "chain") && Get(r, "chain").Obj? && Has(r, "sig") && Get(r, "sig").Obj?
    ensures Strip(Put(Put(r, "chain", "hash", Str(hash)), "sig", "value", Str(sig))) == Strip(r)
  {
    var c, s := Get(r, "chain").members, Get(r, "sig").members;
    assert c["hash" := Str(hash)] - {"hash"} == c - {"hash"};
    assert s["value" := Str(sig)] - {"value"} == s - {"value"};
  }

  /** A document with field `sub` of its field `k` set. */
  function Put(v: Value, k: string, sub: string, x: Value): Value {
    if Has(v, k) && v.members[k].Obj? then Obj(v.members[k := Obj(v.members[k].members[sub := x])]) else v
  }
}
