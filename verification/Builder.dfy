/** The receipt and checkpoint builders, and why what they build verifies. */
module Builder {
  import opened Prelude
  import opened Json
  import opened Receipt
  import opened Verify
  import opened ChainMeaning
  import opened ChainMachine

  datatype BuildInput = BuildInput(id: string, ts: string, scope: Value, agent: Value, action: Value, governance: Value)

  datatype Signer = Signer(kid: string, secret: string)

  /** The verifier's foreign functions plus the producer's: signing, and the Unicode NFC test. */
  datatype Producer = Producer(env: Env, sign: (string, bytes) -> Option<string>, nfc: Value -> bool)

  function Cloned(inp: BuildInput): Value {
    Obj(map["id" := Str(inp.id), "ts" := Str(inp.ts), "scope" := inp.scope, "agent" := inp.agent,
            "action" := inp.action, "governance" := inp.governance])
  }

  /** Where a receipt goes: its seq and the hash it links to, as read from whatever was passed as the one before. */
  datatype Position = Position(number: Value, prevHash: Value)

  /** The values a condition counts as absent. */
  predicate Falsy(v: Value) { v == Null || v == Bool(false) || v == Int(0) || v == Str("") }

  /** One more than a value, where adding gives a number; text and containers turn into text, which is refused later. */
  function Increment(v: Value): Option<Value> {
    match v
    case Int(n) => Some(Int(n + 1))
    case Null => Some(Int(1))
    case Bool(b) => Some(Int(if b then 2 else 1))
    case _ => None
  }

  /** The position after any value at all; none where reading it throws or leaves a field undefined. */
  function PositionAfter(prev: Option<Value>): Option<Position> {
    if prev.None? || Falsy(prev.value) then Some(Position(Int(0), Null))
    else if !Has(prev.value, "chain") then None
    else
      var chain := Get(prev.value, "chain");
      if !Has(chain, "seq") || !Has(chain, "hash") then None
      else
        var number :- Increment(Get(chain, "seq"));
        Some(Position(number, Get(chain, "hash")))
  }

  /** After a well-shaped receipt: the next seq, linked to its hash. */
  lemma PositionAfterReceipt(prev: Value)
    requires ReceiptShape(prev)
    ensures PositionAfter(Some(prev)) == Some(Position(Int(View(prev).seqno + 1), Str(View(prev).hash)))
  {
    hide GovernanceOk, ActionOk, AgentOk, ScopeOk, SigOk, Coherent, IsHash, HasInstant, HasOneOf;
  }

  /** The receipt before its hash and signature are filled in. */
  function Draft(inp: BuildInput, at: Position, kid: string): Value {
    Obj(map[
      "spec" := Str("noa.receipt/0.1"), "id" := Str(inp.id), "ts" := Str(inp.ts),
      "scope" := inp.scope, "agent" := inp.agent, "action" := inp.action, "governance" := inp.governance,
      "chain" := Obj(map["seq" := at.number, "prevHash" := at.prevHash, "hash" := Str("")]),
      "sig" := Obj(map["alg" := Str("ed25519"), "kid" := Str(kid), "value" := Str("")])])
  }

  /** A draft with its two late fields. */
  function Filled(draft: Value, hash: string, sig: string): Value {
    Put(Put(draft, "chain", "hash", Str(hash)), "sig", "value", Str(sig))
  }

  ghost function Built(p: Producer, inp: BuildInput, prev: Option<Value>, signer: Signer): Option<Value> {
    if !p.nfc(Cloned(inp)) || !p.nfc(Str(signer.kid)) then None
    else
      var at :- PositionAfter(prev);
      var draft := Draft(inp, at, signer.kid);
      var input := HashInput(draft);
      var sig :- p.sign(signer.secret, Message(p.env, RECEIPT_DOMAIN, input));
      var r := Filled(draft, HashText(p.env, input), sig);
      if ReceiptShape(r) then Some(r) else None
  }

  /** Builds the next receipt: draft, hash, sign, and refuse whatever the verifier would call malformed. */
  method BuildReceipt(p: Producer, inp: BuildInput, prev: Option<Value>, signer: Signer) returns (r: Option<Value>)
    ensures r == Built(p, inp, prev, signer)
  {
    hide ReceiptShape, HashInput, Draft, PositionAfter;
    if !p.nfc(Cloned(inp)) || !p.nfc(Str(signer.kid)) { return None; }
    var at := PositionAfter(prev);
    if at.None? { return None; }
    var draft := Draft(inp, at.value, signer.kid);
    var input := ReceiptHashInput(draft);
    ghost var empty := draft;
    draft := Put(draft, "chain", "hash", Str(HashText(p.env, input)));
    var sig := p.sign(signer.secret, Message(p.env, RECEIPT_DOMAIN, input));
    if sig.None? { return None; }
    draft := Put(draft, "sig", "value", Str(sig.value));
    assert draft == Filled(empty, HashText(p.env, input), sig.value);
    if !ReceiptShape(draft) { return None; }
    return Some(draft);
  }

  /** A filled draft: its parts, before anything is read from them. */
  lemma FilledParts(inp: BuildInput, at: Position, kid: string, hash: string, sig: string)
    ensures var d := Draft(inp, at, kid); var r := Filled(d, hash, sig);
            && Has(r, "scope") && Get(r, "scope") == inp.scope && Has(r, "agent") && Get(r, "agent") == inp.agent
            && Has(r, "chain") && Get(r, "chain") == Obj(Get(d, "chain").members["hash" := Str(hash)])
            && Has(r, "sig") && Get(r, "sig") == Obj(Get(d, "sig").members["value" := Str(sig)])
  {
  }

  lemma FilledView(inp: BuildInput, at: Position, kid: string, hash: string, sig: string)
    requires ReceiptShape(Filled(Draft(inp, at, kid), hash, sig))
    ensures var f := View(Filled(Draft(inp, at, kid), hash, sig));
            && at == Position(Int(f.seqno), if f.prevHash.Some? then Str(f.prevHash.value) else Null)
            && f.hash == hash && f.kid == kid && f.sig == sig
            && TextOf(inp.scope, "chain") == Some(f.chain) && TextOf(inp.scope, "tenant") == f.tenant
            && TextOf(inp.agent, "id") == Some(f.agent)
  {
    hide IsHash, HasInstant, HasOneOf, MayStr, GovernanceOk, ActionOk, Coherent, Filled;
    FilledParts(inp, at, kid, hash, sig);
  }

  lemma DraftParts(inp: BuildInput, at: Position, kid: string)
    ensures var d := Draft(inp, at, kid);
            Has(d, "chain") && Get(d, "chain").Obj? && Has(d, "sig") && Get(d, "sig").Obj?
  {
  }

  /** A built receipt carries its position, its link, its inputs and a hash that covers it. */
  lemma BuiltMeans(p: Producer, inp: BuildInput, prev: Option<Value>, signer: Signer)
    requires Built(p, inp, prev, signer).Some?
    ensures var r := Built(p, inp, prev, signer).value;
            && ReceiptShape(r)
            && var f := View(r);
            && PositionAfter(prev)
                == Some(Position(Int(f.seqno), if f.prevHash.Some? then Str(f.prevHash.value) else Null))
            && f.kid == signer.kid
            && TextOf(inp.scope, "chain") == Some(f.chain) && TextOf(inp.scope, "tenant") == f.tenant
            && TextOf(inp.agent, "id") == Some(f.agent)
            && HashOk(p.env, EntryOf(r))
            && p.sign(signer.secret, Message(p.env, RECEIPT_DOMAIN, HashInput(r))) == Some(f.sig)
  {
    hide ReceiptShape, PositionAfter, Draft, View, Filled, Print, Message, HashText;
    var at := PositionAfter(prev).value;
    var draft := Draft(inp, at, signer.kid);
    var input := HashInput(draft);
    var hash := HashText(p.env, input);
    var sig := p.sign(signer.secret, Message(p.env, RECEIPT_DOMAIN, input)).value;
    FilledView(inp, at, signer.kid, hash, sig);
    DraftParts(inp, at, signer.kid);
    assert Strip(Filled(draft, hash, sig)) == Strip(draft) by { FilledStrip(draft, hash, sig); }
  }

  lemma FilledStrip(draft: Value, hash: string, sig: string)
    requires Has(draft, "chain") && Get(draft, "chain").Obj? && Has(draft, "sig") && Get(draft, "sig").Obj?
    ensures Strip(Filled(draft, hash, sig)) == Strip(draft)
  {
    hide Strip;
    FillingKeepsHashInput(draft, hash, sig);
  }

  // ---- the checkpoint --------------------------------------------------------------------------

  /** What a checkpoint takes from a head, whatever was passed as one. */
  datatype Head = Head(chain: Value, number: Value, hash: Value)

  /** The three parts of a head; none where reading it throws or leaves a field undefined. */
  function HeadOf(head: Value): Option<Head> {
    if !Has(head, "scope") || !Has(head, "chain") then None
    else
      var scope, chain := Get(head, "scope"), Get(head, "chain");
      if !Has(scope, "chain") || !Has(chain, "seq") || !Has(chain, "hash") then None
      else Some(Head(Get(scope, "chain"), Get(chain, "seq"), Get(chain, "hash")))
  }

  lemma HeadOfReceipt(head: Value)
    requires ReceiptShape(head)
    ensures HeadOf(head) == Some(Head(Str(View(head).chain), Int(View(head).seqno), Str(View(head).hash)))
  {
    hide GovernanceOk, ActionOk, AgentOk, SigOk, Coherent, IsHash, HasInstant, HasOneOf;
  }

  function CheckpointDraft(head: Head, ts: string, kid: string): Value {
    Obj(map["spec" := Str("noa.checkpoint/0.1"), "chain" := head.chain, "highestSeq" := head.number,
            "headHash" := head.hash, "ts" := Str(ts),
            "sig" := Obj(map["alg" := Str("ed25519"), "kid" := Str(kid), "value" := Str("")])])
  }

  ghost function BuiltCheckpoint(p: Producer, head: Value, ts: string, signer: Signer): Option<Value> {
    var parts :- HeadOf(head);
    var draft := CheckpointDraft(parts, ts, signer.kid);
    var sig :- p.sign(signer.secret, Message(p.env, CHECKPOINT_DOMAIN, CheckpointHashInput(draft)));
    var cp := Put(draft, "sig", "value", Str(sig));
    if CheckpointShape(cp) then Some(cp) else None
  }

  /** Signs the current head; a checkpoint the verifier would call malformed is never returned. */
  method BuildCheckpoint(p: Producer, head: Value, ts: string, signer: Signer) returns (r: Option<Value>)
    ensures r == BuiltCheckpoint(p, head, ts, signer)
  {
    hide HeadOf, CheckpointShape, CheckpointHashInput, CheckpointDraft, Message, Put;
    var parts := HeadOf(head);
    if parts.None? { return None; }
    var draft := CheckpointDraft(parts.value, ts, signer.kid);
    var input := CheckpointInput(draft);
    var sig := p.sign(signer.secret, Message(p.env, CHECKPOINT_DOMAIN, input));
    if sig.None? { return None; }
    draft := Put(draft, "sig", "value", Str(sig.value));
    if !CheckpointShape(draft) { return None; }
    return Some(draft);
  }

  lemma FilledCheckpoint(head: Head, ts: string, kid: string, sig: string)
    requires CheckpointShape(Put(CheckpointDraft(head, ts, kid), "sig", "value", Str(sig)))
    ensures var cp := Put(CheckpointDraft(head, ts, kid), "sig", "value", Str(sig)); var f := CheckpointView(cp);
            && head == Head(Str(f.chain), Int(f.highestSeq), Str(f.headHash)) && f.ts == ts && f.kid == kid
                && f.sig == sig
            && Cut(cp, "sig", "value") == Cut(CheckpointDraft(head, ts, kid), "sig", "value")
  {
    hide IsHash, HasInstant, HasOneOf;
    var d := CheckpointDraft(head, ts, kid);
    var s := Get(d, "sig").members;
    assert s["value" := Str(sig)] - {"value"} == s - {"value"};
    var cp := Put(d, "sig", "value", Str(sig));
    assert Get(cp, "sig") == Obj(s["value" := Str(sig)]);
  }

  /** A built checkpoint names the head's chain, seq and hash, and its signature covers it. */
  lemma BuiltCheckpointMeans(p: Producer, head: Value, ts: string, signer: Signer)
    requires BuiltCheckpoint(p, head, ts, signer).Some?
    ensures var cp := BuiltCheckpoint(p, head, ts, signer).value;
            && CheckpointShape(cp)
            && var f := CheckpointView(cp);
            && HeadOf(head) == Some(Head(Str(f.chain), Int(f.highestSeq), Str(f.headHash)))
            && f.ts == ts && f.kid == signer.kid
            && p.sign(signer.secret, Message(p.env, CHECKPOINT_DOMAIN, CheckpointHashInput(cp))) == Some(f.sig)
  {
    hide HeadOf, CheckpointShape, CheckpointDraft, CheckpointView, Put, Cut, Print, Message;
    var parts := HeadOf(head).value;
    var draft := CheckpointDraft(parts, ts, signer.kid);
    var sig := p.sign(signer.secret, Message(p.env, CHECKPOINT_DOMAIN, CheckpointHashInput(draft))).value;
    FilledCheckpoint(parts, ts, signer.kid, sig);
  }

  // ---- runs ------------------------------------------------------------------------------------

  datatype Call = Call(inp: BuildInput, signer: Signer)

  /** `chain` is what calling the builder once per element of `calls` returns, each on the last result. */
  ghost predicate Run(p: Producer, calls: seq<Call>, chain: seq<Value>) {
    && |chain| == |calls| && AllShaped(chain)
    && forall i | 0 <= i < |chain| ::
         Built(p, calls[i].inp, if i == 0 then None else Some(chain[i - 1]), calls[i].signer) == Some(chain[i])
  }

  /** Signing with `secret` always verifies under the key text `key`. */
  ghost predicate Honest(p: Producer, secret: string, key: string) {
    forall msg, sig :: p.sign(secret, msg) == Some(sig) ==>
      && p.env.b64(sig).Some? && p.env.spki(key).Some?
      && p.env.sigOk(p.env.spki(key).value, msg, p.env.b64(sig).value)
  }

  /** The signer's key id is listed with a key its secret matches, and authorised for the agent. */
  ghost predicate Listed(p: Producer, keyring: Value, identity: Option<Value>, agent: Option<string>, signer: Signer) {
    && KeyOf(Some(keyring), signer.kid).Some?
    && Honest(p, signer.secret, KeyOf(Some(keyring), signer.kid).value)
    && (identity.Some? && agent.Some? ==> Authorized(identity.value, agent.value, signer.kid))
  }

  /** One chain id, compatible tenants, one key per agent, and every signer listed. */
  ghost predicate Disciplined(p: Producer, calls: seq<Call>, keyring: Value, identity: Option<Value>) {
    && (forall i, j | 0 <= i < |calls| && 0 <= j < |calls| ::
          && TextOf(calls[i].inp.scope, "chain") == TextOf(calls[j].inp.scope, "chain")
          && (TextOf(calls[i].inp.scope, "tenant").Some? && TextOf(calls[j].inp.scope, "tenant").Some? ==>
                TextOf(calls[i].inp.scope, "tenant") == TextOf(calls[j].inp.scope, "tenant"))
          && (TextOf(calls[i].inp.agent, "id") == TextOf(calls[j].inp.agent, "id")
              ==> calls[i].signer.kid == calls[j].signer.kid))
    && (forall i | 0 <= i < |calls| :: Listed(p, keyring, identity, TextOf(calls[i].inp.agent, "id"), calls[i].signer))
  }

  /** What the builder put into position `i`. */
  ghost predicate Placed(p: Producer, c: Call, chain: seq<Value>, i: nat)
    requires i < |chain| && AllShaped(chain)
  {
    var f := Entries(chain)[i].f;
    && f.seqno == i
    && f.prevHash == (if i > 0 then Some(Entries(chain)[i - 1].f.hash) else None)
    && f.kid == c.signer.kid
    && TextOf(c.inp.scope, "chain") == Some(f.chain) && TextOf(c.inp.scope, "tenant") == f.tenant
    && TextOf(c.inp.agent, "id") == Some(f.agent)
    && HashOk(p.env, Entries(chain)[i])
    && p.sign(c.signer.secret, Message(p.env, RECEIPT_DOMAIN, HashInput(chain[i]))) == Some(f.sig)
  }

  lemma {:induction false} RunPlaces(p: Producer, calls: seq<Call>, chain: seq<Value>, i: nat)
    requires Run(p, calls, chain) && i < |chain|
    ensures Placed(p, calls[i], chain, i)
  {
    hide ReceiptShape, Built, View, HashOk, Message, HashInput, TextOf, PositionAfter;
    var prev := if i == 0 then None else Some(chain[i - 1]);
    assert Built(p, calls[i].inp, prev, calls[i].signer) == Some(chain[i]);
    BuiltMeans(p, calls[i].inp, prev, calls[i].signer);
    assert Entries(chain)[i] == EntryOf(chain[i]);
    if i > 0 {
      assert Entries(chain)[i - 1] == EntryOf(chain[i - 1]);
      RunPlaces(p, calls, chain, i - 1);
      PositionAfterReceipt(chain[i - 1]);
    } else {
      FirstPosition();
    }
  }

  lemma FirstPosition()
    ensures PositionAfter(None) == Some(Position(Int(0), Null))
  {
  }

  lemma PlacedIsGood(p: Producer, c: Call, chain: seq<Value>, i: nat, keyring: Value, identity: Option<Value>)
    requires i < |chain| && AllShaped(chain) && Placed(p, c, chain, i)
    requires Listed(p, keyring, identity, TextOf(c.inp.agent, "id"), c.signer)
    ensures EntryGood(p.env, Some(keyring), identity, Entries(chain)[i])
  {
    hide ReceiptShape, View, HashOk, Message, HashInput, TextOf, KeyOf, Authorized;
  }

  /** Every receipt of a disciplined run is good, and the run is one acceptable chain. */
  lemma RunAcceptable(p: Producer, calls: seq<Call>, chain: seq<Value>, keyring: Value, identity: Option<Value>)
    requires Run(p, calls, chain) && Disciplined(p, calls, keyring, identity)
    ensures Acceptable(p.env, Entries(chain), Some(keyring), identity, None)
  {
    hide Run, Built, Listed, TextOf, Placed, EntryGood, AllShaped, OneChain, OneTenant, OneKeyPerAgent, Linked,
         ExactSeqs;
    RunShaped(p, calls, chain);
    var es := Entries(chain);
    forall i | 0 <= i < |chain|
        ensures Placed(p, calls[i], chain, i) && EntryGood(p.env, Some(keyring), identity, es[i]) {
      RunPlaces(p, calls, chain, i);
      PlacedIsGood(p, calls[i], chain, i, keyring, identity);
    }
    RunExact(p, calls, chain);
    RunAgrees(p, calls, chain, keyring, identity);
  }

  lemma RunExact(p: Producer, calls: seq<Call>, chain: seq<Value>)
    requires |chain| == |calls| && AllShaped(chain)
    requires forall i | 0 <= i < |chain| :: Placed(p, calls[i], chain, i)
    ensures ExactSeqs(Entries(chain))
  {
    hide AllShaped, Entries, TextOf, HashOk, Message, HashInput;
    forall i | 0 <= i < |chain| ensures Entries(chain)[i].f.seqno == i {
      assert Placed(p, calls[i], chain, i);
    }
  }

  lemma RunShaped(p: Producer, calls: seq<Call>, chain: seq<Value>)
    requires Run(p, calls, chain)
    ensures AllShaped(chain) && |chain| == |calls|
  {
    hide Built, ReceiptShape;
  }

  lemma RunAgrees(p: Producer, calls: seq<Call>, chain: seq<Value>, keyring: Value, identity: Option<Value>)
    requires |chain| == |calls| && AllShaped(chain) && Disciplined(p, calls, keyring, identity)
    requires forall i | 0 <= i < |chain| :: Placed(p, calls[i], chain, i)
    ensures var es := Entries(chain); OneChain(es) && OneTenant(es) && OneKeyPerAgent(es) && Linked(es)
  {
    hide ReceiptShape, View, Listed, TextOf, HashOk, Message, HashInput, AllShaped;
    var es := Entries(chain);
    forall i, j | 0 <= i < |es| && 0 <= j < |es|
      ensures es[i].f.chain == es[j].f.chain
      ensures es[i].f.tenant.Some? && es[j].f.tenant.Some? ==> es[i].f.tenant == es[j].f.tenant
      ensures es[i].f.agent == es[j].f.agent ==> es[i].f.kid == es[j].f.kid
      ensures es[j].f.seqno == es[i].f.seqno + 1 ==> es[j].f.prevHash == Some(es[i].f.hash)
      ensures es[i].f.seqno == 0 ==> es[i].f.prevHash == None
    {
      assert Placed(p, calls[i], chain, i) && Placed(p, calls[j], chain, j);
    }
  }

  /** Producer/verifier completeness: whatever an honest, disciplined run builds is VALID. */
  lemma BuilderCompleteness(p: Producer, calls: seq<Call>, chain: seq<Value>, keyring: Value, identity: Option<Value>)
    requires calls != [] && Run(p, calls, chain) && Disciplined(p, calls, keyring, identity)
    requires TrustOk(Some(keyring), identity)
    ensures Verdict(p.env, Some(Arr(chain)), Some(keyring), identity, None).0 == VALID
  {
    hide Run, Disciplined, TrustOk, Acceptable, AllShaped, Verdict;
    RunShaped(p, calls, chain);
    RunAcceptable(p, calls, chain, keyring, identity);
    ValidMeans(p.env, Some(Arr(chain)), Some(keyring), identity, None);
  }

  /** A checkpoint built over the head keeps the chain VALID when its signer is listed and may speak for the opener. */
  lemma CheckpointCompleteness(p: Producer, calls: seq<Call>, chain: seq<Value>, keyring: Value,
                               identity: Option<Value>, ts: string, signer: Signer)
    requires calls != [] && Run(p, calls, chain) && Disciplined(p, calls, keyring, identity)
    requires TrustOk(Some(keyring), identity)
    requires Listed(p, keyring, identity, TextOf(calls[0].inp.agent, "id"), signer)
    requires AllShaped(chain) && chain != [] && BuiltCheckpoint(p, chain[|chain| - 1], ts, signer).Some?
    ensures Verdict(p.env, Some(Arr(chain)), Some(keyring), identity,
                    BuiltCheckpoint(p, chain[|chain| - 1], ts, signer)).0 == VALID
  {
    hide Run, Disciplined, TrustOk, ReceiptShape, Verdict, CheckpointGood, EntryGood, BuiltCheckpoint, Listed;
    var cp := BuiltCheckpoint(p, chain[|chain| - 1], ts, signer);
    RunShaped(p, calls, chain);
    RunAcceptable(p, calls, chain, keyring, identity);
    HeadCheckpointGood(p, calls, chain, keyring, identity, ts, signer);
    ValidMeans(p.env, Some(Arr(chain)), Some(keyring), identity, cp);
  }

  lemma HeadCheckpointGood(p: Producer, calls: seq<Call>, chain: seq<Value>, keyring: Value, identity: Option<Value>,
                           ts: string, signer: Signer)
    requires calls != [] && Run(p, calls, chain) && AllShaped(chain) && chain != []
    requires OneChain(Entries(chain))
    requires Listed(p, keyring, identity, TextOf(calls[0].inp.agent, "id"), signer)
    requires BuiltCheckpoint(p, chain[|chain| - 1], ts, signer).Some?
    ensures CheckpointGood(p.env, Entries(chain), Some(keyring), identity,
                           BuiltCheckpoint(p, chain[|chain| - 1], ts, signer).value)
  {
    hide Run, ReceiptShape, View, CheckpointShape, CheckpointView, BuiltCheckpoint, HeadOf, HashOk, Message,
         HashInput, CheckpointHashInput, TextOf, KeyOf, Authorized;
    var n := |chain|;
    BuiltCheckpointMeans(p, chain[n - 1], ts, signer);
    RunShaped(p, calls, chain);
    HeadOfReceipt(chain[n - 1]);
    forall i | 0 <= i < n ensures Entries(chain)[i].f.seqno == i {
      RunPlaces(p, calls, chain, i);
    }
    RunPlaces(p, calls, chain, 0);
  }
}
