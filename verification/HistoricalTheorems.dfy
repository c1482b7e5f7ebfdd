/** What an attributing historical verdict establishes, and how it behaves across lengths and lifetimes. */
module HistoricalTheorems {
  import opened Prelude
  import opened Json
  import opened Receipt
  import opened Verify
  import opened ChainMeaning
  import opened ChainTheorems
  import opened Historical
  import Timestamp

  // ---- the conditions, without the decision ladder ---------------------------------------------

  /** The witness key id and key bytes differ from those of every receipt signer. */
  ghost predicate Separate(env: Env, t: Trust, es: seq<Entry>, kid: string, material: Option<bytes>) {
    forall i | 0 <= i < |es| :: es[i].f.kid != kid && Material(env, t.keyring, es[i].f.kid) != material
  }

  /** Every signer's listed key loads. */
  ghost predicate SignersLoad(env: Env, t: Trust, es: seq<Entry>) {
    forall i | 0 <= i < |es| :: Material(env, t.keyring, es[i].f.kid).Some?
  }

  /** A receipt that verified was signed under a key that loads. */
  lemma AcceptableSignersLoad(env: Env, t: Trust, es: seq<Entry>, identity: Option<Value>)
    requires Acceptable(env, es, Some(t.keyring), identity, None)
    ensures SignersLoad(env, t, es)
  {
    hide HashOk, Authorized, KeyOf, Message, HashInput, ExactSeqs, OneChain, OneTenant, OneKeyPerAgent, Linked;
    forall i | 0 <= i < |es| ensures Material(env, t.keyring, es[i].f.kid).Some? {
      assert EntryGood(env, Some(t.keyring), identity, es[i]);
    }
  }

  /** So was an authentic checkpoint. */
  lemma WitnessLoads(env: Env, w: Trust, cp: Value)
    requires CheckpointStatus(env, cp, Some(w.keyring)) == CpOk
    ensures CheckpointShape(cp) && Material(env, w.keyring, CheckpointView(cp).kid).Some?
  {
    hide CheckpointShape, CheckpointView, KeyOf, Message, CheckpointHashInput;
  }

  /** Where signers' keys load, the only failure is a shared key, and the order of the receipts is immaterial. */
  lemma {:induction false} SeparationMeans(env: Env, t: Trust, es: seq<Entry>, i: nat, kid: string, material: bytes)
    requires i <= |es| && SignersLoad(env, t, es)
    ensures SeparationFailure(env, t.keyring, es, i, kid, material)
            == (if Separate(env, t, es[i..], kid, Some(material)) then None else Some(WITNESS_KEY_NOT_SEPARATE))
    decreases |es| - i
  {
    hide Material;
    if i < |es| {
      SeparationMeans(env, t, es, i + 1, kid, material);
      var rest, all := es[i + 1..], es[i..];
      assert all == [es[i]] + rest;
      assert all[0] == es[i];
      if Separate(env, t, all, kid, Some(material)) {
        forall j | 0 <= j < |rest| ensures rest[j] == all[j + 1] {
        }
      }
    }
  }

  /** An authentic, separate, non-retired witness. */
  ghost predicate WitnessSound(env: Env, t: Trust, w: Trust, es: seq<Entry>, cp: Value) {
    && CheckpointStatus(env, cp, Some(w.keyring)) == CpOk && CheckpointShape(cp)
    && var f := CheckpointView(cp);
    && Separate(env, t, es, f.kid, Material(env, w.keyring, f.kid))
    && f.kid !in w.retiredAt
  }

  /** The checkpoint names a receipt of this chain, at a time inside every lifetime it covers. */
  ghost predicate AnchorSound(t: Trust, w: Trust, m: BySeq, n: nat, f: CheckpointFacts, chain: Option<string>) {
    && Some(f.chain) == chain
    && f.highestSeq < n && f.highestSeq in m && m[f.highestSeq].f.hash == f.headHash
    && Timestamp.Instant(f.ts).Some?
    && Activated(w, f.kid, f.ts)
    && CoveredActivated(t, m, f.highestSeq, f.ts)
    && CoveredNotRetired(t, m, f.highestSeq, f.ts)
  }

  /** The whole verdict for an attributing result. */
  ghost predicate Attributes(r: Result, n: nat, f: CheckpointFacts, t: Trust, chain: Option<string>) {
    var head := f.highestSeq == n - 1;
    r == Result(if head then VERIFIED else PARTIAL, if head then HEAD_ANCHORED else PREFIX_ANCHORED, INTACT,
                if head then ANCHORED_HEAD else ANCHORED_PREFIX, ATTRIBUTABLE_AS_OF, t.lifecycle, true, AVAILABLE,
                chain, n, Some(f.highestSeq), Some(f.ts))
  }

  lemma AnchoredExactly(t: Trust, w: Trust, m: BySeq, n: nat, f: CheckpointFacts, chain: Option<string>)
    requires n > 0
    ensures Anchored(t, w, m, n, f, chain).attribution == ATTRIBUTABLE_AS_OF <==> AnchorSound(t, w, m, n, f, chain)
    ensures AnchorSound(t, w, m, n, f, chain) ==> Attributes(Anchored(t, w, m, n, f, chain), n, f, t, chain)
  {
    hide Activated, CoveredActivated, CoveredNotRetired, Timestamp.Instant;
  }

  lemma WitnessedExactly(env: Env, t: Trust, es: seq<Entry>, m: BySeq, chain: Option<string>,
                         checkpoint: Option<Value>, checkpointRoot: Option<Value>)
    requires es != [] && SignersLoad(env, t, es)
    ensures Witnessed(env, t, es, m, chain, checkpoint, checkpointRoot).attribution == ATTRIBUTABLE_AS_OF <==>
            && checkpoint.Some? && checkpointRoot.Some? && ParseTrust(checkpointRoot).Some?
            && WitnessSound(env, t, ParseTrust(checkpointRoot).value, es, checkpoint.value)
            && AnchorSound(t, ParseTrust(checkpointRoot).value, m, |es|, CheckpointView(checkpoint.value), chain)
    ensures checkpoint.Some? && checkpointRoot.Some? && ParseTrust(checkpointRoot).Some?
            && WitnessSound(env, t, ParseTrust(checkpointRoot).value, es, checkpoint.value) ==>
              Witnessed(env, t, es, m, chain, checkpoint, checkpointRoot)
              == Anchored(t, ParseTrust(checkpointRoot).value, m, |es|, CheckpointView(checkpoint.value), chain)
  {
    hide ParseTrust, CheckpointShape, CheckpointView, CheckpointStatus, Material, SeparationFailure, Separate,
         Anchored, AnchorSound, SignersLoad;
    if checkpoint.Some? && ParseTrust(checkpointRoot).Some? && CheckpointShape(checkpoint.value) {
      var w, f := ParseTrust(checkpointRoot).value, CheckpointView(checkpoint.value);
      if CheckpointStatus(env, checkpoint.value, Some(w.keyring)) == CpOk {
        WitnessLoads(env, w, checkpoint.value);
        SeparationMeans(env, t, es, 0, f.kid, Material(env, w.keyring, f.kid).value);
        assert es[0..] == es;
      }
      AnchoredExactly(t, w, m, |es|, f, chain);
    }
  }

  // ---- attribution -----------------------------------------------------------------------------

  /** The index of a chain that verified. */
  ghost function IndexOf(recs: seq<Value>): BySeq
    requires recs != [] && AllShaped(recs)
  {
    var es := Entries(recs);
    var r := Index(es, es[0].f.chain, 0, map[]);
    if r.Some? then r.value else map[]
  }

  lemma ShownChainOf(recs: seq<Value>)
    requires recs != [] && AllShaped(recs)
    ensures ShownChain(Some(Arr(recs))) == Some(Entries(recs)[0].f.chain)
  {
    hide AgentOk, ActionOk, GovernanceOk, Coherent, ChainOk, SigOk, HasInstant;
    assert ReceiptShape(recs[0]);
  }

  /** A verdict on a VALID chain is the witness decision on its index. */
  lemma ValidDecides(env: Env, recs: seq<Value>, receiptRoot: Option<Value>, checkpoint: Option<Value>,
                     checkpointRoot: Option<Value>, identity: Option<Value>)
    requires ParseTrust(receiptRoot).Some?
    requires Verdict(env, Some(Arr(recs)), Some(ParseTrust(receiptRoot).value.keyring), identity, None).0 == VALID
    ensures recs != [] && AllShaped(recs) && Full(IndexOf(recs), Entries(recs))
    ensures Acceptable(env, Entries(recs), Some(ParseTrust(receiptRoot).value.keyring), identity, None)
    ensures SignersLoad(env, ParseTrust(receiptRoot).value, Entries(recs))
    ensures HistoricalVerdict(env, Some(Arr(recs)), receiptRoot, checkpoint, checkpointRoot, identity)
            == Witnessed(env, ParseTrust(receiptRoot).value, Entries(recs), IndexOf(recs),
                         Some(Entries(recs)[0].f.chain), checkpoint, checkpointRoot)
  {
    hide ParseTrust, Verdict, AllShaped, Acceptable, Full, Witnessed, Index, ShownChain, SignersLoad;
    ValidHasIndex(env, Some(Arr(recs)), Some(ParseTrust(receiptRoot).value.keyring), identity, None);
    AcceptableSignersLoad(env, ParseTrust(receiptRoot).value, Entries(recs), identity);
    ShownChainOf(recs);
  }

  /** Everything an attributing verdict rests on. */
  ghost predicate Established(env: Env, recs: seq<Value>, t: Trust, w: Trust, cp: Value, identity: Option<Value>) {
    && Verdict(env, Some(Arr(recs)), Some(t.keyring), identity, None).0 == VALID
    && recs != [] && AllShaped(recs)
    && WitnessSound(env, t, w, Entries(recs), cp)
    && AnchorSound(t, w, IndexOf(recs), |recs|, CheckpointView(cp), Some(Entries(recs)[0].f.chain))
  }

  /** Attribution is sound and complete: it is given exactly when everything it rests on holds. */
  lemma AttributionExactly(env: Env, recs: seq<Value>, receiptRoot: Option<Value>, checkpoint: Option<Value>,
                           checkpointRoot: Option<Value>, identity: Option<Value>)
    ensures HistoricalVerdict(env, Some(Arr(recs)), receiptRoot, checkpoint, checkpointRoot, identity).attribution
            == ATTRIBUTABLE_AS_OF <==>
            && ParseTrust(receiptRoot).Some? && checkpoint.Some? && checkpointRoot.Some?
                && ParseTrust(checkpointRoot).Some?
            && Established(env, recs, ParseTrust(receiptRoot).value, ParseTrust(checkpointRoot).value, checkpoint.value,
                           identity)
  {
    hide ParseTrust, Verdict, AllShaped, Witnessed, WitnessSound, AnchorSound, IndexOf, Full, Acceptable, ShownChain,
         ShownCount, SignersLoad;
    if ParseTrust(receiptRoot).Some? {
      var t := ParseTrust(receiptRoot).value;
      if Verdict(env, Some(Arr(recs)), Some(t.keyring), identity, None).0 == VALID {
        ValidDecides(env, recs, receiptRoot, checkpoint, checkpointRoot, identity);
        WitnessedExactly(env, t, Entries(recs), IndexOf(recs), Some(Entries(recs)[0].f.chain), checkpoint,
                         checkpointRoot);
      }
    }
  }

  /** The attributing verdict itself, in full. */
  lemma AttributionVerdict(env: Env, recs: seq<Value>, receiptRoot: Option<Value>, cp: Value,
                           checkpointRoot: Option<Value>, identity: Option<Value>)
    requires ParseTrust(receiptRoot).Some? && checkpointRoot.Some? && ParseTrust(checkpointRoot).Some?
    requires Established(env, recs, ParseTrust(receiptRoot).value, ParseTrust(checkpointRoot).value, cp, identity)
    ensures Attributes(HistoricalVerdict(env, Some(Arr(recs)), receiptRoot, Some(cp), checkpointRoot, identity),
                       |recs|, CheckpointView(cp), ParseTrust(receiptRoot).value, Some(Entries(recs)[0].f.chain))
  {
    hide ParseTrust, Verdict, AllShaped, Witnessed, AnchorSound, IndexOf, Full, Acceptable, HistoricalVerdict,
         CheckpointView, CheckpointStatus, Material, Separate, SignersLoad, Attributes, CheckpointShape;
    var t := ParseTrust(receiptRoot).value;
    var chain := Some(Entries(recs)[0].f.chain);
    ValidDecides(env, recs, receiptRoot, Some(cp), checkpointRoot, identity);
    WitnessedExactly(env, t, Entries(recs), IndexOf(recs), chain, Some(cp), checkpointRoot);
    AnchoredExactly(t, ParseTrust(checkpointRoot).value, IndexOf(recs), |recs|, CheckpointView(cp), chain);
  }

  /** VERIFIED and PARTIAL are exactly the attributing verdicts, told apart by where the checkpoint points. */
  lemma VerifiedMeans(env: Env, recs: seq<Value>, receiptRoot: Option<Value>, cp: Value,
                      checkpointRoot: Option<Value>, identity: Option<Value>)
    ensures var r := HistoricalVerdict(env, Some(Arr(recs)), receiptRoot, Some(cp), checkpointRoot, identity);
            && (r.classification == VERIFIED || r.classification == PARTIAL <==> r.attribution == ATTRIBUTABLE_AS_OF)
            && (r.classification == VERIFIED ==> CheckpointShape(cp) && CheckpointView(cp).highestSeq == |recs| - 1)
  {
    hide ParseTrust, Verdict, AllShaped, Witnessed, WitnessSound, AnchorSound, IndexOf, CheckpointShape, Anchored;
    AttributionExactly(env, recs, receiptRoot, Some(cp), checkpointRoot, identity);
    if ParseTrust(receiptRoot).Some?
        && Verdict(env, Some(Arr(recs)), Some(ParseTrust(receiptRoot).value.keyring), identity, None).0 == VALID {
      ValidDecides(env, recs, receiptRoot, Some(cp), checkpointRoot, identity);
      WitnessedClass(env, ParseTrust(receiptRoot).value, Entries(recs), IndexOf(recs), Some(Entries(recs)[0].f.chain),
                     Some(cp), checkpointRoot);
    }
  }

  lemma WitnessedClass(env: Env, t: Trust, es: seq<Entry>, m: BySeq, chain: Option<string>, checkpoint: Option<Value>,
                       checkpointRoot: Option<Value>)
    ensures var r := Witnessed(env, t, es, m, chain, checkpoint, checkpointRoot);
            && (r.classification == VERIFIED || r.classification == PARTIAL <==> r.attribution == ATTRIBUTABLE_AS_OF)
            && (r.classification == VERIFIED
                ==> checkpoint.Some? && CheckpointShape(checkpoint.value)
                    && CheckpointView(checkpoint.value).highestSeq == |es| - 1)
  {
    hide ParseTrust, CheckpointShape, CheckpointView, CheckpointStatus, Material, SeparationFailure, Activated,
         CoveredActivated, CoveredNotRetired, Timestamp.Instant;
  }

  /** The checkpoint names a receipt of this chain by seq and hash. */
  ghost predicate Names(m: BySeq, n: nat, f: CheckpointFacts, chain: Option<string>) {
    Some(f.chain) == chain && f.highestSeq < n && f.highestSeq in m && m[f.highestSeq].f.hash == f.headHash
  }

  /** The witness decision is a conflict exactly when a sound witness names no receipt of the chain. */
  lemma WitnessedConflict(env: Env, t: Trust, es: seq<Entry>, m: BySeq, chain: Option<string>,
                          checkpoint: Option<Value>, checkpointRoot: Option<Value>)
    requires es != [] && SignersLoad(env, t, es)
    ensures var r := Witnessed(env, t, es, m, chain, checkpoint, checkpointRoot);
            && r.code != RECEIPT_ROOT_INVALID
            && (r.code == WITNESS_ROOT_INVALID
                <==> checkpoint.Some? && checkpointRoot.Some? && ParseTrust(checkpointRoot).None?)
            && (r.classification == CONFLICT <==>
                  && checkpoint.Some? && checkpointRoot.Some? && ParseTrust(checkpointRoot).Some?
                  && WitnessSound(env, t, ParseTrust(checkpointRoot).value, es, checkpoint.value)
                  && !Names(m, |es|, CheckpointView(checkpoint.value), chain))
            && (r.classification == INVALID <==>
                  && checkpoint.Some? && checkpointRoot.Some? && ParseTrust(checkpointRoot).Some?
                  && CheckpointStatus(env, checkpoint.value, Some(ParseTrust(checkpointRoot).value.keyring)) == CpBad)
  {
    hide ParseTrust, CheckpointView, Material, SeparationFailure, Separate, Activated, CoveredActivated,
         CoveredNotRetired, Timestamp.Instant, SignatureOk, CheckpointShape, SignersLoad;
    if checkpoint.Some? && ParseTrust(checkpointRoot).Some? && CheckpointShape(checkpoint.value) {
      var w, f := ParseTrust(checkpointRoot).value, CheckpointView(checkpoint.value);
      if CheckpointStatus(env, checkpoint.value, Some(w.keyring)) == CpOk {
        WitnessLoads(env, w, checkpoint.value);
        SeparationMeans(env, t, es, 0, f.kid, Material(env, w.keyring, f.kid).value);
        assert es[0..] == es;
      }
    }
  }

  /**
   * What each refusing class means: INVALID is a receipt root, chain or checkpoint that fails on its own;
   * CONFLICT is an authentic, separate, current witness that names no receipt of a VALID chain. A root is called
   * invalid only when it does not parse: the two refusals for keys that do not load are never reached.
   */
  lemma ClassesExactly(env: Env, recs: seq<Value>, receiptRoot: Option<Value>, cp: Value,
                       checkpointRoot: Option<Value>, identity: Option<Value>)
    ensures var r := HistoricalVerdict(env, Some(Arr(recs)), receiptRoot, Some(cp), checkpointRoot, identity);
            var good := ParseTrust(receiptRoot).Some?
                        && Verdict(env, Some(Arr(recs)), Some(ParseTrust(receiptRoot).value.keyring), identity, None).0
                            == VALID;
            var rooted := checkpointRoot.Some? && ParseTrust(checkpointRoot).Some?;
            && (r.code == RECEIPT_ROOT_INVALID <==> ParseTrust(receiptRoot).None?)
            && (r.code == WITNESS_ROOT_INVALID <==> good && checkpointRoot.Some? && ParseTrust(checkpointRoot).None?)
            && (r.classification == INVALID <==>
                  !good || (rooted && CheckpointStatus(env, cp, Some(ParseTrust(checkpointRoot).value.keyring))
                      == CpBad))
            && (r.classification == CONFLICT <==>
                  && good && rooted && recs != [] && AllShaped(recs)
                  && WitnessSound(env, ParseTrust(receiptRoot).value, ParseTrust(checkpointRoot).value, Entries(recs),
                                  cp)
                  && !Names(IndexOf(recs), |recs|, CheckpointView(cp), Some(Entries(recs)[0].f.chain)))
  {
    hide ParseTrust, Verdict, AllShaped, Witnessed, WitnessSound, IndexOf, CheckpointShape, CheckpointStatus, Names,
         Full, Acceptable, ShownChain, ShownCount, SignersLoad;
    if ParseTrust(receiptRoot).Some?
        && Verdict(env, Some(Arr(recs)), Some(ParseTrust(receiptRoot).value.keyring), identity, None).0 == VALID {
      ValidDecides(env, recs, receiptRoot, Some(cp), checkpointRoot, identity);
      WitnessedConflict(env, ParseTrust(receiptRoot).value, Entries(recs), IndexOf(recs),
                        Some(Entries(recs)[0].f.chain), Some(cp), checkpointRoot);
    }
  }

  /** A checkpoint stamped in second 60 never attributes anything. */
  lemma LeapSecondNeverAttributes(env: Env, recs: seq<Value>, receiptRoot: Option<Value>, cp: Value,
                                  checkpointRoot: Option<Value>, identity: Option<Value>)
    requires CheckpointShape(cp) && Timestamp.ReadStamp(CheckpointView(cp).ts).Some?
    requires Timestamp.ReadStamp(CheckpointView(cp).ts).value.second == 60
    ensures HistoricalVerdict(env, Some(Arr(recs)), receiptRoot, Some(cp), checkpointRoot, identity).attribution
            == UNATTRIBUTABLE
  {
    hide ParseTrust, HistoricalVerdict, Verdict, AllShaped, WitnessSound, IndexOf, CheckpointShape, CheckpointView,
         Timestamp.ReadStamp;
    AttributionExactly(env, recs, receiptRoot, Some(cp), checkpointRoot, identity);
  }

  // ---- widening a lifetime ---------------------------------------------------------------------

  /** The same keys, each with a lifetime that contains the old one. */
  ghost predicate Wider(t: Trust, t': Trust) {
    && t'.keyring == t.keyring
    && (forall kid | kid in t'.validFrom :: kid in t.validFrom && NotBefore(t.validFrom[kid], t'.validFrom[kid]))
    && (forall kid | kid in t'.retiredAt :: kid in t.retiredAt && NotBefore(t'.retiredAt[kid], t.retiredAt[kid]))
  }

  lemma WiderKeeps(t: Trust, t': Trust, kid: string, ts: string)
    requires Wider(t, t')
    ensures Activated(t, kid, ts) ==> Activated(t', kid, ts)
    ensures NotYetRetired(t, kid, ts) ==> NotYetRetired(t', kid, ts)
  {
    hide Timestamp.Instant;
  }

  /** Widening any lifetime, of receipt keys or of the witness key, never takes an attribution away. */
  lemma WideningKeepsAttribution(env: Env, recs: seq<Value>, t: Trust, t': Trust, w: Trust, w': Trust, cp: Value,
                                 identity: Option<Value>)
    requires Established(env, recs, t, w, cp, identity) && Wider(t, t') && Wider(w, w')
    ensures Established(env, recs, t', w', cp, identity)
  {
    hide Verdict, AllShaped, IndexOf, CheckpointShape, CheckpointView, CheckpointStatus, Material, Activated,
         NotYetRetired, Timestamp.Instant;
    var f, m := CheckpointView(cp), IndexOf(recs);
    WiderKeeps(w, w', f.kid, f.ts);
    forall s: nat | s <= f.highestSeq && s in m
        ensures Activated(t', m[s].f.kid, f.ts) && NotYetRetired(t', m[s].f.kid, f.ts) {
      WiderKeeps(t, t', m[s].f.kid, f.ts);
    }
  }

  /** The same, of the verdict: wider roots still attribute, through the same seq and as of the same time. */
  lemma WideningKeepsVerdict(env: Env, recs: seq<Value>, root: Option<Value>, root': Option<Value>, cp: Value,
                             cpRoot: Option<Value>, cpRoot': Option<Value>, identity: Option<Value>)
    requires HistoricalVerdict(env, Some(Arr(recs)), root, Some(cp), cpRoot, identity).attribution == ATTRIBUTABLE_AS_OF
    requires ParseTrust(root).Some? && ParseTrust(root').Some? && Wider(ParseTrust(root).value, ParseTrust(root').value)
    requires cpRoot'.Some? && ParseTrust(cpRoot).Some? && ParseTrust(cpRoot').Some?
            && Wider(ParseTrust(cpRoot).value, ParseTrust(cpRoot').value)
    ensures var r := HistoricalVerdict(env, Some(Arr(recs)), root, Some(cp), cpRoot, identity);
            var r' := HistoricalVerdict(env, Some(Arr(recs)), root', Some(cp), cpRoot', identity);
            && r'.attribution == ATTRIBUTABLE_AS_OF && r'.classification == r.classification
            && r'.attributedThroughSeq == r.attributedThroughSeq && r'.asOf == r.asOf
  {
    hide ParseTrust, HistoricalVerdict, Verdict, AllShaped, IndexOf, CheckpointShape, CheckpointView, WitnessSound,
         AnchorSound, Wider;
    var t, t' := ParseTrust(root).value, ParseTrust(root').value;
    var w, w' := ParseTrust(cpRoot).value, ParseTrust(cpRoot').value;
    AttributionExactly(env, recs, root, Some(cp), cpRoot, identity);
    AttributionVerdict(env, recs, root, cp, cpRoot, identity);
    WideningKeepsAttribution(env, recs, t, t', w, w', cp, identity);
    AttributionVerdict(env, recs, root', cp, cpRoot', identity);
  }

  // ---- across lengths --------------------------------------------------------------------------

  /** Receipts of one chain listed among those of another are read and indexed alike. */
  lemma SharedEntries(a: seq<Value>, b: seq<Value>)
    requires AllShaped(a) && AllShaped(b) && forall i | 0 <= i < |b| :: b[i] in a
    ensures forall i | 0 <= i < |b| :: Entries(b)[i] in Entries(a)
  {
    hide ReceiptShape, View;
    forall i | 0 <= i < |b| ensures Entries(b)[i] in Entries(a) {
      var j :| 0 <= j < |a| && a[j] == b[i];
      assert Entries(a)[j] == Entries(b)[i];
    }
  }

  lemma SeparateSubset(env: Env, t: Trust, es: seq<Entry>, fs: seq<Entry>, kid: string, material: Option<bytes>)
    requires Separate(env, t, es, kid, material) && forall i | 0 <= i < |fs| :: fs[i] in es
    ensures Separate(env, t, fs, kid, material)
  {
    hide Material;
    forall i | 0 <= i < |fs| ensures exists j :: 0 <= j < |es| && es[j] == fs[i] {
      assert fs[i] in es;
    }
  }

  /**
   * A chain VERIFIED against a checkpoint: show any non-empty proper prefix of it against the same
   * checkpoint and the verdict is a conflict, the checkpoint being ahead.
   */
  lemma PrefixIsBehind(env: Env, a: seq<Value>, b: seq<Value>, receiptRoot: Option<Value>, cp: Value,
                       checkpointRoot: Option<Value>, identity: Option<Value>)
    requires HistoricalVerdict(env, Some(Arr(a)), receiptRoot, Some(cp), checkpointRoot, identity).classification
            == VERIFIED
    requires 0 < |b| < |a| && (forall i | 0 <= i < |b| :: b[i] in a) && AllShaped(b) && ExactSeqs(Entries(b))
    ensures var r := HistoricalVerdict(env, Some(Arr(b)), receiptRoot, Some(cp), checkpointRoot, identity);
            r.classification == CONFLICT && r.code == CHECKPOINT_AHEAD
                && r.availability == MISSING_RELATIVE_TO_CHECKPOINT
  {
    hide ParseTrust, HistoricalVerdict, Verdict, AllShaped, Witnessed, IndexOf, Acceptable, Full, CheckpointShape,
         CheckpointView, CheckpointStatus, Material, Separate, SignersLoad, ExactSeqs, CoveredActivated,
         CoveredNotRetired, Activated, Timestamp.Instant;
    VerifiedMeans(env, a, receiptRoot, cp, checkpointRoot, identity);
    AttributionExactly(env, a, receiptRoot, Some(cp), checkpointRoot, identity);
    var t, w, f := ParseTrust(receiptRoot).value, ParseTrust(checkpointRoot).value, CheckpointView(cp);
    PrefixValid(env, a, b, t.keyring, identity);
    ValidDecides(env, b, receiptRoot, Some(cp), checkpointRoot, identity);
    SharedEntries(a, b);
    SeparateSubset(env, t, Entries(a), Entries(b), f.kid, Material(env, w.keyring, f.kid));
    WitnessedExactly(env, t, Entries(b), IndexOf(b), Some(Entries(b)[0].f.chain), Some(cp), checkpointRoot);
  }

  lemma PrefixValid(env: Env, a: seq<Value>, b: seq<Value>, keyring: Value, identity: Option<Value>)
    requires Verdict(env, Some(Arr(a)), Some(keyring), identity, None).0 == VALID
    requires b != [] && AllShaped(b) && (forall i | 0 <= i < |b| :: b[i] in a) && ExactSeqs(Entries(b))
    ensures Verdict(env, Some(Arr(b)), Some(keyring), identity, None).0 == VALID
    ensures AllShaped(a) && a != [] && Entries(b)[0].f.chain == Entries(a)[0].f.chain
  {
    hide Verdict, AllShaped, TrustOk, ExactSeqs, EntryGood, OneTenant, OneKeyPerAgent, Linked;
    ValidMeans(env, Some(Arr(a)), Some(keyring), identity, None);
    SharedEntries(a, b);
    PrefixAcceptable(env, Entries(a), Entries(b), Some(keyring), identity);
    ValidMeans(env, Some(Arr(b)), Some(keyring), identity, None);
    var j :| 0 <= j < |a| && Entries(a)[j] == Entries(b)[0];
  }

  lemma ExtensionIndex(a: seq<Value>, b: seq<Value>, s: nat)
    requires AllShaped(a) && AllShaped(b) && (forall i | 0 <= i < |a| :: a[i] in b)
    requires a != [] && b != [] && Full(IndexOf(a), Entries(a)) && Full(IndexOf(b), Entries(b))
    requires s < |a| <= |b|
    ensures s in IndexOf(a) && s in IndexOf(b) && IndexOf(a)[s] == IndexOf(b)[s]
  {
    hide ReceiptShape, View, Index;
    SharedEntries(b, a);
    var i := EntryAt(IndexOf(a), Entries(a), s);
    assert Entries(a)[i] in Entries(b);
    var j :| 0 <= j < |b| && Entries(b)[j] == Entries(a)[i];
    assert IndexOf(b)[Entries(b)[j].f.seqno] == Entries(b)[j];
  }

  /**
   * A chain VERIFIED against a checkpoint: any longer VALID chain that contains it, signed by keys
   * other than the witness's, is PARTIAL, attributed through the same seq as of the same time.
   */
  lemma ExtensionIsPartial(env: Env, a: seq<Value>, b: seq<Value>, receiptRoot: Option<Value>, cp: Value,
                           checkpointRoot: Option<Value>, identity: Option<Value>)
    requires HistoricalVerdict(env, Some(Arr(a)), receiptRoot, Some(cp), checkpointRoot, identity).classification
            == VERIFIED
    requires ParseTrust(receiptRoot).Some? && ParseTrust(checkpointRoot).Some? && CheckpointShape(cp)
    requires |a| < |b| && forall i | 0 <= i < |a| :: a[i] in b
    requires Verdict(env, Some(Arr(b)), Some(ParseTrust(receiptRoot).value.keyring), identity, None).0 == VALID
    requires AllShaped(b)
    requires Separate(env, ParseTrust(receiptRoot).value, Entries(b), CheckpointView(cp).kid,
                      Material(env, ParseTrust(checkpointRoot).value.keyring, CheckpointView(cp).kid))
    ensures var ra := HistoricalVerdict(env, Some(Arr(a)), receiptRoot, Some(cp), checkpointRoot, identity);
            var rb := HistoricalVerdict(env, Some(Arr(b)), receiptRoot, Some(cp), checkpointRoot, identity);
            && rb.classification == PARTIAL && rb.attribution == ATTRIBUTABLE_AS_OF
            && rb.attributedThroughSeq == ra.attributedThroughSeq == Some(|a| - 1)
                && rb.asOf == ra.asOf == Some(CheckpointView(cp).ts)
  {
    hide ParseTrust, HistoricalVerdict, Verdict, AllShaped, Witnessed, IndexOf, Acceptable, Full, CheckpointShape,
         CheckpointView, CheckpointStatus, Material, Separate, SignersLoad, Activated, NotYetRetired, Timestamp.Instant;
    VerifiedMeans(env, a, receiptRoot, cp, checkpointRoot, identity);
    AttributionExactly(env, a, receiptRoot, Some(cp), checkpointRoot, identity);
    AttributionVerdict(env, a, receiptRoot, cp, checkpointRoot, identity);
    ValidDecides(env, a, receiptRoot, Some(cp), checkpointRoot, identity);
    ValidDecides(env, b, receiptRoot, Some(cp), checkpointRoot, identity);
    var t, w, f := ParseTrust(receiptRoot).value, ParseTrust(checkpointRoot).value, CheckpointView(cp);
    forall s: nat | s < |a| ensures s in IndexOf(a) && s in IndexOf(b) && IndexOf(a)[s] == IndexOf(b)[s] {
      ExtensionIndex(a, b, s);
    }
    assert Entries(b)[0].f.chain == Entries(a)[0].f.chain by { SameChainShared(env, a, b, t.keyring, identity); }
    assert Established(env, b, t, w, cp, identity);
    AttributionVerdict(env, b, receiptRoot, cp, checkpointRoot, identity);
  }

  lemma SameChainShared(env: Env, a: seq<Value>, b: seq<Value>, keyring: Value, identity: Option<Value>)
    requires a != [] && b != [] && AllShaped(a) && AllShaped(b) && forall i | 0 <= i < |a| :: a[i] in b
    requires Acceptable(env, Entries(b), Some(keyring), identity, None)
    ensures Entries(b)[0].f.chain == Entries(a)[0].f.chain
  {
    hide AllShaped, ExactSeqs, EntryGood, OneTenant, OneKeyPerAgent, Linked;
    SharedEntries(b, a);
    var j :| 0 <= j < |b| && Entries(b)[j] == Entries(a)[0];
  }

  // ---- across orders ---------------------------------------------------------------------------

  lemma SeparatePermutes(env: Env, t: Trust, a: seq<Entry>, b: seq<Entry>, kid: string, material: Option<bytes>)
    requires forall e :: e in a <==> e in b
    ensures Separate(env, t, a, kid, material) <==> Separate(env, t, b, kid, material)
  {
    hide Material;
    if Separate(env, t, a, kid, material) {
      SeparateSubset(env, t, a, b, kid, material);
    }
    if Separate(env, t, b, kid, material) {
      SeparateSubset(env, t, b, a, kid, material);
    }
  }

  /** The witness decision depends on which receipts there are, not on how they are listed. */
  lemma WitnessedPermutes(env: Env, t: Trust, a: seq<Entry>, b: seq<Entry>, m: BySeq, chain: Option<string>,
                          checkpoint: Option<Value>, checkpointRoot: Option<Value>)
    requires SignersLoad(env, t, a) && SignersLoad(env, t, b) && |a| == |b| && forall e :: e in a <==> e in b
    ensures Witnessed(env, t, a, m, chain, checkpoint, checkpointRoot)
            == Witnessed(env, t, b, m, chain, checkpoint, checkpointRoot)
  {
    hide ParseTrust, CheckpointShape, CheckpointView, CheckpointStatus, Material, SeparationFailure, Separate,
         Anchored, SignersLoad;
    if checkpoint.Some? && ParseTrust(checkpointRoot).Some? && CheckpointShape(checkpoint.value) {
      var w, f := ParseTrust(checkpointRoot).value, CheckpointView(checkpoint.value);
      var material := Material(env, w.keyring, f.kid);
      if material.Some? {
        SeparationMeans(env, t, a, 0, f.kid, material.value);
        SeparationMeans(env, t, b, 0, f.kid, material.value);
        assert a[0..] == a && b[0..] == b;
        SeparatePermutes(env, t, a, b, f.kid, material);
      }
    }
  }

  /**
   * Listing the same receipts in another order changes nothing in the verdict but the chain id shown for a chain
   * that is not VALID, which is read from whatever element comes first.
   */
  lemma HistoricalOrderInvariant(env: Env, a: seq<Value>, b: seq<Value>, receiptRoot: Option<Value>,
                                 checkpoint: Option<Value>, checkpointRoot: Option<Value>, identity: Option<Value>)
    requires multiset(a) == multiset(b)
    ensures var ra := HistoricalVerdict(env, Some(Arr(a)), receiptRoot, checkpoint, checkpointRoot, identity);
            var rb := HistoricalVerdict(env, Some(Arr(b)), receiptRoot, checkpoint, checkpointRoot, identity);
            && ra.(chain := None) == rb.(chain := None)
            && (ParseTrust(receiptRoot).Some?
                && Verdict(env, Some(Arr(a)), Some(ParseTrust(receiptRoot).value.keyring), identity, None).0 == VALID
                ==> ra == rb)
  {
    hide ParseTrust, Verdict, AllShaped, Witnessed, IndexOf, Full, Acceptable, SignersLoad, ShownChain;
    SameMembers(a, b);
    if ParseTrust(receiptRoot).Some? {
      var t := ParseTrust(receiptRoot).value;
      OrderInvariant(env, a, b, Some(t.keyring), identity, None);
      if Verdict(env, Some(Arr(a)), Some(t.keyring), identity, None).0 == VALID {
        ValidOrderInvariant(env, a, b, receiptRoot, checkpoint, checkpointRoot, identity);
      }
    }
  }

  lemma ValidOrderInvariant(env: Env, a: seq<Value>, b: seq<Value>, receiptRoot: Option<Value>,
                            checkpoint: Option<Value>, checkpointRoot: Option<Value>, identity: Option<Value>)
    requires multiset(a) == multiset(b) && ParseTrust(receiptRoot).Some?
    requires Verdict(env, Some(Arr(a)), Some(ParseTrust(receiptRoot).value.keyring), identity, None).0 == VALID
    ensures HistoricalVerdict(env, Some(Arr(a)), receiptRoot, checkpoint, checkpointRoot, identity)
            == HistoricalVerdict(env, Some(Arr(b)), receiptRoot, checkpoint, checkpointRoot, identity)
  {
    hide ParseTrust, Verdict, HistoricalVerdict, AllShaped, Entries, Witnessed, IndexOf, Full, Acceptable, SignersLoad;
    var t := ParseTrust(receiptRoot).value;
    SameMembers(a, b);
    OrderInvariant(env, a, b, Some(t.keyring), identity, None);
    ValidDecides(env, a, receiptRoot, checkpoint, checkpointRoot, identity);
    ValidDecides(env, b, receiptRoot, checkpoint, checkpointRoot, identity);
    SameIndex(a, b);
    SameChainShared(env, a, b, t.keyring, identity);
    SameEntries(a, b);
    WitnessedPermutes(env, t, Entries(a), Entries(b), IndexOf(a), Some(Entries(a)[0].f.chain), checkpoint,
                      checkpointRoot);
  }

  lemma SameEntries(a: seq<Value>, b: seq<Value>)
    requires AllShaped(a) && AllShaped(b) && |a| == |b| && forall x :: x in a <==> x in b
    ensures |Entries(a)| == |Entries(b)| && forall e :: e in Entries(a) <==> e in Entries(b)
  {
    hide AllShaped;
    SharedEntries(a, b);
    SharedEntries(b, a);
  }

  lemma SameIndex(a: seq<Value>, b: seq<Value>)
    requires multiset(a) == multiset(b) && AllShaped(a) && AllShaped(b) && a != [] && b != []
    requires Full(IndexOf(a), Entries(a)) && Full(IndexOf(b), Entries(b))
    ensures IndexOf(a) == IndexOf(b)
  {
    hide AllShaped, IndexOf, Indexes;
    IndexPermutes(a, b, IndexOf(a), IndexOf(b));
  }
}
