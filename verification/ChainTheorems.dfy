/** Whole-chain theorems: input order, warnings, tamper evidence, prefixes. */
module ChainTheorems {
  import opened Prelude
  import opened Utf
  import opened Json
  import opened Receipt
  import opened Verify
  import opened ChainMeaning
  import Timestamp

  // ---- the order of the input array is immaterial ----------------------------------------------

  lemma {:induction false} TwiceInSeq<T>(s: seq<T>, x: T) returns (i: nat, j: nat)
    requires multiset(s)[x] >= 2
    ensures i < j < |s| && s[i] == x && s[j] == x
  {
    var n := |s| - 1;
    assert s == s[..n] + [s[n]];
    if s[n] == x {
      assert multiset(s) == multiset(s[..n]) + multiset{x};
      assert x in s[..n];
      i :| 0 <= i < n && s[i] == x;
      j := n;
    } else {
      assert multiset(s) == multiset(s[..n]) + multiset{s[n]};
      i, j := TwiceInSeq(s[..n], x);
    }
  }

  lemma TwiceCounts<T>(s: seq<T>, i: nat, j: nat)
    requires i < j < |s| && s[i] == s[j]
    ensures multiset(s)[s[i]] >= 2
  {
    assert s == s[..j] + [s[j]] + s[j + 1..];
    assert s[i] in s[..j];
    assert multiset(s) == multiset(s[..j]) + multiset{s[j]} + multiset(s[j + 1..]);
  }

  lemma SameMembers<T>(a: seq<T>, b: seq<T>)
    requires multiset(a) == multiset(b)
    ensures |a| == |b| && forall x :: x in a <==> x in b
  {
    assert |multiset(a)| == |multiset(b)|;
    forall x ensures x in a <==> x in b {
      assert x in multiset(a) <==> x in multiset(b);
    }
  }

  lemma DistinctPermutes(a: seq<Value>, b: seq<Value>)
    requires AllShaped(a) && AllShaped(b) && multiset(a) == multiset(b)
    requires Distinct(Entries(a))
    ensures Distinct(Entries(b))
  {
    hide ReceiptShape, View;
    SameMembers(a, b);
    var ea, eb := Entries(a), Entries(b);
    forall i, j | 0 <= i < j < |b| ensures eb[i].f.seqno != eb[j].f.seqno {
      if b[i] == b[j] {
        TwiceCounts(b, i, j);
        var k, l := TwiceInSeq(a, b[i]);
      } else {
        assert b[i] in a && b[j] in a;
        var k :| 0 <= k < |a| && a[k] == b[i];
        var l :| 0 <= l < |a| && a[l] == b[j];
        assert ea[k].f.seqno != ea[l].f.seqno;
      }
    }
  }

  lemma OneChainPermutes(a: seq<Value>, b: seq<Value>)
    requires AllShaped(a) && AllShaped(b) && multiset(a) == multiset(b)
    requires OneChain(Entries(a))
    ensures OneChain(Entries(b))
  {
    hide ReceiptShape, View;
    SameMembers(a, b);
    var ea, eb := Entries(a), Entries(b);
    forall i, j | 0 <= i < |b| && 0 <= j < |b| ensures eb[i].f.chain == eb[j].f.chain {
      assert b[i] in a && b[j] in a;
      var k :| 0 <= k < |a| && a[k] == b[i];
      var l :| 0 <= l < |a| && a[l] == b[j];
      assert ea[k].f.chain == ea[l].f.chain;
    }
  }

  /** The entry `m` holds under a seq is one of the receipts listed in any permutation. */
  lemma IndexPermutes(a: seq<Value>, b: seq<Value>, ma: BySeq, mb: BySeq)
    requires AllShaped(a) && AllShaped(b) && multiset(a) == multiset(b)
    requires Indexes(ma, Entries(a)) && Indexes(mb, Entries(b))
    ensures ma == mb
  {
    hide ReceiptShape, View;
    SameMembers(a, b);
    forall s: nat | s in ma ensures s in mb && mb[s] == ma[s] {
      var i :| 0 <= i < |a| && Entries(a)[i].f.seqno == s;
      assert a[i] in b;
      var j :| 0 <= j < |b| && b[j] == a[i];
      assert Entries(b)[j] == Entries(a)[i];
    }
    forall s: nat | s in mb ensures s in ma {
      var i :| 0 <= i < |b| && Entries(b)[i].f.seqno == s;
      assert b[i] in a;
      var j :| 0 <= j < |a| && a[j] == b[i];
      assert Entries(a)[j] == Entries(b)[i];
    }
  }

  lemma ChainVerdictPermutes(env: Env, a: seq<Value>, b: seq<Value>, keyring: Option<Value>, identity: Option<Value>,
                             checkpoint: Option<Value>)
    requires a != [] && b != [] && AllShaped(a) && AllShaped(b) && multiset(a) == multiset(b)
    ensures ChainVerdict(env, Entries(a), keyring, identity, checkpoint)
            == ChainVerdict(env, Entries(b), keyring, identity, checkpoint)
  {
    hide ReceiptShape, View, Index, IndexedVerdict, Indexes, Distinct, OneChain;
    var ea, eb := Entries(a), Entries(b);
    SameMembers(a, b);
    IndexMeaning(ea);
    IndexMeaning(eb);
    if OneChain(ea) { OneChainPermutes(a, b); }
    if OneChain(eb) { OneChainPermutes(b, a); }
    if Distinct(ea) { DistinctPermutes(a, b); }
    if Distinct(eb) { DistinctPermutes(b, a); }
    var ra, rb := Index(ea, ea[0].f.chain, 0, map[]), Index(eb, eb[0].f.chain, 0, map[]);
    if ra.Some? {
      IndexPermutes(a, b, ra.value, rb.value);
    }
  }

  /** Listing the same receipts in another order changes neither the verdict nor the warnings. */
  lemma OrderInvariant(env: Env, a: seq<Value>, b: seq<Value>, keyring: Option<Value>, identity: Option<Value>,
                       checkpoint: Option<Value>)
    requires multiset(a) == multiset(b)
    ensures Verdict(env, Some(Arr(a)), keyring, identity, checkpoint)
            == Verdict(env, Some(Arr(b)), keyring, identity, checkpoint)
  {
    hide ReceiptShape, ChainVerdict, TrustOk;
    SameMembers(a, b);
    assert AllShaped(a) <==> AllShaped(b) by { ShapedPermutes(a, b); }
    if a != [] && AllShaped(a) {
      ChainVerdictPermutes(env, a, b, keyring, identity, checkpoint);
    }
  }

  lemma ShapedPermutes(a: seq<Value>, b: seq<Value>)
    requires forall x :: x in a <==> x in b
    ensures AllShaped(a) <==> AllShaped(b)
  {
    hide ReceiptShape;
    assert AllShaped(a) <==> forall x | x in a :: ReceiptShape(x);
    assert AllShaped(b) <==> forall x | x in b :: ReceiptShape(x);
  }

  // ---- warnings --------------------------------------------------------------------------------

  /** The warning is due at its seq. */
  ghost predicate Due(m: BySeq, w: Warning) {
    w.at in m &&
    match w
    case TsBackwards(s) => s > 0 && s - 1 in m && Timestamp.TsOrder(m[s - 1].f.ts, m[s].f.ts) == Timestamp.Backwards
    case TsNotComparable(s) => s > 0 && s - 1 in m
        && Timestamp.TsOrder(m[s - 1].f.ts, m[s].f.ts) == Timestamp.NotComparable
    case DuplicateId(s) => exists t: nat :: t < s && t in m && m[t].f.id == m[s].f.id
  }

  lemma WarningsAtExact(m: BySeq, s: nat, w: Warning)
    ensures w in WarningsAt(m, s) <==> w.at == s && Due(m, w)
    ensures |WarningsAt(m, s)| <= 2
    ensures |WarningsAt(m, s)| == 2 ==> !WarningsAt(m, s)[0].DuplicateId? && WarningsAt(m, s)[1].DuplicateId?
  {
    hide Timestamp.TsOrder;
  }

  /** Every due warning is reported and no other. */
  lemma {:induction false} WarningsExact(m: BySeq, n: nat, w: Warning)
    ensures w in WarningsBelow(m, n) <==> w.at < n && Due(m, w)
  {
    hide Due, WarningsAt;
    if n > 0 {
      WarningsExact(m, n - 1, w);
      WarningsAtExact(m, n - 1, w);
    }
  }

  /** Seq order, and within one seq the timestamp code before the duplicate code. */
  ghost predicate InReportOrder(ws: seq<Warning>) {
    forall i, j | 0 <= i < j < |ws| ::
      ws[i].at < ws[j].at || (ws[i].at == ws[j].at && !ws[i].DuplicateId? && ws[j].DuplicateId?)
  }

  lemma {:induction false} WarningsOrdered(m: BySeq, n: nat)
    ensures InReportOrder(WarningsBelow(m, n))
  {
    hide WarningsAt, Due;
    if n > 0 {
      WarningsOrdered(m, n - 1);
      var below, here := WarningsBelow(m, n - 1), WarningsAt(m, n - 1);
      forall i | 0 <= i < |below| ensures below[i].at < n - 1 {
        assert below[i] in below;
        WarningsExact(m, n - 1, below[i]);
      }
      forall i | 0 <= i < |here| ensures here[i].at == n - 1 {
        WarningsAtExact(m, n - 1, here[i]);
        assert here[i] in here;
      }
      WarningsAtExact(m, n - 1, DuplicateId(0));
    }
  }

  /** A refusal reports nothing; an acceptance reports exactly what is due, in order. */
  lemma WarningsReported(env: Env, recs: seq<Value>, keyring: Option<Value>, identity: Option<Value>,
                         checkpoint: Option<Value>)
    ensures var v := Verdict(env, Some(Arr(recs)), keyring, identity, checkpoint);
            && (v.0 != VALID && v.0 != UNVERIFIED ==> v.1 == [])
            && (v.0 == VALID || v.0 == UNVERIFIED ==>
                  && recs != [] && AllShaped(recs)
                  && (exists m :: Indexes(m, Entries(recs)) && v.1 == WarningsBelow(m, |recs|)))
  {
    hide ReceiptShape, TrustOk;
    var v := Verdict(env, Some(Arr(recs)), keyring, identity, checkpoint);
    if recs != [] && TrustOk(keyring, identity) && AllShaped(recs) {
      ChainWarnings(env, Entries(recs), keyring, identity, checkpoint);
    }
  }

  lemma ChainWarnings(env: Env, es: seq<Entry>, keyring: Option<Value>, identity: Option<Value>,
                      checkpoint: Option<Value>)
    requires es != []
    ensures var v := ChainVerdict(env, es, keyring, identity, checkpoint);
            && (v.0 != VALID && v.0 != UNVERIFIED ==> v.1 == [])
            && (v.0 == VALID || v.0 == UNVERIFIED ==> exists m :: Indexes(m, es) && v.1 == WarningsBelow(m, |es|))
  {
    hide Index, TenantsAgree, WalkFrom, CheckpointRefusal, WarningsBelow, Indexes, Acceptable;
    IndexMeaning(es);
    var r := Index(es, es[0].f.chain, 0, map[]);
    if r.Some? {
      IndexedAccepts(env, es, r.value, keyring, identity, checkpoint);
      assert Indexes(r.value, es);
    }
  }

  // ---- tamper evidence -------------------------------------------------------------------------

  /** Two different hash inputs with one digest. */
  ghost predicate Collides(env: Env, x: Value, y: Value) {
    HashInput(x) != HashInput(y) && env.sha(HashInput(x)) == env.sha(HashInput(y))
  }

  lemma HashTextInjective(env: Env, a: bytes, b: bytes)
    requires HashText(env, a) == HashText(env, b)
    ensures env.sha(a) == env.sha(b)
  {
    hide Hex;
    assert HashText(env, a)[7..] == Hex(env.sha(a));
    assert HashText(env, b)[7..] == Hex(env.sha(b));
    HexInjective(env.sha(a), env.sha(b));
  }

  /** Everything the walk reads except the signature value is in the signed part. */
  lemma UnsignedView(a: Value, b: Value)
    requires ReceiptShape(a) && ReceiptShape(b) && Unsigned(a) == Unsigned(b)
    ensures View(a).(sig := "") == View(b).(sig := "")
  {
    hide IsHash, HasInstant, HasOneOf, GovernanceOk, ActionOk, Coherent;
    var ua, ub := Unsigned(a).members, Unsigned(b).members;
    assert forall k | k in RECEIPT_KEYS && k != "sig" :: Get(a, k) == ua[k] && Get(b, k) == ub[k];
    var sa, sb := Without(Get(a, "sig"), "value"), Without(Get(b, "sig"), "value");
    assert sa == ua["sig"] == ub["sig"] == sb;
    assert Get(Get(a, "sig"), "kid") == sa.members["kid"] == sb.members["kid"] == Get(Get(b, "sig"), "kid");
  }

  /** Honest entries: read from a well-shaped receipt, with the hash that covers it. */
  ghost predicate Genuine(env: Env, e: Entry) {
    ReceiptShape(e.r) && e.f == View(e.r) && HashOk(env, e)
  }

  /** One hash, one receipt: equal recorded hashes mean a collision or the same signed content. */
  lemma SameHash(env: Env, x: Entry, y: Entry)
    requires Genuine(env, x) && Genuine(env, y) && x.f.hash == y.f.hash
    ensures Collides(env, x.r, y.r) || (Unsigned(x.r) == Unsigned(y.r) && x.f.(sig := "") == y.f.(sig := ""))
  {
    hide ReceiptShape, View, HashInput, HashText, Unsigned;
    HashTextInjective(env, HashInput(x.r), HashInput(y.r));
    if HashInput(x.r) == HashInput(y.r) {
      HashInputDetermines(x.r, y.r);
      UnsignedView(x.r, y.r);
    }
  }

  /** The part of an index the walk has certified. */
  ghost predicate Certified(env: Env, m: BySeq, n: nat) {
    forall s: nat | s < n :: s in m && m[s].f.seqno == s && Genuine(env, m[s]) && Links(m, s)
  }

  /** A collision between some receipt of one chain and some receipt of the other. */
  ghost predicate CollisionBetween(env: Env, m: BySeq, m': BySeq) {
    exists s, t :: s in m && t in m' && Collides(env, m[s].r, m'[t].r)
  }

  lemma CollisionAt(env: Env, m: BySeq, m': BySeq, s: nat, t: nat)
    requires s in m && t in m' && Collides(env, m[s].r, m'[t].r)
    ensures CollisionBetween(env, m, m')
  {
    hide Collides;
  }

  lemma LinkedBack(m: BySeq, s: nat)
    requires s > 0 && s - 1 in m && Links(m, s)
    ensures m[s].f.prevHash == Some(m[s - 1].f.hash)
  {
  }

  /**
   * If any two receipts of two certified chains record the same hash, then either the two chains
   * exhibit a hash collision, or the receipts stand at the same seq and the chains agree on every
   * signed byte from the genesis up to it.
   */
  lemma {:induction false} SameHashSamePast(env: Env, m: BySeq, n: nat, m': BySeq, n': nat, s: nat, t: nat)
    requires Certified(env, m, n) && Certified(env, m', n')
    requires s < n && t < n' && m[s].f.hash == m'[t].f.hash
    ensures CollisionBetween(env, m, m') ||
            (s == t && forall u: nat | u <= s :: Unsigned(m[u].r) == Unsigned(m'[u].r))
    decreases s
  {
    hide Genuine, Collides, Unsigned, Links, CollisionBetween;
    SameHash(env, m[s], m'[t]);
    if Collides(env, m[s].r, m'[t].r) {
      CollisionAt(env, m, m', s, t);
    } else {
      assert m[s].f.(sig := "").seqno == m'[t].f.(sig := "").seqno;
      if s > 0 {
        assert m[s].f.(sig := "").prevHash == m'[t].f.(sig := "").prevHash;
        LinkedBack(m, s);
        LinkedBack(m', t);
        SameHashSamePast(env, m, n, m', n', s - 1, t - 1);
      }
    }
  }

  lemma GenuineEntry(env: Env, recs: seq<Value>, i: nat, keyring: Option<Value>, identity: Option<Value>)
    requires i < |recs| && AllShaped(recs) && EntryGood(env, keyring, identity, Entries(recs)[i])
    ensures Genuine(env, Entries(recs)[i])
  {
    hide ReceiptShape, View, HashOk;
  }

  lemma AcceptedIsCertified(env: Env, recs: seq<Value>, keyring: Option<Value>, identity: Option<Value>,
                            checkpoint: Option<Value>)
    returns (m: BySeq)
    requires recs != [] && AllShaped(recs) && Acceptable(env, Entries(recs), keyring, identity, checkpoint)
    ensures Full(m, Entries(recs)) && Certified(env, m, |recs|)
  {
    hide AllShaped, Entries, CheckpointGood, EntryGood, Genuine, Index, Links, OneKeyPerAgent, Linked, OneTenant,
         OneChain, Distinct, Indexes;
    var es := Entries(recs);
    IndexMeaning(es);
    m := Index(es, es[0].f.chain, 0, map[]).value;
    FullIndex(m, es);
    forall s: nat | s < |recs| ensures s in m && m[s].f.seqno == s && Genuine(env, m[s]) && Links(m, s) {
      EntriesGiveSeq(m, es, s);
      var i := EntryAt(m, es, s);
      GenuineEntry(env, recs, i, keyring, identity);
    }
  }

  /** Some receipt of one chain and some receipt of the other have different hash inputs and one digest. */
  ghost predicate AnyCollision(env: Env, a: seq<Value>, b: seq<Value>) {
    exists i, j :: 0 <= i < |a| && 0 <= j < |b| && Collides(env, a[i], b[j])
  }

  /** The receipts of two chains agree, on every signed byte, at each seq up to `s`. */
  ghost predicate AgreeUpTo(a: seq<Value>, b: seq<Value>, s: nat)
    requires AllShaped(a) && AllShaped(b)
  {
    forall i, j | 0 <= i < |a| && 0 <= j < |b| && Entries(a)[i].f.seqno == Entries(b)[j].f.seqno <= s ::
      Unsigned(a[i]) == Unsigned(b[j])
  }

  lemma CollisionListed(env: Env, a: seq<Value>, b: seq<Value>, ma: BySeq, mb: BySeq)
    requires AllShaped(a) && AllShaped(b) && Indexes(ma, Entries(a)) && Indexes(mb, Entries(b))
    requires CollisionBetween(env, ma, mb)
    ensures AnyCollision(env, a, b)
  {
    hide ReceiptShape, View, Collides;
    var u, w :| u in ma && w in mb && Collides(env, ma[u].r, mb[w].r);
    var p :| 0 <= p < |a| && Entries(a)[p].f.seqno == u;
    var q :| 0 <= q < |b| && Entries(b)[q].f.seqno == w;
    assert Collides(env, a[p], b[q]);
  }

  lemma AgreementListed(a: seq<Value>, b: seq<Value>, ma: BySeq, mb: BySeq, s: nat)
    requires AllShaped(a) && AllShaped(b) && Indexes(ma, Entries(a)) && Indexes(mb, Entries(b))
    requires forall u: nat | u <= s && u in ma && u in mb :: Unsigned(ma[u].r) == Unsigned(mb[u].r)
    ensures AgreeUpTo(a, b, s)
  {
    hide ReceiptShape, View, Unsigned;
  }

  /**
   * Tamper evidence for whole chains, whatever keyrings, manifests and checkpoints each was
   * accepted under: a recorded hash pins every signed byte of its receipt and of all before it.
   */
  lemma TamperEvidence(env: Env, a: seq<Value>, b: seq<Value>, ka: Option<Value>, kb: Option<Value>,
                       ia: Option<Value>, ib: Option<Value>, ca: Option<Value>, cb: Option<Value>, i: nat, j: nat)
    requires Accepted(Verdict(env, Some(Arr(a)), ka, ia, ca).0) && Accepted(Verdict(env, Some(Arr(b)), kb, ib, cb).0)
    requires AllShaped(a) && AllShaped(b)
    requires i < |a| && j < |b| && Entries(a)[i].f.hash == Entries(b)[j].f.hash
    ensures AnyCollision(env, a, b)
            || (Entries(a)[i].f.seqno == Entries(b)[j].f.seqno && AgreeUpTo(a, b, Entries(a)[i].f.seqno))
  {
    hide Verdict, AllShaped, Entries, Acceptable, Certified, CollisionBetween, AnyCollision, AgreeUpTo, Unsigned;
    AcceptedMeans(env, Some(Arr(a)), ka, ia, ca);
    AcceptedMeans(env, Some(Arr(b)), kb, ib, cb);
    var ma := AcceptedIsCertified(env, a, ka, ia, ca);
    var mb := AcceptedIsCertified(env, b, kb, ib, cb);
    var s, t := Entries(a)[i].f.seqno, Entries(b)[j].f.seqno;
    SameHashSamePast(env, ma, |a|, mb, |b|, s, t);
    if CollisionBetween(env, ma, mb) {
      CollisionListed(env, a, b, ma, mb);
    } else {
      AgreementListed(a, b, ma, mb, s);
    }
  }

  /** Two different checkpoint hash inputs with one digest. */
  ghost predicate CheckpointsCollide(env: Env, a: Value, b: Value) {
    CheckpointHashInput(a) != CheckpointHashInput(b)
        && env.sha(CheckpointHashInput(a)) == env.sha(CheckpointHashInput(b))
  }

  /**
   * One signed message, one checkpoint: two checkpoints a signature could stand for alike name the same chain, seq,
   * head hash, time and kid and are equal up to sig.value, or their hash inputs collide.
   */
  lemma SameCheckpoint(env: Env, a: Value, b: Value)
    requires CheckpointShape(a) && CheckpointShape(b)
    requires Message(env, CHECKPOINT_DOMAIN, CheckpointHashInput(a))
            == Message(env, CHECKPOINT_DOMAIN, CheckpointHashInput(b))
    ensures CheckpointsCollide(env, a, b)
            || (Unsigned(a) == Unsigned(b) && CheckpointView(a).(sig := "") == CheckpointView(b).(sig := ""))
  {
    hide CheckpointShape, CheckpointView, CheckpointHashInput, Unsigned, EncodeText;
    var tag := EncodeText(CHECKPOINT_DOMAIN);
    var x, y := env.sha(CheckpointHashInput(a)), env.sha(CheckpointHashInput(b));
    assert (tag + x)[|tag|..] == x && (tag + y)[|tag|..] == y;
    if CheckpointHashInput(a) == CheckpointHashInput(b) {
      CheckpointInputDetermines(a, b);
    }
  }

  // ---- prefixes --------------------------------------------------------------------------------

  /** The receipts of an acceptable chain below any seq are themselves an acceptable chain. */
  lemma PrefixAcceptable(env: Env, es: seq<Entry>, fs: seq<Entry>, keyring: Option<Value>, identity: Option<Value>)
    requires Acceptable(env, es, keyring, identity, None)
    requires ExactSeqs(fs) && forall i | 0 <= i < |fs| :: fs[i] in es
    ensures Acceptable(env, fs, keyring, identity, None)
  {
    hide EntryGood, ExactSeqs;
    forall i, j | 0 <= i < |fs| && 0 <= j < |fs|
      ensures fs[i].f.chain == fs[j].f.chain
      ensures fs[i].f.tenant.Some? && fs[j].f.tenant.Some? ==> fs[i].f.tenant == fs[j].f.tenant
      ensures fs[i].f.agent == fs[j].f.agent ==> fs[i].f.kid == fs[j].f.kid
      ensures fs[j].f.seqno == fs[i].f.seqno + 1 ==> fs[j].f.prevHash == Some(fs[i].f.hash)
    {
      assert fs[i] in es && fs[j] in es;
      var k :| 0 <= k < |es| && es[k] == fs[i];
      var l :| 0 <= l < |es| && es[l] == fs[j];
    }
    forall i | 0 <= i < |fs|
        ensures EntryGood(env, keyring, identity, fs[i]) && (fs[i].f.seqno == 0 ==> fs[i].f.prevHash == None) {
      var k :| 0 <= k < |es| && es[k] == fs[i];
    }
  }

  // ---- the signing domains ---------------------------------------------------------------------

  lemma {:induction false} AsciiOctet(t: string, i: nat)
    requires i < |t| && forall j | 0 <= j <= i :: t[j] as int < 0x80
    ensures i < |EncodeText(t)| && EncodeText(t)[i] == t[i] as int
    decreases i
  {
    if i > 0 {
      AsciiOctet(t[1..], i - 1);
    }
  }

  /** No receipt message is a checkpoint message, whatever is hashed. */
  lemma DomainsSeparate(env: Env, a: bytes, b: bytes)
    ensures Message(env, RECEIPT_DOMAIN, a) != Message(env, CHECKPOINT_DOMAIN, b)
  {
    hide EncodeText;
    AsciiOctet(RECEIPT_DOMAIN, 4);
    AsciiOctet(CHECKPOINT_DOMAIN, 4);
    assert Message(env, RECEIPT_DOMAIN, a)[4] == EncodeText(RECEIPT_DOMAIN)[4];
    assert Message(env, CHECKPOINT_DOMAIN, b)[4] == EncodeText(CHECKPOINT_DOMAIN)[4];
  }
}
