/** What a VALID chain is, said without the walk; and what the walk reports. */
module ChainMeaning {
  import opened Prelude
  import opened Json
  import opened Receipt
  import opened Verify

  // ---- the index -------------------------------------------------------------------------------

  ghost predicate Distinct(es: seq<Entry>) {
    forall i, j | 0 <= i < j < |es| :: es[i].f.seqno != es[j].f.seqno
  }

  ghost predicate OneChain(es: seq<Entry>) {
    forall i, j | 0 <= i < |es| && 0 <= j < |es| :: es[i].f.chain == es[j].f.chain
  }

  /** `m` holds exactly the entries of `es`, each under its own sequence number. */
  ghost predicate Indexes(m: BySeq, es: seq<Entry>) {
    && (forall i | 0 <= i < |es| :: es[i].f.seqno in m && m[es[i].f.seqno] == es[i])
    && (forall s | s in m :: exists i :: 0 <= i < |es| && es[i].f.seqno == s)
  }

  lemma {:induction false} IndexSound(es: seq<Entry>, chain: string, i: nat, acc: BySeq, m: BySeq)
    requires i <= |es| && Index(es, chain, i, acc) == Some(m)
    ensures forall j | i <= j < |es| :: es[j].f.chain == chain && es[j].f.seqno !in acc
    ensures forall j | i <= j < |es| :: es[j].f.seqno in m && m[es[j].f.seqno] == es[j]
    ensures forall j, k | i <= j < k < |es| :: es[j].f.seqno != es[k].f.seqno
    ensures forall s | s in acc :: s in m && m[s] == acc[s]
    ensures forall s | s in m :: s in acc || exists j :: i <= j < |es| && es[j].f.seqno == s
    decreases |es| - i
  {
    if i < |es| {
      IndexSound(es, chain, i + 1, acc[es[i].f.seqno := es[i]], m);
    }
  }

  lemma {:induction false} IndexComplete(es: seq<Entry>, chain: string, i: nat, acc: BySeq)
    requires i <= |es|
    requires forall j | i <= j < |es| :: es[j].f.chain == chain && es[j].f.seqno !in acc
    requires forall j, k | i <= j < k < |es| :: es[j].f.seqno != es[k].f.seqno
    ensures Index(es, chain, i, acc).Some?
    decreases |es| - i
  {
    if i < |es| {
      IndexComplete(es, chain, i + 1, acc[es[i].f.seqno := es[i]]);
    }
  }

  /** The index exists exactly when there is one chain id and no repeated sequence number. */
  lemma IndexMeaning(es: seq<Entry>)
    requires es != []
    ensures Index(es, es[0].f.chain, 0, map[]).Some? <==> OneChain(es) && Distinct(es)
    ensures forall m :: Index(es, es[0].f.chain, 0, map[]) == Some(m) ==> Indexes(m, es)
  {
    var r := Index(es, es[0].f.chain, 0, map[]);
    if r.Some? {
      IndexSound(es, es[0].f.chain, 0, map[], r.value);
    }
    if OneChain(es) && Distinct(es) {
      IndexComplete(es, es[0].f.chain, 0, map[]);
    }
  }

  // ---- counting --------------------------------------------------------------------------------

  function UpTo(n: nat): (r: set<nat>)
    ensures forall s: nat :: s in r <==> s < n
    ensures |r| == n
  {
    if n == 0 then {} else UpTo(n - 1) + {n - 1}
  }

  lemma SubsetSameSize(a: set<nat>, b: set<nat>)
    requires a <= b && |a| >= |b|
    ensures a == b
  {
    if x :| x in b && x !in a {
      assert a <= b - {x};
      SubsetSize(a, b - {x});
    }
  }

  lemma {:induction false} SubsetSize(a: set<nat>, b: set<nat>)
    requires a <= b
    ensures |a| <= |b|
  {
    if a != {} {
      var x :| x in a;
      SubsetSize(a - {x}, b - {x});
    }
  }

  /** The sequence numbers of the first `i` entries. */
  function SeqSet(es: seq<Entry>, i: nat): set<nat>
    requires i <= |es|
  {
    if i == 0 then {} else SeqSet(es, i - 1) + {es[i - 1].f.seqno}
  }

  lemma {:induction false} SeqSetMembers(es: seq<Entry>, i: nat, s: nat)
    requires i <= |es|
    ensures s in SeqSet(es, i) <==> exists j :: 0 <= j < i && es[j].f.seqno == s
  {
    if i > 0 {
      SeqSetMembers(es, i - 1, s);
    }
  }

  lemma {:induction false} DistinctKeys(es: seq<Entry>, i: nat)
    requires i <= |es| && Distinct(es)
    ensures |SeqSet(es, i)| == i
  {
    if i > 0 {
      DistinctKeys(es, i - 1);
      assert es[i - 1].f.seqno !in SeqSet(es, i - 1) by { SeqSetMembers(es, i - 1, es[i - 1].f.seqno); }
    }
  }

  lemma KeysCounted(m: BySeq, es: seq<Entry>)
    requires Indexes(m, es) && Distinct(es)
    ensures |m.Keys| == |es|
  {
    DistinctKeys(es, |es|);
    forall s: nat ensures s in m.Keys <==> s in SeqSet(es, |es|) {
      SeqSetMembers(es, |es|, s);
    }
    assert m.Keys == SeqSet(es, |es|);
  }

  /** `n` distinct numbers below `n` are exactly 0..n-1, and conversely. */
  lemma ExactlyAllSeqs(m: BySeq, es: seq<Entry>)
    requires Indexes(m, es) && Distinct(es)
    ensures (forall s: nat | s < |es| :: s in m) <==> (forall i | 0 <= i < |es| :: es[i].f.seqno < |es|)
  {
    KeysCounted(m, es);
    var n := |es|;
    if forall s: nat | s < n :: s in m {
      SubsetSameSize(UpTo(n), m.Keys);
      forall i | 0 <= i < n ensures es[i].f.seqno < n {
        assert es[i].f.seqno in m.Keys;
      }
    }
    if forall i | 0 <= i < n :: es[i].f.seqno < n {
      assert m.Keys <= UpTo(n);
      SubsetSameSize(m.Keys, UpTo(n));
    }
  }

  // ---- tenants ---------------------------------------------------------------------------------

  /** No gap from `s` up to and including `t`. */
  ghost predicate Reached(m: BySeq, s: nat, t: nat) { forall r: nat | s <= r <= t :: r in m }

  ghost predicate TenantFollows(m: BySeq, n: nat, s: nat, last: Option<string>) {
    forall t: nat | s <= t < n && Reached(m, s, t) ::
      t in m && (m[t].f.tenant.Some? && last.Some? ==> m[t].f.tenant == last)
  }

  /** Any two tenants present between `s` and the first gap are equal. */
  ghost predicate TenantsEqual(m: BySeq, n: nat, s: nat) {
    forall t: nat, u: nat | s <= t < n && s <= u < n && Reached(m, s, t) && Reached(m, s, u) ::
      t in m && u in m && (m[t].f.tenant.Some? && m[u].f.tenant.Some? ==> m[t].f.tenant == m[u].f.tenant)
  }

  lemma ReachedNext(m: BySeq, s: nat, t: nat)
    requires s in m && s < t
    ensures Reached(m, s, t) <==> Reached(m, s + 1, t)
  {
  }

  /** The carried tenant agrees exactly when all tenants before the first gap are equal, to each other and to it. */
  lemma {:induction false} TenantsMeaning(m: BySeq, n: nat, s: nat, last: Option<string>)
    requires s <= n
    ensures TenantsAgree(m, n, s, last) <==> TenantFollows(m, n, s, last) && TenantsEqual(m, n, s)
    decreases n - s
  {
    hide Reached;
    if s < n {
      if s in m {
        assert Reached(m, s, s) by { ReachedSelf(m, s); }
        forall t: nat | s < t ensures Reached(m, s, t) <==> Reached(m, s + 1, t) {
          ReachedNext(m, s, t);
        }
        var t := m[s].f.tenant;
        TenantsMeaning(m, n, s + 1, if t.Some? then t else last);
        TenantsStep(m, n, s, last);
      } else {
        forall t: nat | s <= t ensures !Reached(m, s, t) {
          GapStops(m, s, t);
        }
      }
    }
  }

  lemma ReachedSelf(m: BySeq, s: nat)
    requires s in m
    ensures Reached(m, s, s)
  {
  }

  lemma GapStops(m: BySeq, s: nat, t: nat)
    requires s !in m && s <= t
    ensures !Reached(m, s, t)
  {
  }

  /** One seq more: its own tenant is compared once, then carried. */
  lemma TenantsStep(m: BySeq, n: nat, s: nat, last: Option<string>)
    requires s < n && s in m && Reached(m, s, s)
    requires forall t: nat | s < t :: Reached(m, s, t) <==> Reached(m, s + 1, t)
    ensures var t := m[s].f.tenant;
            TenantFollows(m, n, s, last) && TenantsEqual(m, n, s) <==>
            && (t.Some? && last.Some? ==> t == last)
            && TenantFollows(m, n, s + 1, if t.Some? then t else last) && TenantsEqual(m, n, s + 1)
  {
    hide Reached;
  }

  // ---- the walk --------------------------------------------------------------------------------

  /** The checks that concern one receipt alone. */
  ghost predicate EntryGood(env: Env, keyring: Option<Value>, identity: Option<Value>, e: Entry) {
    && HashOk(env, e)
    && (keyring.Some? ==> Signed(env, keyring, e))
    && (keyring.Some? && identity.Some? ==> Authorized(identity.value, e.f.agent, e.f.kid))
  }

  /** No lower seq has this agent under another key. */
  ghost predicate KeyContinues(m: BySeq, s: nat) {
    s in m && forall t: nat | t < s && t in m :: m[t].f.agent == m[s].f.agent ==> m[t].f.kid == m[s].f.kid
  }

  ghost predicate Links(m: BySeq, s: nat) {
    s in m && m[s].f.prevHash == (if Before(m, s).Some? then Some(Before(m, s).value.f.hash) else None)
  }

  /** Everything seq `s` has to satisfy, given the lower ones. */
  ghost predicate SeqGood(env: Env, keyring: Option<Value>, identity: Option<Value>, m: BySeq, s: nat) {
    s in m && EntryGood(env, keyring, identity, m[s]) && KeyContinues(m, s) && Links(m, s)
  }

  /** The receipt at a lower seq carrying the same id makes this one a duplicate. */
  ghost predicate Duplicate(m: BySeq, s: nat) {
    s in m && exists t: nat :: t < s && t in m && m[t].f.id == m[s].f.id
  }

  /** What the walk reports at seq `s`: its timestamp code, then its duplicate code. */
  ghost function WarningsAt(m: BySeq, s: nat): seq<Warning> {
    (if s in m && Before(m, s).Some? then TsWarning(Before(m, s).value, m[s], s) else [])
    + (if Duplicate(m, s) then [DuplicateId(s)] else [])
  }

  ghost function WarningsBelow(m: BySeq, n: nat): seq<Warning> {
    if n == 0 then [] else WarningsBelow(m, n - 1) + WarningsAt(m, n - 1)
  }

  ghost predicate Pins(m: BySeq, s: nat, pinned: map<string, string>) {
    && (forall t: nat | t < s :: t in m && m[t].f.agent in pinned && pinned[m[t].f.agent] == m[t].f.kid)
    && (forall a | a in pinned :: exists t: nat :: t < s && t in m && m[t].f.agent == a)
  }

  ghost predicate Sees(m: BySeq, s: nat, seen: set<string>) {
    && (forall t: nat | t < s :: t in m && m[t].f.id in seen)
    && (forall x | x in seen :: exists t: nat :: t < s && t in m && m[t].f.id == x)
  }

  /** What the walk has remembered after the seqs below `s`. */
  ghost predicate Remembers(m: BySeq, s: nat, w: Walk) {
    Pins(m, s, w.pinned) && Sees(m, s, w.seen) && w.warnings == WarningsBelow(m, s)
  }

  lemma PinsMeaning(m: BySeq, s: nat, pinned: map<string, string>)
    requires s in m && Pins(m, s, pinned)
    ensures KeyContinues(m, s) <==> !(m[s].f.agent in pinned && pinned[m[s].f.agent] != m[s].f.kid)
    ensures KeyContinues(m, s) ==> Pins(m, s + 1, pinned[m[s].f.agent := m[s].f.kid])
  {
    var a := m[s].f.agent;
    if a in pinned {
      var t: nat :| t < s && t in m && m[t].f.agent == a;
      assert pinned[a] == m[t].f.kid;
    }
    if KeyContinues(m, s) {
      var p := pinned[a := m[s].f.kid];
      forall x | x in p ensures exists t: nat :: t < s + 1 && t in m && m[t].f.agent == x {
        if x == a {
          assert s in m && m[s].f.agent == x;
        } else {
          var t: nat :| t < s && t in m && m[t].f.agent == x;
        }
      }
    }
  }

  lemma SeesMeaning(m: BySeq, s: nat, seen: set<string>)
    requires s in m && Sees(m, s, seen)
    ensures m[s].f.id in seen <==> Duplicate(m, s)
    ensures Sees(m, s + 1, seen + {m[s].f.id})
  {
    var next := seen + {m[s].f.id};
    forall x | x in next ensures exists t: nat :: t < s + 1 && t in m && m[t].f.id == x {
      if x in seen {
        var t: nat :| t < s && t in m && m[t].f.id == x;
      } else {
        assert s in m && m[s].f.id == x;
      }
    }
  }

  lemma RefusalMeaning(env: Env, keyring: Option<Value>, identity: Option<Value>, m: BySeq, s: nat,
                       pinned: map<string, string>)
    requires s in m && Pins(m, s, pinned)
    ensures Refusal(env, keyring, identity, m[s], Before(m, s), pinned).None? <==> SeqGood(env, keyring, identity, m, s)
  {
    hide HashOk, Signed, Authorized, Pins, KeyContinues;
    PinsMeaning(m, s, pinned);
  }

  lemma StepRemembers(env: Env, keyring: Option<Value>, identity: Option<Value>, m: BySeq, s: nat, w: Walk)
    requires Remembers(m, s, w)
    ensures var r := Step(env, keyring, identity, m, s, w);
            && (r.Go? <==> SeqGood(env, keyring, identity, m, s))
            && (r.Go? ==> Remembers(m, s + 1, r.walk))
  {
    hide Refusal, EntryGood, TsWarning, Pins, Sees, Duplicate, KeyContinues, Links;
    if s in m {
      RefusalMeaning(env, keyring, identity, m, s, w.pinned);
      PinsMeaning(m, s, w.pinned);
      SeesMeaning(m, s, w.seen);
    }
  }

  lemma RemembersWarnings(m: BySeq, s: nat, w: Walk)
    requires Remembers(m, s, w)
    ensures w.warnings == WarningsBelow(m, s)
  {
  }

  /** The walk goes through exactly when every seq is good, and reports what each seq calls for. */
  lemma {:induction false} WalkMeaning(env: Env, keyring: Option<Value>, identity: Option<Value>, m: BySeq, n: nat,
                                       s: nat, w: Walk)
    requires s <= n && Remembers(m, s, w)
    ensures var r := WalkFrom(env, keyring, identity, m, n, s, w);
            && (r.Go? <==> forall t: nat | s <= t < n :: SeqGood(env, keyring, identity, m, t))
            && (r.Go? ==> r.walk.warnings == WarningsBelow(m, n))
    decreases n - s
  {
    hide Step, SeqGood, Remembers, WarningsBelow;
    if s == n {
      assert w.warnings == WarningsBelow(m, n) by { RemembersWarnings(m, n, w); }
    } else {
      StepRemembers(env, keyring, identity, m, s, w);
      var r := Step(env, keyring, identity, m, s, w);
      if r.Go? {
        WalkMeaning(env, keyring, identity, m, n, s + 1, r.walk);
      } else {
        assert !SeqGood(env, keyring, identity, m, s);
      }
    }
  }

  // ---- the meaning of acceptance ---------------------------------------------------------------

  /** The head, the genesis and the checkpoint agree, and the checkpoint is authentic and authorised. */
  ghost predicate CheckpointGood(env: Env, es: seq<Entry>, keyring: Option<Value>, identity: Option<Value>, cp: Value) {
    && CheckpointShape(cp)
    && var f := CheckpointView(cp);
    && (keyring.Some? ==> CheckpointStatus(env, cp, keyring) == CpOk)
    && f.highestSeq == |es| - 1
    && (forall i | 0 <= i < |es| :: f.chain == es[i].f.chain)
    && (forall i | 0 <= i < |es| && es[i].f.seqno == |es| - 1 :: f.headHash == es[i].f.hash)
    && (keyring.Some? && identity.Some? ==>
          forall i | 0 <= i < |es| && es[i].f.seqno == 0 :: Authorized(identity.value, es[i].f.agent, f.kid))
  }

  /** Two receipts that follow each other are linked, and the first one links to nothing. */
  ghost predicate Linked(es: seq<Entry>) {
    && (forall i | 0 <= i < |es| && es[i].f.seqno == 0 :: es[i].f.prevHash == None)
    && (forall i, j | 0 <= i < |es| && 0 <= j < |es| && es[j].f.seqno == es[i].f.seqno + 1 ::
          es[j].f.prevHash == Some(es[i].f.hash))
  }

  ghost predicate OneTenant(es: seq<Entry>) {
    forall i, j | 0 <= i < |es| && 0 <= j < |es| ::
      es[i].f.tenant.Some? && es[j].f.tenant.Some? ==> es[i].f.tenant == es[j].f.tenant
  }

  ghost predicate OneKeyPerAgent(es: seq<Entry>) {
    forall i, j | 0 <= i < |es| && 0 <= j < |es| :: es[i].f.agent == es[j].f.agent ==> es[i].f.kid == es[j].f.kid
  }

  /** The sequence numbers are exactly 0..n-1. */
  ghost predicate ExactSeqs(es: seq<Entry>) {
    Distinct(es) && forall i | 0 <= i < |es| :: es[i].f.seqno < |es|
  }

  /** An acceptable chain, in whatever order its receipts are listed. */
  ghost predicate Acceptable(env: Env, es: seq<Entry>, keyring: Option<Value>, identity: Option<Value>,
                             checkpoint: Option<Value>) {
    && ExactSeqs(es) && OneChain(es) && OneTenant(es) && OneKeyPerAgent(es) && Linked(es)
    && (forall i | 0 <= i < |es| :: EntryGood(env, keyring, identity, es[i]))
    && (checkpoint.Some? ==> CheckpointGood(env, es, keyring, identity, checkpoint.value))
  }

  /** An index with every seq present, on which "some entry" and "some seq" are the same thing. */
  ghost predicate Full(m: BySeq, es: seq<Entry>) {
    && Indexes(m, es)
    && (forall s: nat | s < |es| :: s in m && m[s].f.seqno == s)
    && (forall i | 0 <= i < |es| :: es[i].f.seqno < |es|)
  }

  lemma FullIndex(m: BySeq, es: seq<Entry>)
    requires Indexes(m, es) && ExactSeqs(es)
    ensures Full(m, es)
  {
    ExactlyAllSeqs(m, es);
    forall s: nat | s < |es| ensures s in m && m[s].f.seqno == s {
      assert s in m;
      var i :| 0 <= i < |es| && es[i].f.seqno == s;
    }
  }

  lemma EntryAt(m: BySeq, es: seq<Entry>, s: nat) returns (i: nat)
    requires Full(m, es) && s < |es|
    ensures i < |es| && es[i].f.seqno == s && es[i] == m[s]
  {
    assert s in m;
    i :| 0 <= i < |es| && es[i].f.seqno == s;
  }

  lemma SeqGoodMeaning(env: Env, keyring: Option<Value>, identity: Option<Value>, m: BySeq, es: seq<Entry>)
    requires Full(m, es)
    ensures (forall s: nat | s < |es| :: SeqGood(env, keyring, identity, m, s)) <==>
            (forall i | 0 <= i < |es| :: EntryGood(env, keyring, identity, es[i])) && OneKeyPerAgent(es) && Linked(es)
  {
    hide EntryGood;
    if forall s: nat | s < |es| :: SeqGood(env, keyring, identity, m, s) {
      forall i | 0 <= i < |es| ensures EntryGood(env, keyring, identity, es[i]) {
        assert SeqGood(env, keyring, identity, m, es[i].f.seqno);
      }
      forall s: nat | s < |es| ensures KeyContinues(m, s) && Links(m, s) {
        assert SeqGood(env, keyring, identity, m, s);
      }
      SeqsGiveEntries(m, es);
    }
    if (forall i | 0 <= i < |es| :: EntryGood(env, keyring, identity, es[i])) && OneKeyPerAgent(es) && Linked(es) {
      forall s: nat | s < |es| ensures SeqGood(env, keyring, identity, m, s) {
        EntriesGiveSeq(m, es, s);
        var i := EntryAt(m, es, s);
      }
    }
  }

  lemma SeqsGiveEntries(m: BySeq, es: seq<Entry>)
    requires Full(m, es)
    requires forall s: nat | s < |es| :: KeyContinues(m, s) && Links(m, s)
    ensures OneKeyPerAgent(es) && Linked(es)
  {
    forall i, j | 0 <= i < |es| && 0 <= j < |es| && es[i].f.agent == es[j].f.agent ensures es[i].f.kid == es[j].f.kid {
      var s, t := es[i].f.seqno, es[j].f.seqno;
      assert KeyContinues(m, s) && KeyContinues(m, t);
    }
    forall i | 0 <= i < |es| && es[i].f.seqno == 0 ensures es[i].f.prevHash == None {
      assert Links(m, 0);
    }
    forall i, j | 0 <= i < |es| && 0 <= j < |es| && es[j].f.seqno == es[i].f.seqno + 1
        ensures es[j].f.prevHash == Some(es[i].f.hash) {
      assert Links(m, es[j].f.seqno);
    }
  }

  lemma EntriesGiveSeq(m: BySeq, es: seq<Entry>, s: nat)
    requires Full(m, es) && s < |es|
    requires OneKeyPerAgent(es) && Linked(es)
    ensures KeyContinues(m, s) && Links(m, s)
  {
    var i := EntryAt(m, es, s);
    forall t: nat | t < s && t in m && m[t].f.agent == m[s].f.agent ensures m[t].f.kid == m[s].f.kid {
      var j := EntryAt(m, es, t);
    }
    if s > 0 {
      var j := EntryAt(m, es, s - 1);
    }
  }

  lemma TenantMeaning(m: BySeq, es: seq<Entry>)
    requires Full(m, es)
    ensures TenantsAgree(m, |es|, 0, None) <==> OneTenant(es)
  {
    TenantsMeaning(m, |es|, 0, None);
    forall t: nat | t < |es| ensures Reached(m, 0, t) {
    }
    if TenantsAgree(m, |es|, 0, None) {
      forall i, j | 0 <= i < |es| && 0 <= j < |es| && es[i].f.tenant.Some? && es[j].f.tenant.Some?
          ensures es[i].f.tenant == es[j].f.tenant {
        assert m[es[i].f.seqno] == es[i] && m[es[j].f.seqno] == es[j];
      }
    }
    if OneTenant(es) {
      forall t: nat, u: nat | t < |es| && u < |es| && m[t].f.tenant.Some? && m[u].f.tenant.Some?
          ensures m[t].f.tenant == m[u].f.tenant {
        var i := EntryAt(m, es, t);
        var j := EntryAt(m, es, u);
      }
    }
  }

  lemma CheckpointMeaning(env: Env, keyring: Option<Value>, identity: Option<Value>, m: BySeq, es: seq<Entry>,
                          cp: Value)
    requires es != [] && Full(m, es) && OneChain(es)
    ensures CheckpointRefusal(env, keyring, identity, m[0], m[|es| - 1], cp).None?
            <==> CheckpointGood(env, es, keyring, identity, cp)
  {
    hide SignatureOk, HasText, CheckpointShape, Authorized;
    var g := EntryAt(m, es, 0);
    var h := EntryAt(m, es, |es| - 1);
    forall i | 0 <= i < |es| ensures m[es[i].f.seqno] == es[i] && es[i].f.chain == m[0].f.chain {
    }
  }

  function Accepting(keyring: Option<Value>): Status { if keyring.Some? then VALID else UNVERIFIED }

  lemma IndexedAccepts(env: Env, es: seq<Entry>, m: BySeq, keyring: Option<Value>, identity: Option<Value>,
                       checkpoint: Option<Value>)
    requires es != [] && Indexes(m, es) && OneChain(es) && Distinct(es)
    ensures IndexedVerdict(env, m, |es|, keyring, identity, checkpoint).0 == Accepting(keyring)
            <==> Acceptable(env, es, keyring, identity, checkpoint)
    ensures Acceptable(env, es, keyring, identity, checkpoint) ==>
              IndexedVerdict(env, m, |es|, keyring, identity, checkpoint).1 == WarningsBelow(m, |es|)
  {
    hide TenantsAgree, WalkFrom, CheckpointRefusal, EntryGood, CheckpointGood, Indexes, OneTenant, OneKeyPerAgent,
         Linked, SeqGood, WarningsBelow, Distinct;
    var n := |es|;
    WalkMeaning(env, keyring, identity, m, n, 0, START) by { StartRemembers(m); }
    if ExactSeqs(es) {
      FullIndex(m, es);
      TenantMeaning(m, es);
      SeqGoodMeaning(env, keyring, identity, m, es);
      if checkpoint.Some? {
        CheckpointMeaning(env, keyring, identity, m, es, checkpoint.value);
      }
    } else {
      ExactlyAllSeqs(m, es);
      var s: nat :| s < n && s !in m;
      assert !SeqGood(env, keyring, identity, m, s) by { GapIsBad(env, keyring, identity, m, s); }
    }
  }

  lemma StartRemembers(m: BySeq)
    ensures Remembers(m, 0, START)
  {
  }

  lemma GapIsBad(env: Env, keyring: Option<Value>, identity: Option<Value>, m: BySeq, s: nat)
    requires s !in m
    ensures !SeqGood(env, keyring, identity, m, s)
  {
  }

  /** The verdict on entries is an acceptance exactly for acceptable chains. */
  lemma ChainAccepts(env: Env, es: seq<Entry>, keyring: Option<Value>, identity: Option<Value>,
                     checkpoint: Option<Value>)
    requires es != []
    ensures ChainVerdict(env, es, keyring, identity, checkpoint).0 == Accepting(keyring)
            <==> Acceptable(env, es, keyring, identity, checkpoint)
  {
    hide Index, IndexedVerdict, EntryGood, CheckpointGood, Indexes, OneTenant, OneKeyPerAgent, Linked, Distinct,
         OneChain;
    IndexMeaning(es);
    var r := Index(es, es[0].f.chain, 0, map[]);
    if r.Some? {
      IndexedAccepts(env, es, r.value, keyring, identity, checkpoint);
    }
  }

  /** VALID means exactly: a keyring, well-formed inputs, and an acceptable chain. */
  lemma ValidMeans(env: Env, receipts: Option<Value>, keyring: Option<Value>, identity: Option<Value>,
                   checkpoint: Option<Value>)
    ensures Verdict(env, receipts, keyring, identity, checkpoint).0 == VALID <==>
            && keyring.Some? && TrustOk(keyring, identity)
            && receipts.Some? && receipts.value.Arr? && receipts.value.items != [] && AllShaped(receipts.value.items)
            && Acceptable(env, Entries(receipts.value.items), keyring, identity, checkpoint)
  {
    hide TrustOk, AllShaped, ChainVerdict, Acceptable;
    if receipts.Some? && receipts.value.Arr? && receipts.value.items != [] && AllShaped(receipts.value.items) {
      ChainAccepts(env, Entries(receipts.value.items), keyring, identity, checkpoint);
      NeverBoth(env, Entries(receipts.value.items), keyring, identity, checkpoint);
    }
  }

  predicate Accepted(status: Status) { status == VALID || status == UNVERIFIED }

  /** Acceptance, with or without a keyring, means exactly well-formed inputs and an acceptable chain. */
  lemma AcceptedMeans(env: Env, receipts: Option<Value>, keyring: Option<Value>, identity: Option<Value>,
                      checkpoint: Option<Value>)
    ensures Accepted(Verdict(env, receipts, keyring, identity, checkpoint).0) <==>
            && TrustOk(keyring, identity)
            && receipts.Some? && receipts.value.Arr? && receipts.value.items != [] && AllShaped(receipts.value.items)
            && Acceptable(env, Entries(receipts.value.items), keyring, identity, checkpoint)
  {
    hide TrustOk, AllShaped, ChainVerdict, Acceptable;
    if receipts.Some? && receipts.value.Arr? && receipts.value.items != [] && AllShaped(receipts.value.items) {
      ChainAccepts(env, Entries(receipts.value.items), keyring, identity, checkpoint);
      NeverBoth(env, Entries(receipts.value.items), keyring, identity, checkpoint);
    }
  }

  /** Without a keyring nothing is VALID, and with one nothing is UNVERIFIED. */
  lemma NeverBoth(env: Env, es: seq<Entry>, keyring: Option<Value>, identity: Option<Value>, checkpoint: Option<Value>)
    requires es != []
    ensures ChainVerdict(env, es, keyring, identity, checkpoint).0 == VALID ==> keyring.Some?
    ensures ChainVerdict(env, es, keyring, identity, checkpoint).0 == UNVERIFIED ==> keyring.None?
  {
    hide WalkFrom, CheckpointRefusal, TenantsAgree, Index;
  }
}
