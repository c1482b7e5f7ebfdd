/** What each refusal means: MALFORMED is about the inputs, UNTRUSTED about authorisation alone, TAMPERED the rest. */
module Refusals {
  import opened Prelude
  import opened Json
  import opened Receipt
  import opened Verify
  import opened ChainMeaning

  ghost predicate InputsOk(receipts: Option<Value>, keyring: Option<Value>, identity: Option<Value>) {
    && TrustOk(keyring, identity)
    && receipts.Some? && receipts.value.Arr? && receipts.value.items != [] && AllShaped(receipts.value.items)
  }

  /** MALFORMED says exactly that some input is not well formed, whatever hashes and signatures say. */
  lemma MalformedMeans(env: Env, receipts: Option<Value>, keyring: Option<Value>, identity: Option<Value>,
                       checkpoint: Option<Value>)
    ensures Verdict(env, receipts, keyring, identity, checkpoint).0 == MALFORMED
            <==> !InputsOk(receipts, keyring, identity)
  {
    hide TrustOk, AllShaped, ChainVerdict;
    if InputsOk(receipts, keyring, identity) {
      NeverMalformed(env, Entries(receipts.value.items), keyring, identity, checkpoint);
    }
  }

  lemma NeverMalformed(env: Env, es: seq<Entry>, keyring: Option<Value>, identity: Option<Value>,
                       checkpoint: Option<Value>)
    requires es != []
    ensures ChainVerdict(env, es, keyring, identity, checkpoint).0 != MALFORMED
  {
    hide Index, TenantsAgree, WalkFrom, CheckpointRefusal;
  }

  // ---- UNTRUSTED -------------------------------------------------------------------------------

  /** The receipt at `s` is intact, continues its agent's key and is signed, but its key may not speak for the agent. */
  ghost predicate Impersonates(env: Env, keyring: Option<Value>, identity: Option<Value>, m: BySeq, s: nat) {
    && s in m && HashOk(env, m[s]) && KeyContinues(m, s)
    && keyring.Some? && Signed(env, keyring, m[s])
    && identity.Some? && !Authorized(identity.value, m[s].f.agent, m[s].f.kid)
  }

  /** Impersonation at `t` is the first thing wrong from `s` on. */
  ghost predicate FirstWrong(env: Env, keyring: Option<Value>, identity: Option<Value>, m: BySeq, s: nat, t: nat) {
    s <= t && Impersonates(env, keyring, identity, m, t)
        && forall u: nat | s <= u < t :: SeqGood(env, keyring, identity, m, u)
  }

  lemma StepUntrusted(env: Env, keyring: Option<Value>, identity: Option<Value>, m: BySeq, s: nat, w: Walk)
    requires Remembers(m, s, w)
    ensures Step(env, keyring, identity, m, s, w) == Refuse(UNTRUSTED) <==> Impersonates(env, keyring, identity, m, s)
  {
    hide HashOk, Signed, Authorized, TsWarning, Pins, Sees, KeyContinues, WarningsBelow;
    if s in m {
      PinsMeaning(m, s, w.pinned);
    }
  }

  lemma ImpersonatorIsBad(env: Env, keyring: Option<Value>, identity: Option<Value>, m: BySeq, s: nat)
    requires Impersonates(env, keyring, identity, m, s)
    ensures !SeqGood(env, keyring, identity, m, s)
  {
    hide HashOk, Signed, Authorized, KeyContinues, Links;
  }

  /** The walk ends UNTRUSTED exactly when impersonation is the first thing wrong. */
  lemma {:induction false} WalkUntrusted(env: Env, keyring: Option<Value>, identity: Option<Value>, m: BySeq, n: nat,
                                         s: nat, w: Walk)
    requires s <= n && Remembers(m, s, w)
    ensures WalkFrom(env, keyring, identity, m, n, s, w) == Refuse(UNTRUSTED)
            <==> exists t: nat :: t < n && FirstWrong(env, keyring, identity, m, s, t)
    decreases n - s
  {
    hide Step, SeqGood, Remembers, Impersonates;
    if s < n {
      StepRemembers(env, keyring, identity, m, s, w);
      StepUntrusted(env, keyring, identity, m, s, w);
      var r := Step(env, keyring, identity, m, s, w);
      if r.Go? {
        WalkUntrusted(env, keyring, identity, m, n, s + 1, r.walk);
        LaterWrong(env, keyring, identity, m, n, s, s + 1);
      } else if r.status == UNTRUSTED {
        assert FirstWrong(env, keyring, identity, m, s, s);
      } else {
        forall t: nat | t < n ensures !FirstWrong(env, keyring, identity, m, s, t) {
        }
      }
    }
  }

  /** Past a good seq, the first thing wrong is the same. */
  lemma LaterWrong(env: Env, keyring: Option<Value>, identity: Option<Value>, m: BySeq, n: nat, s: nat, next: nat)
    requires s < n && next == s + 1 && SeqGood(env, keyring, identity, m, s)
    ensures (exists t: nat :: t < n && FirstWrong(env, keyring, identity, m, s, t))
            <==> (exists t: nat :: t < n && FirstWrong(env, keyring, identity, m, next, t))
  {
    hide SeqGood, Impersonates;
    if t: nat :| t < n && FirstWrong(env, keyring, identity, m, s, t) {
      if t == s {
        ImpersonatorIsBad(env, keyring, identity, m, s);
      }
      assert FirstWrong(env, keyring, identity, m, next, t);
    }
    if t: nat :| t < n && FirstWrong(env, keyring, identity, m, next, t) {
      assert FirstWrong(env, keyring, identity, m, s, t);
    }
  }

  /** The checkpoint is authentic and names the head, but its key may not speak for the opener. */
  ghost predicate CheckpointImpersonates(env: Env, keyring: Option<Value>, identity: Option<Value>, genesis: Entry,
                                         head: Entry, cp: Value) {
    && keyring.Some? && identity.Some? && CheckpointShape(cp) && CheckpointStatus(env, cp, keyring) == CpOk
    && var f := CheckpointView(cp);
    && f.chain == genesis.f.chain && f.highestSeq == head.f.seqno && f.headHash == head.f.hash
    && !Authorized(identity.value, genesis.f.agent, f.kid)
  }

  lemma CheckpointUntrusted(env: Env, keyring: Option<Value>, identity: Option<Value>, genesis: Entry, head: Entry,
                            cp: Value)
    ensures CheckpointRefusal(env, keyring, identity, genesis, head, cp) == Some(UNTRUSTED)
            <==> CheckpointImpersonates(env, keyring, identity, genesis, head, cp)
  {
    hide SignatureOk, Authorized, CheckpointShape;
  }

  /** One impersonation, by a receipt or by the checkpoint, with all before it good. */
  ghost predicate Untrusted(env: Env, m: BySeq, n: nat, keyring: Option<Value>, identity: Option<Value>,
                            checkpoint: Option<Value>) {
    || (exists t: nat :: t < n && FirstWrong(env, keyring, identity, m, 0, t))
    || (&& (forall s: nat | s < n :: SeqGood(env, keyring, identity, m, s))
        && checkpoint.Some? && n > 0 && 0 in m && n - 1 in m
        && CheckpointImpersonates(env, keyring, identity, m[0], m[n - 1], checkpoint.value))
  }

  lemma IndexedUntrusted(env: Env, m: BySeq, n: nat, keyring: Option<Value>, identity: Option<Value>,
                         checkpoint: Option<Value>)
    requires n > 0
    ensures IndexedVerdict(env, m, n, keyring, identity, checkpoint).0 == UNTRUSTED
            <==> TenantsEqual(m, n, 0) && Untrusted(env, m, n, keyring, identity, checkpoint)
  {
    hide TenantsAgree, WalkFrom, CheckpointRefusal, SeqGood, Impersonates, CheckpointImpersonates, WarningsBelow,
         TenantsEqual, Reached;
    StartRemembers(m);
    TenantsMeaning(m, n, 0, None);
    NothingToFollow(m, n);
    WalkMeaning(env, keyring, identity, m, n, 0, START);
    WalkUntrusted(env, keyring, identity, m, n, 0, START);
    AllGoodPresent(env, keyring, identity, m, n);
    if t: nat :| t < n && FirstWrong(env, keyring, identity, m, 0, t) {
      ImpersonatorIsBad(env, keyring, identity, m, t);
    }
    if checkpoint.Some? && 0 in m && n - 1 in m {
      CheckpointUntrusted(env, keyring, identity, m[0], m[n - 1], checkpoint.value);
    }
  }

  lemma NothingToFollow(m: BySeq, n: nat)
    ensures TenantFollows(m, n, 0, None)
  {
  }

  /** What UNTRUSTED says about the receipts themselves. */
  ghost predicate UntrustedChain(env: Env, es: seq<Entry>, keyring: Option<Value>, identity: Option<Value>,
                                 checkpoint: Option<Value>) {
    && OneChain(es) && Distinct(es)
    && exists m :: Indexes(m, es) && TenantsEqual(m, |es|, 0) && Untrusted(env, m, |es|, keyring, identity, checkpoint)
  }

  lemma ChainUntrusted(env: Env, es: seq<Entry>, keyring: Option<Value>, identity: Option<Value>,
                       checkpoint: Option<Value>)
    requires es != []
    ensures ChainVerdict(env, es, keyring, identity, checkpoint).0 == UNTRUSTED
            <==> UntrustedChain(env, es, keyring, identity, checkpoint)
  {
    hide Index, IndexedVerdict, Indexes, Distinct, OneChain, TenantsEqual, Untrusted;
    IndexMeaning(es);
    var r := Index(es, es[0].f.chain, 0, map[]);
    if r.Some? {
      IndexedUntrusted(env, r.value, |es|, keyring, identity, checkpoint);
      assert Indexes(r.value, es);
      forall m | Indexes(m, es) ensures m == r.value {
        IndexUnique(es, m, r.value);
      }
    }
  }

  lemma IndexUnique(es: seq<Entry>, m: BySeq, m': BySeq)
    requires Indexes(m, es) && Indexes(m', es)
    ensures m == m'
  {
  }

  /**
   * UNTRUSTED says exactly: well-formed inputs, one chain, no repeated seq, tenants equal up to the first gap, and the
   * first thing wrong is a key that may not speak for its agent, in a receipt or in the checkpoint on the head.
   */
  lemma UntrustedMeans(env: Env, receipts: Option<Value>, keyring: Option<Value>, identity: Option<Value>,
                       checkpoint: Option<Value>)
    ensures Verdict(env, receipts, keyring, identity, checkpoint).0 == UNTRUSTED <==>
            InputsOk(receipts, keyring, identity)
            && UntrustedChain(env, Entries(receipts.value.items), keyring, identity, checkpoint)
  {
    hide TrustOk, AllShaped, ChainVerdict, UntrustedChain;
    if InputsOk(receipts, keyring, identity) {
      ChainUntrusted(env, Entries(receipts.value.items), keyring, identity, checkpoint);
    }
  }

  /** TAMPERED is what remains: well-formed inputs that are neither acceptable nor merely untrusted. */
  lemma TamperedMeans(env: Env, receipts: Option<Value>, keyring: Option<Value>, identity: Option<Value>,
                      checkpoint: Option<Value>)
    ensures Verdict(env, receipts, keyring, identity, checkpoint).0 == TAMPERED <==>
            && InputsOk(receipts, keyring, identity)
            && !Acceptable(env, Entries(receipts.value.items), keyring, identity, checkpoint)
            && !UntrustedChain(env, Entries(receipts.value.items), keyring, identity, checkpoint)
  {
    hide Verdict, TrustOk, AllShaped, UntrustedChain, Acceptable;
    MalformedMeans(env, receipts, keyring, identity, checkpoint);
    AcceptedMeans(env, receipts, keyring, identity, checkpoint);
    UntrustedMeans(env, receipts, keyring, identity, checkpoint);
  }

  lemma AllGoodPresent(env: Env, keyring: Option<Value>, identity: Option<Value>, m: BySeq, n: nat)
    requires n > 0
    ensures (forall s: nat | s < n :: SeqGood(env, keyring, identity, m, s)) ==> 0 in m && n - 1 in m
  {
    hide EntryGood, KeyContinues, Links;
    if forall s: nat | s < n :: SeqGood(env, keyring, identity, m, s) {
      assert SeqGood(env, keyring, identity, m, 0) && SeqGood(env, keyring, identity, m, n - 1);
    }
  }

  /** A manifest only restricts: what is VALID under one is VALID without, and nothing is UNTRUSTED without one. */
  lemma ManifestOnlyRestricts(env: Env, receipts: Option<Value>, keyring: Option<Value>, identity: Option<Value>,
                              checkpoint: Option<Value>)
    ensures Verdict(env, receipts, keyring, None, checkpoint).0 != UNTRUSTED
    ensures Verdict(env, receipts, keyring, identity, checkpoint).0 == VALID
            ==> Verdict(env, receipts, keyring, None, checkpoint).0 == VALID
  {
    hide AllShaped, Verdict;
    ValidMeans(env, receipts, keyring, identity, checkpoint);
    ValidMeans(env, receipts, keyring, None, checkpoint);
    NoManifest(env, receipts, keyring, checkpoint);
    if Verdict(env, receipts, keyring, identity, checkpoint).0 == VALID {
      var es := Entries(receipts.value.items);
      AcceptableWithout(env, es, keyring, identity, checkpoint);
    }
  }

  lemma NoManifest(env: Env, receipts: Option<Value>, keyring: Option<Value>, checkpoint: Option<Value>)
    ensures Verdict(env, receipts, keyring, None, checkpoint).0 != UNTRUSTED
  {
    hide AllShaped, Verdict, TrustOk, Indexes, Distinct, OneChain, TenantsEqual;
    UntrustedMeans(env, receipts, keyring, None, checkpoint);
  }

  lemma AcceptableWithout(env: Env, es: seq<Entry>, keyring: Option<Value>, identity: Option<Value>,
                          checkpoint: Option<Value>)
    requires Acceptable(env, es, keyring, identity, checkpoint)
    ensures Acceptable(env, es, keyring, None, checkpoint)
  {
    hide ExactSeqs, OneChain, OneTenant, OneKeyPerAgent, Linked, CheckpointShape, CheckpointView, CheckpointStatus,
         Signed, HashOk, Authorized;
  }
}
