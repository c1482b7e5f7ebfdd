/** What every run of the serve loop guarantees, whatever bytes arrive. */
module ServeTheorems {
  import opened Prelude
  import opened Utf
  import opened Request
  import opened Serve

  // ---- which streams give which sessions -------------------------------------------------------

  /** The requests of these exchanges, framed one after another. */
  function Stream(es: seq<Exchange>): bytes {
    if es == [] then [] else Frame(es[0].payload) + Stream(es[1..])
  }

  /** Each exchange answers its own payload, given the id before it. */
  predicate Answered(k: Kernel, es: seq<Exchange>, lastId: nat)
    decreases |es|
  {
    es != [] ==>
      && 0 < |es[0].payload| <= MAX_FRAME
      && Handle(k, es[0].payload, lastId) == Answer(es[0].id, es[0].frame)
      && Answered(k, es[1..], es[0].id)
  }

  lemma {:induction false} AnsweredSession(k: Kernel, es: seq<Exchange>, rest: bytes, lastId: nat)
    requires Answered(k, es, lastId)
    ensures var s := SessionOf(k, rest, if es == [] then lastId else es[|es| - 1].id);
            SessionOf(k, Stream(es) + rest, lastId) == Session(es + s.done, s.error)
    decreases |es|
  {
    hide Handle, SessionOf;
    if es == [] {
      assert Stream(es) + rest == rest;
    } else {
      AnsweredSession(k, es[1..], rest, es[0].id);
      FrameStep(k, es[0].payload, Stream(es[1..]) + rest, lastId);
      assert Stream(es) + rest == Frame(es[0].payload) + (Stream(es[1..]) + rest);
      var s := SessionOf(k, rest, es[|es| - 1].id);
      assert [es[0]] + (es[1..] + s.done) == es + s.done;
    }
  }

  /** The first exchange of a session, and the session of what follows its frame. */
  lemma FirstExchange(k: Kernel, s: bytes, lastId: nat)
    requires SessionOf(k, s, lastId).done != []
    ensures var r := SessionOf(k, s, lastId); var e := r.done[0]; var n := |e.payload|;
            && 0 < n <= MAX_FRAME && |s| >= 4 + n && s == Frame(e.payload) + s[4 + n..]
            && Handle(k, e.payload, lastId) == Answer(e.id, e.frame)
            && SessionOf(k, s[4 + n..], e.id) == Session(r.done[1..], r.error)
  {
    hide SessionOf, BigEndian, Handle, Frame;
    HasFrame(k, s, lastId);
    var n := BigEndian(s[..4]);
    Reframe(s, n);
    FrameStep(k, s[4..4 + n], s[4 + n..], lastId);
  }

  lemma HasFrame(k: Kernel, s: bytes, lastId: nat)
    requires SessionOf(k, s, lastId).done != []
    ensures |s| >= 4 && 0 < BigEndian(s[..4]) <= MAX_FRAME && |s| >= 4 + BigEndian(s[..4])
  {
    hide BigEndian, Handle;
  }

  lemma Reframe(s: bytes, n: nat)
    requires |s| >= 4 + n && BigEndian(s[..4]) == n
    ensures s == Frame(s[4..4 + n]) + s[4 + n..]
  {
    hide BigEndian, ToBigEndian;
    FourOctets(s[..4], 0);
    assert s == s[..4] + s[4..4 + n] + s[4 + n..];
  }

  lemma NoExchange(k: Kernel, s: bytes, lastId: nat)
    requires SessionOf(k, s, lastId) == Session([], None)
    ensures s == []
  {
    hide BigEndian, Handle;
  }

  /** The stream splits into the frames answered and what was left when the loop stopped. */
  lemma {:induction false} SessionAnswered(k: Kernel, s: bytes, lastId: nat) returns (rest: bytes)
    ensures var r := SessionOf(k, s, lastId);
            Answered(k, r.done, lastId) && s == Stream(r.done) + rest && (r.error.None? ==> rest == [])
    decreases |s|
  {
    hide SessionOf, Handle, Frame;
    rest := s;
    var r := SessionOf(k, s, lastId);
    if r.done == [] {
      if r.error.None? {
        NoExchange(k, s, lastId);
      }
      assert s == Stream([]) + rest;
    } else {
      FirstExchange(k, s, lastId);
      var e := r.done[0];
      var after := s[4 + |e.payload|..];
      rest := SessionAnswered(k, after, e.id);
      assert Frame(e.payload) + (Stream(r.done[1..]) + rest) == Stream(r.done) + rest;
    }
  }

  /** A stream ends cleanly with these exchanges exactly when it is their framed requests and all are answered. */
  lemma CleanSessionExact(k: Kernel, s: bytes, es: seq<Exchange>)
    ensures SessionOf(k, s, 0) == Session(es, None) <==> s == Stream(es) && Answered(k, es, 0)
  {
    hide SessionOf, Answered;
    if SessionOf(k, s, 0) == Session(es, None) {
      var rest := SessionAnswered(k, s, 0);
      assert Stream(es) + rest == Stream(es);
    }
    if s == Stream(es) && Answered(k, es, 0) {
      AnsweredSession(k, es, [], 0);
      NothingLeft(k, if es == [] then 0 else es[|es| - 1].id);
      assert Stream(es) + [] == Stream(es);
      assert es + [] == es;
    }
  }

  lemma NothingLeft(k: Kernel, lastId: nat)
    ensures SessionOf(k, [], lastId) == Session([], None)
  {
  }

  // ---- responses -------------------------------------------------------------------------------

  /** Ids rise strictly from one answered request to the next. */
  lemma {:induction false} IdsIncrease(k: Kernel, es: seq<Exchange>, lastId: nat)
    requires Answered(k, es, lastId)
    ensures forall i | 0 <= i < |es| :: lastId < es[i].id
    ensures forall i, j | 0 <= i < j < |es| :: es[i].id < es[j].id
    decreases |es|
  {
    hide ParseRequest, ResponsePayload;
    if es != [] {
      var tail := es[1..];
      IdsIncrease(k, tail, es[0].id);
      forall i | 0 < i < |es| ensures es[0].id < es[i].id {
        assert es[i] == tail[i - 1];
      }
      forall i, j | 0 < i < j < |es| ensures es[i].id < es[j].id {
        assert es[i] == tail[i - 1] && es[j] == tail[j - 1];
      }
    }
  }

  /** Every exchange parses its own payload and answers that request. */
  lemma {:induction false} AnsweredOwn(k: Kernel, es: seq<Exchange>, lastId: nat, i: nat)
    requires Answered(k, es, lastId) && i < |es|
    ensures var p := ParseRequest(es[i].payload);
            p.Accepted? && p.req.id == es[i].id && ResponsePayload(k, es[i].payload, p.req) == Some(es[i].frame)
    decreases i
  {
    hide ParseRequest, ResponsePayload;
    if i > 0 {
      AnsweredOwn(k, es[1..], es[0].id, i - 1);
    }
  }

  /** Where a response carries the id, the nonce and the digest of the request payload it answers. */
  lemma ResponseBinds(k: Kernel, payload: bytes, r: Req)
    requires ParseRequest(payload) == Accepted(r) && ResponsePayload(k, payload, r).Some?
    ensures var f := ResponsePayload(k, payload, r).value; var d := k.sha(payload);
            && |f| >= 42 + |d| && f[0] == VERSION && f[1] == TYPE_RESPONSE
            && f[2..10] == payload[2..10] && f[10..42] == payload[10..42] && f[42..42 + |d|] == d
  {
    hide ParseSections, BigEndian, ToBigEndian, Preimage;
    var d, v := k.sha(payload), k.verdict(r).value;
    var sig := k.sign(Preimage(k, d, r.id, r.nonce, v)).value;
    EightOctets(payload[2..10], 0);
    ResponseLayout(r, d, v, sig);
  }

  lemma ResponseLayout(r: Req, d: bytes, v: bytes, sig: bytes)
    requires |r.nonce| == 32
    ensures var f := ResponseBytes(r, d, v, sig);
            && |f| >= 42 + |d| && f[0] == VERSION && f[1] == TYPE_RESPONSE
            && f[2..10] == ToBigEndian(r.id, 8) && f[10..42] == r.nonce && f[42..42 + |d|] == d
  {
    hide ToBigEndian;
    var f, id := ResponseBytes(r, d, v, sig), ToBigEndian(r.id, 8);
    var head: bytes := [VERSION, TYPE_RESPONSE];
    var tail := U32(|v|) + v + sig;
    assert f == head + id + r.nonce + d + tail;
  }

  /** Two envelopes with the same signed bytes are about the same request digest, id, nonce and verdict digest. */
  lemma EnvelopeInjective(k: Kernel, d: bytes, id: nat, n: bytes, v: bytes, d': bytes, id': nat, n': bytes, v': bytes)
    requires |d| == 32 == |d'| && |n| == 32 == |n'| && id < U64_LIMIT && id' < U64_LIMIT
    requires Preimage(k, d, id, n, v) == Preimage(k, d', id', n', v')
    ensures d == d' && id == id' && n == n' && k.sha(v) == k.sha(v')
  {
    hide ToBigEndian, EncodeText;
    var t, i, i' := EncodeText(SIG_DOMAIN), ToBigEndian(id, 8), ToBigEndian(id', 8);
    var c := |t|;
    PreimageLayout(t, d, i, n, k.sha(v));
    PreimageLayout(t, d', i', n', k.sha(v'));
    EightOctets([], id);
    EightOctets([], id');
  }

  lemma PreimageLayout(t: bytes, d: bytes, i: bytes, n: bytes, h: bytes)
    requires |d| == 32 && |i| == 8 && |n| == 32
    ensures var p, c := t + d + i + n + h, |t|;
            p[c..c + 32] == d && p[c + 32..c + 40] == i && p[c + 40..c + 72] == n && p[c + 72..] == h
  {
  }

  // ---- whole runs ------------------------------------------------------------------------------

  predicate IsError(frame: bytes) { |frame| >= 2 && frame[1] == TYPE_PROTOCOL_ERROR }

  /**
   * Every run, over every chunking: HELLO, then the answers to the requests in the order received, each
   * to its own payload and with rising ids, and at most one protocol error, written last and exactly when the
   * exit code is 1.
   */
  lemma RunSafe(k: Kernel, hello: bytes, chunks: seq<bytes>)
    requires !IsError(hello)
    ensures var st := Run(k, Start(hello), chunks); var es := SessionOf(k, Concat(chunks), 0).done; var n := |st.out|;
            && n >= |es| + 1 && st.out[0] == hello
            && (forall i | 0 <= i < |es| :: st.out[i + 1] == es[i].frame)
            && Answered(k, es, 0) && Stream(es) <= Concat(chunks)
            && (forall i, j | 0 <= i < j < |es| :: 0 < es[i].id < es[j].id)
            && (forall i | 0 <= i < n - 1 :: !IsError(st.out[i]))
            && (st.exit == Some(1) <==> IsError(st.out[n - 1]))
            && (st.exit == Some(0) <==> Concat(chunks) == Stream(es))
            && (st.exit == Some(0) || st.exit == Some(1))
  {
    hide Run, SessionOf, Answered, Stream;
    ChunkingIndependent(k, hello, chunks);
    var s := SessionOf(k, Concat(chunks), 0);
    var rest := SessionAnswered(k, Concat(chunks), 0);
    CleanSessionExact(k, Concat(chunks), s.done);
    IdsIncrease(k, s.done, 0);
    forall i | 0 <= i < |s.done| ensures !IsError(s.done[i].frame) {
      AnsweredOwn(k, s.done, 0, i);
      ResponseBinds(k, s.done[i].payload, ParseRequest(s.done[i].payload).req);
    }
  }

  /** Frames that fit their four length octets are told apart on the wire. */
  lemma {:induction false} WireReads(a: seq<bytes>, b: seq<bytes>)
    requires forall p | p in a || p in b :: |p| < U32_LIMIT
    requires Wire(a) == Wire(b)
    ensures a == b
    decreases |a|
  {
    if a == [] || b == [] {
      NonemptyWire(a);
      NonemptyWire(b);
    } else {
      SplitWire(a);
      SplitWire(b);
      WireReads(a[1..], b[1..]);
      assert a == [a[0]] + a[1..] && b == [b[0]] + b[1..];
    }
  }

  lemma NonemptyWire(a: seq<bytes>)
    ensures Wire(a) == [] <==> a == []
  {
  }

  /** The first payload and the rest are read off the front. */
  lemma SplitWire(a: seq<bytes>)
    requires a != [] && |a[0]| < U32_LIMIT
    ensures var w, n := Wire(a), |a[0]|;
            |w| >= 4 + n && BigEndian(w[..4]) == n && w[4..4 + n] == a[0] && w[4 + n..] == Wire(a[1..])
  {
    hide BigEndian;
    var w, n := Wire(a), |a[0]|;
    FourOctets([], n);
    assert w == U32(n) + a[0] + Wire(a[1..]);
    assert w[..4] == U32(n);
  }

  /** Everything a run writes fits its length field, so its stdout determines its frames. */
  lemma RunFits(k: Kernel, hello: bytes, chunks: seq<bytes>)
    requires |hello| < U32_LIMIT
    ensures forall p | p in [hello] + Written(SessionOf(k, Concat(chunks), 0)) :: |p| < U32_LIMIT
  {
    hide SessionOf, Answered;
    var s := SessionOf(k, Concat(chunks), 0);
    var rest := SessionAnswered(k, Concat(chunks), 0);
    forall i | 0 <= i < |s.done| ensures |s.done[i].frame| < U32_LIMIT {
      AnsweredOwn(k, s.done, 0, i);
      ResponseFits(k, s.done[i].payload, ParseRequest(s.done[i].payload).req);
    }
    var out := [hello] + Written(s);
    forall j | 0 <= j < |out| ensures |out[j]| < U32_LIMIT {
      if 0 < j <= |s.done| {
        assert out[j] == s.done[j - 1].frame;
      }
    }
  }

  lemma ResponseFits(k: Kernel, payload: bytes, r: Req)
    ensures ResponsePayload(k, payload, r).Some? ==> |ResponsePayload(k, payload, r).value| < U32_LIMIT
  {
    hide Preimage, ResponseBytes;
  }
}
