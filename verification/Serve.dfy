/** The framed serve loop: its states and events, the session a whole byte stream denotes, and their agreement. */
module Serve {
  import opened Prelude
  import opened Utf
  import opened Request

  const MAX_FRAME: nat := 64 * 1024 * 1024
  const VERSION: byte := 1
  const TYPE_REQUEST: byte := 2
  const TYPE_RESPONSE: byte := 3
  const TYPE_PROTOCOL_ERROR: byte := 0x7f
  const SIG_DOMAIN := "NOA-KernelRehearsal-v0.1-sig:"

  /** What the loop calls: the digest, the verdict on a request and the envelope signature; the last two may fail. */
  datatype Kernel = Kernel(sha: bytes -> bytes, verdict: Req -> Option<bytes>, sign: bytes -> Option<bytes>)

  // ---- one payload -----------------------------------------------------------------------------

  /** What a response signs: tag, request digest, id, nonce and the verdict's digest. */
  function Preimage(k: Kernel, digest: bytes, id: nat, nonce: bytes, verdict: bytes): bytes {
    EncodeText(SIG_DOMAIN) + digest + ToBigEndian(id, 8) + nonce + k.sha(verdict)
  }

  function ResponsePayload(k: Kernel, payload: bytes, r: Req): Option<bytes> {
    var verdict :- k.verdict(r);
    var digest := k.sha(payload);
    var sig :- k.sign(Preimage(k, digest, r.id, r.nonce, verdict));
    var frame := ResponseBytes(r, digest, verdict, sig);
    if |verdict| >= U32_LIMIT || |frame| >= U32_LIMIT then None else Some(frame)
  }

  function ResponseBytes(r: Req, digest: bytes, verdict: bytes, sig: bytes): bytes {
    [VERSION, TYPE_RESPONSE] + ToBigEndian(r.id, 8) + r.nonce + digest + U32(|verdict|) + verdict + sig
  }

  /** A fault also says what the last id is by then: an accepted id counts even when its answer fails. */
  datatype Handled = Answer(id: nat, frame: bytes) | Fault(code: byte, lastId: nat)

  /** One payload: its response and the new last id, or the protocol error it raises. */
  function Handle(k: Kernel, payload: bytes, lastId: nat): Handled {
    if |payload| < 2 then Fault(FRAME_UNDERSIZE, lastId)
    else if payload[0] != VERSION then Fault(BAD_VERSION, lastId)
    else if payload[1] != TYPE_REQUEST then Fault(BAD_TYPE, lastId)
    else
      match ParseRequest(payload)
      case Rejected(code) => Fault(code, lastId)
      case Accepted(r) =>
        if r.id < 1 || r.id <= lastId then Fault(ID_NOT_MONOTONIC, lastId)
        else
          match ResponsePayload(k, payload, r)
          case None => Fault(INTERNAL, r.id)
          case Some(frame) => Answer(r.id, frame)
  }

  function ErrorFrame(code: byte): bytes { [VERSION, TYPE_PROTOCOL_ERROR, code] }

  /** A payload behind its length. */
  function Frame(payload: bytes): bytes { U32(|payload|) + payload }

  /** The bytes written for these payloads, one frame after another. */
  function Wire(payloads: seq<bytes>): bytes {
    if payloads == [] then [] else Frame(payloads[0]) + Wire(payloads[1..])
  }

  lemma {:induction false} WireAppend(payloads: seq<bytes>, p: bytes)
    ensures Wire(payloads + [p]) == Wire(payloads) + Frame(p)
  {
    hide Frame;
    if payloads == [] {
      assert payloads + [p] == [p];
      assert Wire([p]) == Frame(p) + Wire([]);
    } else {
      assert (payloads + [p])[1..] == payloads[1..] + [p];
      WireAppend(payloads[1..], p);
    }
  }

  // ---- the session a stream denotes ------------------------------------------------------------

  /** One request answered: the payload as received, its id and the response payload written. */
  datatype Exchange = Exchange(payload: bytes, id: nat, frame: bytes)

  /** The exchanges of a whole stream, and the protocol error that ended it, if one did. */
  datatype Session = Session(done: seq<Exchange>, error: Option<byte>)

  function SessionOf(k: Kernel, s: bytes, lastId: nat): Session
    decreases |s|
  {
    if s == [] then Session([], None)
    else if |s| < 4 then Session([], Some(EOF_MID_FRAME))
    else
      var declared := BigEndian(s[..4]);
      if declared > MAX_FRAME then Session([], Some(FRAME_OVERSIZE))
      else if declared == 0 then Session([], Some(FRAME_UNDERSIZE))
      else if |s| < 4 + declared then Session([], Some(EOF_MID_FRAME))
      else
        var payload := s[4..4 + declared];
        match Handle(k, payload, lastId)
        case Fault(code, _) => Session([], Some(code))
        case Answer(id, frame) =>
          var rest := SessionOf(k, s[4 + declared..], id);
          Session([Exchange(payload, id, frame)] + rest.done, rest.error)
  }

  // ---- the loop --------------------------------------------------------------------------------

  /** The loop between events; `exit` is set once it is done. */
  datatype State = State(acc: bytes, need: Option<nat>, lastId: nat, exit: Option<int>, out: seq<bytes>)

  function Start(hello: bytes): State { State([], None, 0, None, [hello]) }

  function ProtoError(st: State, code: byte): State { st.(exit := Some(1), out := st.out + [ErrorFrame(code)]) }

  predicate Plausible(st: State) { st.need.Some? ==> 0 < st.need.value <= MAX_FRAME }

  /** Consume frames until one is incomplete or refused. */
  function Pump(k: Kernel, st: State): State
    requires Plausible(st)
    decreases |st.acc|
  {
    if st.need.None? then
      if |st.acc| < 4 then st
      else
        var declared := BigEndian(st.acc[..4]);
        var st1 := st.(acc := st.acc[4..]);
        if declared > MAX_FRAME then ProtoError(st1, FRAME_OVERSIZE)
        else if declared == 0 then ProtoError(st1, FRAME_UNDERSIZE)
        else Pump(k, st1.(need := Some(declared)))
    else if |st.acc| < st.need.value then st
    else
      var payload := st.acc[..st.need.value];
      var st1 := st.(acc := st.acc[st.need.value..], need := None);
      match Handle(k, payload, st.lastId)
      case Fault(code, last) => ProtoError(st1.(lastId := last), code)
      case Answer(id, frame) => Pump(k, st1.(lastId := id, out := st1.out + [frame]))
  }

  function OnData(k: Kernel, st: State, chunk: bytes): State
    requires Plausible(st)
  {
    if st.exit.Some? then st else Pump(k, st.(acc := st.acc + chunk))
  }

  function OnEnd(st: State): State {
    if st.exit.Some? then st
    else if st.need.Some? || st.acc != [] then ProtoError(st, EOF_MID_FRAME)
    else st.(exit := Some(0))
  }

  function Run(k: Kernel, st: State, chunks: seq<bytes>): State
    requires Plausible(st)
    decreases |chunks|
  {
    if chunks == [] then OnEnd(st)
    else
      PumpPlausible(k, st.(acc := st.acc + chunks[0]));
      Run(k, OnData(k, st, chunks[0]), chunks[1..])
  }

  lemma {:induction false} PumpPlausible(k: Kernel, st: State)
    requires Plausible(st)
    ensures Plausible(Pump(k, st))
    decreases |st.acc|
  {
    hide Handle, BigEndian;
    if st.need.None? {
      if |st.acc| >= 4 {
        var declared := BigEndian(st.acc[..4]);
        if 0 < declared <= MAX_FRAME {
          PumpPlausible(k, st.(acc := st.acc[4..], need := Some(declared)));
        }
      }
    } else if |st.acc| >= st.need.value {
      var h := Handle(k, st.acc[..st.need.value], st.lastId);
      if h.Answer? {
        PumpPlausible(k, st.(acc := st.acc[st.need.value..], need := None, lastId := h.id, out := st.out + [h.frame]));
      }
    }
  }

  // ---- every chunking gives the stream's session -----------------------------------------------

  function Concat(chunks: seq<bytes>): bytes {
    if chunks == [] then [] else chunks[0] + Concat(chunks[1..])
  }

  /** The frames a session writes: its responses in order, then the error frame if it ended in one. */
  function Written(s: Session): seq<bytes> {
    Responses(s.done) + (if s.error.Some? then [ErrorFrame(s.error.value)] else [])
  }

  function Responses(done: seq<Exchange>): (r: seq<bytes>)
    ensures |r| == |done| && forall i | 0 <= i < |done| :: r[i] == done[i].frame
  {
    if done == [] then [] else [done[0].frame] + Responses(done[1..])
  }

  function ExitCode(s: Session): int { if s.error.Some? then 1 else 0 }

  /** The bytes received and not yet consumed, the header of a frame under way included. */
  function Pending(st: State): bytes {
    (if st.need.Some? then U32(st.need.value) else []) + st.acc
  }

  datatype Observed = Observed(out: seq<bytes>, exit: int)

  /** What will have been written, and the exit code, once `rest` has arrived and the stream has ended. */
  function Foretold(k: Kernel, st: State, rest: bytes): Observed {
    if st.exit.Some? then Observed(st.out, st.exit.value)
    else
      var s := SessionOf(k, Pending(st) + rest, st.lastId);
      Observed(st.out + Written(s), ExitCode(s))
  }

  lemma WrittenError(code: byte)
    ensures Written(Session([], Some(code))) == [ErrorFrame(code)]
  {
  }

  lemma WrittenNext(e: Exchange, s: Session)
    ensures Written(Session([e] + s.done, s.error)) == [e.frame] + Written(s)
  {
    hide ErrorFrame;
    assert Responses([e] + s.done) == [e.frame] + Responses(s.done);
  }

  lemma HeaderStep(k: Kernel, st: State, rest: bytes)
    requires st.need.None? && |st.acc| >= 4 && st.exit.None?
    ensures var declared := BigEndian(st.acc[..4]);
            && declared < U32_LIMIT
            && (0 < declared <= MAX_FRAME ==> Pending(st.(acc := st.acc[4..], need := Some(declared))) == Pending(st))
            && (declared > MAX_FRAME ==> Foretold(k, ProtoError(st, FRAME_OVERSIZE), rest) == Foretold(k, st, rest))
            && (declared == 0 ==> Foretold(k, ProtoError(st, FRAME_UNDERSIZE), rest) == Foretold(k, st, rest))
  {
    hide BigEndian, Handle;
    FourOctets(st.acc[..4], 0);
    assert st.acc[..4] + st.acc[4..] == st.acc;
    assert Pending(st) == st.acc;
    assert (st.acc + rest)[..4] == st.acc[..4];
    WrittenError(FRAME_OVERSIZE);
    WrittenError(FRAME_UNDERSIZE);
  }

  /** A payload handled, then the rest of the stream; or the fault that ends it. */
  function Continued(k: Kernel, payload: bytes, rest: bytes, lastId: nat): Session {
    match Handle(k, payload, lastId)
    case Fault(code, _) => Session([], Some(code))
    case Answer(id, frame) =>
      var s := SessionOf(k, rest, id);
      Session([Exchange(payload, id, frame)] + s.done, s.error)
  }

  /** The session of a stream with a whole frame at its front. */
  lemma FrameStep(k: Kernel, payload: bytes, rest: bytes, lastId: nat)
    requires 0 < |payload| <= MAX_FRAME
    ensures SessionOf(k, Frame(payload) + rest, lastId) == Continued(k, payload, rest, lastId)
  {
    hide BigEndian, Handle, ToBigEndian;
    var n := |payload|;
    var s := Frame(payload) + rest;
    FourOctets([], n);
    assert s[..4] == U32(n);
    assert s[4..4 + n] == payload;
    assert s[4 + n..] == rest;
  }

  lemma PayloadStep(k: Kernel, st: State, rest: bytes)
    requires st.need.Some? && 0 < st.need.value <= MAX_FRAME && |st.acc| >= st.need.value && st.exit.None?
    ensures var n := st.need.value;
            SessionOf(k, Pending(st) + rest, st.lastId) == Continued(k, st.acc[..n], st.acc[n..] + rest, st.lastId)
  {
    hide SessionOf, Handle, U32, Continued;
    var n := st.need.value;
    FrameStep(k, st.acc[..n], st.acc[n..] + rest, st.lastId);
    assert Pending(st) + rest == Frame(st.acc[..n]) + (st.acc[n..] + rest);
  }

  /** Consuming frames changes nothing that will be observed. */
  lemma {:induction false} PumpForetold(k: Kernel, st: State, rest: bytes)
    requires Plausible(st) && st.exit.None?
    ensures Foretold(k, Pump(k, st), rest) == Foretold(k, st, rest)
    decreases |st.acc|
  {
    hide BigEndian, Handle, SessionOf;
    if st.need.None? {
      if |st.acc| >= 4 {
        HeaderStep(k, st, rest);
        var declared := BigEndian(st.acc[..4]);
        if 0 < declared <= MAX_FRAME {
          PumpForetold(k, st.(acc := st.acc[4..], need := Some(declared)), rest);
        }
      }
    } else if |st.acc| >= st.need.value {
      PayloadStep(k, st, rest);
      var n := st.need.value;
      var h := Handle(k, st.acc[..n], st.lastId);
      if h.Answer? {
        var next := st.(acc := st.acc[n..], need := None, lastId := h.id, out := st.out + [h.frame]);
        PumpForetold(k, next, rest);
        AnswerForetold(k, st, next, Exchange(st.acc[..n], h.id, h.frame), rest);
      }
    }
  }

  lemma AnswerForetold(k: Kernel, st: State, next: State, e: Exchange, rest: bytes)
    requires next.need.None? && next.exit.None? && st.exit.None? && next.out == st.out + [e.frame]
    requires var s := SessionOf(k, next.acc + rest, next.lastId);
             SessionOf(k, Pending(st) + rest, st.lastId) == Session([e] + s.done, s.error)
    ensures Foretold(k, next, rest) == Foretold(k, st, rest)
  {
    hide SessionOf, Written;
    var s := SessionOf(k, next.acc + rest, next.lastId);
    assert Pending(next) == next.acc;
    WrittenNext(e, s);
    assert st.out + ([e.frame] + Written(s)) == next.out + Written(s);
  }

  /** A pumped loop is waiting for bytes, so the end of the stream means what the session says it means. */
  lemma EndForetold(k: Kernel, st: State)
    requires Plausible(st) && (st.exit.None? ==> Waiting(st))
    ensures OnEnd(st).exit.Some? && Foretold(k, st, []) == Observed(OnEnd(st).out, OnEnd(st).exit.value)
  {
    if st.exit.None? {
      assert Pending(st) + [] == Pending(st);
      if st.need.Some? {
        FourOctets([], st.need.value);
        assert Pending(st)[..4] == U32(st.need.value);
      }
    }
  }

  predicate Waiting(st: State) { if st.need.Some? then |st.acc| < st.need.value else |st.acc| < 4 }

  lemma {:induction false} PumpWaits(k: Kernel, st: State)
    requires Plausible(st) && st.exit.None?
    ensures Pump(k, st).exit.None? ==> Waiting(Pump(k, st))
    decreases |st.acc|
  {
    hide BigEndian, Handle;
    if st.need.None? {
      if |st.acc| >= 4 {
        var declared := BigEndian(st.acc[..4]);
        if 0 < declared <= MAX_FRAME {
          PumpWaits(k, st.(acc := st.acc[4..], need := Some(declared)));
        }
      }
    } else if |st.acc| >= st.need.value {
      var h := Handle(k, st.acc[..st.need.value], st.lastId);
      if h.Answer? {
        PumpWaits(k, st.(acc := st.acc[st.need.value..], need := None, lastId := h.id, out := st.out + [h.frame]));
      }
    }
  }

  lemma {:induction false} RunForetold(k: Kernel, st: State, chunks: seq<bytes>)
    requires Plausible(st) && (st.exit.None? ==> Waiting(st))
    ensures Run(k, st, chunks).exit.Some?
    ensures Observed(Run(k, st, chunks).out, Run(k, st, chunks).exit.value) == Foretold(k, st, Concat(chunks))
    decreases |chunks|
  {
    hide Pump, SessionOf;
    if chunks == [] {
      EndForetold(k, st);
    } else {
      var fed := st.(acc := st.acc + chunks[0]);
      var rest := Concat(chunks[1..]);
      PumpPlausible(k, fed);
      if st.exit.None? {
        PumpWaits(k, fed);
        PumpForetold(k, fed, rest);
        assert Pending(fed) + rest == Pending(st) + (chunks[0] + rest);
      }
      RunForetold(k, OnData(k, st, chunks[0]), chunks[1..]);
    }
  }

  /** For every stream and every way of chunking it, the loop writes its session and exits with its code. */
  lemma ChunkingIndependent(k: Kernel, hello: bytes, chunks: seq<bytes>)
    ensures var st := Run(k, Start(hello), chunks); var s := SessionOf(k, Concat(chunks), 0);
            st.exit == Some(ExitCode(s)) && st.out == [hello] + Written(s)
  {
    hide Run, SessionOf;
    RunForetold(k, Start(hello), chunks);
    assert Pending(Start(hello)) + Concat(chunks) == Concat(chunks);
  }
}
