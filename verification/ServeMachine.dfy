/** The serve loop as it runs: the section loop of the request parser and the closure state of the frame pump. */
module ServeMachine {
  import opened Prelude
  import opened Request
  import opened Serve

  lemma {:induction false} SectionTagsAbove(p: bytes, off: nat, last: int)
    requires off <= |p| && ParseSections(p, off, last).Some?
    ensures forall t | t in ParseSections(p, off, last).value :: last < t <= LAST_TAG
    decreases |p| - off
  {
    hide BigEndian;
    if off < |p| {
      var tag: int := p[off];
      SectionTagsAbove(p, off + 5 + BigEndian(p[off + 1..off + 5]), tag);
    }
  }

  /** The table so far together with the sections still to come. */
  ghost function Joined(sections: Sections, rest: Option<Sections>): Option<Sections> {
    if rest.None? then None else Some(sections + rest.value)
  }

  predicate SectionFits(p: bytes, off: nat, last: int) {
    off + 5 <= |p| && last < p[off] <= LAST_TAG && off + 5 + BigEndian(p[off + 1..off + 5]) <= |p|
  }

  lemma SectionRefused(p: bytes, off: nat, last: int)
    requires off < |p| && !SectionFits(p, off, last)
    ensures ParseSections(p, off, last) == None
  {
    hide BigEndian;
  }

  /** Moving one section from the bytes to the table loses nothing. */
  lemma SectionStep(p: bytes, off: nat, last: int, sections: Sections)
    requires SectionFits(p, off, last) && forall t | t in sections :: t <= last
    ensures var tag: int := p[off]; var end := off + 5 + BigEndian(p[off + 1..off + 5]);
            Joined(sections, ParseSections(p, off, last))
            == Joined(sections[tag := p[off + 5..end]], ParseSections(p, end, tag))
  {
    hide BigEndian;
    var tag: int := p[off];
    var end := off + 5 + BigEndian(p[off + 1..off + 5]);
    if ParseSections(p, end, tag).Some? {
      SectionTagsAbove(p, end, tag);
      var rest, body := ParseSections(p, end, tag).value, p[off + 5..end];
      assert sections + rest[tag := body] == sections[tag := body] + rest;
    }
  }

  lemma NoSections(p: bytes, last: int, sections: Sections)
    ensures Joined(sections, ParseSections(p, |p|, last)) == Some(sections)
  {
    assert sections + map[] == sections;
  }

  lemma JoinedNothing(rest: Option<Sections>)
    ensures Joined(map[], rest) == rest
  {
    if rest.Some? {
      assert map[] + rest.value == rest.value;
    }
  }

  /** Sections read into a table until the payload is used up. */
  method ReadSections(p: bytes) returns (r: Option<Sections>)
    requires |p| >= FIXED_HEADER
    ensures r == ParseSections(p, FIXED_HEADER, 0)
  {
    hide BigEndian, ParseSections, Joined;
    var sections: Sections := map[];
    var lastTag: int := 0;
    var off := FIXED_HEADER;
    JoinedNothing(ParseSections(p, off, lastTag));
    while off < |p|
      invariant FIXED_HEADER <= off <= |p|
      invariant forall t | t in sections :: t <= lastTag
      invariant ParseSections(p, FIXED_HEADER, 0) == Joined(sections, ParseSections(p, off, lastTag))
      decreases |p| - off
    {
      if !SectionFits(p, off, lastTag) {
        SectionRefused(p, off, lastTag);
        NothingJoined(sections);
      }
      if off + 5 > |p| { return None; }
      var tag: int := p[off];
      var len := BigEndian(p[off + 1..off + 5]);
      if tag <= lastTag || tag > LAST_TAG { return None; }
      if off + 5 + len > |p| { return None; }
      SectionStep(p, off, lastTag, sections);
      sections := sections[tag := p[off + 5..off + 5 + len]];
      off := off + 5 + len;
      lastTag := tag;
    }
    NoSections(p, lastTag, sections);
    return Some(sections);
  }

  lemma NothingJoined(sections: Sections)
    ensures Joined(sections, None) == None
  {
  }

  method ReadRequest(p: bytes) returns (r: ParsedRequest)
    ensures r == ParseRequest(p)
  {
    hide BigEndian, ParseSections;
    if |p| < FIXED_HEADER { return Rejected(FRAME_UNDERSIZE); }
    if p[42] != OP_VERIFY_CHAIN { return Rejected(BAD_REQUEST_GRAMMAR); }
    var sections := ReadSections(p);
    if sections.None? || 1 !in sections.value { return Rejected(BAD_REQUEST_GRAMMAR); }
    var m := sections.value;
    return Accepted(Req(BigEndian(p[2..10]), p[10..42], m[1], Section(m, 2), Section(m, 3), Section(m, 4)));
  }

  class Server {
    const k: Kernel
    var acc: bytes
    var need: Option<nat>
    var lastId: nat
    var exit: Option<int>
    var stdout: bytes
    ghost var out: seq<bytes>

    ghost function View(): State
      reads this
    {
      State(acc, need, lastId, exit, out)
    }

    /** What went to stdout is the payloads written, each behind its length. */
    ghost predicate Valid()
      reads this
    {
      stdout == Wire(out)
    }

    constructor (kernel: Kernel, hello: bytes)
      ensures k == kernel && View() == Start(hello) && Valid()
    {
      k := kernel;
      acc, need, lastId, exit := [], None, 0, None;
      stdout, out := Frame(hello), [hello];
      WireAppend([], hello);
      assert [] + [hello] == [hello];
    }

    method WriteFrame(payload: bytes)
      requires Valid()
      modifies this`stdout, this`out
      ensures Valid() && out == old(out) + [payload]
    {
      WireAppend(out, payload);
      stdout := stdout + U32(|payload|) + payload;
      out := out + [payload];
    }

    method Fail(code: byte)
      requires Valid()
      modifies this
      ensures Valid() && View() == ProtoError(old(View()), code)
    {
      WriteFrame(ErrorFrame(code));
      exit := Some(1);
    }

    /** One complete payload: a response is written, or the error to report is returned. */
    method HandlePayload(payload: bytes) returns (err: Option<byte>)
      requires Valid()
      modifies this
      ensures Valid()
      ensures match Handle(k, payload, old(lastId))
              case Fault(code, last) => err == Some(code) && View() == old(View()).(lastId := last)
              case Answer(id, frame) => err == None && View() == old(View()).(lastId := id, out := old(out) + [frame])
    {
      hide ParseRequest, ResponsePayload;
      if |payload| < 2 { return Some(FRAME_UNDERSIZE); }
      if payload[0] != VERSION { return Some(BAD_VERSION); }
      if payload[1] != TYPE_REQUEST { return Some(BAD_TYPE); }
      var parsed := ReadRequest(payload);
      if parsed.Rejected? { return Some(parsed.code); }
      var r := parsed.req;
      if r.id < 1 || r.id <= lastId { return Some(ID_NOT_MONOTONIC); }
      lastId := r.id;
      var response := ResponsePayload(k, payload, r);
      if response.None? { return Some(INTERNAL); }
      WriteFrame(response.value);
      return None;
    }

    method PumpFrames()
      requires Valid() && Plausible(View()) && exit.None?
      modifies this
      ensures Valid() && View() == Pump(k, old(View()))
    {
      hide Handle, BigEndian;
      ghost var first := View();
      while true
        invariant Valid() && exit.None? && Plausible(View())
        invariant Pump(k, View()) == Pump(k, first)
        decreases |acc|
      {
        if need.None? {
          if |acc| < 4 { break; }
          var declared := BigEndian(acc[..4]);
          acc := acc[4..];
          if declared > MAX_FRAME { Fail(FRAME_OVERSIZE); return; }
          if declared == 0 { Fail(FRAME_UNDERSIZE); return; }
          need := Some(declared);
          assert Pump(k, View()) == Pump(k, first);
        }
        if |acc| < need.value { break; }
        var payload := acc[..need.value];
        acc := acc[need.value..];
        need := None;
        var err := HandlePayload(payload);
        if err.Some? { Fail(err.value); return; }
      }
    }

    method Data(chunk: bytes)
      requires Valid() && Plausible(View())
      modifies this
      ensures Valid() && Plausible(View()) && View() == OnData(k, old(View()), chunk)
    {
      hide Pump;
      if exit.Some? { return; }
      PumpPlausible(k, View().(acc := acc + chunk));
      acc := acc + chunk;
      PumpFrames();
    }

    method End()
      requires Valid()
      modifies this
      ensures Valid() && View() == OnEnd(old(View()))
    {
      if exit.Some? { return; }
      if need.Some? || acc != [] {
        Fail(EOF_MID_FRAME);
      } else {
        exit := Some(0);
      }
    }
  }

  /** A whole run: the chunks in turn, then the end of input. What is returned is what went to stdout. */
  method ServeStream(k: Kernel, hello: bytes, chunks: seq<bytes>) returns (exit: int, stdout: bytes)
    ensures var s := SessionOf(k, Concat(chunks), 0); exit == ExitCode(s) && stdout == Wire([hello] + Written(s))
  {
    hide Pump, SessionOf;
    var server := new Server(k, hello);
    var i := 0;
    while i < |chunks|
      invariant 0 <= i <= |chunks| && server.k == k && server.Valid() && Plausible(server.View())
      invariant Run(k, server.View(), chunks[i..]) == Run(k, Start(hello), chunks)
    {
      assert chunks[i..][1..] == chunks[i + 1..];
      server.Data(chunks[i]);
      i := i + 1;
    }
    server.End();
    ChunkingIndependent(k, hello, chunks);
    return server.exit.value, server.stdout;
  }
}
