/** The request grammar: a fixed header, then tagged sections in strictly ascending tag order. */
module Request {
  import opened Prelude

  const FIXED_HEADER := 43
  const OP_VERIFY_CHAIN: byte := 1
  const LAST_TAG := 4

  const FRAME_OVERSIZE: byte := 1
  const FRAME_UNDERSIZE: byte := 2
  const BAD_VERSION: byte := 3
  const BAD_TYPE: byte := 4
  const BAD_REQUEST_GRAMMAR: byte := 5
  const ID_NOT_MONOTONIC: byte := 6
  const EOF_MID_FRAME: byte := 8
  const INTERNAL: byte := 9

  const U32_LIMIT: nat := 0x1_0000_0000
  const U64_LIMIT: nat := 0x1_0000_0000_0000_0000

  datatype Req = Req(id: nat, nonce: bytes, document: bytes, keyring: Option<bytes>, checkpoint: Option<bytes>,
                     identity: Option<bytes>)

  datatype ParsedRequest = Accepted(req: Req) | Rejected(code: byte)

  type Sections = map<int, bytes>

  function U32(n: nat): bytes { ToBigEndian(n, 4) }

  // ---- parsing ---------------------------------------------------------------------------------

  /** The sections from `off` to the end, each tag above `last` and every byte accounted for. */
  function ParseSections(p: bytes, off: nat, last: int): Option<Sections>
    requires off <= |p|
    decreases |p| - off
  {
    if off == |p| then Some(map[])
    else if off + 5 > |p| then None
    else
      var tag: int := p[off];
      var start, end := off + 5, off + 5 + BigEndian(p[off + 1..off + 5]);
      if tag <= last || tag > LAST_TAG || end > |p| then None
      else
        var rest :- ParseSections(p, end, tag);
        Some(rest[tag := p[start..end]])
  }

  function Section(m: Sections, tag: int): Option<bytes> { if tag in m then Some(m[tag]) else None }

  function ParseRequest(p: bytes): ParsedRequest {
    if |p| < FIXED_HEADER then Rejected(FRAME_UNDERSIZE)
    else if p[42] != OP_VERIFY_CHAIN then Rejected(BAD_REQUEST_GRAMMAR)
    else
      match ParseSections(p, FIXED_HEADER, 0)
      case None => Rejected(BAD_REQUEST_GRAMMAR)
      case Some(m) =>
        if 1 !in m then Rejected(BAD_REQUEST_GRAMMAR)
        else Accepted(Req(BigEndian(p[2..10]), p[10..42], m[1], Section(m, 2), Section(m, 3), Section(m, 4)))
  }

  // ---- writing ---------------------------------------------------------------------------------

  function EncodeSection(m: Sections, tag: byte): bytes {
    if tag in m then [tag] + U32(|m[tag]|) + m[tag] else []
  }

  /** The sections above `last`, in ascending tag order. */
  function EncodeSections(m: Sections, last: nat): bytes
    requires last <= LAST_TAG
    decreases LAST_TAG - last
  {
    if last == LAST_TAG then [] else EncodeSection(m, last + 1) + EncodeSections(m, last + 1)
  }

  function SectionsOf(r: Req): Sections {
    map tag | tag in {1, 2, 3, 4} && SectionIn(r, tag).Some? :: SectionIn(r, tag).value
  }

  function SectionIn(r: Req, tag: int): Option<bytes> {
    if tag == 1 then Some(r.document) else if tag == 2 then r.keyring else if tag == 3 then r.checkpoint
        else if tag == 4 then r.identity else None
  }

  function EncodeRequest(r: Req): bytes {
    ToBigEndian(r.id, 8) + r.nonce + [OP_VERIFY_CHAIN] + EncodeSections(SectionsOf(r), 0)
  }

  /** Sections with tags above `last` and lengths that fit their four octets. */
  predicate SectionsOk(m: Sections,
                       last: int) { forall tag | tag in m :: last < tag <= LAST_TAG && |m[tag]| < U32_LIMIT }

  predicate RequestOk(r: Req) { r.id < U64_LIMIT && |r.nonce| == 32 && SectionsOk(SectionsOf(r), 0) }

  // ---- the two are inverse ---------------------------------------------------------------------

  lemma FourOctets(b: bytes, n: nat)
    ensures |b| == 4 ==> BigEndian(b) < U32_LIMIT && U32(BigEndian(b)) == b
    ensures n < U32_LIMIT ==> BigEndian(U32(n)) == n
  {
    assert Pow(256, 4) == U32_LIMIT;
    if |b| == 4 {
      BigEndianBound(b);
      BigEndianRoundTrip(b);
    }
    if n < U32_LIMIT {
      BigEndianReads(n, 4);
    }
  }

  lemma EightOctets(b: bytes, n: nat)
    ensures |b| == 8 ==> BigEndian(b) < U64_LIMIT && ToBigEndian(BigEndian(b), 8) == b
    ensures n < U64_LIMIT ==> BigEndian(ToBigEndian(n, 8)) == n
  {
    assert Pow(256, 4) == U32_LIMIT;
    assert Pow(256, 8) == 256 * 256 * 256 * 256 * Pow(256, 4);
    if |b| == 8 {
      BigEndianBound(b);
      BigEndianRoundTrip(b);
    }
    if n < U64_LIMIT {
      BigEndianReads(n, 8);
    }
  }

  /** A section below the rest of the map is written first. */
  lemma EncodeFirst(m: Sections, last: nat, tag: nat, body: bytes)
    requires last < tag <= LAST_TAG && SectionsOk(m, tag)
    ensures EncodeSections(m[tag := body], last) == [tag] + U32(|body|) + body + EncodeSections(m, tag)
  {
    var w := m[tag := body];
    SkipTo(w, last, tag);
    SameAbove(m, w, tag);
    assert EncodeSections(w, tag - 1) == EncodeSection(w, tag) + EncodeSections(w, tag);
  }

  lemma {:induction false} SkipTo(w: Sections, last: nat, tag: nat)
    requires last < tag <= LAST_TAG && forall t | t in w :: tag <= t
    ensures EncodeSections(w, last) == EncodeSections(w, tag - 1)
    decreases tag - last
  {
    if last + 1 < tag {
      SkipTo(w, last + 1, tag);
    }
  }

  lemma {:induction false} SameAbove(m: Sections, w: Sections, last: nat)
    requires last <= LAST_TAG && forall t | t > last :: (t in m <==> t in w) && (t in m ==> m[t] == w[t])
    ensures EncodeSections(m, last) == EncodeSections(w, last)
    decreases LAST_TAG - last
  {
    if last < LAST_TAG {
      SameAbove(m, w, last + 1);
    }
  }

  /** What was parsed is what is there: writing it back gives the remaining bytes. */
  lemma {:induction false} SectionsWritten(p: bytes, off: nat, last: nat)
    requires off <= |p| && last <= LAST_TAG && ParseSections(p, off, last).Some?
    ensures var m := ParseSections(p, off, last).value; SectionsOk(m, last) && p[off..] == EncodeSections(m, last)
    decreases |p| - off
  {
    hide BigEndian, EncodeSections;
    if off == |p| {
      EmptySections(last);
    } else {
      var tag: int := p[off];
      var start, end := off + 5, off + 5 + BigEndian(p[off + 1..off + 5]);
      SectionsWritten(p, end, tag);
      FourOctets(p[off + 1..off + 5], 0);
      EncodeFirst(ParseSections(p, end, tag).value, last, tag, p[start..end]);
      assert p[off..] == [p[off]] + p[off + 1..off + 5] + p[start..end] + p[end..];
    }
  }

  lemma {:induction false} EmptySections(last: nat)
    requires last <= LAST_TAG
    ensures EncodeSections(map[], last) == []
    decreases LAST_TAG - last
  {
    if last < LAST_TAG {
      EmptySections(last + 1);
    }
  }

  /** What is written is read back. */
  lemma {:induction false} SectionsRead(p: bytes, off: nat, m: Sections, last: nat)
    requires off <= |p| && last <= LAST_TAG && SectionsOk(m, last) && p[off..] == EncodeSections(m, last)
    ensures ParseSections(p, off, last) == Some(m)
    decreases LAST_TAG - last, 1
  {
    hide BigEndian;
    if last == LAST_TAG {
      assert forall t :: t !in m;
      assert m == map[];
    } else if last + 1 !in m {
      SectionsRead(p, off, m, last + 1);
      LooserBound(p, off, last);
    } else {
      ReadOne(p, off, m, last);
    }
  }

  /** A section list above a bound is one above any lower bound. */
  lemma LooserBound(p: bytes, off: nat, last: nat)
    requires off <= |p| && ParseSections(p, off, last + 1).Some?
    ensures ParseSections(p, off, last) == ParseSections(p, off, last + 1)
  {
  }

  lemma ReadOne(p: bytes, off: nat, m: Sections, last: nat)
    requires off <= |p| && last < LAST_TAG && SectionsOk(m, last) && last + 1 in m
            && p[off..] == EncodeSections(m, last)
    ensures ParseSections(p, off, last) == Some(m)
    decreases LAST_TAG - last, 0
  {
    hide BigEndian, EncodeSections;
    var tag: byte, body := last + 1, m[last + 1];
    var end := off + 5 + |body|;
    var rest := m - {last + 1};
    FirstSection(m, last);
    Layout(p, off, tag, body, EncodeSections(m, last + 1));
    FourOctets([], |body|);
    SameAbove(m, rest, last + 1);
    SectionsRead(p, end, rest, last + 1);
    assert rest[last + 1 := body] == m;
  }

  lemma FirstSection(m: Sections, last: nat)
    requires last < LAST_TAG && last + 1 in m
    ensures EncodeSections(m, last) == [last + 1] + U32(|m[last + 1]|) + m[last + 1] + EncodeSections(m, last + 1)
  {
  }

  lemma Layout(p: bytes, off: nat, tag: byte, body: bytes, tail: bytes)
    requires off <= |p| && p[off..] == [tag] + U32(|body|) + body + tail
    ensures var end := off + 5 + |body|;
            && end <= |p| && p[off] == tag && p[off + 1..off + 5] == U32(|body|)
            && p[off + 5..end] == body && p[end..] == tail
  {
    hide ToBigEndian;
    assert p[off] == p[off..][0];
    assert p[off + 1..off + 5] == p[off..][1..5] == U32(|body|);
    assert p[off + 5..off + 5 + |body|] == p[off..][5..5 + |body|] == body;
    assert p[off + 5 + |body|..] == p[off..][5 + |body|..] == tail;
  }

  // ---- the whole request -----------------------------------------------------------------------

  lemma SectionsOfParts(m: Sections, r: Req)
    requires SectionsOk(m, 0) && 1 in m
    requires r.document == m[1] && r.keyring == Section(m, 2) && r.checkpoint == Section(m, 3)
            && r.identity == Section(m, 4)
    ensures SectionsOf(r) == m
  {
    forall t | t in m ensures t in {1, 2, 3, 4} {
    }
  }

  /** A payload is accepted exactly when it is two leading octets and the encoding of the request read from it. */
  lemma ParseRequestExact(p: bytes, r: Req)
    ensures ParseRequest(p) == Accepted(r) <==> |p| >= 2 && RequestOk(r) && p[2..] == EncodeRequest(r)
  {
    if ParseRequest(p) == Accepted(r) {
      AcceptedIsEncoded(p, r);
    }
    if |p| >= 2 && RequestOk(r) && p[2..] == EncodeRequest(r) {
      EncodedIsAccepted(p, r);
    }
  }

  lemma AcceptedIsEncoded(p: bytes, r: Req)
    requires ParseRequest(p) == Accepted(r)
    ensures RequestOk(r) && p[2..] == EncodeRequest(r)
  {
    hide BigEndian, ParseSections, EncodeSections;
    var m := ParseSections(p, FIXED_HEADER, 0).value;
    SectionsWritten(p, FIXED_HEADER, 0);
    SectionsOfParts(m, r);
    EightOctets(p[2..10], 0);
    assert p[2..] == p[2..10] + p[10..42] + [p[42]] + p[43..];
  }

  lemma EncodedIsAccepted(p: bytes, r: Req)
    requires |p| >= 2 && RequestOk(r) && p[2..] == EncodeRequest(r)
    ensures ParseRequest(p) == Accepted(r)
  {
    hide BigEndian, ParseSections, EncodeSections;
    var id, tail := ToBigEndian(r.id, 8), EncodeSections(SectionsOf(r), 0);
    assert p[2..] == id + r.nonce + [OP_VERIFY_CHAIN] + tail;
    assert p[2..10] == p[2..][..8] == id;
    assert p[10..42] == p[2..][8..40] == r.nonce;
    assert p[42] == p[2..][40] == OP_VERIFY_CHAIN;
    assert p[43..] == p[2..][41..] == tail;
    EightOctets([], r.id);
    SectionsRead(p, FIXED_HEADER, SectionsOf(r), 0);
  }

  /** The grammar is canonical: no request has two encodings behind the same two octets. */
  lemma RequestCanonical(p: bytes, q: bytes)
    requires ParseRequest(p).Accepted? && ParseRequest(p) == ParseRequest(q) && p[..2] == q[..2]
    ensures p == q
  {
    hide ParseRequest, EncodeRequest, RequestOk;
    ParseRequestExact(p, ParseRequest(p).req);
    ParseRequestExact(q, ParseRequest(p).req);
    assert p == p[..2] + p[2..] && q == q[..2] + q[2..];
  }
}
