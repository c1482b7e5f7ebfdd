/**
 * Unicode encoding forms. A Dafny `char` is exactly a Unicode scalar value, so a `string` is a
 * well-formed text: no lone surrogate can be represented.
 */
module Utf {
  import opened Prelude

  // ---- UTF-8 -----------------------------------------------------------------------------------

  function EncodeChar(c: char): (b: bytes)
    ensures 1 <= |b| <= 4
  {
    var x := c as int;
    if x < 0x80 then [x]
    else if x < 0x800 then [0xC0 + x / 64, 0x80 + x % 64]
    else if x < 0x10000 then [0xE0 + x / 4096, 0x80 + x / 64 % 64, 0x80 + x % 64]
    else [0xF0 + x / 262144, 0x80 + x / 4096 % 64, 0x80 + x / 64 % 64, 0x80 + x % 64]
  }

  function EncodeText(t: string): bytes {
    if t == [] then [] else EncodeChar(t[0]) + EncodeText(t[1..])
  }

  predicate Continuation(b: byte) { 0x80 <= b < 0xC0 }

  /** The value so far with the six payload bits of one more continuation octet. */
  function Join(high: int, low: byte): int { high * 64 + (low - 0x80) }

  /**
   * One scalar value read at `i`, refusing overlong forms, surrogates, values above U+10FFFF and
   * truncated sequences (the well-formed byte sequences of table 3-7 of the Unicode standard).
   */
  function DecodeChar(s: bytes, i: nat): (r: Parsed<char>)
    requires i < |s|
    ensures r.Read? ==> i < r.next <= |s|
  {
    var b0: int := s[i];
    if b0 < 0x80 then Read(b0 as char, i + 1)
    else if 0xC2 <= b0 < 0xE0 then
      if i + 1 < |s| && Continuation(s[i + 1]) then
        Read(Join(b0 - 0xC0, s[i + 1]) as char, i + 2)
      else Refused
    else if 0xE0 <= b0 < 0xF0 then
      if i + 2 < |s| && Continuation(s[i + 1]) && Continuation(s[i + 2])
         && (b0 == 0xE0 ==> s[i + 1] >= 0xA0) && (b0 == 0xED ==> s[i + 1] < 0xA0) then
        Read(Join(Join(b0 - 0xE0, s[i + 1]), s[i + 2]) as char, i + 3)
      else Refused
    else if 0xF0 <= b0 < 0xF5 then
      if i + 3 < |s| && Continuation(s[i + 1]) && Continuation(s[i + 2]) && Continuation(s[i + 3])
         && (b0 == 0xF0 ==> s[i + 1] >= 0x90) && (b0 == 0xF4 ==> s[i + 1] < 0x90) then
        Read(Join(Join(Join(b0 - 0xF0, s[i + 1]), s[i + 2]), s[i + 3]) as char, i + 4)
      else Refused
    else Refused
  }

  lemma SplitJoin(x: nat)
    ensures Join(x / 64, 0x80 + x % 64) == x
    ensures Join(x / 4096, 0x80 + x / 64 % 64) == x / 64
    ensures Join(x / 262144, 0x80 + x / 4096 % 64) == x / 4096
  {
  }

  /** Decoding inverts encoding wherever the encoded scalar occurs. */
  lemma DecodeEncoded(s: bytes, i: nat, c: char)
    requires At(s, i, EncodeChar(c))
    ensures i < |s| && DecodeChar(s, i) == Read(c, i + |EncodeChar(c)|)
  {
    var e, x := EncodeChar(c), c as int;
    AtIndex(s, i, e, 0);
    SplitJoin(x);
    if x < 0x80 {
    } else if x < 0x800 {
      AtIndex(s, i, e, 1);
    } else if x < 0x10000 {
      AtIndex(s, i, e, 1);
      AtIndex(s, i, e, 2);
      assert Join(Join(x / 4096, s[i + 1]), s[i + 2]) == x;
    } else {
      AtIndex(s, i, e, 1);
      AtIndex(s, i, e, 2);
      AtIndex(s, i, e, 3);
      assert Join(Join(Join(x / 262144, s[i + 1]), s[i + 2]), s[i + 3]) == x;
    }
  }

  lemma JoinSplit(high: int, mid: byte, low: byte)
    requires Continuation(mid) && Continuation(low)
    ensures var x := Join(Join(high, mid), low);
            x % 64 == low - 0x80 && x / 64 == Join(high, mid) && x / 64 % 64 == mid - 0x80 && x / 4096 == high
  {
  }

  lemma ThreeOctetForm(a: byte, b: byte, c: byte)
    requires 0xE0 <= a < 0xF0 && Continuation(b) && Continuation(c) && (a == 0xE0 ==> b >= 0xA0)
            && (a == 0xED ==> b < 0xA0)
    ensures EncodeChar(Join(Join(a - 0xE0, b), c) as char) == [a, b, c]
  {
    JoinSplit(a - 0xE0, b, c);
  }

  lemma FourOctetForm(a: byte, b: byte, c: byte, d: byte)
    requires 0xF0 <= a < 0xF5 && Continuation(b) && Continuation(c) && Continuation(d)
    requires (a == 0xF0 ==> b >= 0x90) && (a == 0xF4 ==> b < 0x90)
    ensures EncodeChar(Join(Join(Join(a - 0xF0, b), c), d) as char) == [a, b, c, d]
  {
    JoinSplit(Join(a - 0xF0, b), c, d);
    JoinSplit(a - 0xF0, b, c);
  }

  /** Every accepted sequence is the encoding of the scalar it denotes: no second spelling. */
  lemma EncodeDecoded(s: bytes, i: nat)
    requires i < |s| && DecodeChar(s, i).Read?
    ensures At(s, i, EncodeChar(DecodeChar(s, i).value))
    ensures DecodeChar(s, i).next == i + |EncodeChar(DecodeChar(s, i).value)|
  {
    hide Join, EncodeChar;
    var r := DecodeChar(s, i);
    var t := s[i..r.next];
    if r.next == i + 1 {
      assert t == [s[i]] == EncodeChar(r.value) by { ShortForm(s[i], 0x80); }
    } else if r.next == i + 2 {
      assert t == [s[i], s[i + 1]];
      ShortForm(s[i], s[i + 1]);
    } else if r.next == i + 3 {
      assert t == [s[i], s[i + 1], s[i + 2]];
      ThreeOctetForm(s[i], s[i + 1], s[i + 2]);
    } else {
      assert t == [s[i], s[i + 1], s[i + 2], s[i + 3]];
      FourOctetForm(s[i], s[i + 1], s[i + 2], s[i + 3]);
    }
  }

  lemma ShortForm(a: byte, b: byte)
    requires Continuation(b)
    ensures a < 0x80 ==> EncodeChar(a as char) == [a]
    ensures 0xC2 <= a < 0xE0 ==> EncodeChar(Join(a - 0xC0, b) as char) == [a, b]
  {
  }

  /** Every octet of `s` from `i` on belongs to a well-formed sequence. */
  predicate ValidFrom(s: bytes, i: nat)
    requires i <= |s|
    decreases |s| - i
  {
    i == |s| || (DecodeChar(s, i).Read? && ValidFrom(s, DecodeChar(s, i).next))
  }

  // ---- UTF-16 ----------------------------------------------------------------------------------

  type Unit = u: int | 0 <= u < 0x10000

  function Units(c: char): (u: seq<Unit>)
    ensures 1 <= |u| <= 2
  {
    var x := c as int;
    if x < 0x10000 then [x] else [0xD800 + (x - 0x10000) / 1024, 0xDC00 + (x - 0x10000) % 1024]
  }

  function Encode16(t: string): seq<Unit> {
    if t == [] then [] else Units(t[0]) + Encode16(t[1..])
  }

  lemma {:induction false} Encode16Injective(a: string, b: string)
    requires Encode16(a) == Encode16(b)
    ensures a == b
  {
    if a != [] && b != [] {
      var ea, eb := Encode16(a), Encode16(b);
      assert ea[0] == Units(a[0])[0] && eb[0] == Units(b[0])[0];
      if |Units(a[0])| == 2 && |Units(b[0])| == 2 {
        assert ea[1] == Units(a[0])[1] && eb[1] == Units(b[0])[1];
      }
      assert a[0] == b[0];
      assert Encode16(a[1..]) == ea[|Units(a[0])|..];
      assert Encode16(b[1..]) == eb[|Units(b[0])|..];
      Encode16Injective(a[1..], b[1..]);
      assert a == [a[0]] + a[1..];
      assert b == [b[0]] + b[1..];
    }
  }

  /** Lexicographic comparison of code-unit sequences, shorter first on a tie. */
  predicate LexLess(a: seq<Unit>, b: seq<Unit>) {
    if a == [] then b != []
    else if b == [] then false
    else if a[0] != b[0] then a[0] < b[0]
    else LexLess(a[1..], b[1..])
  }

  /** The key order of section 3.2.3 of RFC 8785. */
  predicate Less16(a: string, b: string) { LexLess(Encode16(a), Encode16(b)) }

  lemma {:induction false} LexTotal(a: seq<Unit>, b: seq<Unit>)
    ensures LexLess(a, b) || LexLess(b, a) || a == b
    ensures !(LexLess(a, b) && LexLess(b, a))
    ensures a == b ==> !LexLess(a, b)
  {
    if a != [] && b != [] && a[0] == b[0] {
      LexTotal(a[1..], b[1..]);
      assert a == [a[0]] + a[1..];
      assert b == [b[0]] + b[1..];
    }
  }

  lemma {:induction false} LexTransitive(a: seq<Unit>, b: seq<Unit>, c: seq<Unit>)
    requires LexLess(a, b) && LexLess(b, c)
    ensures LexLess(a, c)
  {
    if a != [] && a[0] == b[0] && b[0] == c[0] {
      LexTransitive(a[1..], b[1..], c[1..]);
    }
  }

  /** The UTF-16 key order is a strict total order on texts: exactly one of a < b, b < a, a == b. */
  lemma Less16StrictTotal(a: string, b: string)
    ensures Less16(a, b) || Less16(b, a) || a == b
    ensures !(Less16(a, b) && Less16(b, a))
    ensures !Less16(a, a)
  {
    LexTotal(Encode16(a), Encode16(b));
    LexTotal(Encode16(a), Encode16(a));
    if Encode16(a) == Encode16(b) {
      Encode16Injective(a, b);
    }
  }

  lemma Less16Transitive(a: string, b: string, c: string)
    requires Less16(a, b) && Less16(b, c)
    ensures Less16(a, c)
  {
    LexTransitive(Encode16(a), Encode16(b), Encode16(c));
  }

  /** The comparison as the printer runs it: the first differing unit decides, else the length. */
  method CompareUtf16(a: string, b: string) returns (less: bool)
    ensures less == Less16(a, b)
  {
    var ua, ub := Encode16(a), Encode16(b);
    var n := |ua|;
    if |ub| < n { n := |ub|; }
    var i := 0;
    while i < n
      invariant 0 <= i <= n <= |ua| && n <= |ub|
      invariant LexLess(ua, ub) == LexLess(ua[i..], ub[i..])
    {
      if ua[i] != ub[i] {
        return ua[i] < ub[i];
      }
      assert ua[i..][1..] == ua[i + 1..] && ub[i..][1..] == ub[i + 1..];
      i := i + 1;
    }
    return |ua| < |ub|;
  }

  lemma {:induction false} Encode16Concat(a: string, b: string)
    ensures Encode16(a + b) == Encode16(a) + Encode16(b)
  {
    if a == [] {
      assert a + b == b;
    } else {
      assert (a + b)[1..] == a[1..] + b;
      Encode16Concat(a[1..], b);
    }
  }

  lemma {:induction false} LexAfter(p: seq<Unit>, a: seq<Unit>, b: seq<Unit>)
    ensures LexLess(p + a, p + b) == LexLess(a, b)
  {
    if p == [] {
      assert p + a == a && p + b == b;
    } else {
      assert (p + a)[1..] == p[1..] + a && (p + b)[1..] == p[1..] + b;
      LexAfter(p[1..], a, b);
    }
  }

  /**
   * Divergence from UTF-8 (code point) order: of two keys that first differ in an astral character and one of
   * U+E000..U+FFFF, the one with the astral character comes first.
   */
  lemma AstralSortsLow(p: string, low: char, a: string, high: char, b: string)
    requires 0xE000 <= high as int < 0x10000 <= low as int
    ensures Less16(p + ([low] + a), p + ([high] + b))
  {
    Encode16Concat(p, [low] + a);
    Encode16Concat(p, [high] + b);
    LexAfter(Encode16(p), Encode16([low] + a), Encode16([high] + b));
    assert Encode16([high] + b)[0] == high as int;
    assert Encode16([low] + a)[0] == 0xD800 + (low as int - 0x10000) / 1024;
  }
}
