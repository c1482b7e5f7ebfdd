/** What a `u` escape denotes: its one or two code units are the UTF-16 units of the character read. */
module JsonEscapes {
  import opened Prelude
  import opened Utf
  import opened Json
  import opened JsonParse
  import opened JsonRoundTrip

  /** A hex digit is read in either case and as nothing else. */
  lemma HexValueExact(b: byte, n: nat)
    ensures HexValue(b) == Some(n) <==> n < 16 && (b == HexDigit(n) || (n >= 10 && b == 0x41 + n - 10))
  {
  }

  /** The four octets from `i` spell `u` in hexadecimal. */
  predicate Spells(s: bytes, i: nat, u: int) {
    && i + 4 <= |s| && 0 <= u < 0x10000
    && HexValue(s[i]) == Some(u / 4096) && HexValue(s[i + 1]) == Some(u / 256 % 16)
    && HexValue(s[i + 2]) == Some(u / 16 % 16) && HexValue(s[i + 3]) == Some(u % 16)
  }

  lemma ReadHex4Exact(s: bytes, i: nat, u: nat)
    requires i < |s|
    ensures ReadHex4(s, i) == Read(u, i + 5) <==> Spells(s, i + 1, u)
  {
    hide HexValue;
    if ReadHex4(s, i) == Read(u, i + 5) {
      var a, b := HexValue(s[i + 1]).value, HexValue(s[i + 2]).value;
      var c, d := HexValue(s[i + 3]).value, HexValue(s[i + 4]).value;
      HexDigitsOf(a, b, c, d);
    }
    if Spells(s, i + 1, u) {
      HexRejoins(u);
    }
  }

  lemma HexDigitsOf(a: nat, b: nat, c: nat, d: nat)
    requires a < 16 && b < 16 && c < 16 && d < 16
    ensures var u := ((a * 16 + b) * 16 + c) * 16 + d;
            u < 0x10000 && u / 4096 == a && u / 256 % 16 == b && u / 16 % 16 == c && u % 16 == d
  {
  }

  lemma HexRejoins(u: nat)
    requires u < 0x10000
    ensures ((u / 4096 * 16 + u / 256 % 16) * 16 + u / 16 % 16) * 16 + u % 16 == u
  {
    assert u / 4096 * 16 + u / 256 % 16 == u / 256;
    assert u / 256 * 16 + u / 16 % 16 == u / 16;
  }

  /** The escapes of a character's code units stand from the letter at `i` on. */
  predicate Escaped(s: bytes, i: nat, c: char) {
    && Spells(s, i + 1, Units(c)[0])
    && (|Units(c)| == 2 ==>
          i + 6 < |s| && s[i + 5] == BACKSLASH && s[i + 6] == 0x75 && Spells(s, i + 7, Units(c)[1]))
  }

  lemma PairUnits(high: nat, low: nat)
    requires 0xD800 <= high < 0xDC00 && 0xDC00 <= low < 0xE000
    ensures Units((0x10000 + (high - 0xD800) * 1024 + (low - 0xDC00)) as char) == [high, low]
  {
  }

  lemma UnitsPair(c: char)
    requires c as int >= 0x10000
    ensures |Units(c)| == 2
    ensures var high: int, low: int := Units(c)[0], Units(c)[1];
            && 0xD800 <= high < 0xDC00 && 0xDC00 <= low < 0xE000
            && 0x10000 + (high - 0xD800) * 1024 + (low - 0xDC00) == c as int
  {
  }

  /** What was read is a character whose code units were spelled there, one escape for each. */
  lemma EscapeMeans(s: bytes, i: nat)
    requires i < |s| && ParseUnicodeEscape(s, i).Read?
    ensures var r := ParseUnicodeEscape(s, i); Escaped(s, i, r.value) && r.next == i + 6 * |Units(r.value)| - 1
  {
    hide ReadHex4, Spells;
    var cu := ReadHex4(s, i).value;
    ReadHex4Exact(s, i, cu);
    if 0xD800 <= cu < 0xDC00 {
      var low := ReadHex4(s, i + 6).value;
      ReadHex4Exact(s, i + 6, low);
      PairUnits(cu, low);
    }
  }

  /** Every character so spelled, in either case of its digits, is read. */
  lemma EscapeReads(s: bytes, i: nat, c: char)
    requires i < |s| && Escaped(s, i, c)
    ensures ParseUnicodeEscape(s, i) == Read(c, i + 6 * |Units(c)| - 1)
  {
    hide ReadHex4, Spells;
    ReadHex4Exact(s, i, Units(c)[0]);
    if |Units(c)| == 2 {
      UnitsPair(c);
      ReadHex4Exact(s, i + 6, Units(c)[1]);
    }
  }

  /** An escape denotes `c` exactly when it spells the code units of `c`; a lone surrogate denotes nothing. */
  lemma EscapeExact(s: bytes, i: nat, c: char, j: nat)
    requires i < |s|
    ensures ParseUnicodeEscape(s, i) == Read(c, j) <==> Escaped(s, i, c) && j == i + 6 * |Units(c)| - 1
  {
    hide ParseUnicodeEscape, Escaped;
    if ParseUnicodeEscape(s, i) == Read(c, j) {
      EscapeMeans(s, i);
    }
    if Escaped(s, i, c) {
      EscapeReads(s, i, c);
    }
  }

  // ---- the spelling as text --------------------------------------------------------------------

  function UnitEscape(u: Unit): (e: bytes)
    ensures |e| == 6
  {
    [BACKSLASH, 0x75, HexDigit(u / 4096), HexDigit(u / 256 % 16), HexDigit(u / 16 % 16), HexDigit(u % 16)]
  }

  /** The character as `u` escapes, a surrogate pair when it lies beyond U+FFFF. */
  function FullEscape(c: char): bytes {
    if |Units(c)| == 1 then UnitEscape(Units(c)[0]) else UnitEscape(Units(c)[0]) + UnitEscape(Units(c)[1])
  }

  lemma UnitSpelled(s: bytes, i: nat, u: Unit)
    requires At(s, i, UnitEscape(u))
    ensures i + 6 <= |s| && s[i] == BACKSLASH && s[i + 1] == 0x75 && Spells(s, i + 2, u)
  {
    hide HexDigit;
    var e := UnitEscape(u);
    AtIndex(s, i, e, 0);
    AtIndex(s, i, e, 1);
    AtIndex(s, i, e, 2);
    AtIndex(s, i, e, 3);
    AtIndex(s, i, e, 4);
    AtIndex(s, i, e, 5);
    HexDigitReads(u / 4096);
    HexDigitReads(u / 256 % 16);
    HexDigitReads(u / 16 % 16);
    HexDigitReads(u % 16);
  }

  /** Every character, escaped unit by unit, reads back as itself wherever a string body holds it. */
  lemma FullEscapeReads(s: bytes, i: nat, c: char)
    requires At(s, i, FullEscape(c))
    ensures i < |s| && ParseChar(s, i) == Read(c, i + |FullEscape(c)|)
  {
    hide UnitEscape, Spells, ParseUnicodeEscape;
    var u := Units(c);
    if |u| == 2 {
      AtSplit(s, i, UnitEscape(u[0]), UnitEscape(u[1]));
      UnitSpelled(s, i + 6, u[1]);
    }
    UnitSpelled(s, i, u[0]);
    EscapeReads(s, i + 1, c);
  }
}
