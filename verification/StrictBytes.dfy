/** What the parser can produce, and the strict-bytes gate over it. */
module StrictBytes {
  import opened Prelude
  import opened Utf
  import opened Json
  import opened JsonParse
  import opened JsonRoundTrip

  // ---- the image of the parser -----------------------------------------------------------------

  lemma {:induction false} ValueWellFormed(s: bytes, i: nat, depth: nat, lim: Limits)
    requires ParseValue(s, i, depth, lim).Read?
    ensures WellFormed(ParseValue(s, i, depth, lim).value, lim, depth)
    decreases |s| - i, 2
  {
    hide ParseText;
    if s[i] == OPEN_BRACE {
      var j := SkipWs(s, i + 1);
      if !(j < |s| && s[j] == CLOSE_BRACE) {
        MembersWellFormed(s, j, depth + 1, lim, map[]);
      }
    } else if s[i] == OPEN_BRACKET {
      var j := SkipWs(s, i + 1);
      if !(j < |s| && s[j] == CLOSE_BRACKET) {
        ItemsWellFormed(s, j, depth + 1, lim, []);
      }
    }
  }

  lemma {:induction false} MembersWellFormed(s: bytes, i: nat, depth: nat, lim: Limits, acc: map<string, Value>)
    requires i <= |s| && ParseMembers(s, i, depth, lim, acc).Read?
    requires forall k | k in acc :: k !in FORBIDDEN && WellFormed(acc[k], lim, depth)
    ensures var v := ParseMembers(s, i, depth, lim, acc).value;
            v.Obj? && forall k | k in v.members :: k !in FORBIDDEN && WellFormed(v.members[k], lim, depth)
    decreases |s| - i, 4
  {
    hide ParseMember, WellFormed;
    var m := ParseMember(s, i, depth, lim, acc);
    MemberWellFormed(s, i, depth, lim, acc);
    var f := SkipWs(s, m.next);
    if s[f] == COMMA {
      MembersWellFormed(s, f + 1, depth, lim, acc[m.value.0 := m.value.1]);
    }
  }

  lemma {:induction false} MemberWellFormed(s: bytes, i: nat, depth: nat, lim: Limits, acc: map<string, Value>)
    requires i <= |s| && ParseMember(s, i, depth, lim, acc).Read?
    ensures WellFormed(ParseMember(s, i, depth, lim, acc).value.1, lim, depth)
    decreases |s| - i, 3
  {
    hide ParseText, WellFormed, ParseValue;
    var key := ParseText(s, SkipWs(s, i) + 1, "");
    ValueWellFormed(s, SkipWs(s, SkipWs(s, key.next) + 1), depth, lim);
  }

  lemma {:induction false} ItemsWellFormed(s: bytes, i: nat, depth: nat, lim: Limits, acc: seq<Value>)
    requires i <= |s| && ParseItems(s, i, depth, lim, acc).Read?
    requires forall x | x in acc :: WellFormed(x, lim, depth)
    ensures var v := ParseItems(s, i, depth, lim, acc).value;
            v.Arr? && forall x | x in v.items :: WellFormed(x, lim, depth)
    decreases |s| - i, 3
  {
    hide WellFormed, ParseValue;
    var d := SkipWs(s, i);
    var val := ParseValue(s, d, depth, lim);
    ValueWellFormed(s, d, depth, lim);
    var f := SkipWs(s, val.next);
    if s[f] == COMMA {
      ItemsWellFormed(s, f + 1, depth, lim, acc + [val.value]);
    }
  }

  /** The parser produces exactly the well-formed values: no other, and each of them. */
  lemma ParserImage(v: Value, lim: Limits)
    ensures (exists s :: Parse(s, lim) == Some(v)) <==> WellFormed(v, lim, 0)
  {
    hide ParseValue, WellFormed, Print;
    if s :| Parse(s, lim) == Some(v) {
      ValueWellFormed(s, SkipWs(s, 0), 0, lim);
    }
    if WellFormed(v, lim, 0) {
      ParsePrint(v, lim);
    }
  }

  // ---- canonical forms are valid UTF-8 ---------------------------------------------------------

  /** `b` is the UTF-8 encoding of some text. */
  ghost predicate IsUtf8(b: bytes) { exists t :: EncodeText(t) == b }

  lemma {:induction false} EncodeTextConcat(t: string, u: string)
    ensures EncodeText(t + u) == EncodeText(t) + EncodeText(u)
  {
    if t == [] {
      assert t + u == u;
    } else {
      assert (t + u)[1..] == t[1..] + u;
      EncodeTextConcat(t[1..], u);
    }
  }

  lemma Utf8Concat(a: bytes, b: bytes)
    requires IsUtf8(a) && IsUtf8(b)
    ensures IsUtf8(a + b)
  {
    var t :| EncodeText(t) == a;
    var u :| EncodeText(u) == b;
    EncodeTextConcat(t, u);
  }

  lemma Utf8Char(c: char)
    ensures IsUtf8(EncodeChar(c))
  {
    assert EncodeText([c]) == EncodeChar(c) + EncodeText([]);
    assert EncodeText([c]) == EncodeChar(c);
  }

  lemma {:induction false} Utf8Ascii(a: bytes)
    requires forall i | 0 <= i < |a| :: a[i] < 0x80
    ensures IsUtf8(a)
  {
    if a == [] {
      assert EncodeText([]) == a;
    } else {
      Utf8Char(a[0] as char);
      assert [a[0]] == EncodeChar(a[0] as char);
      Utf8Ascii(a[1..]);
      Utf8Concat([a[0]], a[1..]);
      assert a == [a[0]] + a[1..];
    }
  }

  lemma {:induction false} Utf8Escapes(t: string)
    ensures IsUtf8(EscapeAll(t))
  {
    if t == [] {
      Utf8Ascii([]);
    } else {
      var e := Escape(t[0]);
      if t[0] as int >= 0x20 && t[0] as int != 0x22 && t[0] as int != 0x5C {
        Utf8Char(t[0]);
      } else {
        Utf8Ascii(e);
      }
      Utf8Escapes(t[1..]);
      Utf8Concat(e, EscapeAll(t[1..]));
    }
  }

  lemma Utf8String(t: string)
    ensures IsUtf8(PrintString(t))
  {
    hide IsUtf8;
    Utf8Ascii([QUOTE]);
    Utf8Escapes(t);
    Utf8Concat([QUOTE], EscapeAll(t));
    Utf8Concat([QUOTE] + EscapeAll(t), [QUOTE]);
  }

  lemma {:induction false} Utf8Print(v: Value)
    ensures IsUtf8(Print(v))
    decreases v, 2, 0
  {
    hide IsUtf8;
    match v
    case Null => Utf8Ascii(Print(v));
    case Bool(_) => Utf8Ascii(Print(v));
    case Int(n) => Utf8Ascii(Print(v));
    case Str(t) => Utf8String(t);
    case Arr(items) =>
      Utf8Ascii([OPEN_BRACKET]);
      Utf8Items(items);
      Utf8Concat([OPEN_BRACKET], PrintItems(items));
    case Obj(m) =>
      var keys := SortedKeys(m.Keys);
      Utf8Ascii([OPEN_BRACE]);
      Utf8Members(v, keys);
      Utf8Concat([OPEN_BRACE], PrintMembers(v, keys));
  }

  lemma {:induction false} Utf8Items(items: seq<Value>)
    ensures IsUtf8(PrintItems(items))
    decreases items, 0
  {
    hide IsUtf8, Print;
    if items == [] {
      Utf8Ascii([CLOSE_BRACKET]);
    } else {
      var rest := items[1..];
      Utf8Print(items[0]);
      Utf8Items(rest);
      Utf8Ascii([COMMA]);
      Utf8Concat([COMMA], PrintItems(rest));
      Utf8Ascii([CLOSE_BRACKET]);
      Utf8Concat(Print(items[0]), PrintMoreItems(rest));
    }
  }

  lemma {:induction false} Utf8Members(v: Value, keys: seq<string>)
    ensures IsUtf8(PrintMembers(v, keys))
    decreases v, 1, |keys|
  {
    hide IsUtf8, PrintMember;
    if keys == [] {
      Utf8Ascii([CLOSE_BRACE]);
    } else {
      var rest := keys[1..];
      Utf8Member(v, keys[0]);
      Utf8Members(v, rest);
      Utf8Ascii([COMMA]);
      Utf8Concat([COMMA], PrintMembers(v, rest));
      Utf8Ascii([CLOSE_BRACE]);
      Utf8Concat(PrintMember(v, keys[0]), PrintMoreMembers(v, rest));
    }
  }

  lemma {:induction false} Utf8Member(v: Value, k: string)
    ensures IsUtf8(PrintMember(v, k))
    decreases v, 0, 0
  {
    hide IsUtf8, Print, PrintString;
    var val := if v.Obj? && k in v.members then Print(v.members[k]) else [];
    if v.Obj? && k in v.members {
      Utf8Print(v.members[k]);
    } else {
      Utf8Ascii([]);
    }
    Utf8Ascii([COLON]);
    Utf8Concat([COLON], val);
    Utf8String(k);
    Utf8Concat(PrintString(k), [COLON] + val);
  }

  lemma {:induction false} EncodedIsValid(s: bytes, i: nat, t: string)
    requires At(s, i, EncodeText(t)) && i + |EncodeText(t)| == |s|
    ensures ValidFrom(s, i)
    decreases t
  {
    hide DecodeChar;
    if t != [] {
      AtSplit(s, i, EncodeChar(t[0]), EncodeText(t[1..]));
      DecodeEncoded(s, i, t[0]);
      EncodedIsValid(s, i + |EncodeChar(t[0])|, t[1..]);
    }
  }

  lemma PrintIsValid(v: Value)
    ensures ValidFrom(Print(v), 0)
  {
    hide Print, ValidFrom;
    Utf8Print(v);
    var t :| EncodeText(t) == Print(v);
    EncodedIsValid(Print(v), 0, t);
  }

  // ---- the gate --------------------------------------------------------------------------------

  const NATIVE := "native"
  const STRICT := "strict-bytes"

  /** The tree a profile admits, if any: decode check, strict parse, and under strict-bytes one comparison. */
  ghost function Admits(data: bytes, profile: string): Option<Value> {
    if profile != NATIVE && profile != STRICT then None
    else if !ValidFrom(data, 0) then None
    else
      var v :- Parse(data, GO_LIMITS);
      if profile == STRICT && Print(v) != data then None else Some(v)
  }

  /** Strict-bytes admits exactly the canonical forms of well-formed values. */
  lemma StrictAdmitsCanonical(data: bytes, v: Value)
    ensures Admits(data, STRICT) == Some(v) <==> WellFormed(v, GO_LIMITS, 0) && data == Print(v)
  {
    hide Parse, Print, WellFormed, ValidFrom;
    if Admits(data, STRICT) == Some(v) {
      ParserImage(v, GO_LIMITS);
    }
    if WellFormed(v, GO_LIMITS, 0) && data == Print(v) {
      PrintIsValid(v);
      ParsePrint(v, GO_LIMITS);
    }
  }

  /** Each value has at most one admitted spelling, and every natively read value has one. */
  lemma StrictUnique(data: bytes, other: bytes, v: Value)
    ensures Admits(data, STRICT) == Some(v) && Admits(other, STRICT) == Some(v) ==> data == other
    ensures Admits(data, NATIVE) == Some(v) ==> Admits(Print(v), STRICT) == Some(v)
    ensures Admits(data, STRICT).Some? ==> Admits(data, NATIVE) == Admits(data, STRICT)
  {
    hide Parse, Print, WellFormed, ValidFrom;
    StrictAdmitsCanonical(data, v);
    StrictAdmitsCanonical(other, v);
    StrictAdmitsCanonical(Print(v), v);
    if Admits(data, NATIVE) == Some(v) {
      ParserImage(v, GO_LIMITS);
    }
  }
}
