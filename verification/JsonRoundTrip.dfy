/** Parser and printer undo each other. */
module JsonRoundTrip {
  import opened Prelude
  import opened Utf
  import opened Json
  import opened JsonParse

  /** The positions at which a printed value can end. */
  predicate Stop(s: bytes, j: nat) {
    j == |s| || (j < |s| && (s[j] == COMMA || s[j] == CLOSE_BRACKET || s[j] == CLOSE_BRACE))
  }

  // ---- numbers ---------------------------------------------------------------------------------

  lemma {:induction false} DecimalDigits(n: nat)
    ensures forall i | 0 <= i < |Digits(n)| :: IsDigit(Digits(n)[i])
    ensures Decimal(Digits(n)) == n
  {
    if n < 10 {
      assert Digits(n)[..0] == [];
    } else {
      DecimalDigits(n / 10);
      var d := Digits(n);
      assert d[..|d| - 1] == Digits(n / 10);
    }
  }

  lemma {:induction false} SkipDigitsTo(s: bytes, i: nat, j: nat)
    requires i <= j <= |s|
    requires forall k | i <= k < j :: IsDigit(s[k])
    requires j == |s| || !IsDigit(s[j])
    ensures SkipDigits(s, i) == j
    decreases j - i
  {
    if i < j {
      SkipDigitsTo(s, i + 1, j);
    }
  }

  /** The digits of a magnitude, as the number reader delimits and evaluates them. */
  lemma MagnitudeReads(s: bytes, a: nat, m: nat)
    requires At(s, a, Digits(m)) && Stop(s, a + |Digits(m)|)
    ensures a < |s| && IsDigit(s[a])
    ensures (if s[a] == 0x30 then a + 1 else SkipDigits(s, a)) == a + |Digits(m)|
    ensures s[a..a + |Digits(m)|] == Digits(m)
  {
    var d := Digits(m);
    var z := a + |d|;
    forall k | a <= k < z ensures IsDigit(s[k]) {
      AtIndex(s, a, d, k - a);
    }
    AtIndex(s, a, d, 0);
    if m == 0 {
      assert |d| == 1;
    } else {
      SkipDigitsTo(s, a, z);
    }
  }

  /** The token whose magnitude is spelled by the octets from `a` to `z`. */
  lemma TokenReads(s: bytes, i: nat, a: nat, z: nat)
    requires i <= a < z <= |s| && Stop(s, z)
    requires if s[i] == MINUS then a == i + 1 else a == i
    requires IsDigit(s[a]) && (if s[a] == 0x30 then a + 1 else SkipDigits(s, a)) == z
    requires forall k | 0 <= k < |s[a..z]| :: IsDigit(s[a..z][k])
    requires Decimal(s[a..z]) <= MAX_SAFE
    ensures ParseNumber(s, i) == Read(Int(if s[i] == MINUS then -(Decimal(s[a..z]) as int) else Decimal(s[a..z])), z)
  {
  }

  /** A magnitude behind its optional sign, as a token. */
  lemma SignedReads(s: bytes, i: nat, a: nat, m: nat)
    requires At(s, a, Digits(m)) && Stop(s, a + |Digits(m)|) && m <= MAX_SAFE
    requires i < |s| && if s[i] == MINUS then a == i + 1 else a == i
    ensures ParseNumber(s, i) == Read(Int(if s[i] == MINUS then -(m as int) else m), a + |Digits(m)|)
  {
    hide ParseNumber, Stop, SkipDigits, Digits;
    MagnitudeReads(s, a, m);
    DecimalDigits(m);
    TokenReads(s, i, a, a + |Digits(m)|);
  }

  lemma NumberReads(s: bytes, i: nat, n: int)
    requires At(s, i, FormatInt(n)) && Stop(s, i + |FormatInt(n)|)
    requires -MAX_SAFE <= n <= MAX_SAFE
    ensures i < |s| && ParseNumber(s, i) == Read(Int(n), i + |FormatInt(n)|)
  {
    hide ParseNumber, Stop, SkipDigits, Digits;
    if n < 0 {
      AtSplit(s, i, [MINUS], Digits(-n));
      AtByte(s, i, MINUS);
      SignedReads(s, i, i + 1, -n);
    } else {
      MagnitudeReads(s, i, n);
      SignedReads(s, i, i, n);
    }
  }

  // ---- strings ---------------------------------------------------------------------------------

  lemma HexDigitReads(n: nat)
    requires n < 16
    ensures HexValue(HexDigit(n)) == Some(n)
  {
  }

  lemma ControlReads(s: bytes, i: nat, x: nat)
    requires x < 0x20
    requires At(s, i, [BACKSLASH, 0x75, 0x30, 0x30, HexDigit(x / 16), HexDigit(x % 16)])
    ensures ParseChar(s, i) == Read(x as char, i + 6)
  {
    var e: bytes := [BACKSLASH, 0x75, 0x30, 0x30, HexDigit(x / 16), HexDigit(x % 16)];
    AtIndex(s, i, e, 0);
    AtIndex(s, i, e, 1);
    AtIndex(s, i, e, 2);
    AtIndex(s, i, e, 3);
    AtIndex(s, i, e, 4);
    AtIndex(s, i, e, 5);
    HexDigitReads(x / 16);
    HexDigitReads(x % 16);
    assert ReadHex4(s, i + 1) == Read(x, i + 6);
  }

  /** Every character, in its canonical spelling, reads back as itself. */
  lemma CharReads(s: bytes, i: nat, c: char)
    requires At(s, i, Escape(c))
    ensures i < |s| && s[i] != QUOTE && ParseChar(s, i) == Read(c, i + |Escape(c)|)
  {
    var e, x := Escape(c), c as int;
    AtIndex(s, i, e, 0);
    if x == 0x22 || x == 0x5C || x == 0x08 || x == 0x0C || x == 0x0A || x == 0x0D || x == 0x09 {
      AtIndex(s, i, e, 1);
    } else if x < 0x20 {
      ControlReads(s, i, x);
    } else {
      DecodeEncoded(s, i, c);
    }
  }

  lemma {:induction false} TextReads(s: bytes, i: nat, t: string, acc: string)
    requires At(s, i, EscapeAll(t) + [QUOTE])
    ensures ParseText(s, i, acc) == Read(acc + t, i + |EscapeAll(t)| + 1)
    decreases t
  {
    hide ParseChar, Escape;
    AtSplit(s, i, EscapeAll(t), [QUOTE]);
    if t == [] {
      AtByte(s, i, QUOTE);
      assert acc + t == acc;
    } else {
      AtSplit(s, i, Escape(t[0]), EscapeAll(t[1..]));
      CharReads(s, i, t[0]);
      var j := i + |Escape(t[0])|;
      AtSplit(s, j, EscapeAll(t[1..]), [QUOTE]);
      TextReads(s, j, t[1..], acc + [t[0]]);
      assert acc + [t[0]] + t[1..] == acc + t;
    }
  }

  /** A printed string at `i` reads back as its text. */
  lemma StringReads(s: bytes, i: nat, t: string)
    requires At(s, i, PrintString(t))
    ensures i < |s| && s[i] == QUOTE
    ensures ParseText(s, i + 1, "") == Read(t, i + |PrintString(t)|)
  {
    assert PrintString(t) == [QUOTE] + (EscapeAll(t) + [QUOTE]);
    AtSplit(s, i, [QUOTE], EscapeAll(t) + [QUOTE]);
    AtByte(s, i, QUOTE);
    TextReads(s, i + 1, t, "");
    assert "" + t == t;
  }

  // ---- values ----------------------------------------------------------------------------------

  /** The first octet of a printed value decides the branch the parser takes. */
  lemma FirstOctet(v: Value)
    ensures !IsWs(Print(v)[0]) && Print(v)[0] != CLOSE_BRACKET && Print(v)[0] != CLOSE_BRACE
    ensures v.Null? || v.Bool? ==> Print(v)[0] in {0x6E, 0x74, 0x66}
    ensures v.Int? ==> Print(v)[0] == MINUS || IsDigit(Print(v)[0])
    ensures v.Str? ==> Print(v)[0] == QUOTE
    ensures v.Arr? ==> Print(v)[0] == OPEN_BRACKET
    ensures v.Obj? ==> Print(v)[0] == OPEN_BRACE
  {
  }

  lemma SkipWsNone(s: bytes, i: nat)
    requires i <= |s| && (i == |s| || !IsWs(s[i]))
    ensures SkipWs(s, i) == i
  {
  }

  lemma LiteralReads(s: bytes, i: nat, v: Value)
    requires v.Null? || v.Bool?
    requires At(s, i, Print(v))
    ensures i < |s| && ParseLiteral(s, i) == Read(v, i + |Print(v)|)
  {
    AtIndex(s, i, Print(v), 0);
    if At(s, i, NULL_TOKEN) { AtIndex(s, i, NULL_TOKEN, 0); }
    if At(s, i, TRUE_TOKEN) { AtIndex(s, i, TRUE_TOKEN, 0); }
    if At(s, i, FALSE_TOKEN) { AtIndex(s, i, FALSE_TOKEN, 0); }
  }

  /** A printed value reads back as itself, whatever surrounds it. */
  lemma {:induction false} ValueReads(s: bytes, i: nat, v: Value, depth: nat, lim: Limits)
    requires At(s, i, Print(v)) && Stop(s, i + |Print(v)|)
    requires WellFormed(v, lim, depth)
    ensures ParseValue(s, i, depth, lim) == Read(v, i + |Print(v)|)
    decreases v, 3, 0
  {
    hide ParseNumber, ParseText, ParseLiteral, ParseMembers, ParseItems, FormatInt, PrintString;
    FirstOctet(v);
    AtIndex(s, i, Print(v), 0);
    match v
    case Null => LiteralReads(s, i, v);
    case Bool(_) => LiteralReads(s, i, v);
    case Int(n) => NumberReads(s, i, n);
    case Str(t) => StringReads(s, i, t);
    case Arr(items) => ArrayReads(s, i, v, depth, lim);
    case Obj(m) => ObjectReads(s, i, v, depth, lim);
  }

  lemma {:induction false} ArrayReads(s: bytes, i: nat, v: Value, depth: nat, lim: Limits)
    requires v.Arr? && At(s, i, Print(v))
    requires WellFormed(v, lim, depth)
    ensures ParseValue(s, i, depth, lim) == Read(v, i + |Print(v)|)
    decreases v, 2, 0
  {
    AtSplit(s, i, [OPEN_BRACKET], PrintItems(v.items));
    AtByte(s, i, OPEN_BRACKET);
    if v.items == [] {
      AtByte(s, i + 1, CLOSE_BRACKET);
      SkipWsNone(s, i + 1);
    } else {
      AtSplit(s, i + 1, Print(v.items[0]), PrintMoreItems(v.items[1..]));
      ValueStarts(s, i + 1, v.items[0]);
      ItemsRead(s, i + 1, v.items, [], depth + 1, lim);
      assert [] + v.items == v.items;
    }
  }

  lemma {:induction false} ObjectReads(s: bytes, i: nat, v: Value, depth: nat, lim: Limits)
    requires v.Obj? && At(s, i, Print(v))
    requires WellFormed(v, lim, depth)
    ensures ParseValue(s, i, depth, lim) == Read(v, i + |Print(v)|)
    decreases v, 2, 0
  {
    hide ParseMembers, PrintMember, ParseText, ParseItems, ParseNumber, ParseLiteral;
    var keys := SortedKeys(v.members.Keys);
    AtSplit(s, i, [OPEN_BRACE], PrintMembers(v, keys));
    AtByte(s, i, OPEN_BRACE);
    if keys == [] {
      NoMembers(v);
      AtByte(s, i + 1, CLOSE_BRACE);
      SkipWsNone(s, i + 1);
    } else {
      AtSplit(s, i + 1, PrintMember(v, keys[0]), PrintMoreMembers(v, keys[1..]));
      AtIndex(s, i + 1, PrintMember(v, keys[0]), 0);
      SkipWsNone(s, i + 1);
      MembersRead(s, i + 1, v, keys, map[], depth + 1, lim);
    }
  }

  lemma NoMembers(v: Value)
    requires v.Obj? && SortedKeys(v.members.Keys) == []
    ensures v == Obj(map[])
  {
    forall k ensures k !in v.members {
      assert k !in SortedKeys(v.members.Keys);
    }
    assert v.members == map[];
  }

  /** A printed value starts with no white space, and not with a closing bracket. */
  lemma ValueStarts(s: bytes, i: nat, v: Value)
    requires At(s, i, Print(v))
    ensures i < |s| && SkipWs(s, i) == i && s[i] != CLOSE_BRACKET
  {
    FirstOctet(v);
    AtIndex(s, i, Print(v), 0);
    SkipWsNone(s, i);
  }

  /** What follows an item or a member ends it. */
  lemma TailStarts(s: bytes, e: nat, close: byte, last: bool, tail: bytes)
    requires close == CLOSE_BRACKET || close == CLOSE_BRACE
    requires At(s, e, if last then [close] else [COMMA] + tail)
    ensures Stop(s, e) && e < |s| && SkipWs(s, e) == e
    ensures s[e] == if last then close else COMMA
    ensures !last ==> At(s, e + 1, tail)
  {
    if last {
      AtByte(s, e, close);
    } else {
      AtSplit(s, e, [COMMA], tail);
      AtByte(s, e, COMMA);
    }
    SkipWsNone(s, e);
  }

  lemma ItemStep(s: bytes, i: nat, depth: nat, lim: Limits, acc: seq<Value>, x: Value, e: nat)
    requires i <= |s| && SkipWs(s, i) == i && ParseValue(s, i, depth, lim) == Read(x, e)
    requires e < |s| && SkipWs(s, e) == e
    ensures s[e] == COMMA ==> ParseItems(s, i, depth, lim, acc) == ParseItems(s, e + 1, depth, lim, acc + [x])
    ensures s[e] == CLOSE_BRACKET ==> ParseItems(s, i, depth, lim, acc) == Read(Arr(acc + [x]), e + 1)
  {
  }

  lemma {:induction false} ItemsRead(s: bytes, i: nat, items: seq<Value>, acc: seq<Value>, depth: nat, lim: Limits)
    requires items != [] && At(s, i, PrintItems(items))
    requires forall x | x in items :: WellFormed(x, lim, depth)
    ensures ParseItems(s, i, depth, lim, acc) == Read(Arr(acc + items), i + |PrintItems(items)|)
    decreases items, 4
  {

    hide ParseItems, ParseValue, WellFormed, Print;
    var head, rest := items[0], items[1..];
    AtSplit(s, i, Print(head), PrintMoreItems(rest));
    var e := i + |Print(head)|;
    ValueStarts(s, i, head);
    TailStarts(s, e, CLOSE_BRACKET, rest == [], PrintItems(rest));
    ValueReads(s, i, head, depth, lim);
    ItemStep(s, i, depth, lim, acc, head, e);
    assert acc + items == acc + [head] + rest;
    if rest == [] {
      assert acc + items == acc + [head];
    } else {
      ItemsRead(s, e + 1, rest, acc + [head], depth, lim);
    }
  }

  /** Where the key, the colon and the value of a printed member stand. */
  lemma MemberReads(s: bytes, i: nat, v: Value, k: string, b: nat)
    requires v.Obj? && k in v.members && At(s, i, PrintMember(v, k))
    requires b == i + |PrintString(k)|
    ensures i < |s| && s[i] == QUOTE && ParseText(s, i + 1, "") == Read(k, b)
    ensures b < |s| && s[b] == COLON && SkipWs(s, b) == b && SkipWs(s, b + 1) == b + 1
    ensures At(s, b + 1, Print(v.members[k]))
    ensures b + 1 + |Print(v.members[k])| == i + |PrintMember(v, k)|
  {
    hide ParseText, Print, PrintString;
    var val := Print(v.members[k]);
    AtSplit(s, i, PrintString(k), [COLON] + val);
    StringReads(s, i, k);
    AtSplit(s, b, [COLON], val);
    AtByte(s, b, COLON);
    SkipWsNone(s, b);
    ValueStarts(s, b + 1, v.members[k]);
  }

  /** What is left to read: `keys` are the members of `v` not yet in `acc`. */
  ghost predicate Remaining(v: Value, keys: seq<string>, acc: map<string, Value>) {
    && v.Obj?
    && Sorted(keys)
    && (forall k :: k in v.members <==> k in acc || k in keys)
    && (forall k | k in acc :: k in v.members && acc[k] == v.members[k] && k !in keys)
  }

  lemma RemainingStep(v: Value, keys: seq<string>, acc: map<string, Value>)
    requires keys != [] && Remaining(v, keys, acc)
    ensures keys[0] in v.members && keys[0] !in acc
    ensures Remaining(v, keys[1..], acc[keys[0] := v.members[keys[0]]])
    ensures |keys| == 1 ==> acc[keys[0] := v.members[keys[0]]] == v.members
  {
    var acc' := acc[keys[0] := v.members[keys[0]]];
    assert keys == [keys[0]] + keys[1..];
    assert keys[0] !in keys[1..] by {
      if j :| 1 <= j < |keys| && keys[j] == keys[0] {
        Less16StrictTotal(keys[0], keys[j]);
      }
    }
    if |keys| == 1 {
      assert forall k :: k in acc' <==> k in v.members;
    }
  }

  /** One printed member, read as one step of the member loop. */
  lemma {:induction false} MemberStep(s: bytes, i: nat, v: Value, k: string, acc: map<string, Value>, depth: nat,
                                      lim: Limits)
    requires v.Obj? && k in v.members && k !in acc && k !in FORBIDDEN && WellFormed(v.members[k], lim, depth)
    requires At(s, i, PrintMember(v, k)) && Stop(s, i + |PrintMember(v, k)|)
    ensures ParseMember(s, i, depth, lim, acc) == Read((k, v.members[k]), i + |PrintMember(v, k)|)
    decreases v, 0, 0
  {
    hide ParseValue, ParseText, WellFormed, Print, PrintMember, PrintString;
    var b := i + |PrintString(k)|;
    MemberReads(s, i, v, k, b);
    SkipWsNone(s, i);
    ValueReads(s, b + 1, v.members[k], depth, lim);
  }

  lemma MembersStep(s: bytes, i: nat, depth: nat, lim: Limits, acc: map<string, Value>, k: string, x: Value, e: nat)
    requires i <= |s| && ParseMember(s, i, depth, lim, acc) == Read((k, x), e)
    requires e < |s| && SkipWs(s, e) == e
    ensures s[e] == COMMA ==> ParseMembers(s, i, depth, lim, acc) == ParseMembers(s, e + 1, depth, lim, acc[k := x])
    ensures s[e] == CLOSE_BRACE ==> ParseMembers(s, i, depth, lim, acc) == Read(Obj(acc[k := x]), e + 1)
  {
    hide ParseMember;
  }

  lemma {:induction false} MembersRead(s: bytes, i: nat, v: Value, keys: seq<string>, acc: map<string, Value>,
                                       depth: nat, lim: Limits)
    requires keys != [] && Remaining(v, keys, acc)
    requires At(s, i, PrintMembers(v, keys))
    requires forall k | k in v.members :: k !in FORBIDDEN && WellFormed(v.members[k], lim, depth)
    ensures ParseMembers(s, i, depth, lim, acc) == Read(v, i + |PrintMembers(v, keys)|)
    decreases v, 1, |keys|
  {
    hide ParseMember, ParseMembers, WellFormed, PrintMember, Print;
    var k, rest := keys[0], keys[1..];
    AtSplit(s, i, PrintMember(v, k), PrintMoreMembers(v, rest));
    RemainingStep(v, keys, acc);
    var e := i + |PrintMember(v, k)|;
    TailStarts(s, e, CLOSE_BRACE, rest == [], PrintMembers(v, rest));
    MemberStep(s, i, v, k, acc, depth, lim);
    MembersStep(s, i, depth, lim, acc, k, v.members[k], e);
    if rest != [] {
      MembersRead(s, e + 1, v, rest, acc[k := v.members[k]], depth, lim);
    }
  }

  /** Reading the canonical form of any value within the bounds gives that value back. */
  lemma ParsePrint(v: Value, lim: Limits)
    requires WellFormed(v, lim, 0)
    ensures Parse(Print(v), lim) == Some(v)
  {
    var s := Print(v);
    FirstOctet(v);
    SkipWsNone(s, 0);
    assert At(s, 0, s);
    ValueReads(s, 0, v, 0, lim);
  }

  /** Distinct values have distinct canonical forms. */
  lemma PrintInjective(v: Value, w: Value, lim: Limits)
    requires WellFormed(v, lim, 0) && WellFormed(w, lim, 0)
    requires Print(v) == Print(w)
    ensures v == w
  {
    ParsePrint(v, lim);
    ParsePrint(w, lim);
  }
}
