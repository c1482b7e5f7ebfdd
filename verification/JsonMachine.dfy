/** The cursor parser and the string-building printer, each proved against its specification. */
module JsonMachine {
  import opened Prelude
  import opened Utf
  import opened Json
  import opened JsonParse
  import opened StrictBytes

  /** Reads one document front to back. A refusal leaves the cursor wherever it stopped. */
  class Parser {
    const s: bytes
    var i: nat
    var depth: nat

    constructor (text: bytes)
      ensures s == text && i == 0 && depth == 0
    {
      s := text;
      i := 0;
      depth := 0;
    }

    method SkipSpace()
      requires i <= |s|
      modifies this`i
      ensures i == SkipWs(s, old(i)) && i <= |s|
    {
      while i < |s| && IsWs(s[i])
        invariant i <= |s| && SkipWs(s, i) == SkipWs(s, old(i))
      {
        i := i + 1;
      }
    }

    method ReadUnit() returns (r: Option<nat>)
      requires i < |s|
      modifies this`i
      ensures r.Some? <==> ReadHex4(s, old(i)).Read?
      ensures r.Some? ==> ReadHex4(s, old(i)) == Read(r.value, i)
    {
      if i + 5 > |s| { return None; }
      var v, k := 0, 1;
      while k <= 4
        invariant 1 <= k <= 5 && i == old(i)
        invariant k == 1 ==> v == 0
        invariant k > 1 ==> HexValue(s[i + 1]).Some?
        invariant k > 2 ==> HexValue(s[i + 2]).Some?
        invariant k > 3 ==> HexValue(s[i + 3]).Some?
        invariant k > 4 ==> HexValue(s[i + 4]).Some?
        invariant k == 2 ==> v == HexValue(s[i + 1]).value
        invariant k == 3 ==> v == HexValue(s[i + 1]).value * 16 + HexValue(s[i + 2]).value
        invariant k == 4 ==>
                    v == (HexValue(s[i + 1]).value * 16 + HexValue(s[i + 2]).value) * 16 + HexValue(s[i + 3]).value
        invariant k == 5 ==> Read(v, i + 5) == ReadHex4(s, i)
      {
        var d := HexValue(s[i + k]);
        if d.None? { return None; }
        v := v * 16 + d.value;
        k := k + 1;
      }
      i := i + 5;
      r := Some(v);
    }

    method ReadEscapedChar() returns (r: Option<char>)
      requires i < |s|
      modifies this`i
      ensures r.Some? <==> ParseUnicodeEscape(s, old(i)).Read?
      ensures r.Some? ==> ParseUnicodeEscape(s, old(i)) == Read(r.value, i)
    {
      hide ReadHex4;
      var cu := ReadUnit();
      if cu.None? { return None; }
      if 0xD800 <= cu.value < 0xDC00 {
        if i + 1 < |s| && s[i] == BACKSLASH && s[i + 1] == 0x75 {
          i := i + 1;
          var low := ReadUnit();
          if low.None? { return None; }
          if 0xDC00 <= low.value < 0xE000 {
            return Some((0x10000 + (cu.value - 0xD800) * 1024 + (low.value - 0xDC00)) as char);
          }
          return None;
        }
        return None;
      }
      if 0xDC00 <= cu.value < 0xE000 { return None; }
      return Some(cu.value as char);
    }

    /** A string body up to and including its closing quote. */
    method ReadText() returns (r: Option<string>)
      requires i < |s|
      modifies this`i
      ensures r.Some? <==> ParseText(s, old(i) + 1, "").Read?
      ensures r.Some? ==> ParseText(s, old(i) + 1, "") == Read(r.value, i) && i <= |s|
    {
      hide ParseUnicodeEscape, DecodeChar, Unescape;
      i := i + 1;
      var b: string := "";
      while true
        invariant old(i) < i <= |s|
        invariant ParseText(s, old(i) + 1, "") == ParseText(s, i, b)
        decreases |s| - i
      {
        if i >= |s| { return None; }
        if s[i] == QUOTE {
          i := i + 1;
          return Some(b);
        } else if s[i] == BACKSLASH {
          if i + 1 >= |s| { return None; }
          if s[i + 1] == 0x75 {
            i := i + 1;
            var c := ReadEscapedChar();
            if c.None? { return None; }
            b := b + [c.value];
          } else {
            var c := Unescape(s[i + 1]);
            if c.None? { return None; }
            b := b + [c.value];
            i := i + 2;
          }
        } else if s[i] < 0x20 {
          return None;
        } else {
          var d := DecodeChar(s, i);
          if d.Refused? { return None; }
          b := b + [d.value];
          i := d.next;
        }
      }
    }

    /** A run of digits, or a single leading zero, and its value. */
    method ReadMagnitude() returns (n: nat)
      requires i < |s| && IsDigit(s[i])
      modifies this`i
      ensures i == (if s[old(i)] == 0x30 then old(i) + 1 else SkipDigits(s, old(i))) && old(i) <= i <= |s|
      ensures var t := s[old(i)..i]; (forall k | 0 <= k < |t| :: IsDigit(t[k])) && n == Decimal(t)
    {
      hide Decimal;
      var start := i;
      if s[i] == 0x30 {
        OneDigit(s, start);
        n := DigitValue(s[i]);
        i := i + 1;
        return;
      }
      n := 0;
      NoDigits(s, start);
      while i < |s| && IsDigit(s[i])
        invariant start <= i <= |s|
        invariant SkipDigits(s, start) == SkipDigits(s, i)
        invariant forall k | 0 <= k < |s[start..i]| :: IsDigit(s[start..i][k])
        invariant n == Decimal(s[start..i])
      {
        OneMoreDigit(s, start, i);
        n := n * 10 + DigitValue(s[i]);
        i := i + 1;
      }
    }

    method ReadNumber() returns (r: Option<Value>)
      requires i < |s|
      modifies this`i
      ensures r.Some? <==> ParseNumber(s, old(i)).Read?
      ensures r.Some? ==> ParseNumber(s, old(i)) == Read(r.value, i)
    {
      hide Decimal, SkipDigits;
      var negative := s[i] == MINUS;
      if negative { i := i + 1; }
      if i >= |s| || !IsDigit(s[i]) { return None; }
      var n := ReadMagnitude();
      if i < |s| && (s[i] == 0x2E || s[i] == 0x65 || s[i] == 0x45) { return None; }
      if n > MAX_SAFE { return None; }
      var signed: int := if negative then -(n as int) else n;
      r := Some(Int(signed));
    }

    /** One value at the cursor; the number of open containers is restored on success. */
    method ReadValue() returns (r: Option<Value>)
      requires i <= |s|
      modifies this
      ensures r.Some? <==> ParseValue(s, old(i), old(depth), GO_LIMITS).Read?
      ensures r.Some? ==> ParseValue(s, old(i), old(depth), GO_LIMITS) == Read(r.value, i) && depth == old(depth)
      decreases |s| - i, 2
    {
      hide ParseText, ParseNumber, ParseLiteral, ParseMembers, ParseItems;
      if i >= |s| { return None; }
      if s[i] == OPEN_BRACE {
        r := ReadObject();
      } else if s[i] == OPEN_BRACKET {
        r := ReadArray();
      } else if s[i] == QUOTE {
        var t := ReadText();
        if t.None? { return None; }
        r := Some(Str(t.value));
      } else if s[i] == 0x74 || s[i] == 0x66 || s[i] == 0x6E {
        r := ReadLiteral();
      } else if s[i] == MINUS || IsDigit(s[i]) {
        r := ReadNumber();
      } else {
        r := None;
      }
    }

    method ReadLiteral() returns (r: Option<Value>)
      requires i < |s|
      modifies this`i
      ensures r.Some? <==> ParseLiteral(s, old(i)).Read?
      ensures r.Some? ==> ParseLiteral(s, old(i)) == Read(r.value, i)
    {
      if At(s, i, NULL_TOKEN) {
        i := i + 4;
        r := Some(Null);
      } else if At(s, i, TRUE_TOKEN) {
        i := i + 4;
        r := Some(Bool(true));
      } else if At(s, i, FALSE_TOKEN) {
        i := i + 5;
        r := Some(Bool(false));
      } else {
        r := None;
      }
    }

    method ReadObject() returns (r: Option<Value>)
      requires i < |s| && s[i] == OPEN_BRACE
      modifies this
      ensures r.Some? <==> ParseValue(s, old(i), old(depth), GO_LIMITS).Read?
      ensures r.Some? ==> ParseValue(s, old(i), old(depth), GO_LIMITS) == Read(r.value, i) && depth == old(depth)
      decreases |s| - i, 1
    {
      hide ParseMember, ParseText, ParseNumber, ParseLiteral, ParseItems;
      depth := depth + 1;
      if depth > 2000 { return None; }
      i := i + 1;
      var obj: map<string, Value> := map[];
      SkipSpace();
      if i < |s| && s[i] == CLOSE_BRACE {
        i := i + 1;
        depth := depth - 1;
        return Some(Obj(obj));
      }
      while true
        invariant old(i) < i <= |s| && depth == old(depth) + 1
        invariant ParseValue(s, old(i), old(depth), GO_LIMITS) == ParseMembers(s, i, depth, GO_LIMITS, obj)
        decreases |s| - i
      {
        var m := ReadMember(obj);
        if m.None? { return None; }
        obj := obj[m.value.0 := m.value.1];
        SkipSpace();
        if i >= |s| { return None; }
        if s[i] == COMMA {
          i := i + 1;
        } else if s[i] == CLOSE_BRACE {
          i := i + 1;
          depth := depth - 1;
          return Some(Obj(obj));
        } else {
          return None;
        }
      }
    }

    /** One key, colon and value of the object read so far as `obj`. */
    method ReadMember(obj: map<string, Value>) returns (r: Option<(string, Value)>)
      requires i <= |s|
      modifies this
      ensures r.Some? <==> ParseMember(s, old(i), old(depth), GO_LIMITS, obj).Read?
      ensures r.Some? ==> ParseMember(s, old(i), old(depth), GO_LIMITS, obj) == Read(r.value, i) && depth == old(depth)
      decreases |s| - i, 3
    {
      hide ParseText, ParseValue;
      SkipSpace();
      if i >= |s| || s[i] != QUOTE { return None; }
      var key := ReadText();
      if key.None? { return None; }
      if key.value in obj || key.value in FORBIDDEN { return None; }
      SkipSpace();
      if i >= |s| || s[i] != COLON { return None; }
      i := i + 1;
      SkipSpace();
      var val := ReadValue();
      if val.None? { return None; }
      r := Some((key.value, val.value));
    }

    method ReadArray() returns (r: Option<Value>)
      requires i < |s| && s[i] == OPEN_BRACKET
      modifies this
      ensures r.Some? <==> ParseValue(s, old(i), old(depth), GO_LIMITS).Read?
      ensures r.Some? ==> ParseValue(s, old(i), old(depth), GO_LIMITS) == Read(r.value, i) && depth == old(depth)
      decreases |s| - i, 1
    {
      hide ParseText, ParseNumber, ParseLiteral, ParseMembers;
      depth := depth + 1;
      if depth > 2000 { return None; }
      i := i + 1;
      var arr: seq<Value> := [];
      SkipSpace();
      if i < |s| && s[i] == CLOSE_BRACKET {
        i := i + 1;
        depth := depth - 1;
        return Some(Arr(arr));
      }
      while true
        invariant old(i) < i <= |s| && depth == old(depth) + 1
        invariant ParseValue(s, old(i), old(depth), GO_LIMITS) == ParseItems(s, i, depth, GO_LIMITS, arr)
        decreases |s| - i
      {
        SkipSpace();
        var val := ReadValue();
        if val.None? { return None; }
        arr := arr + [val.value];
        SkipSpace();
        if i >= |s| { return None; }
        if s[i] == COMMA {
          i := i + 1;
        } else if s[i] == CLOSE_BRACKET {
          i := i + 1;
          depth := depth - 1;
          return Some(Arr(arr));
        } else {
          return None;
        }
      }
    }
  }

  lemma NoDigits(s: bytes, a: nat)
    requires a <= |s|
    ensures Decimal(s[a..a]) == 0
  {
  }

  lemma OneDigit(s: bytes, a: nat)
    requires a < |s| && IsDigit(s[a])
    ensures Decimal(s[a..a + 1]) == DigitValue(s[a])
  {
    assert s[a..a + 1] == [s[a]];
    assert [s[a]][..0] == [];
  }

  lemma OneMoreDigit(s: bytes, a: nat, i: nat)
    requires a <= i < |s| && IsDigit(s[i])
    requires forall k | 0 <= k < |s[a..i]| :: IsDigit(s[a..i][k])
    ensures var t := s[a..i + 1]; forall k | 0 <= k < |t| :: IsDigit(t[k])
    ensures Decimal(s[a..i + 1]) == Decimal(s[a..i]) * 10 + DigitValue(s[i])
  {
    var d := s[a..i + 1];
    assert d == s[a..i] + [s[i]];
    assert d[..|d| - 1] == s[a..i];
  }

  /** The strict parser over a whole document. */
  method ParseStrict(text: bytes) returns (r: Option<Value>)
    ensures r == Parse(text, GO_LIMITS)
  {
    hide ParseValue;
    var p := new Parser(text);
    p.SkipSpace();
    var v := p.ReadValue();
    if v.None? { return None; }
    p.SkipSpace();
    if p.i != |text| { return None; }
    return v;
  }

  // ---- the printer -----------------------------------------------------------------------------

  /** A string in canonical form, built character by character. */
  method JcsString(t: string) returns (b: bytes)
    ensures b == PrintString(t)
  {
    b := [QUOTE];
    var k := 0;
    while k < |t|
      invariant 0 <= k <= |t|
      invariant b + EscapeAll(t[k..]) == [QUOTE] + EscapeAll(t)
    {
      assert t[k..][1..] == t[k + 1..];
      ghost var was := b;
      b := b + Escape(t[k]);
      assert b + EscapeAll(t[k + 1..]) == was + EscapeAll(t[k..]);
      k := k + 1;
    }
    assert b == [QUOTE] + EscapeAll(t);
    b := b + [QUOTE];
  }

  /** Puts one name at its place in a sorted listing. */
  method InsertKey(keys: seq<string>, x: string) returns (r: seq<string>)
    ensures r == Insert(keys, x)
  {
    hide Less16;
    var j, found := 0, false;
    while j < |keys| && !found
      invariant 0 <= j <= |keys|
      invariant found ==> j < |keys| && Less16(x, keys[j])
      invariant keys[..j] + Insert(keys[j..], x) == Insert(keys, x)
      decreases |keys| - j, !found
    {
      found := CompareUtf16(x, keys[j]);
      if !found {
        assert keys[..j] + ([keys[j]] + Insert(keys[j + 1..], x)) == keys[..j + 1] + Insert(keys[j + 1..], x);
        assert keys[j..][1..] == keys[j + 1..];
        j := j + 1;
      }
    }
    r := keys[..j] + ([x] + keys[j..]);
  }

  /** Sorts the member names of one object, however they were listed. */
  method SortUtf16(keys: seq<string>) returns (r: seq<string>)
    requires forall i, j | 0 <= i < j < |keys| :: keys[i] != keys[j]
    ensures r == SortedKeys(set k | k in keys)
  {
    hide Insert, Less16;
    r := [];
    var n := 0;
    while n < |keys|
      invariant 0 <= n <= |keys|
      invariant Sorted(r) && forall k :: k in r <==> k in keys[..n]
    {
      assert keys[n] !in keys[..n];
      InsertSorts(r, keys[n]);
      assert keys[..n + 1] == keys[..n] + [keys[n]];
      r := InsertKey(r, keys[n]);
      n := n + 1;
    }
    assert keys[..n] == keys;
    SortedUnique(r, SortedKeys(set k | k in keys));
  }

  /** The canonical form of a value (RFC 8785). */
  method Jcs(v: Value) returns (b: bytes)
    ensures b == Print(v)
    decreases v, 2, 0
  {
    hide PrintString;
    match v
    case Null => b := NULL_TOKEN;
    case Bool(x) => b := if x then TRUE_TOKEN else FALSE_TOKEN;
    case Int(n) => b := FormatInt(n);
    case Str(t) => b := JcsString(t);
    case Arr(items) => b := JcsArray(v);
    case Obj(m) => b := JcsObject(v);
  }

  method JcsArray(v: Value) returns (b: bytes)
    requires v.Arr?
    ensures b == Print(v)
    decreases v, 1, 0
  {
    hide PrintItems, PrintMoreItems;
    b := [OPEN_BRACKET];
    var k := 0;
    while k < |v.items|
      invariant 0 <= k <= |v.items|
      invariant k == 0 ==> b == [OPEN_BRACKET]
      invariant k > 0 ==> b + PrintMoreItems(v.items[k..]) == Print(v)
    {
      ItemsUnfold(v.items, k);
      var e := Jcs(v.items[k]);
      if k > 0 {
        Regroup(b, [COMMA], e, PrintMoreItems(v.items[k + 1..]));
        b := b + [COMMA] + e;
      } else {
        Regroup([], b, e, PrintMoreItems(v.items[k + 1..]));
        b := b + e;
      }
      k := k + 1;
    }
    ItemsEnd(v.items);
    b := b + [CLOSE_BRACKET];
  }

  lemma ItemsEnd(items: seq<Value>)
    ensures PrintItems([]) == [CLOSE_BRACKET] == PrintMoreItems(items[|items|..])
  {
    assert items[|items|..] == [];
  }

  lemma ItemsUnfold(items: seq<Value>, k: nat)
    requires k < |items|
    ensures PrintItems(items[k..]) == Print(items[k]) + PrintMoreItems(items[k + 1..])
    ensures k == 0 ==> PrintItems(items) == Print(items[k]) + PrintMoreItems(items[k + 1..])
    ensures PrintMoreItems(items[k..]) == [COMMA] + (Print(items[k]) + PrintMoreItems(items[k + 1..]))
  {
    hide Print;
    assert items[k..][1..] == items[k + 1..];
    assert items[0..] == items;
  }

  method JcsObject(v: Value) returns (b: bytes)
    requires v.Obj?
    ensures b == Print(v)
    decreases v, 1, 0
  {
    hide PrintMembers, Sorted;
    var keys: seq<string> := ListKeys(v.members.Keys);
    keys := SortUtf16(keys);
    var rest := JcsMembers(v, keys);
    b := [OPEN_BRACE] + rest;
  }

  /** The named members, comma-separated, and the closing brace. */
  method JcsMembers(v: Value, keys: seq<string>) returns (b: bytes)
    requires v.Obj? && forall k | k in keys :: k in v.members
    ensures b == PrintMembers(v, keys)
    decreases v, 0, 1
  {
    hide PrintMember, PrintMembers, PrintMoreMembers;
    b := [];
    var k := 0;
    while k < |keys|
      invariant 0 <= k <= |keys|
      invariant k == 0 ==> b == []
      invariant k > 0 ==> b + PrintMoreMembers(v, keys[k..]) == PrintMembers(v, keys)
    {
      MembersUnfold(v, keys, k);
      var m := JcsMember(v, keys[k]);
      if k > 0 {
        Regroup(b, [COMMA], m, PrintMoreMembers(v, keys[k + 1..]));
        b := b + [COMMA] + m;
      } else {
        b := m;
      }
      k := k + 1;
    }
    MembersEnd(v, keys);
    b := b + [CLOSE_BRACE];
  }

  lemma Regroup(a: bytes, b: bytes, c: bytes, d: bytes)
    ensures a + b + c + d == a + (b + (c + d))
  {
  }

  /** One name, its colon and its value. */
  method JcsMember(v: Value, k: string) returns (b: bytes)
    requires v.Obj? && k in v.members
    ensures b == PrintMember(v, k)
    decreases v, 0, 0
  {
    hide PrintString, Print;
    var ks := JcsString(k);
    var vs := Jcs(v.members[k]);
    b := ks + ([COLON] + vs);
  }

  lemma MembersEnd(v: Value, keys: seq<string>)
    ensures PrintMembers(v, []) == [CLOSE_BRACE] == PrintMoreMembers(v, keys[|keys|..])
  {
    assert keys[|keys|..] == [];
  }

  lemma MembersUnfold(v: Value, keys: seq<string>, k: nat)
    requires k < |keys|
    ensures k == 0 ==> PrintMembers(v, keys) == PrintMember(v, keys[k]) + PrintMoreMembers(v, keys[k + 1..])
    ensures PrintMoreMembers(v, keys[k..]) == [COMMA] + (PrintMember(v, keys[k]) + PrintMoreMembers(v, keys[k + 1..]))
  {
    hide PrintMember;
    assert keys[k..][1..] == keys[k + 1..];
    assert keys[0..] == keys;
  }

  /** The names of a member table, in whatever order iteration yields them. */
  method ListKeys(names: set<string>) returns (keys: seq<string>)
    ensures forall i, j | 0 <= i < j < |keys| :: keys[i] != keys[j]
    ensures (set k | k in keys) == names
  {
    keys := [];
    var left := names;
    while left != {}
      invariant left <= names
      invariant forall k :: k in keys <==> k in names && k !in left
      invariant forall i, j | 0 <= i < j < |keys| :: keys[i] != keys[j]
      decreases left
    {
      var k :| k in left;
      assert k !in keys;
      keys := keys + [k];
      left := left - {k};
    }
  }

  // ---- the gate --------------------------------------------------------------------------------

  /** Decode check, strict parse and, under strict-bytes, the whole-input comparison. */
  method AdmitChainBytes(data: bytes, profile: string) returns (r: Option<Value>)
    ensures r == Admits(data, profile)
  {
    hide Parse, Print;
    if profile != NATIVE && profile != STRICT { return None; }
    var k := 0;
    while k < |data|
      invariant 0 <= k <= |data|
      invariant ValidFrom(data, k) == ValidFrom(data, 0)
    {
      var c := DecodeChar(data, k);
      if c.Refused? { return None; }
      k := c.next;
    }
    var v := ParseStrict(data);
    if v.None? { return None; }
    if profile == STRICT {
      var canonical := Jcs(v.value);
      if canonical != data { return None; }
    }
    return v;
  }
}
