/** The strict parser as a specification: what each reading step answers at a cursor. */
module JsonParse {
  import opened Prelude
  import opened Utf
  import opened Json

  predicate IsWs(b: byte) { b == 0x20 || b == 0x09 || b == 0x0A || b == 0x0D }

  function SkipWs(s: bytes, i: nat): (j: nat)
    requires i <= |s|
    ensures i <= j <= |s|
    decreases |s| - i
  {
    if i < |s| && IsWs(s[i]) then SkipWs(s, i + 1) else i
  }

  predicate IsDigit(b: byte) { 0x30 <= b <= 0x39 }

  function DigitValue(b: byte): nat
    requires IsDigit(b)
  {
    b - 0x30
  }

  function SkipDigits(s: bytes, i: nat): (j: nat)
    requires i <= |s|
    ensures i <= j <= |s|
    ensures forall k | i <= k < j :: IsDigit(s[k])
    decreases |s| - i
  {
    if i < |s| && IsDigit(s[i]) then SkipDigits(s, i + 1) else i
  }

  /** Decimal reading, most significant digit first. */
  function Decimal(d: bytes): nat
    requires forall i | 0 <= i < |d| :: IsDigit(d[i])
  {
    if d == [] then 0 else Decimal(d[..|d| - 1]) * 10 + DigitValue(d[|d| - 1])
  }

  /**
   * An integer token. A fraction or an exponent is refused whether or not its own digits are well
   * formed, and so is every magnitude above 2^53 - 1.
   */
  function ParseNumber(s: bytes, i: nat): (r: Parsed<Value>)
    requires i < |s|
    ensures r.Read? ==> i < r.next <= |s|
  {
    var negative := s[i] == MINUS;
    var a := if negative then i + 1 else i;
    if a >= |s| || !IsDigit(s[a]) then Refused
    else
      var z := if s[a] == 0x30 then a + 1 else SkipDigits(s, a);
      if z < |s| && (s[z] == 0x2E || s[z] == 0x65 || s[z] == 0x45) then Refused
      else
        assert forall k | 0 <= k < |s[a..z]| :: IsDigit(s[a..z][k]);
        var n: int := Decimal(s[a..z]);
        if n > MAX_SAFE then Refused else Read(Int(if negative then -n else n), z)
  }

  function HexValue(b: byte): (r: Option<nat>)
    ensures r.Some? ==> r.value < 16
  {
    if 0x30 <= b <= 0x39 then Some(b - 0x30)
    else if 0x61 <= b <= 0x66 then Some(b - 0x61 + 10)
    else if 0x41 <= b <= 0x46 then Some(b - 0x41 + 10)
    else None
  }

  /** The code unit of a `u` escape; `i` is the position of the letter. */
  function ReadHex4(s: bytes, i: nat): (r: Parsed<nat>)
    requires i < |s|
    ensures r.Read? ==> r.value < 0x10000 && r.next == i + 5 <= |s|
  {
    if i + 5 > |s| then Refused
    else
      match (HexValue(s[i + 1]), HexValue(s[i + 2]), HexValue(s[i + 3]), HexValue(s[i + 4]))
      case (Some(a), Some(b), Some(c), Some(d)) => Read(((a * 16 + b) * 16 + c) * 16 + d, i + 5)
      case _ => Refused
  }

  /** A `u` escape, pairing a high surrogate with the low one that must follow. */
  function ParseUnicodeEscape(s: bytes, i: nat): (r: Parsed<char>)
    requires i < |s|
    ensures r.Read? ==> i < r.next <= |s|
  {
    var (cu, j) :- ReadHex4(s, i);
    if 0xD800 <= cu < 0xDC00 then
      if j + 1 < |s| && s[j] == BACKSLASH && s[j + 1] == 0x75 then
        var (low, k) :- ReadHex4(s, j + 1);
        if 0xDC00 <= low < 0xE000 then
          Read((0x10000 + (cu - 0xD800) * 1024 + (low - 0xDC00)) as char, k)
        else Refused
      else Refused
    else if 0xDC00 <= cu < 0xE000 then Refused
    else Read(cu as char, j)
  }

  function Unescape(b: byte): Option<char> {
    if b == QUOTE then Some('\"')
    else if b == BACKSLASH then Some('\\')
    else if b == 0x2F then Some('/')
    else if b == 0x62 then Some(0x08 as char)
    else if b == 0x66 then Some(0x0C as char)
    else if b == 0x6E then Some('\n')
    else if b == 0x72 then Some('\r')
    else if b == 0x74 then Some('\t')
    else None
  }

  /** One character of a string body at `i`, in whichever spelling it has there. */
  function ParseChar(s: bytes, i: nat): (r: Parsed<char>)
    requires i < |s|
    ensures r.Read? ==> i < r.next <= |s|
  {
    if s[i] == BACKSLASH then
      if i + 1 >= |s| then Refused
      else if s[i + 1] == 0x75 then ParseUnicodeEscape(s, i + 1)
      else
        match Unescape(s[i + 1])
        case Some(c) => Read(c, i + 2)
        case None => Refused
    else if s[i] < 0x20 then Refused
    else DecodeChar(s, i)
  }

  /** The rest of a string whose body reads `acc` so far; `i` is past the opening quote. */
  function ParseText(s: bytes, i: nat, acc: string): (r: Parsed<string>)
    ensures r.Read? ==> i < r.next <= |s|
    decreases |s| - i
  {
    if i >= |s| then Refused
    else if s[i] == QUOTE then Read(acc, i + 1)
    else
      var (c, j) :- ParseChar(s, i);
      ParseText(s, j, acc + [c])
  }

  function ParseLiteral(s: bytes, i: nat): (r: Parsed<Value>)
    requires i < |s|
    ensures r.Read? ==> i < r.next <= |s|
  {
    if At(s, i, NULL_TOKEN) then Read(Null, i + 4)
    else if At(s, i, TRUE_TOKEN) then Read(Bool(true), i + 4)
    else if At(s, i, FALSE_TOKEN) then Read(Bool(false), i + 5)
    else Refused
  }

  /** One value at `i`, with `depth` containers open around it. */
  function ParseValue(s: bytes, i: nat, depth: nat, lim: Limits): (r: Parsed<Value>)
    ensures r.Read? ==> i < r.next <= |s|
    decreases |s| - i, 2
  {
    if !lim.AllowsValue(depth) || i >= |s| then Refused
    else if s[i] == OPEN_BRACE then
      if !lim.AllowsContainer(depth) then Refused
      else
        var j := SkipWs(s, i + 1);
        if j < |s| && s[j] == CLOSE_BRACE then Read(Obj(map[]), j + 1)
        else ParseMembers(s, j, depth + 1, lim, map[])
    else if s[i] == OPEN_BRACKET then
      if !lim.AllowsContainer(depth) then Refused
      else
        var j := SkipWs(s, i + 1);
        if j < |s| && s[j] == CLOSE_BRACKET then Read(Arr([]), j + 1)
        else ParseItems(s, j, depth + 1, lim, [])
    else if s[i] == QUOTE then
      var (t, j) :- ParseText(s, i + 1, "");
      Read(Str(t), j)
    else if s[i] == 0x74 || s[i] == 0x66 || s[i] == 0x6E then ParseLiteral(s, i)
    else if s[i] == MINUS || IsDigit(s[i]) then ParseNumber(s, i)
    else Refused
  }

  /** One member at `i`: a key that is neither forbidden nor already in `acc`, a colon, a value. */
  function ParseMember(s: bytes, i: nat, depth: nat, lim: Limits, acc: map<string, Value>): (r: Parsed<(string, Value)>)
    requires i <= |s|
    ensures r.Read? ==> i < r.next <= |s| && r.value.0 !in acc && r.value.0 !in FORBIDDEN
    decreases |s| - i, 3
  {
    var a := SkipWs(s, i);
    if a >= |s| || s[a] != QUOTE then Refused
    else
      var (key, b) :- ParseText(s, a + 1, "");
      if key in acc || key in FORBIDDEN then Refused
      else
        var c := SkipWs(s, b);
        if c >= |s| || s[c] != COLON then Refused
        else
          var (val, e) :- ParseValue(s, SkipWs(s, c + 1), depth, lim);
          Read((key, val), e)
  }

  /** The members from `i` on, after the members in `acc`. */
  function ParseMembers(s: bytes, i: nat, depth: nat, lim: Limits, acc: map<string, Value>): (r: Parsed<Value>)
    requires i <= |s|
    ensures r.Read? ==> i < r.next <= |s|
    decreases |s| - i, 4
  {
    var (m, e) :- ParseMember(s, i, depth, lim, acc);
    var f := SkipWs(s, e);
    if f >= |s| then Refused
    else if s[f] == COMMA then ParseMembers(s, f + 1, depth, lim, acc[m.0 := m.1])
    else if s[f] == CLOSE_BRACE then Read(Obj(acc[m.0 := m.1]), f + 1)
    else Refused
  }

  /** The items from `i` on, after the items in `acc`. */
  function ParseItems(s: bytes, i: nat, depth: nat, lim: Limits, acc: seq<Value>): (r: Parsed<Value>)
    requires i <= |s|
    ensures r.Read? ==> i < r.next <= |s|
    decreases |s| - i, 4
  {
    var (val, e) :- ParseValue(s, SkipWs(s, i), depth, lim);
    var f := SkipWs(s, e);
    if f >= |s| then Refused
    else if s[f] == COMMA then ParseItems(s, f + 1, depth, lim, acc + [val])
    else if s[f] == CLOSE_BRACKET then Read(Arr(acc + [val]), f + 1)
    else Refused
  }

  /** A whole document: one value, white space around it, nothing else. */
  function Parse(s: bytes, lim: Limits): Option<Value> {
    match ParseValue(s, SkipWs(s, 0), 0, lim)
    case Refused => None
    case Read(v, j) => if SkipWs(s, j) == |s| then Some(v) else None
  }
}
