/** The JSON tree the verifier works on, and its canonical form (RFC 8785) as a specification. */
module Json {
  import opened Prelude
  import opened Utf

  datatype Value =
    | Null
    | Bool(b: bool)
    | Int(n: int)
    | Str(s: string)
    | Arr(items: seq<Value>)
    | Obj(members: map<string, Value>)

  const MAX_SAFE: int := 0x1F_FFFF_FFFF_FFFF

  const FORBIDDEN: set<string> := {"__proto__", "constructor", "prototype"}

  const QUOTE: byte := 0x22
  const COMMA: byte := 0x2C
  const MINUS: byte := 0x2D
  const COLON: byte := 0x3A
  const OPEN_BRACKET: byte := 0x5B
  const BACKSLASH: byte := 0x5C
  const CLOSE_BRACKET: byte := 0x5D
  const OPEN_BRACE: byte := 0x7B
  const CLOSE_BRACE: byte := 0x7D

  const NULL_TOKEN: bytes := [0x6E, 0x75, 0x6C, 0x6C]
  const TRUE_TOKEN: bytes := [0x74, 0x72, 0x75, 0x65]
  const FALSE_TOKEN: bytes := [0x66, 0x61, 0x6C, 0x73, 0x65]

  /**
   * How nesting is bounded. With `countScalars` every value counts (the 64-level TypeScript rule);
   * without it only containers do (the 2000-level Go rule).
   */
  datatype Limits = Limits(maxDepth: nat, countScalars: bool) {
    /** A value of any kind may start with `depth` containers open around it. */
    predicate AllowsValue(depth: nat) { countScalars ==> depth <= maxDepth }

    /** A container may open with `depth` containers open around it. */
    predicate AllowsContainer(depth: nat) { !countScalars ==> depth + 1 <= maxDepth }
  }

  const GO_LIMITS := Limits(2000, false)
  const TS_LIMITS := Limits(64, true)

  /** The values the strict parser can produce with `depth` containers already open. */
  predicate WellFormed(v: Value, lim: Limits, depth: nat)
    decreases v
  {
    && lim.AllowsValue(depth)
    && match v
       case Int(n) => -MAX_SAFE <= n <= MAX_SAFE
       case Arr(items) => lim.AllowsContainer(depth) && forall x | x in items :: WellFormed(x, lim, depth + 1)
       case Obj(m) =>
         && lim.AllowsContainer(depth)
         && (forall k | k in m :: k !in FORBIDDEN)
         && (forall k | k in m :: WellFormed(m[k], lim, depth + 1))
       case _ => true
  }

  // ---- key order -------------------------------------------------------------------------------

  ghost predicate Sorted(keys: seq<string>) {
    forall i, j | 0 <= i < j < |keys| :: Less16(keys[i], keys[j])
  }

  function Insert(keys: seq<string>, x: string): (r: seq<string>) {
    if keys == [] then [x]
    else if Less16(x, keys[0]) then [x] + keys
    else [keys[0]] + Insert(keys[1..], x)
  }

  lemma {:induction false} InsertSorts(keys: seq<string>, x: string)
    requires Sorted(keys) && x !in keys
    ensures Sorted(Insert(keys, x))
    ensures forall k :: k in Insert(keys, x) <==> k in keys || k == x
  {
    var r := Insert(keys, x);
    if keys == [] {
    } else if Less16(x, keys[0]) {
      forall j | 0 < j < |r| ensures Less16(r[0], r[j]) {
        if j > 1 { Less16Transitive(x, keys[0], keys[j - 1]); }
      }
    } else {
      InsertSorts(keys[1..], x);
      Less16StrictTotal(x, keys[0]);
      var t := Insert(keys[1..], x);
      forall j | 0 < j < |r| ensures Less16(r[0], r[j]) {
        assert r[j] == t[j - 1];
        assert t[j - 1] in t;
        if t[j - 1] != x {
          assert t[j - 1] in keys[1..];
        }
      }
    }
  }

  lemma {:induction false} SortedUnique(a: seq<string>, b: seq<string>)
    requires Sorted(a) && Sorted(b)
    requires forall k :: k in a <==> k in b
    ensures a == b
  {
    assert a != [] ==> a[0] in a && a[0] in b;
    assert b != [] ==> b[0] in b && b[0] in a;
    if a != [] {
      Less16StrictTotal(a[0], b[0]);
      assert a[0] == b[0];
      forall k ensures k in a[1..] <==> k in b[1..] {
        if k in a[1..] {
          var i :| 1 <= i < |a| && a[i] == k;
          assert Less16(a[0], k);
          Less16StrictTotal(k, k);
          assert k in a && k != b[0];
        }
        if k in b[1..] {
          var i :| 1 <= i < |b| && b[i] == k;
          assert Less16(b[0], k);
          Less16StrictTotal(k, k);
          assert k in b && k != a[0];
        }
      }
      SortedUnique(a[1..], b[1..]);
      assert a == [a[0]] + a[1..] && b == [b[0]] + b[1..];
    }
  }

  lemma {:induction false} SortedExists(s: set<string>) returns (r: seq<string>)
    ensures Sorted(r) && forall k :: k in r <==> k in s
  {
    if s == {} {
      r := [];
    } else {
      var x :| x in s;
      var q := SortedExists(s - {x});
      InsertSorts(q, x);
      r := Insert(q, x);
    }
  }

  /** The keys of an object in printing order: the one strictly increasing listing of the set. */
  ghost function SortedKeys(s: set<string>): (r: seq<string>)
    ensures Sorted(r) && forall k :: k in r <==> k in s
  {
    assert exists r :: Sorted(r) && forall k :: k in r <==> k in s by {
      var r := SortedExists(s);
    }
    var r :| Sorted(r) && forall k :: k in r <==> k in s;
    r
  }

  // ---- printing --------------------------------------------------------------------------------

  function Digits(n: nat): (d: bytes)
    ensures d != [] && forall i | 0 <= i < |d| :: 0x30 <= d[i] <= 0x39
    ensures n > 0 ==> d[0] != 0x30
  {
    if n < 10 then [0x30 + n] else Digits(n / 10) + [0x30 + n % 10]
  }

  function FormatInt(n: int): bytes {
    if n < 0 then [MINUS] + Digits(-n) else Digits(n)
  }

  function HexDigit(n: nat): byte
    requires n < 16
  {
    if n < 10 then 0x30 + n else 0x61 + n - 10
  }

  /** One character as it appears between the quotes. */
  function Escape(c: char): (b: bytes)
    ensures 1 <= |b| <= 6
  {
    var x := c as int;
    if x == 0x22 then [BACKSLASH, QUOTE]
    else if x == 0x5C then [BACKSLASH, BACKSLASH]
    else if x == 0x08 then [BACKSLASH, 0x62]
    else if x == 0x0C then [BACKSLASH, 0x66]
    else if x == 0x0A then [BACKSLASH, 0x6E]
    else if x == 0x0D then [BACKSLASH, 0x72]
    else if x == 0x09 then [BACKSLASH, 0x74]
    else if x < 0x20 then [BACKSLASH, 0x75, 0x30, 0x30, HexDigit(x / 16), HexDigit(x % 16)]
    else EncodeChar(c)
  }

  function EscapeAll(t: string): bytes {
    if t == [] then [] else Escape(t[0]) + EscapeAll(t[1..])
  }

  function PrintString(t: string): bytes {
    [QUOTE] + EscapeAll(t) + [QUOTE]
  }

  ghost function Print(v: Value): (b: bytes)
    ensures b != []
    decreases v, 2, 0
  {
    match v
    case Null => NULL_TOKEN
    case Bool(b) => if b then TRUE_TOKEN else FALSE_TOKEN
    case Int(n) => FormatInt(n)
    case Str(t) => PrintString(t)
    case Arr(items) => [OPEN_BRACKET] + PrintItems(items)
    case Obj(m) => [OPEN_BRACE] + PrintMembers(v, SortedKeys(m.Keys))
  }

  /** The items of an array and its closing bracket. */
  ghost function PrintItems(items: seq<Value>): bytes
    decreases items, 0
  {
    if items == [] then [CLOSE_BRACKET] else Print(items[0]) + PrintMoreItems(items[1..])
  }

  /** The items after another one, each behind its comma, and the closing bracket. */
  ghost function PrintMoreItems(items: seq<Value>): bytes
    decreases items, 1
  {
    if items == [] then [CLOSE_BRACKET] else [COMMA] + PrintItems(items)
  }

  ghost function PrintMember(v: Value, k: string): (b: bytes)
    ensures b != [] && b[0] == QUOTE
    decreases v, 0, 0
  {
    PrintString(k) + ([COLON] + (if v.Obj? && k in v.members then Print(v.members[k]) else []))
  }

  /** The members of object `v` named by `keys`, in that order, and its closing brace. */
  ghost function PrintMembers(v: Value, keys: seq<string>): bytes
    decreases v, 1, |keys|, 0
  {
    if keys == [] then [CLOSE_BRACE] else PrintMember(v, keys[0]) + PrintMoreMembers(v, keys[1..])
  }

  ghost function PrintMoreMembers(v: Value, keys: seq<string>): bytes
    decreases v, 1, |keys|, 1
  {
    if keys == [] then [CLOSE_BRACE] else [COMMA] + PrintMembers(v, keys)
  }
}
