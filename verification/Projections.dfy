/** What the two wire projections share: the document boundary, the printer, and flat objects of short texts. */
module Projections {
  import opened Prelude
  import opened Utf
  import opened Json
  import opened JsonParse
  import opened JsonRoundTrip
  import opened StrictBytes

  const MAX_INPUT_BYTES: nat := 16 * 1024 * 1024

  /** Decode, bound and parse one document at the 64-level limit. */
  ghost function Document(data: bytes): Option<Value> {
    if |data| > MAX_INPUT_BYTES || !ValidFrom(data, 0) then None else Parse(data, TS_LIMITS)
  }

  /** The values the 64-level printer does not throw on. */
  ghost predicate Printable(v: Value, depth: nat)
    decreases v
  {
    && depth <= 64
    && match v
       case Int(n) => -MAX_SAFE <= n <= MAX_SAFE
       case Arr(items) => forall x | x in items :: Printable(x, depth + 1)
       case Obj(m) => forall k | k in m :: Printable(m[k], depth + 1)
       case _ => true
  }

  ghost function Canonicalize(v: Value): Option<bytes> { if Printable(v, 0) then Some(Print(v)) else None }

  datatype Checked<+T> = Ok(value: T) | Bad(code: Code)

  /** What a projection returns: the bound bytes, the tuple read back from them and its rows, or a refusal. */
  datatype Projection<+T> = Shown(canonical: bytes, value: T, rows: map<string, string>) | Refuse(code: Code)

  datatype Code =
    | PARSE | NOT_OBJECT | AMOUNT_INVALID | FROM_INVALID | LEDGER_INVALID | SALT_INVALID | TO_INVALID | UNIT_INVALID
    | PARAMS_INVALID | UNRECOGNIZED_MEMBER | SAME_ACCOUNT | CANONICAL_REPARSE

  // ---- flat objects of short texts -------------------------------------------------------------

  predicate Short(k: string, s: string) { k !in FORBIDDEN && |k| <= 300 && |s| <= 300 }

  /** At most `n` members, every name and text at most 300 characters, no forbidden name. */
  ghost predicate FlatTexts(v: Value, n: nat) {
    && v.Obj? && |v.members| <= n
    && forall k | k in v.members :: v.members[k].Str? && Short(k, v.members[k].s)
  }

  lemma FlatTextsEmpty()
    ensures FlatTexts(Obj(map[]), 0)
  {
  }

  lemma FlatTextsPut(m: map<string, Value>, n: nat, k: string, s: string)
    requires FlatTexts(Obj(m), n) && Short(k, s)
    ensures FlatTexts(Obj(m[k := Str(s)]), n + 1)
  {
    hide Short;
    var w := m[k := Str(s)];
    assert w.Keys == m.Keys + {k};
    assert |w| == |w.Keys| && |m| == |m.Keys|;
  }

  lemma SixTextsFlat(a: string, b: string, c: string, d: string, e: string, f: string,
                     u: string, v: string, w: string, x: string, y: string, z: string)
    requires Short(a, u) && Short(b, v) && Short(c, w) && Short(d, x) && Short(e, y) && Short(f, z)
    ensures FlatTexts(Obj(map[a := Str(u), b := Str(v), c := Str(w), d := Str(x), e := Str(y), f := Str(z)]), 6)
  {
    hide FlatTexts, Short;
    FlatTextsEmpty();
    FlatTextsPut(map[], 0, a, u);
    FlatTextsPut(map[a := Str(u)], 1, b, v);
    FlatTextsPut(map[a := Str(u), b := Str(v)], 2, c, w);
    FlatTextsPut(map[a := Str(u), b := Str(v), c := Str(w)], 3, d, x);
    FlatTextsPut(map[a := Str(u), b := Str(v), c := Str(w), d := Str(x)], 4, e, y);
    FlatTextsPut(map[a := Str(u), b := Str(v), c := Str(w), d := Str(x), e := Str(y)], 5, f, z);
  }

  lemma {:induction false} EscapeLength(t: string)
    ensures |EscapeAll(t)| <= 6 * |t|
  {
    if t != [] {
      EscapeLength(t[1..]);
    }
  }

  lemma MemberLength(v: Value, k: string)
    requires FlatTexts(v, 6) && k in v.members
    ensures |PrintMember(v, k)| <= 3605
  {
    EscapeLength(k);
    EscapeLength(v.members[k].s);
  }

  lemma {:induction false} MembersLength(v: Value, keys: seq<string>)
    requires FlatTexts(v, 6) && forall k | k in keys :: k in v.members
    ensures |PrintMembers(v, keys)| <= 1 + 3606 * |keys|
    decreases |keys|
  {
    hide PrintMember, FlatTexts;
    if keys != [] {
      MemberLength(v, keys[0]);
      MembersLength(v, keys[1..]);
    }
  }

  lemma {:induction false} SortedSize(keys: seq<string>, s: set<string>)
    requires Sorted(keys) && forall k :: k in keys ==> k in s
    ensures |keys| <= |s|
    decreases |keys|
  {
    hide Less16;
    if keys != [] {
      var rest := keys[1..];
      forall k | k in rest ensures k != keys[0] {
        var j :| 0 <= j < |rest| && rest[j] == k;
        assert Less16(keys[0], keys[j + 1]);
        Less16StrictTotal(keys[0], keys[0]);
      }
      SortedSize(rest, s - {keys[0]});
    }
  }

  /** A flat object is canonicalizable, fits, and parses back to itself at the 64-level limit. */
  lemma FlatTextsReparse(v: Value)
    requires FlatTexts(v, 6)
    ensures Canonicalize(v) == Some(Print(v)) && Document(Print(v)) == Some(v)
  {
    hide Print, Parse, ValidFrom, Sorted;
    forall k | k in v.members ensures Printable(v.members[k], 1) {
    }
    assert WellFormed(v, TS_LIMITS, 0);
    ParsePrint(v, TS_LIMITS);
    PrintIsValid(v);
    FlatTextsFit(v);
  }

  lemma FlatTextsFit(v: Value)
    requires FlatTexts(v, 6)
    ensures |Print(v)| <= MAX_INPUT_BYTES
  {
    hide PrintMembers, Sorted;
    var keys := SortedKeys(v.members.Keys);
    SortedSize(keys, v.members.Keys);
    MembersLength(v, keys);
  }

  // ---- character classes -----------------------------------------------------------------------

  predicate Lower(c: char) { 'a' <= c <= 'z' }

  predicate HexOk(s: string, n: nat) { |s| == n && forall i | 0 <= i < |s| :: LowerHex(s[i]) }
}
