/** Types and sequence facts shared by every other module. */
module Prelude {

  /** An octet. */
  type byte = b: int | 0 <= b < 256

  type bytes = seq<byte>

  datatype Option<+T> = None | Some(value: T) {
    predicate IsFailure() { None? }

    function PropagateFailure<U>(): Option<U>
      requires None?
    { None }

    function Extract(): T
      requires Some?
    { value }
  }

  /** The outcome of reading one item at a cursor: the item and the position after it, or a refusal. */
  datatype Parsed<+T> = Refused | Read(value: T, next: nat) {
    predicate IsFailure() { Refused? }

    function PropagateFailure<U>(): Parsed<U>
      requires Refused?
    { Refused }

    function Extract(): (T, nat)
      requires Read?
    { (value, next) }
  }

  /** `t` occurs in `s` at position `i`. */
  predicate At(s: bytes, i: nat, t: bytes) {
    i + |t| <= |s| && s[i..i + |t|] == t
  }

  lemma AtSplit(s: bytes, i: nat, a: bytes, b: bytes)
    ensures At(s, i, a + b) <==> At(s, i, a) && At(s, i + |a|, b)
  {
    if At(s, i, a + b) {
      assert s[i..i + |a|] == (a + b)[..|a|] == a;
      assert s[i + |a|..i + |a| + |b|] == (a + b)[|a|..] == b;
    }
    if At(s, i, a) && At(s, i + |a|, b) {
      assert s[i..i + |a + b|] == s[i..i + |a|] + s[i + |a|..i + |a| + |b|];
    }
  }

  lemma AtByte(s: bytes, i: nat, c: byte)
    ensures At(s, i, [c]) <==> i < |s| && s[i] == c
  {
    if i < |s| {
      assert s[i..i + 1] == [s[i]];
    }
  }

  lemma AtIndex(s: bytes, i: nat, t: bytes, k: nat)
    requires At(s, i, t) && k < |t|
    ensures s[i + k] == t[k]
  {
    assert s[i..i + |t|][k] == s[i + k];
  }

  /** Big-endian unsigned reading of a byte string. */
  function BigEndian(b: bytes): nat {
    if b == [] then 0 else BigEndian(b[..|b| - 1]) * 256 + b[|b| - 1]
  }

  /** The `n` low octets of `x`, most significant first. */
  function ToBigEndian(x: nat, n: nat): (b: bytes)
    ensures |b| == n
  {
    if n == 0 then [] else ToBigEndian(x / 256, n - 1) + [x % 256]
  }

  function Pow(b: int, e: nat): int {
    if e == 0 then 1 else b * Pow(b, e - 1)
  }

  lemma {:induction false} PowAdd(b: int, i: nat, j: nat)
    ensures Pow(b, i + j) == Pow(b, i) * Pow(b, j)
  {
    if i > 0 {
      PowAdd(b, i - 1, j);
    }
  }

  lemma {:induction false} PowPositive(b: int, e: nat)
    requires b > 0
    ensures Pow(b, e) > 0
  {
    if e > 0 {
      PowPositive(b, e - 1);
    }
  }

  lemma {:induction false} BigEndianBound(b: bytes)
    ensures BigEndian(b) < Pow(256, |b|)
  {
    if b != [] {
      BigEndianBound(b[..|b| - 1]);
    }
  }

  /** Writing back what was read gives the same octets. */
  lemma {:induction false} BigEndianRoundTrip(b: bytes)
    ensures ToBigEndian(BigEndian(b), |b|) == b
  {
    if b != [] {
      BigEndianRoundTrip(b[..|b| - 1]);
      assert BigEndian(b) / 256 == BigEndian(b[..|b| - 1]);
      assert BigEndian(b) % 256 == b[|b| - 1];
    }
  }

  /** Reading back what was written gives the number, for every number that fits. */
  lemma {:induction false} BigEndianReads(x: nat, n: nat)
    requires x < Pow(256, n)
    ensures BigEndian(ToBigEndian(x, n)) == x
  {
    if n > 0 {
      assert x / 256 < Pow(256, n - 1);
      BigEndianReads(x / 256, n - 1);
      var b := ToBigEndian(x, n);
      assert b[..|b| - 1] == ToBigEndian(x / 256, n - 1);
    }
  }

  // ---- character classes -----------------------------------------------------------------------

  predicate Digit(c: char) { '0' <= c <= '9' }

  predicate LowerHex(c: char) { Digit(c) || 'a' <= c <= 'f' }

  // ---- hexadecimal text ------------------------------------------------------------------------

  function HexChar(n: nat): char
    requires n < 16
  {
    "0123456789abcdef"[n]
  }

  function Hex(b: bytes): string {
    if b == [] then "" else [HexChar(b[0] / 16), HexChar(b[0] % 16)] + Hex(b[1..])
  }

  lemma {:induction false} HexInjective(a: bytes, b: bytes)
    requires Hex(a) == Hex(b)
    ensures a == b
  {
    if a != [] && b != [] {
      assert Hex(a)[0] == HexChar(a[0] / 16) && Hex(a)[1] == HexChar(a[0] % 16) && Hex(a)[2..] == Hex(a[1..]);
      assert Hex(b)[0] == HexChar(b[0] / 16) && Hex(b)[1] == HexChar(b[0] % 16) && Hex(b)[2..] == Hex(b[1..]);
      HexCharInjective(a[0] / 16, b[0] / 16);
      HexCharInjective(a[0] % 16, b[0] % 16);
      HexInjective(a[1..], b[1..]);
      assert a == [a[0]] + a[1..] && b == [b[0]] + b[1..];
    }
  }

  lemma HexCharInjective(x: nat, y: nat)
    requires x < 16 && y < 16 && HexChar(x) == HexChar(y)
    ensures x == y
  {
  }
}
