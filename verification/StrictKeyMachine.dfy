/** The key code as it runs: square-and-multiply, the decoder, the scalar loop and the remembering check. */
module StrictKeyMachine {
  import opened Prelude
  import opened Modular
  import opened Extended
  import opened SquareRoot
  import opened Ed25519
  import opened StrictKey

  /** The non-negative residue, from the signed remainder. */
  function FieldMod(a: int): (r: int)
    ensures r == a % P
  {
    FieldModResidue(a, P);
    var r := JsRem(a, P);
    if r < 0 then r + P else r
  }

  lemma FieldModResidue(a: int, m: nat)
    requires m > 0
    ensures var r := JsRem(a, m); (if r < 0 then r + m else r) == a % m
  {
    hide Cong, JsRem;
    var r := JsRem(a, m);
    JsRemCong(a, m);
    if r < 0 {
      ShiftCong(r, m);
      CongTrans(r + m, r, a, m);
      UniqueResidue(r + m, a, m);
    } else {
      UniqueResidue(r, a, m);
    }
  }

  lemma ShiftCong(r: int, m: nat)
    ensures Cong(r + m, r, m)
  {
    CongBy(r + m, r, m, 1);
  }

  lemma UniqueResidue(r: int, a: int, m: nat)
    requires 0 <= r < m && Cong(r, a, m)
    ensures r == a % m
  {
    var k: int :| r - a == k * m;
    assert (k + a / m) * m == r - a % m;
    SmallMultiple(k + a / m, m);
  }

  /** The remainder of a natural number. */
  function Rem(a: nat): (r: nat)
    ensures r == a % P
  {
    JsRem(a, P)
  }

  /** A product of residues, reduced. */
  function Times(a: nat, b: nat): (r: nat)
    ensures r == a * b % P
  {
    JsRem(a * b, P)
  }

  // ---- square and multiply ---------------------------------------------------------------------

  lemma JsRemProduct(a: int, b: int, m: nat)
    requires m > 0
    ensures JsRem(JsRem(a, m) * b, m) == JsRem(a * b, m)
  {
    hide JsRem;
    JsRemCong(a, m);
    CongRefl(b, m);
    CongMul(JsRem(a, m), a, b, b, m);
    SameSide(JsRem(a, m) * b, a * b, m);
  }

  lemma SameSide(x: int, y: int, m: nat)
    requires m > 0 && Cong(x, y, m) && ((x >= 0 && y >= 0) || (x <= 0 && y <= 0))
    ensures JsRem(x, m) == JsRem(y, m)
  {
    CongResidue(x, y, m);
    if x < 0 || y < 0 {
      CongRefl(0, m);
      CongSub(0, 0, x, y, m);
      CongResidue(-x, -y, m);
    }
  }

  lemma JsRemSquare(a: int, m: nat)
    requires m > 0
    ensures JsRem(JsRem(a, m) * JsRem(a, m), m) == JsRem(a * a, m)
  {
    hide JsRem;
    JsRemProduct(a, JsRem(a, m), m);
    JsRemProduct(a, a, m);
    assert a * JsRem(a, m) == JsRem(a, m) * a;
  }

  lemma PowHalve(b: int, e: nat)
    ensures Pow(b, e) == (if e % 2 == 1 then b * Pow(b * b, e / 2) else Pow(b * b, e / 2))
  {
    hide Pow;
    PowMul(b, 2, e / 2);
    PowTwo(b);
    if e % 2 == 1 {
      PowAdd(b, 1, 2 * (e / 2));
      PowFirst(b);
    }
  }

  /** base^exp with the sign-keeping remainder; a non-positive exponent gives 1. */
  method ModPow(base: int, exp: int, m: nat) returns (result: int)
    requires m > 0
    ensures exp > 0 ==> result == JsRem(Pow(base, exp), m)
    ensures exp <= 0 ==> result == 1
  {
    hide JsRem, Pow;
    result := 1;
    var b := JsRem(base, m);
    var e := exp;
    ghost var A, B := 1, base;
    while e > 0
      invariant exp <= 0 ==> e == exp && result == 1
      invariant exp > 0 ==> 0 <= e <= exp && A * Pow(B, e) == Pow(base, exp)
      invariant b == JsRem(B, m)
      invariant result == JsRem(A, m) || (result == A == 1 && (exp > 0 ==> e > 0))
      decreases e
    {
      PowHalve(B, e);
      if e % 2 == 1 {
        JsRemProduct(A, b, m);
        JsRemProduct(B, A, m);
        assert A * b == b * A && A * B == B * A;
        assert JsRem(result * b, m) == JsRem(A * B, m);
        assert A * (B * Pow(B * B, e / 2)) == (A * B) * Pow(B * B, e / 2);
        result := JsRem(result * b, m);
        A := A * B;
      }
      JsRemSquare(B, m);
      b := JsRem(b * b, m);
      B := B * B;
      e := e / 2;
    }
    if exp > 0 {
      PowZero(B);
      assert A * 1 == A;
    }
  }

  lemma PowZero(b: int)
    ensures Pow(b, 0) == 1
  {
  }

  // ---- the decoder -----------------------------------------------------------------------------

  lemma ModFactor(a: int, b: int, p: nat)
    requires p > 0
    ensures (a % p) * b % p == a * b % p && b * (a % p) % p == b * a % p
  {
    hide Cong;
    CongMod(a, p);
    CongRefl(b, p);
    CongMul(a % p, a, b, b, p);
    CongMul(b, b, a % p, a, p);
    CongResidue((a % p) * b, a * b, p);
    CongResidue(b * (a % p), b * a, p);
  }

  lemma CubeAndSeventh(v: int)
    ensures Pow(v, 3) == v * v * v && Pow(v, 7) == Pow(v, 3) * Pow(v, 3) * v
  {
    hide Pow;
    PowTwo(v);
    PowFirst(v);
    PowAdd(v, 2, 1);
    PowAdd(v, 3, 3);
    PowAdd(v, 6, 1);
  }

  /** Reducing after every product gives the same u and v. */
  lemma UVSteps(y: int, d: int, p: nat)
    requires p > 0
    ensures (y * y % p - 1) % p == U(y, p)
    ensures (d * (y * y % p) + 1) % p == V(y, d, p)
  {
    hide Cong;
    var q := y * y;
    CongMod(q, p);
    CongRefl(1, p);
    CongRefl(d, p);
    CongSub(q % p, q, 1, 1, p);
    CongResidue(q % p - 1, q - 1, p);
    CongMul(d, d, q % p, q, p);
    CongAdd(d * (q % p), d * q, 1, 1, p);
    CongResidue(d * (q % p) + 1, d * q + 1, p);
  }

  /** Reducing after every product gives the same powers of v. */
  lemma PowerSteps(v: int, p: nat)
    requires p > 0
    ensures var v3 := (v * v % p) * v % p;
            v3 == Pow(v, 3) % p && (v3 * v3 % p) * v % p == Pow(v, 7) % p
  {
    hide Pow;
    var c := Pow(v, 3);
    CubeAndSeventh(v);
    ModFactor(v * v, v, p);
    var v3 := c % p;
    ModFactor(c, v3, p);
    ModFactor(c, c, p);
    assert c * v3 == v3 * c;
    ModFactor(v3 * v3, v, p);
    ModFactor(c * c, v, p);
  }

  lemma CandidateSteps(u: int, v3: int, v7: int, v: int, p: nat)
    requires p >= 5 && v3 == Pow(v, 3) % p && v7 == Pow(v, 7) % p
    ensures (u * v3 % p) * (Pow(u * v7 % p, (p - 5) / 8) % p) % p == Candidate(u, v, p)
  {
    hide Pow, Cong;
    var e, a, b := (p - 5) / 8, u * Pow(v, 3), u * Pow(v, 7);
    ModFactor(Pow(v, 3), u, p);
    ModFactor(Pow(v, 7), u, p);
    CongMod(b, p);
    PowCong(b % p, b, e, p);
    CongResidue(Pow(b % p, e), Pow(b, e), p);
    ModFactor(a, Pow(b, e) % p, p);
    ModFactor(Pow(b, e), a, p);
  }

  /** The candidate root, reducing after every product. */
  method CandidateRoot(u: nat, v: nat) returns (x: nat)
    ensures P >= 5 && x == Candidate(u, v, P) && x < P
  {
    hide Times, JsRem, Pow, Candidate;
    var v3 := Times(Times(v, v), v);
    var v7 := Times(Times(v3, v3), v);
    PowerSteps(v, P);
    var w := Times(u, v7);
    var s := ModPow(w, (P - 5) / 8, P);
    PowerResidue(w, (P - 5) / 8, P);
    x := Times(Times(u, v3), s);
    CandidateSteps(u, v3, v7, v, P);
  }

  lemma PowerResidue(w: nat, e: nat, m: nat)
    requires m > 0
    ensures JsRem(Pow(w, e), m) == Pow(w, e) % m
  {
    PowNatural(w, e);
  }

  /** Section 5.1.3 of RFC 8032, steps 2 and 3, as the source computes them. */
  method RecoverX(y: nat) returns (r: Option<int>)
    ensures P >= 5 && r == Root(y, D, SQRT_M1, P)
  {
    hide Times, Rem, FieldMod, Candidate, U, V;
    var y2: int := Times(y, y);
    var u: int := FieldMod(y2 - 1);
    var v := Rem(D * y2 + 1);
    UVSteps(y, D, P);
    var x := CandidateRoot(u, v);
    var vx2 := Times(v, Times(x, x));
    ModFactor(x * x, v, P);
    if vx2 != u {
      if vx2 != FieldMod(0 - u) { return None; }
      x := Times(x, SQRT_M1);
    }
    return Some(x);
  }

  lemma {:induction false} PowNatural(b: int, e: nat)
    requires b >= 0
    ensures Pow(b, e) >= 0
  {
    if e > 0 {
      PowNatural(b, e - 1);
    }
  }

  method DecodeStrictPoint(raw: bytes) returns (r: Option<Point>)
    ensures r == DecodePoint(raw)
  {
    hide Root;
    if |raw| != 32 { return None; }
    var negative := raw[31] >= 128;
    var yBytes: bytes := raw[..31] + [raw[31] % 128];
    var y := 0;
    var i := 32;
    while i > 0
      invariant 0 <= i <= 32 && y == LittleEndian(yBytes[i..])
    {
      i := i - 1;
      assert yBytes[i..][1..] == yBytes[i + 1..];
      y := y * 256 + yBytes[i];
    }
    assert yBytes[0..] == yBytes;
    if y >= P { return None; }
    var root := RecoverX(y);
    if root.None? { return None; }
    var x := root.value;
    if x == 0 && negative { return None; }
    if (x % 2 == 1) != negative { x := P - x; }
    return Some(Point(x, y));
  }

  // ---- the scalar loop -------------------------------------------------------------------------

  lemma ScalarWidth()
    ensures Pow(2, 252) <= L < Pow(2, 253)
  {
    hide Pow;
    PowTwo(2);
    PowFirst(2);
    PowAdd(2, 2, 2);
    PowAdd(2, 4, 4);
    PowAdd(2, 8, 8);
    PowAdd(2, 16, 16);
    PowAdd(2, 32, 32);
    PowAdd(2, 64, 64);
    PowAdd(2, 128, 64);
    PowAdd(2, 192, 32);
    PowAdd(2, 224, 16);
    PowAdd(2, 240, 8);
    PowAdd(2, 248, 4);
    PowAdd(2, 1, 252);
  }

  lemma HalveQuotient(n: nat, a: nat)
    requires a > 0
    ensures n / a / 2 == n / (2 * a)
  {
    var q := n / a;
    var h, b, r := q / 2, q % 2, n % a;
    assert n == q * a + r;
    assert q * a == h * (2 * a) + b * a;
    QuotientIs(n, 2 * a, h, b * a + r);
  }

  lemma QuotientIs(n: int, m: int, q: int, r: int)
    requires 0 <= r < m && n == q * m + r
    ensures n / m == q
  {
    SmallMultiple(n / m - q, m);
  }

  lemma {:induction false} PowTwoGrows(i: nat, j: nat)
    requires i <= j
    ensures 0 < Pow(2, i) <= Pow(2, j)
  {
    if j > i {
      PowTwoGrows(i, j - 1);
    } else if i > 0 {
      PowTwoGrows(i - 1, i - 1);
    }
  }

  /** The prefix of n's bits down to bit i: halving it drops bit i, and it is non-zero up to the top bit. */
  lemma ShiftStep(n: nat, i: nat, top: nat)
    requires i <= top && Pow(2, top) <= n
    ensures Pow(2, i) > 0 && Pow(2, i + 1) > 0
    ensures n / Pow(2, i) / 2 == n / Pow(2, i + 1) && n / Pow(2, i) >= 1
  {
    PowTwoGrows(i, top);
    HalveQuotient(n, Pow(2, i));
    AtLeastOne(n, Pow(2, i));
  }

  lemma AtLeastOne(n: nat, a: nat)
    requires 0 < a <= n
    ensures n / a >= 1
  {
  }

  lemma LadderStep(base: Ext, e: nat, d: int, m: nat)
    requires m > 0 && e > 0
    ensures var h := Ladder(base, e / 2, d, m); var q := ExtendedAdd(h, h, d, m);
            Ladder(base, e, d, m) == if e % 2 == 1 then ExtendedAdd(q, base, d, m) else q
  {
  }

  /** Bits of n from `top` down to 0: double always, add when the bit is set. */
  method DoubleAndAdd(base: Ext, n: nat, top: nat, d: int, m: nat) returns (acc: Ext)
    requires m > 0 && Pow(2, top) <= n < Pow(2, top + 1)
    ensures acc == Ladder(base, n, d, m)
  {
    hide ExtendedAdd, Pow, Ladder;
    acc := ZERO;
    var i := top + 1;
    PowTwoGrows(top, top + 1);
    assert acc == Ladder(base, 0, d, m) by { LadderZero(base, d, m); }
    while i > 0
      invariant 0 <= i <= top + 1 && Pow(2, i) > 0
      invariant acc == Ladder(base, n / Pow(2, i), d, m)
    {
      i := i - 1;
      ShiftStep(n, i, top);
      var prefix := n / Pow(2, i);
      LadderStep(base, prefix, d, m);
      acc := ExtendedAdd(acc, acc, d, m);
      if prefix % 2 == 1 {
        acc := ExtendedAdd(acc, base, d, m);
      }
    }
    PowZero(2);
  }

  lemma LadderZero(base: Ext, d: int, m: nat)
    requires m > 0
    ensures Ladder(base, 0, d, m) == ZERO
  {
  }

  method IsInPrimeOrderSubgroup(p: Point) returns (r: bool)
    ensures r == InSubgroup(p)
  {
    hide Ladder, Pow, JsRem, FieldMod;
    ScalarWidth();
    var acc := DoubleAndAdd(Ext(p.x, p.y, 1, JsRem(p.x * p.y, P)), L, 252, D, P);
    return FieldMod(acc.x) == 0 && FieldMod(acc.y - acc.z) == 0;
  }

  // ---- the remembering check -------------------------------------------------------------------

  class KeyCache {
    var entries: map<string, bool>

    ghost predicate Valid()
      reads this
    {
      Sound(entries)
    }

    constructor ()
      ensures Valid() && entries == map[]
    {
      entries := map[];
      EmptySound();
    }

    /** The strict-key decision: what is remembered is what would be computed, and no call outgrows the bound. */
    method IsStrictPublicKey(raw: bytes) returns (r: bool)
      requires Valid()
      modifies this
      ensures Valid() && r == StrictPublicKey(raw)
      ensures entries == Remembered(old(entries), raw)
    {
      hide Sound, DecodePoint, InSubgroup;
      RememberedSound(entries, raw);
      var point := DecodeStrictPoint(raw);
      if point.None? { return false; }
      var hex := Hex(raw);
      if hex in SMALL_ORDER { return false; }
      if hex in entries { return entries[hex]; }
      r := IsInPrimeOrderSubgroup(point.value);
      if |entries| >= CACHE_BOUND { entries := map[]; }
      entries := entries[hex := r];
    }
  }
}
