/** The Ed25519 constants, affine points, and the scalar loop in extended coordinates against the affine one. */
module Ed25519 {
  import opened Prelude
  import opened Modular
  import opened EdwardsLaw
  import opened Extended

  const P: nat := 57896044618658097711785492504343953926634992332820282019728792003956564819949
  const D: nat := 37095705934669439343138083508754565189542113879843219016388785533085940283555
  const SQRT_M1: nat := 19681161376707505956807079304988542015446066515923890162744021073123829784752
  const L: nat := 7237005577332262213973186563042994240857116359379907606001950938285454250989

  /** The two facts section 5.1 of RFC 8032 states of the constants: p is prime and d is not a square. */
  ghost predicate FieldFacts() { Prime(P) && NonSquare(D, P) }

  lemma Constants()
    ensures P > 5 && P % 8 == 5 && Cong(SQRT_M1 * SQRT_M1, -1, P) && !Cong(D, -1, P)
    ensures FieldFacts() ==> Setting(P, D, SQRT_M1)
  {
    CongResidue(SQRT_M1 * SQRT_M1, -1, P);
    CongResidue(D, -1, P);
  }

  // ---- affine points ---------------------------------------------------------------------------

  datatype Point = Point(x: int, y: int)

  ghost predicate InRange(p: Point) { 0 <= p.x < P && 0 <= p.y < P }

  ghost predicate OnCurve(p: Point) { Curve(p.x, p.y, D, P) }

  ghost function Inv(a: int, m: nat): int
    requires m >= 2
  {
    Pow(a, m - 2) % m
  }

  /** Affine addition with two field inversions. */
  ghost function Affine(p: Point, q: Point, d: int, m: nat): Point
    requires m >= 2
  {
    var t := Denominator(d, p.x, p.y, q.x, q.y);
    Point((p.x * q.y + q.x * p.y) * Inv(1 + t, m) % m, (p.y * q.y + p.x * q.x) * Inv(1 + -t, m) % m)
  }

  /** Recursive double-and-add on affine points. */
  ghost function ScalarMult(p: Point, e: nat, d: int, m: nat): Point
    requires m >= 2
    decreases e
  {
    if e == 0 then Point(0, 1)
    else
      var h := ScalarMult(p, e / 2, d, m);
      var q := Affine(h, h, d, m);
      if e % 2 == 1 then Affine(q, p, d, m) else q
  }

  lemma Quotient(p: nat, n: int, u: int)
    requires Prime(p) && !Cong(u, 0, p)
    ensures Cong((n * Inv(u, p) % p) * u, n, p)
  {
    hide Cong, Prime, Pow;
    var v := Pow(u, p - 2);
    CongMod(v, p);
    CongRefl(n, p);
    CongRefl(u, p);
    CongMul(n, n, v % p, v, p);
    CongMod(n * (v % p), p);
    CongTrans(n * (v % p) % p, n * (v % p), n * v, p);
    CongMul(n * (v % p) % p, n * v, u, u, p);
    FermatInverse(p, u);
    CongMul(n, n, u * v, 1, p);
    assert n * v * u == n * (u * v);
    CongTrans((n * (v % p) % p) * u, n * (u * v), n, p);
  }

  /** The affine sum of curve points satisfies the two equations that define it, and is on the curve. */
  lemma AffineSum(p: Point, q: Point, d: int, i: int, m: nat)
    requires Setting(m, d, i) && Curve(p.x, p.y, d, m) && Curve(q.x, q.y, d, m)
    ensures var r, t := Affine(p, q, d, m), Denominator(d, p.x, p.y, q.x, q.y);
            && 0 <= r.x < m && 0 <= r.y < m && Curve(r.x, r.y, d, m)
            && Cong(r.x * (1 + t), p.x * q.y + q.x * p.y, m)
            && Cong(r.y * (1 + -t), p.y * q.y + p.x * q.x, m)
  {
    hide Cong, Prime, NonSquare, Curve, Denominator, Inv;
    var r, t := Affine(p, q, d, m), Denominator(d, p.x, p.y, q.x, q.y);
    UnitSquare(m, d, i, p.x, p.y, q.x, q.y);
    Quotient(m, p.x * q.y + q.x * p.y, 1 + t);
    Quotient(m, p.y * q.y + p.x * q.x, 1 + -t);
    SumOnCurve(m, d, i, p.x, p.y, q.x, q.y, r.x, r.y);
  }

  // ---- the scalar loop -------------------------------------------------------------------------

  const ZERO := Ext(0, 1, 1, 0)

  /** The accumulator after the bits of `e`, most significant first. */
  function Ladder(base: Ext, e: nat, d: int, m: nat): Ext
    requires m > 0
    decreases e
  {
    if e == 0 then ZERO
    else
      var h := Ladder(base, e / 2, d, m);
      var q := ExtendedAdd(h, h, d, m);
      if e % 2 == 1 then ExtendedAdd(q, base, d, m) else q
  }

  lemma ZeroRepresents(d: int, m: nat)
    requires m > 1
    ensures Represents(ZERO, 0, 1, m) && Curve(0, 1, d, m)
  {
    CongResidue(1, 0, m);
    CongRefl(0, m);
    CongRefl(1, m);
    assert d * (0 * 0) * (1 * 1) == 0;
  }

  /** After any number of bits the accumulator stands for the affine multiple. */
  lemma {:induction false} LadderRepresents(base: Ext, p: Point, e: nat, d: int, i: int, m: nat)
    requires Setting(m, d, i) && Curve(p.x, p.y, d, m) && Represents(base, p.x, p.y, m)
    ensures var q := ScalarMult(p, e, d, m);
            && 0 <= q.x < m && 0 <= q.y < m && Curve(q.x, q.y, d, m)
            && Represents(Ladder(base, e, d, m), q.x, q.y, m)
    decreases e
  {
    hide Cong, Prime, NonSquare, Curve, Denominator, Affine, ExtendedAdd, Represents;
    if e == 0 {
      ZeroRepresents(d, m);
    } else {
      LadderRepresents(base, p, e / 2, d, i, m);
      var h, a := ScalarMult(p, e / 2, d, m), Ladder(base, e / 2, d, m);
      var q, b := Affine(h, h, d, m), ExtendedAdd(a, a, d, m);
      AffineSum(h, h, d, i, m);
      AddRepresents(m, d, i, a, a, h.x, h.y, h.x, h.y, q.x, q.y);
      if e % 2 == 1 {
        var r := Affine(q, p, d, m);
        AffineSum(q, p, d, i, m);
        AddRepresents(m, d, i, b, base, q.x, q.y, p.x, p.y, r.x, r.y);
      }
    }
  }

  lemma IdentityCong(p: nat, X: int, Y: int, z: int, x: int, y: int)
    requires Prime(p) && !Cong(z, 0, p) && Cong(X, x * z, p) && Cong(Y, y * z, p)
    ensures Cong(X, 0, p) <==> Cong(x, 0, p)
    ensures Cong(Y - z, 0, p) <==> Cong(y - 1, 0, p)
  {
    hide Cong, Prime;
    CongRefl(z, p);
    CongSub(Y, y * z, z, z, p);
    assert y * z - z == (y - 1) * z;
    VanishTogether(p, X, x, z);
    VanishTogether(p, Y - z, y - 1, z);
  }

  lemma VanishTogether(p: nat, X: int, x: int, z: int)
    requires Prime(p) && !Cong(z, 0, p) && Cong(X, x * z, p)
    ensures Cong(X, 0, p) <==> Cong(x, 0, p)
  {
    hide Cong, Prime;
    if Cong(X, 0, p) {
      CongSym(X, x * z, p);
      CongTrans(x * z, X, 0, p);
      Euclid(p, x, z);
    }
    if Cong(x, 0, p) {
      CongRefl(z, p);
      CongMul(x, 0, z, z, p);
      CongTrans(X, x * z, 0, p);
    }
  }

  /** The final test on extended coordinates decides whether the point is the identity. */
  lemma IdentityTest(a: Ext, q: Point, m: nat)
    requires Prime(m) && Represents(a, q.x, q.y, m) && 0 <= q.x < m && 0 <= q.y < m
    ensures a.x % m == 0 && (a.y - a.z) % m == 0 <==> q == Point(0, 1)
  {
    hide Cong, Prime;
    IdentityCong(m, a.x, a.y, a.z, q.x, q.y);
    CongResidue(a.x, 0, m);
    CongResidue(a.y - a.z, 0, m);
    CongResidue(q.x, 0, m);
    CongResidue(q.y - 1, 0, m);
  }

  /** The subgroup test: [L]P computed by the loop is the identity. */
  function InSubgroup(p: Point): bool {
    var base := Ext(p.x, p.y, 1, JsRem(p.x * p.y, P));
    var a := Ladder(base, L, D, P);
    a.x % P == 0 && (a.y - a.z) % P == 0
  }

  lemma BaseRepresents(p: Point, m: nat)
    requires m > 1
    ensures Represents(Ext(p.x, p.y, 1, JsRem(p.x * p.y, m)), p.x, p.y, m)
  {
    hide Cong, JsRem;
    CongResidue(1, 0, m);
    CongRefl(p.x, m);
    CongRefl(p.y, m);
    JsRemCong(p.x * p.y, m);
  }

  /** The fast test refines the affine one: it holds exactly when the affine [L]P is (0, 1). */
  lemma SubgroupTestExact(p: Point)
    requires FieldFacts() && OnCurve(p)
    ensures InSubgroup(p) <==> ScalarMult(p, L, D, P) == Point(0, 1)
  {
    hide Cong, Prime, NonSquare, Curve, Represents, Ladder, ScalarMult, JsRem;
    Constants();
    BaseRepresents(p, P);
    var base := Ext(p.x, p.y, 1, JsRem(p.x * p.y, P));
    LadderRepresents(base, p, L, D, SQRT_M1, P);
    IdentityTest(Ladder(base, L, D, P), ScalarMult(p, L, D, P), P);
  }
}
