/**
 * The addition law of the curve -x^2 + y^2 = 1 + d x^2 y^2 over a prime field in which -1 is a square and
 * d is not: its denominators never vanish, and sums of curve points are curve points. Stated for any such
 * field, so that no proof here meets the 255-bit constants.
 */
module EdwardsLaw {
  import opened Prelude
  import opened Modular

  ghost predicate Curve(x: int, y: int, d: int, p: nat) { Cong(y * y - x * x, 1 + d * (x * x) * (y * y), p) }

  ghost predicate NonSquare(d: int, p: nat) { forall z: int :: !Cong(z * z, d, p) }

  /** A field and a curve constant with the two properties section 5.1 of RFC 8032 gives them. */
  ghost predicate Setting(p: nat, d: int, i: int) { p > 2 && Prime(p) && NonSquare(d, p) && Cong(i * i, -1, p) }

  /** Small fields have the properties too: 13 with d = 2 and 5^2 = -1. */
  lemma SmallSetting()
    ensures Setting(13, 2, 5)
  {
    CongBy(5 * 5, -1, 13, 2);
    forall z: int ensures !Cong(z * z, 2, 13) {
      var r := z % 13;
      CongMod(z, 13);
      CongMul(r, z, r, z, 13);
      CongResidue(r * r, z * z, 13);
      CongResidue(z * z, 2, 13);
      SmallSquares(r);
    }
  }

  lemma SmallSquares(r: int)
    requires 0 <= r < 13
    ensures r * r % 13 != 2
  {
    assert r in {0, 1, 2, 3, 4, 5, 6, 7, 8, 9, 10, 11, 12};
  }

  function Denominator(d: int, x1: int, y1: int, x2: int, y2: int): int { d * x1 * x2 * y1 * y2 }

  // ---- completeness ----------------------------------------------------------------------------

  /** A non-square never relates two squares, unless both vanish. */
  lemma NonSquareRatio(p: nat, d: int, a: int, b: int)
    requires Prime(p) && NonSquare(d, p) && Cong(a * a, d * (b * b), p)
    ensures Cong(b, 0, p)
  {
    hide Pow, Cong, Prime;
    if !Cong(b, 0, p) {
      FermatInverse(p, b);
      var r := Pow(b, p - 2);
      CongRefl(r * r, p);
      CongMul(a * a, d * (b * b), r * r, r * r, p);
      CongMul(b * r, 1, b * r, 1, p);
      CongRefl(d, p);
      CongMul(d, d, (b * r) * (b * r), 1 * 1, p);
      assert a * a * (r * r) == (a * r) * (a * r);
      assert d * (b * b) * (r * r) == d * ((b * r) * (b * r));
      CongTrans((a * r) * (a * r), d * ((b * r) * (b * r)), d, p);
    }
  }

  // The same integers with squares named: X1 for x1^2, J for i^2, w for i x1 y1.

  lemma LeftSquare(i: int, x: int, y: int, e: int)
    requires e * e == 1
    ensures (i * x + e * y) * (i * x + e * y) == i * i * (x * x) + 2 * (e * (i * x * y)) + y * y
  {
    assert (e * y) * (e * y) == (e * e) * (y * y);
  }

  lemma SquareOfSum(a: int, b: int, c: int)
    ensures (a * (b + c)) * (a * (b + c)) == (a * b) * (a * b) + 2 * ((a * b) * (a * c)) + (a * c) * (a * c)
  {
    assert a * (b + c) == a * b + a * c;
  }

  lemma SquareOfProduct(a: int, b: int)
    ensures (a * b) * (a * b) == (a * a) * (b * b)
  {
  }

  lemma Flatten(d: int, a: int, b: int, c: int)
    ensures d * ((a * b) * c) == d * a * b * c
  {
  }

  lemma CrossTerm(d: int, i: int, x1: int, y1: int, x2: int, y2: int)
    ensures d * ((x1 * y1 * (i * x2)) * (x1 * y1 * y2)) == i * x1 * y1 * Denominator(d, x1, y1, x2, y2)
  {
  }

  lemma RightTerms(d: int, i: int, x1: int, y1: int, x2: int, y2: int)
    ensures d * ((x1 * y1 * (i * x2)) * (x1 * y1 * (i * x2))) == d * (x1 * x1) * (y1 * y1) * (i * i * (x2 * x2))
    ensures d * ((x1 * y1 * y2) * (x1 * y1 * y2)) == d * (x1 * x1) * (y1 * y1) * (y2 * y2)
  {
    SquareOfProduct(x1 * y1, i * x2);
    SquareOfProduct(x1 * y1, y2);
    SquareOfProduct(x1, y1);
    SquareOfProduct(i, x2);
    Flatten(d, x1 * x1, y1 * y1, i * i * (x2 * x2));
    Flatten(d, x1 * x1, y1 * y1, y2 * y2);
  }

  lemma DenominatorSquare(d: int, x1: int, y1: int, x2: int, y2: int)
    ensures var t := Denominator(d, x1, y1, x2, y2); t * t == d * (x1 * x1) * (y1 * y1) * (d * (x2 * x2) * (y2 * y2))
  {
  }

  lemma NamedSquares(d: int, J: int, X1: int, Y1: int, X2: int, Y2: int, t: int, e: int, w: int)
    requires e * e == 1 && t * t == d * X1 * Y1 * (d * X2 * Y2)
    ensures J * X1 + 2 * (e * w) + Y1 - (d * X1 * Y1 * (J * X2) + 2 * (w * t) + d * X1 * Y1 * Y2)
            == (J + 1) * (X1 - d * X1 * Y1 * X2) + (Y1 - X1 - (1 + d * X1 * Y1))
               - (Y2 - X2 - (1 + d * X2 * Y2)) * (d * X1 * Y1) - (t - e) * (t + e + 2 * w)
  {
  }

  /** d times the right-hand square, from its three terms. */
  lemma RightSquare(d: int, i: int, x1: int, y1: int, x2: int, y2: int)
    ensures d * ((x1 * y1 * (i * x2 + y2)) * (x1 * y1 * (i * x2 + y2)))
            == d * (x1 * x1) * (y1 * y1) * (i * i * (x2 * x2)) + 2 * (i * x1 * y1 * Denominator(d, x1, y1, x2, y2))
               + d * (x1 * x1) * (y1 * y1) * (y2 * y2)
  {
    hide Denominator;
    SquareOfSum(x1 * y1, i * x2, y2);
    RightTerms(d, i, x1, y1, x2, y2);
    CrossTerm(d, i, x1, y1, x2, y2);
    ThreeTerms(d, (x1 * y1 * (i * x2)) * (x1 * y1 * (i * x2)), (x1 * y1 * (i * x2)) * (x1 * y1 * y2),
               (x1 * y1 * y2) * (x1 * y1 * y2));
  }

  lemma ThreeTerms(d: int, a: int, b: int, c: int)
    ensures d * (a + 2 * b + c) == d * a + 2 * (d * b) + d * c
  {
  }

  lemma Gather(a: int, b: int, c: int, e: int, p: int, f: int, g: int, h: int)
    ensures (a * p) * f + b * p - (c * p) * g - (e * p) * h == (a * f + b - c * g - e * h) * p
  {
    assert (a * p) * f == (a * f) * p && (c * p) * g == (c * g) * p && (e * p) * h == (e * h) * p;
  }

  /** Were the denominator term +-1, d would relate two squares. */
  lemma SquaresMeet(p: nat, d: int, i: int, x1: int, y1: int, x2: int, y2: int, e: int)
    requires Cong(i * i, -1, p) && Curve(x1, y1, d, p) && Curve(x2, y2, d, p)
    requires e * e == 1 && Cong(Denominator(d, x1, y1, x2, y2), e, p)
    ensures Cong((i * x1 + e * y1) * (i * x1 + e * y1), d * ((x1 * y1 * (i * x2 + y2)) * (x1 * y1 * (i * x2 + y2))), p)
  {
    hide Denominator;
    var t, w := Denominator(d, x1, y1, x2, y2), i * x1 * y1;
    LeftSquare(i, x1, y1, e);
    RightSquare(d, i, x1, y1, x2, y2);
    DenominatorSquare(d, x1, y1, x2, y2);
    NamedSquares(d, i * i, x1 * x1, y1 * y1, x2 * x2, y2 * y2, t, e, w);
    var kj: int :| i * i - -1 == kj * p;
    var k1: int :| y1 * y1 - x1 * x1 - (1 + d * (x1 * x1) * (y1 * y1)) == k1 * p;
    var k2: int :| y2 * y2 - x2 * x2 - (1 + d * (x2 * x2) * (y2 * y2)) == k2 * p;
    var kt: int :| t - e == kt * p;
    Gather(kj, k1, k2, kt, p, x1 * x1 - d * (x1 * x1) * (y1 * y1) * (x2 * x2), d * (x1 * x1) * (y1 * y1),
           t + e + 2 * w);
  }

  lemma ProductVanishes(p: nat, d: int, x1: int, y1: int, x2: int, y2: int)
    requires Cong(x1 * y1, 0, p) || Cong(y2, 0, p)
    ensures Cong(Denominator(d, x1, y1, x2, y2), 0, p)
  {
    hide Cong;
    if Cong(x1 * y1, 0, p) {
      CongRefl(d * x2 * y2, p);
      CongMul(x1 * y1, 0, d * x2 * y2, d * x2 * y2, p);
      assert (x1 * y1) * (d * x2 * y2) == Denominator(d, x1, y1, x2, y2);
    } else {
      CongRefl(d * x1 * x2 * y1, p);
      CongMul(d * x1 * x2 * y1, d * x1 * x2 * y1, y2, 0, p);
    }
  }

  lemma CurveMirror(x: int, y: int, d: int, p: nat)
    requires Curve(x, y, d, p)
    ensures Curve(x, -y, d, p)
  {
    assert (-y) * (-y) == y * y;
  }

  /** On curve points the term d x1 x2 y1 y2 is never 1 or -1. */
  lemma DenominatorNever(p: nat, d: int, i: int, x1: int, y1: int, x2: int, y2: int, e: int)
    requires Setting(p, d, i) && Curve(x1, y1, d, p) && Curve(x2, y2, d, p) && (e == 1 || e == -1)
    ensures !Cong(Denominator(d, x1, y1, x2, y2), e, p)
  {
    hide Cong, Prime, NonSquare, Curve;
    var t := Denominator(d, x1, y1, x2, y2);
    if Cong(t, e, p) {
      var b, c := i * x2 + y2, i * x2 - y2;
      SquaresMeet(p, d, i, x1, y1, x2, y2, e);
      NonSquareRatio(p, d, i * x1 + e * y1, x1 * y1 * b);
      CurveMirror(x2, y2, d, p);
      MirrorDenominator(p, d, x1, y1, x2, y2, e);
      SquaresMeet(p, d, i, x1, y1, x2, -y2, -e);
      NonSquareRatio(p, d, i * x1 + -e * y1, x1 * y1 * (i * x2 + -y2));
      Euclid(p, x1 * y1, b);
      Euclid(p, x1 * y1, i * x2 + -y2);
      if !Cong(x1 * y1, 0, p) {
        HalfDifference(p, i * x2, y2);
      }
      ProductVanishes(p, d, x1, y1, x2, y2);
      CongSym(t, e, p);
      CongTrans(e, t, 0, p);
      SmallNonzero(p, e);
    }
  }

  lemma MirrorDenominator(p: nat, d: int, x1: int, y1: int, x2: int, y2: int, e: int)
    requires Cong(Denominator(d, x1, y1, x2, y2), e, p)
    ensures Cong(Denominator(d, x1, y1, x2, -y2), -e, p)
  {
    hide Cong;
    CongRefl(0, p);
    CongSub(0, 0, Denominator(d, x1, y1, x2, y2), e, p);
    assert Denominator(d, x1, y1, x2, -y2) == 0 - Denominator(d, x1, y1, x2, y2);
  }

  lemma SmallNonzero(p: nat, e: int)
    requires p > 2 && -2 <= e <= 2 && e != 0
    ensures !Cong(e, 0, p)
  {
    CongResidue(e, 0, p);
  }

  lemma HalfDifference(p: nat, a: int, b: int)
    requires Prime(p) && p > 2 && Cong(a + b, 0, p) && Cong(a + -b, 0, p)
    ensures Cong(b, 0, p)
  {
    hide Cong, Prime;
    CongSub(a + b, 0, a + -b, 0, p);
    assert a + b - (a + -b) == 2 * b;
    Euclid(p, 2, b);
    SmallNonzero(p, 2);
  }

  // ---- closure ---------------------------------------------------------------------------------

  lemma SumSquare(a: int, b: int)
    ensures (a + b) * (a + b) == a * a + b * b + 2 * (a * b)
  {
  }

  lemma ScaledSquare(a: int, m: int, t: int)
    ensures (a + 2 * m) * ((1 + t) * (1 + t)) == (a + 2 * m) * (1 + t * t) + 2 * (a * t) + 4 * (m * t)
  {
    SumSquare(1, t);
    Distribute(a + 2 * m, 1 + t * t, 2 * t);
  }

  lemma Distribute(a: int, b: int, c: int)
    ensures a * (b + c) == a * b + a * c
  {
  }

  lemma ScaledSquareBelow(a: int, m: int, t: int)
    ensures (a + 2 * m) * ((1 + -t) * (1 + -t)) == (a + 2 * m) * (1 + t * t) - 2 * (a * t) - 4 * (m * t)
  {
    ScaledSquare(a, m, -t);
  }

  lemma ScaledProductOfSums(d: int, m: int, a: int, b: int)
    ensures d * ((a + 2 * m) * (b + 2 * m)) == d * (a * b) + 2 * (a * (d * m)) + 2 * (b * (d * m)) + 4 * (m * (d * m))
  {
  }

  lemma Apart(a: int, b: int, m: int, c: int)
    ensures (a + 2 * m) * c - (b + 2 * m) * c == (a - b) * c
  {
  }

  /** Adding up the three expansions below, each product taken as a number. */
  lemma AddUp(p: int, q: int, r: int, g: int, h: int, k: int, x: int, y: int, z: int, w: int)
    requires p == g + 2 * x + 4 * z && q == h - 2 * y - 4 * z && r == w + 2 * y + 2 * x + 4 * z && g - h == k
    ensures p - q - r == k + 4 * z - w
  {
  }

  /** The numerators' relation, in the products S, R, m and t = d m. */
  lemma NumeratorsExpand(d: int, m: int, S: int, R: int, t: int)
    requires t == d * m
    ensures (R + 2 * m) * ((1 + t) * (1 + t)) - (S + 2 * m) * ((1 + -t) * (1 + -t)) - d * ((S + 2 * m) * (R + 2 * m))
            == (R - S) * (1 + t * t) + 4 * (m * t) - d * (S * R)
  {
    ScaledSquare(R, m, t);
    ScaledSquareBelow(S, m, t);
    ScaledProductOfSums(d, m, S, R);
    Apart(R, S, m, 1 + t * t);
    AddUp((R + 2 * m) * ((1 + t) * (1 + t)), (S + 2 * m) * ((1 + -t) * (1 + -t)), d * ((S + 2 * m) * (R + 2 * m)),
          (R + 2 * m) * (1 + t * t), (S + 2 * m) * (1 + t * t), (R - S) * (1 + t * t),
          R * t, S * t, m * t, d * (S * R));
  }

  lemma ProductOfSums(a: int, b: int, c: int, e: int)
    ensures (a + b) * (c + e) == a * c + a * e + b * c + b * e
  {
  }

  lemma SharedFactor(x: int, y: int, z: int)
    ensures (x * z) * (y * z) == (z * z) * (x * y)
    ensures (z * x) * (z * y) == (z * z) * (y * x)
    ensures (x * z) * (z * y) == (z * z) * (x * y)
    ensures (z * x) * (y * z) == (z * z) * (y * x)
  {
  }

  lemma SquareOfDifference(y: int, x: int, z: int)
    ensures (y - x) * (y - x) * z == (y * y) * z + (x * x) * z - 2 * (x * y * z)
  {
    SumSquare(y, -x);
    assert (y - x) * (y - x) == y * y + x * x - 2 * (x * y);
    var a, b, c := y * y, x * x, x * y;
    assert (a + b - 2 * c) * z == a * z + b * z - 2 * (c * z);
  }

  lemma NumeratorsFactor(d: int, X1: int, Y1: int, X2: int, Y2: int, mm: int)
    requires mm == X1 * Y1 * (X2 * Y2)
    ensures var S, R := X1 * Y2 + X2 * Y1, Y1 * Y2 + X1 * X2;
            4 * mm - S * R == -((Y1 - X1) * (Y1 - X1) * (X2 * Y2)) - (Y2 - X2) * (Y2 - X2) * (X1 * Y1)
  {
    ProductOfSums(X1 * Y2, X2 * Y1, Y1 * Y2, X1 * X2);
    SharedFactor(X1, Y1, Y2);
    SharedFactor(Y2, X2, X1);
    SharedFactor(X2, Y2, Y1);
    SharedFactor(Y1, X1, X2);
    SquareOfDifference(Y1, X1, X2 * Y2);
    SquareOfDifference(Y2, X2, X1 * Y1);
    Commute(X2 * Y2, X1 * Y1);
  }

  lemma Commute(a: int, b: int)
    ensures a * b == b * a
  {
  }

  lemma FactorPair(a: int, b: int, f: int, g: int)
    ensures a * b * (1 + f * g) - a * a * g - b * b * f == (a - b * f) * (b - a * g)
  {
  }

  /** The same relation as a product of two factors, one for each point. */
  lemma NumeratorsRelation(d: int, x1: int, y1: int, x2: int, y2: int)
    ensures var t, n1, n2 := Denominator(d, x1, y1, x2, y2), x1 * y2 + x2 * y1, y1 * y2 + x1 * x2;
            var a, b := y1 * y1 - x1 * x1, y2 * y2 - x2 * x2;
            var f, g := d * (x1 * x1) * (y1 * y1), d * (x2 * x2) * (y2 * y2);
            && n2 * n2 * ((1 + t) * (1 + t)) - n1 * n1 * ((1 + -t) * (1 + -t)) - d * ((n1 * n1) * (n2 * n2))
                == (a - b * f) * (b - a * g)
            && t * t == f * g
  {
    hide Denominator;
    var t, m := Denominator(d, x1, y1, x2, y2), (x1 * y2) * (x2 * y1);
    var X1, Y1, X2, Y2 := x1 * x1, y1 * y1, x2 * x2, y2 * y2;
    var S, R := X1 * Y2 + X2 * Y1, Y1 * Y2 + X1 * X2;
    SumSquare(x1 * y2, x2 * y1);
    SumSquare(y1 * y2, x1 * x2);
    SquareOfProduct(x1, y2);
    SquareOfProduct(x2, y1);
    SquareOfProduct(y1, y2);
    SquareOfProduct(x1, x2);
    CrossProducts(d, x1, y1, x2, y2);
    NumeratorsExpand(d, m, S, R, t);
    MiddleTerms(d, X1, Y1, X2, Y2, m, t);
    DenominatorSquare(d, x1, y1, x2, y2);
    FactorPair(Y1 - X1, Y2 - X2, d * X1 * Y1, d * X2 * Y2);
  }

  lemma CrossProducts(d: int, x1: int, y1: int, x2: int, y2: int)
    ensures (y1 * y2) * (x1 * x2) == (x1 * y2) * (x2 * y1)
    ensures Denominator(d, x1, y1, x2, y2) == d * ((x1 * y2) * (x2 * y1))
    ensures ((x1 * y2) * (x2 * y1)) * ((x1 * y2) * (x2 * y1)) == (x1 * x1) * (y1 * y1) * ((x2 * x2) * (y2 * y2))
  {
    assert (y1 * y2) * (x1 * x2) == (x1 * y2) * (x2 * y1);
    SquareOfProduct(x1 * y2, x2 * y1);
    SquareOfProduct(x1, y2);
    SquareOfProduct(x2, y1);
    Shuffle(x1 * x1, y1 * y1, x2 * x2, y2 * y2);
  }

  lemma Shuffle(a: int, b: int, c: int, e: int)
    ensures (a * e) * (c * b) == a * b * (c * e)
  {
  }

  lemma MiddleTerms(d: int, X1: int, Y1: int, X2: int, Y2: int, m: int, t: int)
    requires t == d * m && m * m == X1 * Y1 * (X2 * Y2)
    ensures var S, R := X1 * Y2 + X2 * Y1, Y1 * Y2 + X1 * X2;
            && R - S == (Y1 - X1) * (Y2 - X2)
            && 4 * (m * t) - d * (S * R)
                == -((Y1 - X1) * (Y1 - X1) * (d * X2 * Y2)) - (Y2 - X2) * (Y2 - X2) * (d * X1 * Y1)
  {
    var S, R := X1 * Y2 + X2 * Y1, Y1 * Y2 + X1 * X2;
    NumeratorsFactor(d, X1, Y1, X2, Y2, m * m);
    PullOut(d, m, S * R, (Y1 - X1) * (Y1 - X1), X2 * Y2, (Y2 - X2) * (Y2 - X2), X1 * Y1);
  }

  lemma PullOut(d: int, m: int, z: int, a: int, f: int, b: int, g: int)
    requires 4 * (m * m) - z == -(a * f) - b * g
    ensures 4 * (m * (d * m)) - d * z == -(a * (d * f)) - b * (d * g)
  {
    assert d * (4 * (m * m) - z) == 4 * (m * (d * m)) - d * z;
    assert d * (-(a * f) - b * g) == -(a * (d * f)) - b * (d * g);
  }

  /** On the curve both factors are 1 - t^2. */
  lemma FactorsOnCurve(p: nat, a: int, b: int, f: int, g: int)
    requires Cong(a, 1 + f, p) && Cong(b, 1 + g, p)
    ensures Cong((a - b * f) * (b - a * g), (1 - f * g) * (1 - f * g), p)
  {
    hide Cong;
    CongRefl(f, p);
    CongRefl(g, p);
    CongMul(b, 1 + g, f, f, p);
    CongMul(a, 1 + f, g, g, p);
    CongSub(a, 1 + f, b * f, (1 + g) * f, p);
    CongSub(b, 1 + g, a * g, (1 + f) * g, p);
    assert 1 + f - (1 + g) * f == 1 - f * g == 1 + g - (1 + f) * g;
    CongMul(a - b * f, 1 - f * g, b - a * g, 1 - f * g, p);
  }

  lemma Squared(p: nat, n: int, x: int, g: int, h: int)
    requires Cong(x * g, n, p)
    ensures Cong(n * n * (h * h), x * x * ((g * h) * (g * h)), p)
  {
    hide Cong;
    CongSym(x * g, n, p);
    CongMul(n, x * g, n, x * g, p);
    CongRefl(h * h, p);
    CongMul(n * n, (x * g) * (x * g), h * h, h * h, p);
    SquareOfProduct(x, g);
    SquareOfProduct(g, h);
    assert (x * x) * (g * g) * (h * h) == x * x * ((g * g) * (h * h));
  }

  lemma BothSquared(p: nat, d: int, n1: int, n2: int, x: int, y: int, g: int, h: int)
    requires Cong(x * g, n1, p) && Cong(y * h, n2, p)
    ensures Cong(d * ((n1 * n1) * (n2 * n2)), d * (x * x) * (y * y) * ((g * h) * (g * h)), p)
  {
    hide Cong;
    CongSym(x * g, n1, p);
    CongSym(y * h, n2, p);
    CongMul(n1, x * g, n1, x * g, p);
    CongMul(n2, y * h, n2, y * h, p);
    CongMul(n1 * n1, (x * g) * (x * g), n2 * n2, (y * h) * (y * h), p);
    CongRefl(d, p);
    CongMul(d, d, (n1 * n1) * (n2 * n2), ((x * g) * (x * g)) * ((y * h) * (y * h)), p);
    SquareOfProduct(x, g);
    SquareOfProduct(y, h);
    SquareOfProduct(g, h);
    Interleave(d, x * x, g * g, y * y, h * h);
  }

  lemma Interleave(d: int, a: int, b: int, c: int, e: int)
    ensures d * ((a * b) * (c * e)) == d * a * c * (b * e)
  {
  }

  lemma FactorOut(w: int, a: int, b: int, c: int)
    ensures b * w - a * w - c * w == w * (b - a - c)
  {
  }

  lemma UnitSquare(p: nat, d: int, i: int, x1: int, y1: int, x2: int, y2: int)
    requires Setting(p, d, i) && Curve(x1, y1, d, p) && Curve(x2, y2, d, p)
    ensures var t := Denominator(d, x1, y1, x2, y2);
            && !Cong(1 + t, 0, p) && !Cong(1 + -t, 0, p) && !Cong((1 + t) * (1 + -t), 0, p)
            && !Cong(((1 + t) * (1 + -t)) * ((1 + t) * (1 + -t)), 0, p)
  {
    hide Cong, Curve, Denominator, Prime, NonSquare;
    var t := Denominator(d, x1, y1, x2, y2);
    DenominatorNever(p, d, i, x1, y1, x2, y2, 1);
    DenominatorNever(p, d, i, x1, y1, x2, y2, -1);
    CongRefl(1, p);
    CongRefl(t, p);
    if Cong(1 + t, 0, p) {
      CongSub(1 + t, 0, 1, 1, p);
    }
    if Cong(1 + -t, 0, p) {
      CongAdd(1 + -t, 0, t, t, p);
      CongSym(1, t, p);
    }
    if Cong((1 + t) * (1 + -t), 0, p) {
      Euclid(p, 1 + t, 1 + -t);
    }
    if Cong(((1 + t) * (1 + -t)) * ((1 + t) * (1 + -t)), 0, p) {
      Euclid(p, (1 + t) * (1 + -t), (1 + t) * (1 + -t));
    }
  }

  /** A point with the sum's coordinates is on the curve. */
  lemma SumOnCurve(p: nat, d: int, i: int, x1: int, y1: int, x2: int, y2: int, x: int, y: int)
    requires Setting(p, d, i) && Curve(x1, y1, d, p) && Curve(x2, y2, d, p)
    requires Cong(x * (1 + Denominator(d, x1, y1, x2, y2)), x1 * y2 + x2 * y1, p)
    requires Cong(y * (1 + -Denominator(d, x1, y1, x2, y2)), y1 * y2 + x1 * x2, p)
    ensures Curve(x, y, d, p)
  {
    hide Cong, Denominator, Prime, NonSquare;
    var t, n1, n2 := Denominator(d, x1, y1, x2, y2), x1 * y2 + x2 * y1, y1 * y2 + x1 * x2;
    var f, g := d * (x1 * x1) * (y1 * y1), d * (x2 * x2) * (y2 * y2);
    var u, v := 1 + t, 1 + -t;
    var w := (u * v) * (u * v);
    NumeratorsRelation(d, x1, y1, x2, y2);
    FactorsOnCurve(p, y1 * y1 - x1 * x1, y2 * y2 - x2 * x2, f, g);
    assert u * v == 1 - f * g;
    Squared(p, n1, x, u, v);
    Squared(p, n2, y, v, u);
    assert v * u == u * v;
    BothSquared(p, d, n1, n2, x, y, u, v);
    CongSub(n2 * n2 * (u * u), y * y * w, n1 * n1 * (v * v), x * x * w, p);
    CongSub(n2 * n2 * (u * u) - n1 * n1 * (v * v), y * y * w - x * x * w, d * ((n1 * n1) * (n2 * n2)),
            d * (x * x) * (y * y) * w, p);
    FactorOut(w, x * x, y * y, d * (x * x) * (y * y));
    FinishSum(p, d, i, x1, y1, x2, y2, x, y, w);
  }

  lemma FinishSum(p: nat, d: int, i: int, x1: int, y1: int, x2: int, y2: int, x: int, y: int, w: int)
    requires Setting(p, d, i) && Curve(x1, y1, d, p) && Curve(x2, y2, d, p)
    requires w == ((1 + Denominator(d, x1, y1, x2, y2)) * (1 + -Denominator(d, x1, y1, x2, y2)))
                  * ((1 + Denominator(d, x1, y1, x2, y2)) * (1 + -Denominator(d, x1, y1, x2, y2)))
    requires exists z: int :: Cong(z, w * (y * y - x * x - d * (x * x) * (y * y)), p) && Cong(z, w, p)
    ensures Curve(x, y, d, p)
  {
    hide Cong, Denominator, Prime, NonSquare;
    var r := y * y - x * x - d * (x * x) * (y * y);
    var z: int :| Cong(z, w * r, p) && Cong(z, w, p);
    CongSym(z, w * r, p);
    CongTrans(w * r, z, w, p);
    UnitSquare(p, d, i, x1, y1, x2, y2);
    assert w * 1 == w;
    Cancel(p, w, r, 1);
    CongRefl(d * (x * x) * (y * y), p);
    CongAdd(r, 1, d * (x * x) * (y * y), d * (x * x) * (y * y), p);
  }
}
