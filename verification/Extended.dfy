/** Extended coordinates: one addition, and what it computes on the points its operands stand for. */
module Extended {
  import opened Modular
  import opened EdwardsLaw

  /** The remainder that keeps the sign of its dividend. */
  function JsRem(a: int, m: nat): (r: int)
    requires m > 0
    ensures -(m as int) < r < m && (a >= 0 ==> r >= 0) && (a <= 0 ==> r <= 0)
  {
    if a >= 0 then a % m else -((-a) % m)
  }

  lemma JsRemCong(a: int, m: nat)
    requires m > 0
    ensures Cong(JsRem(a, m), a, m)
  {
    if a >= 0 {
      CongMod(a, m);
    } else {
      CongBy(JsRem(a, m), a, m, (-a) / m);
    }
  }

  /** It is the only number of that sign and size congruent to its dividend. */
  lemma JsRemExact(a: int, m: nat, r: int)
    requires m > 0
    ensures r == JsRem(a, m) <==>
            Cong(r, a, m) && -(m as int) < r < m && (a >= 0 ==> r >= 0) && (a <= 0 ==> r <= 0)
  {
    hide JsRem;
    var q := JsRem(a, m);
    JsRemCong(a, m);
    if Cong(r, a, m) && -(m as int) < r < m && (a >= 0 ==> r >= 0) && (a <= 0 ==> r <= 0) {
      CongSym(q, a, m);
      CongTrans(r, a, q, m);
      var k: int :| r - q == k * m;
      SmallMultiple(k, m);
    }
  }

  datatype Ext = Ext(x: int, y: int, z: int, t: int)

  function ExtendedAdd(p: Ext, q: Ext, d: int, m: nat): Ext
    requires m > 0
  {
    var a := JsRem((p.y - p.x) * (q.y - q.x), m);
    var b := JsRem((p.y + p.x) * (q.y + q.x), m);
    var c := JsRem(JsRem(2 * p.t, m) * JsRem(q.t * d, m), m);
    var k := JsRem(JsRem(2 * p.z, m) * q.z, m);
    var e, f, g, h := b - a, k - c, k + c, b + a;
    Ext(JsRem(e * f, m), JsRem(g * h, m), JsRem(f * g, m), JsRem(e * h, m))
  }

  /** `e` stands for the affine point (x, y): X = xZ, Y = yZ, T = xyZ and Z is a unit. */
  ghost predicate Represents(e: Ext, x: int, y: int, p: nat) {
    && !Cong(e.z, 0, p)
    && Cong(e.x, x * e.z, p)
    && Cong(e.y, y * e.z, p)
    && Cong(e.t, x * y * e.z, p)
  }

  /** What `Represents` keeps between the four coordinates alone. */
  lemma Consistent(e: Ext, x: int, y: int, p: nat)
    requires Represents(e, x, y, p)
    ensures Cong(e.t * e.z, e.x * e.y, p)
  {
    hide Cong;
    CongRefl(e.z, p);
    CongMul(e.t, x * y * e.z, e.z, e.z, p);
    CongMul(e.x, x * e.z, e.y, y * e.z, p);
    assert x * y * e.z * e.z == (x * e.z) * (y * e.z);
    CongSym(e.x * e.y, (x * e.z) * (y * e.z), p);
    CongTrans(e.t * e.z, (x * e.z) * (y * e.z), e.x * e.y, p);
  }

  // ---- the four products -----------------------------------------------------------------------

  lemma CrossSum(p: nat, X1: int, Y1: int, z1: int, X2: int, Y2: int, z2: int, x1: int, y1: int, x2: int, y2: int)
    requires Cong(X1, x1 * z1, p) && Cong(Y1, y1 * z1, p) && Cong(X2, x2 * z2, p) && Cong(Y2, y2 * z2, p)
    ensures Cong((Y1 - X1) * (Y2 - X2), (y1 - x1) * (y2 - x2) * (z1 * z2), p)
    ensures Cong((Y1 + X1) * (Y2 + X2), (y1 + x1) * (y2 + x2) * (z1 * z2), p)
  {
    hide Cong;
    Combined(p, X1, Y1, x1, y1, z1);
    Combined(p, X2, Y2, x2, y2, z2);
    ScaledPair(p, Y1 - X1, y1 - x1, z1, Y2 - X2, y2 - x2, z2);
    ScaledPair(p, Y1 + X1, y1 + x1, z1, Y2 + X2, y2 + x2, z2);
  }

  lemma Combined(p: nat, X: int, Y: int, x: int, y: int, z: int)
    requires Cong(X, x * z, p) && Cong(Y, y * z, p)
    ensures Cong(Y - X, (y - x) * z, p) && Cong(Y + X, (y + x) * z, p)
  {
    hide Cong;
    CongSub(Y, y * z, X, x * z, p);
    CongAdd(Y, y * z, X, x * z, p);
    assert y * z - x * z == (y - x) * z && y * z + x * z == (y + x) * z;
  }

  lemma ScaledPair(p: nat, A: int, a: int, z1: int, B: int, b: int, z2: int)
    requires Cong(A, a * z1, p) && Cong(B, b * z2, p)
    ensures Cong(A * B, a * b * (z1 * z2), p)
  {
    hide Cong;
    CongMul(A, a * z1, B, b * z2, p);
    PairUp(a, z1, b, z2);
  }

  lemma PairUp(a: int, b: int, c: int, e: int)
    ensures (a * b) * (c * e) == a * c * (b * e)
  {
  }

  lemma TermC(p: nat, d: int, T1: int, z1: int, T2: int, z2: int, x1: int, y1: int, x2: int, y2: int)
    requires p > 0 && Cong(T1, x1 * y1 * z1, p) && Cong(T2, x2 * y2 * z2, p)
    ensures Cong(JsRem(2 * T1, p) * JsRem(T2 * d, p), 2 * (z1 * z2) * Denominator(d, x1, y1, x2, y2), p)
  {
    hide Cong, JsRem;
    JsRemCong(2 * T1, p);
    JsRemCong(T2 * d, p);
    CongRefl(2, p);
    CongRefl(d, p);
    CongMul(2, 2, T1, x1 * y1 * z1, p);
    CongMul(T2, x2 * y2 * z2, d, d, p);
    CongTrans(JsRem(2 * T1, p), 2 * T1, 2 * (x1 * y1 * z1), p);
    CongTrans(JsRem(T2 * d, p), T2 * d, x2 * y2 * z2 * d, p);
    CongMul(JsRem(2 * T1, p), 2 * (x1 * y1 * z1), JsRem(T2 * d, p), x2 * y2 * z2 * d, p);
    CRegroup(d, x1, y1, x2, y2, z1, z2);
  }

  lemma CRegroup(d: int, x1: int, y1: int, x2: int, y2: int, z1: int, z2: int)
    ensures 2 * (x1 * y1 * z1) * (x2 * y2 * z2 * d) == 2 * (z1 * z2) * Denominator(d, x1, y1, x2, y2)
  {
    assert (x1 * y1 * z1) * (x2 * y2 * z2 * d) == (z1 * z2) * (d * x1 * x2 * y1 * y2);
  }

  lemma TermD(p: nat, z1: int, z2: int)
    requires p > 0
    ensures Cong(JsRem(2 * z1, p) * z2, 2 * (z1 * z2), p)
  {
    hide Cong, JsRem;
    JsRemCong(2 * z1, p);
    CongRefl(z2, p);
    CongMul(JsRem(2 * z1, p), 2 * z1, z2, z2, p);
    assert 2 * z1 * z2 == 2 * (z1 * z2);
  }

  lemma Reduced(p: nat, a: int, b: int)
    requires p > 0 && Cong(a, b, p)
    ensures Cong(JsRem(a, p), b, p)
  {
    hide Cong, JsRem;
    JsRemCong(a, p);
    CongTrans(JsRem(a, p), a, b, p);
  }

  // ---- the four coordinates --------------------------------------------------------------------

  /** From e = K n1, f = K v, g = K u, h = K n2 and the sum's defining equations to its coordinates. */
  lemma Assemble(p: nat, K: int, u: int, v: int, n1: int, n2: int, x: int, y: int, e: int, f: int, g: int, h: int)
    requires Cong(e, K * n1, p) && Cong(f, K * v, p) && Cong(g, K * u, p) && Cong(h, K * n2, p)
    requires Cong(x * u, n1, p) && Cong(y * v, n2, p)
    ensures Cong(e * f, x * (f * g), p) && Cong(g * h, y * (f * g), p) && Cong(e * h, x * y * (f * g), p)
  {
    hide Cong;
    CongRefl(K, p);
    CongMul(K, K, x * u, n1, p);
    CongMul(K, K, y * v, n2, p);
    CongSym(K * (x * u), K * n1, p);
    CongSym(K * (y * v), K * n2, p);
    CongTrans(e, K * n1, K * (x * u), p);
    CongTrans(h, K * n2, K * (y * v), p);
    CongRefl(x, p);
    CongRefl(y, p);
    CongMul(x, x, g, K * u, p);
    CongMul(y, y, f, K * v, p);
    Align(p, e, x * g, x * (K * u), K * (x * u));
    Align(p, h, y * f, y * (K * v), K * (y * v));
    CongRefl(f, p);
    CongRefl(g, p);
    CongMul(e, x * g, f, f, p);
    CongMul(g, g, h, y * f, p);
    CongMul(e, x * g, h, y * f, p);
    PairUp(x, g, y, f);
    assert x * g * f == x * (f * g) && g * (y * f) == y * (f * g) && x * y * (g * f) == x * y * (f * g);
  }

  lemma Align(p: nat, e: int, a: int, b: int, c: int)
    requires Cong(e, c, p) && Cong(a, b, p) && b == c
    ensures Cong(e, a, p)
  {
    hide Cong;
    CongSym(a, b, p);
    CongTrans(e, c, a, p);
  }

  lemma Numerators(x1: int, y1: int, x2: int, y2: int, W: int)
    ensures (y1 + x1) * (y2 + x2) * W - (y1 - x1) * (y2 - x2) * W == 2 * W * (x1 * y2 + x2 * y1)
    ensures (y1 + x1) * (y2 + x2) * W + (y1 - x1) * (y2 - x2) * W == 2 * W * (y1 * y2 + x1 * x2)
  {
    assert (y1 + x1) * (y2 + x2) == y1 * y2 + y1 * x2 + x1 * y2 + x1 * x2;
    assert (y1 - x1) * (y2 - x2) == y1 * y2 - y1 * x2 - x1 * y2 + x1 * x2;
    var a, b := y1 * y2 + x1 * x2, x1 * y2 + x2 * y1;
    assert (a + b) * W - (a - b) * W == 2 * W * b;
    assert (a + b) * W + (a - b) * W == 2 * W * a;
  }

  lemma UnitProduct(p: nat, a: int, b: int)
    requires Prime(p) && !Cong(a, 0, p) && !Cong(b, 0, p)
    ensures !Cong(a * b, 0, p)
  {
    hide Cong, Prime;
    if Cong(a * b, 0, p) {
      Euclid(p, a, b);
    }
  }

  lemma UnitCong(p: nat, a: int, b: int)
    requires Cong(a, b, p) && !Cong(b, 0, p)
    ensures !Cong(a, 0, p)
  {
    hide Cong;
    if Cong(a, 0, p) {
      CongSym(a, b, p);
      CongTrans(b, a, 0, p);
    }
  }

  /** The sum's four factors e, f, g, h in terms of the affine operands. */
  ghost predicate Factors(p: nat, d: int, z: int, x1: int, y1: int, x2: int, y2: int, e: int, f: int, g: int, h: int) {
    var t, K := Denominator(d, x1, y1, x2, y2), 2 * z;
    && Cong(e, K * (x1 * y2 + x2 * y1), p) && Cong(f, K * (1 + -t), p)
    && Cong(g, K * (1 + t), p) && Cong(h, K * (y1 * y2 + x1 * x2), p)
  }

  lemma AddFactors(p: nat, d: int, e1: Ext, e2: Ext, x1: int, y1: int, x2: int, y2: int)
    requires p > 0 && Represents(e1, x1, y1, p) && Represents(e2, x2, y2, p)
    ensures var a := JsRem((e1.y - e1.x) * (e2.y - e2.x), p);
            var b := JsRem((e1.y + e1.x) * (e2.y + e2.x), p);
            var c := JsRem(JsRem(2 * e1.t, p) * JsRem(e2.t * d, p), p);
            var k := JsRem(JsRem(2 * e1.z, p) * e2.z, p);
            Factors(p, d, e1.z * e2.z, x1, y1, x2, y2, b - a, k - c, k + c, b + a)
  {
    hide Cong, JsRem, Denominator;
    var t, W := Denominator(d, x1, y1, x2, y2), e1.z * e2.z;
    var a0, b0 := (e1.y - e1.x) * (e2.y - e2.x), (e1.y + e1.x) * (e2.y + e2.x);
    var c0, k0 := JsRem(2 * e1.t, p) * JsRem(e2.t * d, p), JsRem(2 * e1.z, p) * e2.z;
    var A, B := (y1 - x1) * (y2 - x2) * W, (y1 + x1) * (y2 + x2) * W;
    CrossSum(p, e1.x, e1.y, e1.z, e2.x, e2.y, e2.z, x1, y1, x2, y2);
    TermC(p, d, e1.t, e1.z, e2.t, e2.z, x1, y1, x2, y2);
    TermD(p, e1.z, e2.z);
    Reduced(p, a0, A);
    Reduced(p, b0, B);
    Reduced(p, c0, 2 * W * t);
    Reduced(p, k0, 2 * W);
    CongSub(JsRem(b0, p), B, JsRem(a0, p), A, p);
    CongAdd(JsRem(b0, p), B, JsRem(a0, p), A, p);
    Numerators(x1, y1, x2, y2, W);
    CongSub(JsRem(k0, p), 2 * W, JsRem(c0, p), 2 * W * t, p);
    CongAdd(JsRem(k0, p), 2 * W, JsRem(c0, p), 2 * W * t, p);
    assert 2 * W - 2 * W * t == 2 * W * (1 + -t) && 2 * W + 2 * W * t == 2 * W * (1 + t);
  }

  /** One extended addition stands for one affine addition. */
  lemma AddRepresents(p: nat, d: int, i: int, e1: Ext, e2: Ext, x1: int, y1: int, x2: int, y2: int, x: int, y: int)
    requires Setting(p, d, i) && Curve(x1, y1, d, p) && Curve(x2, y2, d, p)
    requires Represents(e1, x1, y1, p) && Represents(e2, x2, y2, p)
    requires Cong(x * (1 + Denominator(d, x1, y1, x2, y2)), x1 * y2 + x2 * y1, p)
    requires Cong(y * (1 + -Denominator(d, x1, y1, x2, y2)), y1 * y2 + x1 * x2, p)
    ensures Represents(ExtendedAdd(e1, e2, d, p), x, y, p)
  {
    hide Cong, JsRem, Denominator, Prime, NonSquare, Curve;
    var t, K := Denominator(d, x1, y1, x2, y2), 2 * (e1.z * e2.z);
    var a := JsRem((e1.y - e1.x) * (e2.y - e2.x), p);
    var b := JsRem((e1.y + e1.x) * (e2.y + e2.x), p);
    var c := JsRem(JsRem(2 * e1.t, p) * JsRem(e2.t * d, p), p);
    var k := JsRem(JsRem(2 * e1.z, p) * e2.z, p);
    var e, f, g, h := b - a, k - c, k + c, b + a;
    AddFactors(p, d, e1, e2, x1, y1, x2, y2);
    Assemble(p, K, 1 + t, 1 + -t, x1 * y2 + x2 * y1, y1 * y2 + x1 * x2, x, y, e, f, g, h);
    UnitSquare(p, d, i, x1, y1, x2, y2);
    SmallNonzero(p, 2);
    UnitProduct(p, e1.z, e2.z);
    UnitProduct(p, 2, e1.z * e2.z);
    UnitProduct(p, K, 1 + t);
    UnitProduct(p, K, 1 + -t);
    UnitCong(p, f, K * (1 + -t));
    UnitCong(p, g, K * (1 + t));
    UnitProduct(p, f, g);
    Finish(p, e, f, g, h, x, y);
  }

  lemma Finish(p: nat, e: int, f: int, g: int, h: int, x: int, y: int)
    requires p > 0 && !Cong(f * g, 0, p)
    requires Cong(e * f, x * (f * g), p) && Cong(g * h, y * (f * g), p) && Cong(e * h, x * y * (f * g), p)
    ensures Represents(Ext(JsRem(e * f, p), JsRem(g * h, p), JsRem(f * g, p), JsRem(e * h, p)), x, y, p)
  {
    hide Cong, JsRem;
    var z := JsRem(f * g, p);
    JsRemCong(f * g, p);
    UnitCong(p, z, f * g);
    Rescale(p, e * f, x, f * g, z);
    Rescale(p, g * h, y, f * g, z);
    Rescale(p, e * h, x * y, f * g, z);
  }

  lemma Rescale(p: nat, a: int, x: int, b: int, z: int)
    requires p > 0 && Cong(a, x * b, p) && Cong(z, b, p)
    ensures Cong(JsRem(a, p), x * z, p)
  {
    hide Cong, JsRem;
    CongSym(z, b, p);
    CongRefl(x, p);
    CongMul(x, x, b, z, p);
    CongTrans(a, x * b, x * z, p);
    Reduced(p, a, x * z);
  }
}
