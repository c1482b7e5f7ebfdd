/** Recovering x from y on the curve (section 5.1.3 of RFC 8032), over any prime p with p % 8 == 5. */
module SquareRoot {
  import opened Prelude
  import opened Modular
  import opened EdwardsLaw

  ghost function U(y: int, p: nat): int
    requires p > 0
  {
    (y * y - 1) % p
  }

  ghost function V(y: int, d: int, p: nat): int
    requires p > 0
  {
    (d * (y * y) + 1) % p
  }

  ghost function Candidate(u: int, v: int, p: nat): int
    requires p >= 5
  {
    u * Pow(v, 3) * Pow(u * Pow(v, 7), (p - 5) / 8) % p
  }

  /** A root x in range with x^2 (d y^2 + 1) = y^2 - 1, by the one candidate power and sqrt(-1). */
  ghost function Root(y: int, d: int, i: int, p: nat): Option<int>
    requires p >= 5
  {
    var u, v := U(y, p), V(y, d, p);
    var x := Candidate(u, v, p);
    if v * (x * x) % p == u then Some(x)
    else if v * (x * x) % p == -u % p then Some(x * i % p)
    else None
  }

  /** v x^2 = u is the curve equation. */
  lemma RootEquation(x: int, y: int, d: int, p: nat)
    requires p > 0
    ensures Cong(V(y, d, p) * (x * x), U(y, p), p) <==> Curve(x, y, d, p)
  {
    hide Cong;
    var u, v, u', v' := y * y - 1, d * (y * y) + 1, U(y, p), V(y, d, p);
    CongMod(u, p);
    CongMod(v, p);
    CongRefl(x * x, p);
    CongMul(v', v, x * x, x * x, p);
    assert v * (x * x) == d * (x * x) * (y * y) + x * x;
    var c := d * (x * x) * (y * y);
    CongRefl(x * x - 1, p);
    if Cong(v' * (x * x), u', p) {
      CongTrans(v' * (x * x), u', u, p);
      CongSym(v' * (x * x), v * (x * x), p);
      CongTrans(v * (x * x), v' * (x * x), u, p);
      CongSub(c + x * x, u, x * x - 1, x * x - 1, p);
      CongSym(1 + c, y * y - x * x, p);
    }
    if Curve(x, y, d, p) {
      CongAdd(y * y - x * x, 1 + c, x * x - 1, x * x - 1, p);
      CongSym(u, v * (x * x), p);
      CongTrans(v' * (x * x), v * (x * x), u, p);
      CongSym(u', u, p);
      CongTrans(v' * (x * x), u, u', p);
    }
  }

  /** Every root found is in range and on the curve. */
  lemma RootSound(y: int, d: int, i: int, p: nat)
    requires p >= 5 && Cong(i * i, -1, p) && Root(y, d, i, p).Some?
    ensures 0 <= Root(y, d, i, p).value < p && Curve(Root(y, d, i, p).value, y, d, p)
  {
    hide Cong, Curve, Candidate, U, V;
    var u, v := U(y, p), V(y, d, p);
    var x := Candidate(u, v, p);
    ResidueOfU(y, p);
    if v * (x * x) % p == u {
      CongResidue(v * (x * x), u, p);
      RootEquation(x, y, d, p);
    } else {
      CongResidue(v * (x * x), -u, p);
      TurnedRoot(x, i, v, u, p);
      RootEquation(x * i % p, y, d, p);
    }
  }

  lemma ResidueOfU(y: int, p: nat)
    requires p >= 5
    ensures 0 <= U(y, p) < p && U(y, p) % p == U(y, p)
    ensures forall u, v: int :: 0 <= Candidate(u, v, p) < p
  {
  }

  lemma TurnedRoot(x: int, i: int, v: int, u: int, p: nat)
    requires p > 0 && Cong(i * i, -1, p) && Cong(v * (x * x), -u, p)
    ensures Cong(v * ((x * i % p) * (x * i % p)), u, p)
  {
    hide Cong;
    var r := x * i % p;
    CongMod(x * i, p);
    CongMul(r, x * i, r, x * i, p);
    CongRefl(v, p);
    CongMul(v, v, r * r, (x * i) * (x * i), p);
    SquareOfProduct(x, i);
    CongMul(v * (x * x), -u, i * i, -1, p);
    assert v * ((x * x) * (i * i)) == v * (x * x) * (i * i) && -u * -1 == u;
    CongTrans(v * (r * r), v * (x * x) * (i * i), u, p);
  }

  // ---- completeness ----------------------------------------------------------------------------

  lemma PowTwo(a: int)
    ensures Pow(a, 2) == a * a
  {
    assert Pow(a, 1) == a * Pow(a, 0);
    assert Pow(a, 2) == a * Pow(a, 1);
  }

  /** v c^2 = u (u v^7)^((p-1)/4) for the candidate c. */
  lemma CandidateSquare(u: int, v: int, p: nat)
    requires p >= 5 && p % 8 == 5
    ensures Cong(v * (Candidate(u, v, p) * Candidate(u, v, p)), u * Pow(u * Pow(v, 7), (p - 1) / 4), p)
  {
    hide Cong, Pow, Candidate;
    var e := (p - 5) / 8;
    var a, b := u * Pow(v, 3), u * Pow(v, 7);
    var c, c' := Candidate(u, v, p), a * Pow(b, e);
    assert Cong(c, c', p) by { CandidateCong(u, v, p); }
    CongMul(c, c', c, c', p);
    CongRefl(v, p);
    CongMul(v, v, c * c, c' * c', p);
    SquareOfProduct(a, Pow(b, e));
    PowAdd(b, e, e);
    assert Pow(b, e) * Pow(b, e) == Pow(b, 2 * e);
    CubeSquare(u, v);
    assert v * (c' * c') == u * (b * Pow(b, 2 * e)) by {
      FourWay(v, a * a, Pow(b, 2 * e), u, b);
    }
    PowAdd(b, 1, 2 * e);
    PowFirst(b);
    assert (p - 1) / 4 == 1 + 2 * e;
  }

  lemma CandidateCong(u: int, v: int, p: nat)
    requires p >= 5
    ensures Cong(Candidate(u, v, p), u * Pow(v, 3) * Pow(u * Pow(v, 7), (p - 5) / 8), p)
  {
    hide Cong, Pow;
    CongMod(u * Pow(v, 3) * Pow(u * Pow(v, 7), (p - 5) / 8), p);
  }

  lemma PowFirst(b: int)
    ensures Pow(b, 1) == b
  {
    assert Pow(b, 1) == b * Pow(b, 0);
  }

  lemma FourWay(v: int, s: int, q: int, u: int, b: int)
    requires v * s == u * b
    ensures v * (s * q) == u * (b * q)
  {
    assert v * (s * q) == (v * s) * q;
    assert u * (b * q) == (u * b) * q;
  }

  lemma CubeSquare(u: int, v: int)
    ensures v * ((u * Pow(v, 3)) * (u * Pow(v, 3))) == u * (u * Pow(v, 7))
  {
    hide Pow;
    SquareOfProduct(u, Pow(v, 3));
    PowAdd(v, 3, 3);
    PowAdd(v, 1, 6);
    PowFirst(v);
    assert v * ((u * u) * Pow(v, 6)) == (u * u) * (v * Pow(v, 6));
    assert (u * u) * Pow(v, 7) == u * (u * Pow(v, 7));
  }

  /** Half the Fermat exponent gives 1 or -1. */
  lemma HalfPower(p: nat, z: int)
    requires Prime(p) && p % 8 == 5 && !Cong(z, 0, p)
    ensures Cong(Pow(z, (p - 1) / 2), 1, p) || Cong(Pow(z, (p - 1) / 2), -1, p)
  {
    hide Cong, Pow, Prime;
    var h := Pow(z, (p - 1) / 2);
    Fermat(p, z);
    PowAdd(z, (p - 1) / 2, (p - 1) / 2);
    CongRefl(1, p);
    CongSub(h * h, 1, 1, 1, p);
    assert (h - 1) * (h + 1) == h * h - 1;
    Euclid(p, h - 1, h + 1);
    if Cong(h - 1, 0, p) {
      CongAdd(h - 1, 0, 1, 1, p);
    } else {
      CongSub(h + 1, 0, 1, 1, p);
    }
  }

  lemma EighthPower(v: int, x: int, k: nat)
    ensures Pow((v * (x * x)) * Pow(v, 7), k) == Pow(Pow(v, 4) * x, 2 * k)
  {
    hide Pow;
    var z := Pow(v, 4) * x;
    PowMul(z, 2, k);
    PowTwo(z);
    SquareOfProduct(Pow(v, 4), x);
    PowAdd(v, 4, 4);
    PowAdd(v, 1, 7);
    PowFirst(v);
    assert (v * (x * x)) * Pow(v, 7) == (v * Pow(v, 7)) * (x * x);
  }

  /** On a curve point's y the candidate squares to u or -u. */
  lemma CandidateWorks(x: int, y: int, d: int, p: nat)
    requires Prime(p) && p % 8 == 5 && Curve(x, y, d, p) && !Cong(V(y, d, p), 0, p)
    ensures var u, v := U(y, p), V(y, d, p); var c := Candidate(u, v, p);
            Cong(v * (c * c), u, p) || Cong(v * (c * c), -u, p)
  {
    hide Cong, Pow, Prime, Curve, U, V, Candidate;
    var u, v := U(y, p), V(y, d, p);
    var c, k := Candidate(u, v, p), (p - 1) / 4;
    RootEquation(x, y, d, p);
    CandidateSquare(u, v, p);
    CongRefl(Pow(v, 7), p);
    CongSym(v * (x * x), u, p);
    CongMul(u, v * (x * x), Pow(v, 7), Pow(v, 7), p);
    PowCong(u * Pow(v, 7), (v * (x * x)) * Pow(v, 7), k, p);
    EighthPower(v, x, k);
    var z := Pow(v, 4) * x;
    var q, r := Pow(u * Pow(v, 7), k), Pow(z, 2 * k);
    CongRefl(u, p);
    CongMul(u, u, q, r, p);
    CongTrans(v * (c * c), u * q, u * r, p);
    if Cong(z, 0, p) {
      ZeroCase(p, u, v, x, r);
      CongTrans(v * (c * c), u * r, 0, p);
      CongSym(u, 0, p);
      CongTrans(v * (c * c), 0, u, p);
    } else {
      assert 2 * k == (p - 1) / 2;
      HalfPower(p, z);
      if Cong(r, 1, p) {
        CongMul(u, u, r, 1, p);
        CongTrans(v * (c * c), u * r, u, p);
      } else {
        CongMul(u, u, r, -1, p);
        CongTrans(v * (c * c), u * r, -u, p);
      }
    }
  }

  lemma ZeroCase(p: nat, u: int, v: int, x: int, r: int)
    requires Prime(p) && !Cong(v, 0, p) && Cong(Pow(v, 4) * x, 0, p) && Cong(u, v * (x * x), p)
    ensures Cong(u, 0, p) && Cong(u * r, 0, p)
  {
    hide Cong, Prime;
    PowUnit(p, v, 4);
    Euclid(p, Pow(v, 4), x);
    CongRefl(v, p);
    CongMul(x, 0, x, 0, p);
    CongMul(v, v, x * x, 0, p);
    CongTrans(u, v * (x * x), 0, p);
    CongRefl(r, p);
    CongMul(u, 0, r, r, p);
  }

  lemma {:induction false} PowUnit(p: nat, v: int, n: nat)
    requires Prime(p) && !Cong(v, 0, p)
    ensures !Cong(Pow(v, n), 0, p)
  {
    hide Cong, Prime;
    if n == 0 {
      CongResidue(1, 0, p);
    } else {
      PowUnit(p, v, n - 1);
      if Cong(Pow(v, n), 0, p) {
        Euclid(p, v, Pow(v, n - 1));
      }
    }
  }

  /** v vanishes at no curve point, unless d = -1. */
  lemma VIsUnit(x: int, y: int, d: int, p: nat)
    requires Prime(p) && Curve(x, y, d, p) && !Cong(d, -1, p)
    ensures !Cong(V(y, d, p), 0, p)
  {
    hide Cong, Prime, Curve;
    var u, v := U(y, p), V(y, d, p);
    if Cong(v, 0, p) {
      RootEquation(x, y, d, p);
      CongRefl(x * x, p);
      CongMul(v, 0, x * x, x * x, p);
      CongSym(v * (x * x), u, p);
      CongTrans(u, v * (x * x), 0, p);
      CongMod(y * y - 1, p);
      CongMod(d * (y * y) + 1, p);
      CongSym(u, y * y - 1, p);
      CongSym(v, d * (y * y) + 1, p);
      CongTrans(y * y - 1, u, 0, p);
      CongTrans(d * (y * y) + 1, v, 0, p);
      CongRefl(d, p);
      CongRefl(-1, p);
      CongMul(d, d, y * y - 1, 0, p);
      CongSub(d * (y * y) + 1, 0, d * (y * y - 1), d * 0, p);
      assert d * (y * y) + 1 - d * (y * y - 1) == d + 1;
      CongAdd(d + 1, 0, -1, -1, p);
    }
  }

  /** The root exists for every curve point, and is that point's x up to sign. */
  lemma RootComplete(x: int, y: int, d: int, i: int, p: nat)
    requires Prime(p) && p % 8 == 5 && p >= 5 && Cong(i * i, -1, p) && Curve(x, y, d, p) && !Cong(d, -1, p)
    ensures Root(y, d, i, p).Some?
    ensures Cong(Root(y, d, i, p).value, x, p) || Cong(Root(y, d, i, p).value, -x, p)
  {
    hide Cong, Pow, Prime, Curve, U, V, Candidate;
    var u, v := U(y, p), V(y, d, p);
    var c := Candidate(u, v, p);
    VIsUnit(x, y, d, p);
    CandidateWorks(x, y, d, p);
    ResidueOfU(y, p);
    CongResidue(v * (c * c), u, p);
    CongResidue(v * (c * c), -u, p);
    RootSound(y, d, i, p);
    SameUpToSign(p, Root(y, d, i, p).value, x, y, d);
  }

  lemma SameUpToSign(p: nat, r: int, x: int, y: int, d: int)
    requires Prime(p) && Curve(r, y, d, p) && Curve(x, y, d, p) && !Cong(V(y, d, p), 0, p)
    ensures Cong(r, x, p) || Cong(r, -x, p)
  {
    hide Cong, Prime, Curve, U, V;
    var u, v := U(y, p), V(y, d, p);
    RootEquation(r, y, d, p);
    RootEquation(x, y, d, p);
    CongSym(v * (x * x), u, p);
    CongTrans(v * (r * r), u, v * (x * x), p);
    Cancel(p, v, r * r, x * x);
    CongRefl(x * x, p);
    CongSub(r * r, x * x, x * x, x * x, p);
    assert r * r - x * x == (r - x) * (r + x);
    Euclid(p, r - x, r + x);
    CongRefl(x, p);
    if Cong(r - x, 0, p) {
      CongAdd(r - x, 0, x, x, p);
    } else {
      CongSub(r + x, 0, x, x, p);
    }
  }
}
