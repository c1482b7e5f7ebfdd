/** Congruence, primes, powers and Fermat's little theorem: the arithmetic under the point code. */
module Modular {
  import opened Prelude

  // ---- congruence ------------------------------------------------------------------------------

  ghost predicate Cong(a: int, b: int, m: nat) { exists k: int :: a - b == k * m }

  lemma CongBy(a: int, b: int, m: nat, k: int)
    requires a - b == k * m
    ensures Cong(a, b, m)
  {
  }

  lemma CongRefl(a: int, m: nat)
    ensures Cong(a, a, m)
  {
    CongBy(a, a, m, 0);
  }

  lemma CongSym(a: int, b: int, m: nat)
    requires Cong(a, b, m)
    ensures Cong(b, a, m)
  {
    var k: int :| a - b == k * m;
    CongBy(b, a, m, -k);
  }

  lemma CongTrans(a: int, b: int, c: int, m: nat)
    requires Cong(a, b, m) && Cong(b, c, m)
    ensures Cong(a, c, m)
  {
    var j: int :| a - b == j * m;
    var k: int :| b - c == k * m;
    CongBy(a, c, m, j + k);
  }

  lemma CongAdd(a: int, b: int, c: int, d: int, m: nat)
    requires Cong(a, b, m) && Cong(c, d, m)
    ensures Cong(a + c, b + d, m)
  {
    var j: int :| a - b == j * m;
    var k: int :| c - d == k * m;
    CongBy(a + c, b + d, m, j + k);
  }

  lemma CongSub(a: int, b: int, c: int, d: int, m: nat)
    requires Cong(a, b, m) && Cong(c, d, m)
    ensures Cong(a - c, b - d, m)
  {
    var j: int :| a - b == j * m;
    var k: int :| c - d == k * m;
    CongBy(a - c, b - d, m, j - k);
  }

  lemma Telescope(a: int, b: int, c: int, d: int)
    ensures a * c - b * d == (a - b) * c + b * (c - d)
  {
  }

  lemma CollectMultiple(j: int, k: int, c: int, b: int, m: int)
    ensures (j * m) * c + b * (k * m) == (j * c + b * k) * m
  {
  }

  lemma CongMul(a: int, b: int, c: int, d: int, m: nat)
    requires Cong(a, b, m) && Cong(c, d, m)
    ensures Cong(a * c, b * d, m)
  {
    var j: int :| a - b == j * m;
    var k: int :| c - d == k * m;
    Telescope(a, b, c, d);
    CollectMultiple(j, k, c, b, m);
    CongBy(a * c, b * d, m, j * c + b * k);
  }

  lemma CongMod(a: int, m: nat)
    requires m > 0
    ensures Cong(a % m, a, m)
  {
    CongBy(a % m, a, m, -(a / m));
  }

  lemma SmallMultiple(d: int, m: int)
    requires -m < d * m < m
    ensures d == 0
  {
  }

  /** Residues decide congruence. */
  lemma CongResidue(a: int, b: int, m: nat)
    requires m > 0
    ensures Cong(a, b, m) <==> a % m == b % m
  {
    if Cong(a, b, m) {
      var k: int :| a - b == k * m;
      var d := a / m - b / m - k;
      assert d * m == b % m - a % m;
      SmallMultiple(d, m);
    }
    if a % m == b % m {
      CongBy(a, b, m, a / m - b / m);
    }
  }

  // ---- primes ----------------------------------------------------------------------------------

  ghost predicate Prime(p: nat): (b: bool)
    ensures b ==> p > 1
  {
     p > 1 && forall k | 1 < k < p :: p % k != 0
  }

  /** Euclid's descent: a prime dividing m*b, with 1 <= m < p, divides b. */
  lemma {:induction false} Descend(p: nat, m: nat, b: int)
    requires Prime(p) && 1 <= m < p && Cong(m * b, 0, p)
    ensures Cong(b, 0, p)
    decreases m
  {
    if m > 1 {
      var r, q := p % m, p / m;
      assert r * b == p * b - q * (m * b);
      CongBy(p * b, 0, p, b);
      CongRefl(q, p);
      CongMul(q, q, m * b, 0, p);
      CongSub(p * b, 0, q * (m * b), q * 0, p);
      Descend(p, r, b);
    }
  }

  /** A prime modulus has no zero divisors. */
  lemma Euclid(p: nat, a: int, b: int)
    requires Prime(p) && Cong(a * b, 0, p)
    ensures Cong(a, 0, p) || Cong(b, 0, p)
  {
    CongResidue(a, 0, p);
    if a % p != 0 {
      CongMod(a, p);
      CongRefl(b, p);
      CongMul(a % p, a, b, b, p);
      CongTrans(a % p * b, a * b, 0, p);
      Descend(p, a % p, b);
    }
  }

  lemma Cancel(p: nat, a: int, b: int, c: int)
    requires Prime(p) && Cong(a * b, a * c, p) && !Cong(a, 0, p)
    ensures Cong(b, c, p)
  {
    CongRefl(a * c, p);
    CongSub(a * b, a * c, a * c, a * c, p);
    assert a * b - a * c == a * (b - c);
    Euclid(p, a, b - c);
    CongRefl(c, p);
    CongAdd(b - c, 0, c, c, p);
  }

  // ---- powers ----------------------------------------------------------------------------------

  lemma {:induction false} PowMul(b: int, i: nat, j: nat)
    ensures Pow(Pow(b, i), j) == Pow(b, i * j)
  {
    if j > 0 {
      PowMul(b, i, j - 1);
      PowAdd(b, i, i * (j - 1));
      assert i + i * (j - 1) == i * j;
    } else {
      assert i * j == 0;
    }
  }

  lemma {:induction false} PowCong(a: int, b: int, e: nat, m: nat)
    requires Cong(a, b, m)
    ensures Cong(Pow(a, e), Pow(b, e), m)
  {
    if e == 0 {
      CongRefl(1, m);
    } else {
      PowCong(a, b, e - 1, m);
      CongMul(a, b, Pow(a, e - 1), Pow(b, e - 1), m);
    }
  }

  // ---- Fermat's little theorem -----------------------------------------------------------------

  ghost function Pick<T>(s: set<T>): (x: T)
    requires s != {}
    ensures x in s
  {
    var x :| x in s; x
  }

  ghost function Product(s: set<int>): int {
    if s == {} then 1 else var x := Pick(s); x * Product(s - {x})
  }

  lemma ProductPick(s: set<int>)
    requires s != {}
    ensures Product(s) == Pick(s) * Product(s - {Pick(s)})
  {
  }

  lemma Swap(x: int, y: int, r: int)
    ensures x * (y * r) == y * (x * r)
  {
  }

  lemma {:induction false} ProductSplit(s: set<int>, x: int)
    requires x in s
    ensures Product(s) == x * Product(s - {x})
    decreases s
  {
    hide Product, Pick;
    var y := Pick(s);
    ProductPick(s);
    if y != x {
      ProductSplit(s - {y}, x);
      ProductSplit(s - {x}, y);
      assert s - {y} - {x} == s - {x} - {y};
      Swap(x, y, Product(s - {y} - {x}));
    }
  }

  ghost function Range(n: nat): (s: set<int>)
    ensures forall x :: x in s <==> 1 <= x < n
    ensures |s| == if n == 0 then 0 else n - 1
  {
    if n <= 1 then {} else Range(n - 1) + {n - 1}
  }

  ghost function Scaled(a: int, s: set<int>, p: nat): set<int>
    requires p > 0
  {
    set x | x in s :: a * x % p
  }

  ghost predicate Units(s: set<int>, p: nat) { forall x | x in s :: 1 <= x < p }

  lemma ScaledUnit(p: nat, a: int, x: int)
    requires Prime(p) && !Cong(a, 0, p) && 1 <= x < p
    ensures 1 <= a * x % p < p
  {
    hide Cong, Prime;
    CongResidue(a * x, 0, p);
    CongResidue(x, 0, p);
    if a * x % p == 0 {
      Euclid(p, a, x);
    }
  }

  lemma SmallCong(x: int, y: int, m: nat)
    requires 0 <= x < m && 0 <= y < m && Cong(x, y, m)
    ensures x == y
  {
    var k: int :| x - y == k * m;
    SmallMultiple(k, m);
  }

  /** Scaling by a unit keeps distinct units apart. */
  lemma ScaledApart(p: nat, a: int, x: int, y: int)
    requires Prime(p) && !Cong(a, 0, p) && 1 <= x < p && 1 <= y < p
    requires a * x % p == a * y % p
    ensures x == y
  {
    hide Cong, Prime;
    CongResidue(a * x, a * y, p);
    Cancel(p, a, x, y);
    SmallCong(x, y, p);
  }

  lemma ScaledStep(p: nat, a: int, s: set<int>, x: int)
    requires Prime(p) && !Cong(a, 0, p) && Units(s, p) && x in s
    ensures Scaled(a, s, p) == Scaled(a, s - {x}, p) + {a * x % p}
    ensures a * x % p !in Scaled(a, s - {x}, p)
    ensures 1 <= a * x % p < p
  {
    hide Cong, Prime;
    ScaledUnit(p, a, x);
    assert Scaled(a, s, p) == Scaled(a, s - {x}, p) + {a * x % p} by {
      assert s == s - {x} + {x};
    }
    if a * x % p in Scaled(a, s - {x}, p) {
      var y :| y in s - {x} && a * y % p == a * x % p;
      ScaledApart(p, a, y, x);
    }
  }

  lemma {:induction false} ScaledProduct(p: nat, a: int, s: set<int>)
    requires Prime(p) && !Cong(a, 0, p) && Units(s, p)
    ensures Units(Scaled(a, s, p), p) && |Scaled(a, s, p)| == |s|
    ensures Cong(Product(Scaled(a, s, p)), Pow(a, |s|) * Product(s), p)
    decreases s
  {
    hide Cong, Prime, Product, Scaled;
    if s == {} {
      ScaledEmpty(p, a);
    } else {
      var x := Pick(s);
      var rest := s - {x};
      var image, ax := Scaled(a, rest, p), a * x % p;
      ScaledProduct(p, a, rest);
      ScaledStep(p, a, s, x);
      assert image + {ax} - {ax} == image;
      ProductSplit(image + {ax}, ax);
      ProductSplit(s, x);
      CongMod(a * x, p);
      CongMul(ax, a * x, Product(image), Pow(a, |rest|) * Product(rest), p);
      Regroup(a, x, Pow(a, |rest|), Product(rest));
    }
  }

  lemma ScaledEmpty(p: nat, a: int)
    requires p > 0
    ensures Scaled(a, {}, p) == {} && Product({}) == 1 && Pow(a, 0) == 1 && Cong(1, 1, p)
  {
    CongRefl(1, p);
  }

  lemma Regroup(a: int, x: int, b: int, y: int)
    ensures a * x * (b * y) == a * b * (x * y)
  {
  }

  lemma EmptyProduct()
    ensures Product({}) == 1
  {
  }

  lemma {:induction false} ProductOfUnits(p: nat, s: set<int>)
    requires Prime(p) && Units(s, p)
    ensures !Cong(Product(s), 0, p)
    decreases s
  {
    hide Cong, Prime, Product;
    if s == {} {
      EmptyProduct();
      CongResidue(1, 0, p);
    } else {
      var x := Pick(s);
      ProductSplit(s, x);
      ProductOfUnits(p, s - {x});
      CongResidue(x, 0, p);
      if Cong(Product(s), 0, p) {
        Euclid(p, x, Product(s - {x}));
      }
    }
  }

  lemma SubsetOfSameSize(a: set<int>, b: set<int>)
    requires a <= b && |a| == |b|
    ensures a == b
  {
    assert a + b == b && a * b == a && a - b == {};
    assert |b - a| + |a - b| + |a * b| == |a + b|;
    assert b - a == {};
    assert b == a + (b - a);
  }

  lemma Fermat(p: nat, a: int)
    requires Prime(p) && !Cong(a, 0, p)
    ensures Cong(Pow(a, p - 1), 1, p)
  {
    hide Pow, Cong, Prime, Product, Scaled;
    var s := Range(p);
    ScaledProduct(p, a, s);
    SubsetOfSameSize(Scaled(a, s, p), s);
    ProductOfUnits(p, s);
    CongSym(Product(s), Pow(a, p - 1) * Product(s), p);
    Cancel(p, Product(s), Pow(a, p - 1), 1);
  }

  /** The inverse the source computes. */
  lemma FermatInverse(p: nat, a: int)
    requires Prime(p) && !Cong(a, 0, p)
    ensures Cong(a * Pow(a, p - 2), 1, p)
  {
    Fermat(p, a);
    assert Pow(a, p - 1) == a * Pow(a, p - 2);
  }
}
