/** Strict point decoding, its inverse, and the strict public-key rule with its bounded cache. */
module StrictKey {
  import opened Prelude
  import opened Modular
  import opened EdwardsLaw
  import opened SquareRoot
  import opened Ed25519

  // ---- little-endian integers ------------------------------------------------------------------

  function LittleEndian(b: bytes): nat {
    if b == [] then 0 else b[0] + 256 * LittleEndian(b[1..])
  }

  function ToLittleEndian(x: nat, n: nat): (b: bytes)
    ensures |b| == n
  {
    if n == 0 then [] else [x % 256] + ToLittleEndian(x / 256, n - 1)
  }

  lemma {:induction false} LittleEndianRoundTrip(b: bytes)
    ensures ToLittleEndian(LittleEndian(b), |b|) == b
  {
    if b != [] {
      var rest: nat := LittleEndian(b[1..]);
      LittleEndianRoundTrip(b[1..]);
      assert (b[0] + 256 * rest) % 256 == b[0] && (b[0] + 256 * rest) / 256 == rest;
    }
  }

  lemma {:induction false} LittleEndianReads(x: nat, n: nat)
    requires x < Pow(256, n)
    ensures LittleEndian(ToLittleEndian(x, n)) == x
  {
    if n > 0 {
      LittleEndianReads(x / 256, n - 1);
      var b := ToLittleEndian(x, n);
      assert b[1..] == ToLittleEndian(x / 256, n - 1);
    }
  }

  lemma {:induction false} LittleEndianSplit(a: bytes, c: int)
    requires 0 <= c < 256
    ensures LittleEndian(a + [c]) == LittleEndian(a) + Pow(256, |a|) * c
    ensures LittleEndian(a) < Pow(256, |a|)
  {
    if a == [] {
      assert a + [c] == [c];
    } else {
      assert (a + [c])[1..] == a[1..] + [c];
      LittleEndianSplit(a[1..], c);
      assert 256 * (Pow(256, |a| - 1) * c) == Pow(256, |a|) * c;
    }
  }

  // ---- encodings -------------------------------------------------------------------------------

  /** The sign bit's weight, 2^255. */
  const SIGN: nat := 57896044618658097711785492504343953926634992332820282019728792003956564819968

  lemma SignWeight()
    ensures Pow(256, 31) * 128 == SIGN && P < SIGN && 2 * SIGN == Pow(256, 32)
  {
    assert Pow(256, 4) == 4294967296;
    PowAdd(256, 4, 4);
    PowAdd(256, 8, 8);
    PowAdd(256, 16, 8);
    PowAdd(256, 24, 4);
    assert Pow(256, 3) == 16777216;
    PowAdd(256, 28, 3);
    assert Pow(256, 32) == 256 * Pow(256, 31);
  }

  /** 32 octets: y little-endian, with the parity of x in the top bit. */
  function EncodePoint(p: Point): (b: bytes)
    requires p.y >= 0
    ensures |b| == 32
  {
    ToLittleEndian(p.y + p.x % 2 * SIGN, 32)
  }

  ghost function DecodePoint(raw: bytes): Option<Point> {
    if |raw| != 32 then None
    else
      var negative := raw[31] >= 128;
      var y := LittleEndian(raw[..31] + [raw[31] % 128]);
      if y >= P then None
      else
        Constants();
        match Root(y, D, SQRT_M1, P)
        case None => None
        case Some(x) =>
          if x == 0 && negative then None
          else Some(Point(if (x % 2 == 1) != negative then P - x else x, y))
  }

  /** An encoding is its y and its sign. */
  lemma EncodingParts(raw: bytes)
    requires |raw| == 32
    ensures var y := LittleEndian(raw[..31] + [raw[31] % 128]);
            LittleEndian(raw) == y + (if raw[31] >= 128 then SIGN else 0) && y < SIGN
  {
    hide Pow, LittleEndian;
    var low: bytes := raw[..31];
    var top: int := raw[31];
    LittleEndianSplit(low, top);
    LittleEndianSplit(low, top % 128);
    SignWeight();
    assert raw == low + [top];
    var w := Pow(256, 31);
    if top >= 128 {
      assert w * top == w * (top % 128) + w * 128;
    }
    assert w * (top % 128) <= w * 127;
  }

  /** The encoding's low 255 bits are y and its top bit is the parity of x. */
  lemma EncodePointMeans(p: Point)
    requires InRange(p)
    ensures var b := EncodePoint(p);
            && LittleEndian(b) == p.y + p.x % 2 * SIGN
            && LittleEndian(b[..31] + [b[31] % 128]) == p.y
            && (b[31] >= 128 <==> p.x % 2 == 1)
  {
    hide LittleEndian, ToLittleEndian, Pow;
    SignWeight();
    LittleEndianReads(p.y + p.x % 2 * SIGN, 32);
    EncodingParts(EncodePoint(p));
  }

  // ---- decoding undoes encoding ----------------------------------------------------------------

  lemma CurveNegated(x: int, y: int, d: int, p: nat)
    requires Curve(x, y, d, p)
    ensures Curve(p - x, y, d, p)
  {
    hide Cong;
    var a, b, c := x * x, (p - x) * (p - x), y * y;
    NegatedSquare(x, p);
    CongRefl(c, p);
    CongRefl(d, p);
    CongRefl(1, p);
    CongSub(c, c, b, a, p);
    CongTrans(c - b, c - a, 1 + d * a * c, p);
    CongSym(b, a, p);
    CongMul(d, d, a, b, p);
    CongMul(d * a, d * b, c, c, p);
    CongAdd(1, 1, d * a * c, d * b * c, p);
    CongTrans(c - b, 1 + d * a * c, 1 + d * b * c, p);
  }

  lemma NegatedSquare(x: int, p: nat)
    ensures Cong((p - x) * (p - x), x * x, p)
  {
    CongBy((p - x) * (p - x), x * x, p, p - 2 * x);
  }

  /** Every accepted encoding yields a point in range, on the curve, that encodes back to the same octets. */
  lemma DecodeSound(raw: bytes)
    requires DecodePoint(raw).Some?
    ensures var p := DecodePoint(raw).value; InRange(p) && OnCurve(p) && EncodePoint(p) == raw
  {
    hide Curve, Cong, LittleEndian, ToLittleEndian, Root;
    var y := LittleEndian(raw[..31] + [raw[31] % 128]);
    Constants();
    RootSound(y, D, SQRT_M1, P);
    var x := Root(y, D, SQRT_M1, P).value;
    CurveNegated(x, y, D, P);
    EncodingParts(raw);
    LittleEndianRoundTrip(raw);
    assert P % 2 == 1;
    var p := DecodePoint(raw).value;
    assert p.x % 2 == (if raw[31] >= 128 then 1 else 0);
  }

  lemma RootOfPoint(p: Point)
    requires Prime(P) && InRange(p) && OnCurve(p)
    ensures P >= 5 && Root(p.y, D, SQRT_M1, P).Some?
    ensures var r := Root(p.y, D, SQRT_M1, P).value; r == p.x || (p.x != 0 && r == P - p.x)
  {
    hide Curve, Cong, Root, Prime;
    Constants();
    RootComplete(p.x, p.y, D, SQRT_M1, P);
    RootSound(p.y, D, SQRT_M1, P);
    var r := Root(p.y, D, SQRT_M1, P).value;
    CongResidue(r, p.x, P);
    CongResidue(r, -p.x, P);
    NegatedResidue(p.x, P);
  }

  lemma NegatedResidue(x: int, m: nat)
    requires 0 <= x < m
    ensures -x % m == if x == 0 then 0 else m - x
  {
  }

  /** Every curve point in range is decoded from its encoding. */
  lemma DecodeComplete(p: Point)
    requires Prime(P) && InRange(p) && OnCurve(p)
    ensures DecodePoint(EncodePoint(p)) == Some(p)
  {
    hide Curve, Cong, LittleEndian, ToLittleEndian, Root, Prime, Pow;
    EncodePointMeans(p);
    RootOfPoint(p);
    assert P % 2 == 1;
  }

  /** Strict decoding is exactly the inverse of encoding on curve points. */
  lemma DecodeExact(raw: bytes, p: Point)
    requires Prime(P)
    ensures DecodePoint(raw) == Some(p) <==> InRange(p) && OnCurve(p) && EncodePoint(p) == raw
  {
    hide DecodePoint, EncodePoint, OnCurve, Prime;
    if DecodePoint(raw) == Some(p) {
      DecodeSound(raw);
    }
    if InRange(p) && OnCurve(p) && EncodePoint(p) == raw {
      DecodeComplete(p);
    }
  }

  /** No two accepted encodings share a point. */
  lemma DecodeInjective(a: bytes, b: bytes)
    requires DecodePoint(a).Some? && DecodePoint(a) == DecodePoint(b)
    ensures a == b
  {
    hide DecodePoint, EncodePoint, OnCurve;
    DecodeSound(a);
    DecodeSound(b);
  }

  // ---- the strict-key rule ---------------------------------------------------------------------

  const SMALL_ORDER: set<string> := {
    "0100000000000000000000000000000000000000000000000000000000000000",
    "ecffffffffffffffffffffffffffffffffffffffffffffffffffffffffffff7f",
    "0000000000000000000000000000000000000000000000000000000000000000",
    "0000000000000000000000000000000000000000000000000000000000000080",
    "26e8958fc2b227b045c3f489f2ef98f0d5dfac05d3c63339b13802886d53fc05",
    "26e8958fc2b227b045c3f489f2ef98f0d5dfac05d3c63339b13802886d53fc85",
    "c7176a703d4dd84fba3c0b760d10670f2a2053fa2c39ccc64ec7fd7792ac037a",
    "c7176a703d4dd84fba3c0b760d10670f2a2053fa2c39ccc64ec7fd7792ac03fa"
  }

  /** The uncached decision on a raw public key. */
  ghost predicate StrictPublicKey(raw: bytes) {
    DecodePoint(raw).Some? && Hex(raw) !in SMALL_ORDER && InSubgroup(DecodePoint(raw).value)
  }

  /** What an accepted key is: the one encoding of an unlisted curve point whose affine L-multiple is the identity. */
  lemma StrictPublicKeyMeans(raw: bytes)
    requires FieldFacts()
    ensures StrictPublicKey(raw) <==>
            Hex(raw) !in SMALL_ORDER
            && exists p :: InRange(p) && OnCurve(p) && EncodePoint(p) == raw && ScalarMult(p, L, D, P) == Point(0, 1)
  {
    hide DecodePoint, EncodePoint, OnCurve, InSubgroup, ScalarMult, Prime, NonSquare, Hex;
    if DecodePoint(raw).Some? {
      DecodeSound(raw);
      SubgroupTestExact(DecodePoint(raw).value);
    }
    if p :| InRange(p) && OnCurve(p) && EncodePoint(p) == raw && ScalarMult(p, L, D, P) == Point(0, 1) {
      DecodeExact(raw, p);
    }
  }

  // ---- the cache -------------------------------------------------------------------------------

  const CACHE_BOUND := 4096

  ghost predicate Eligible(raw: bytes) { DecodePoint(raw).Some? && Hex(raw) !in SMALL_ORDER }

  /** The answer given when the cache is consulted first. */
  ghost predicate CachedAnswer(cache: map<string, bool>, raw: bytes) {
    Eligible(raw) && if Hex(raw) in cache then cache[Hex(raw)] else InSubgroup(DecodePoint(raw).value)
  }

  /** The cache after one call. */
  ghost function Remembered(cache: map<string, bool>, raw: bytes): map<string, bool> {
    if !Eligible(raw) || Hex(raw) in cache then cache
    else (if |cache| >= CACHE_BOUND then map[] else cache)[Hex(raw) := InSubgroup(DecodePoint(raw).value)]
  }

  ghost function AfterCalls(calls: seq<bytes>): map<string, bool> {
    if calls == [] then map[] else Remembered(AfterCalls(calls[..|calls| - 1]), calls[|calls| - 1])
  }

  /** Every entry is the uncached decision for the key it is filed under, and the bound is kept. */
  ghost predicate Sound(cache: map<string, bool>) {
    && |cache| <= CACHE_BOUND
    && forall raw: bytes :: Hex(raw) in cache
        ==> DecodePoint(raw).Some? && cache[Hex(raw)] == InSubgroup(DecodePoint(raw).value)
  }

  lemma RememberedSound(cache: map<string, bool>, raw: bytes)
    requires Sound(cache)
    ensures Sound(Remembered(cache, raw)) && CachedAnswer(cache, raw) == StrictPublicKey(raw)
  {
    hide DecodePoint, InSubgroup, Hex;
    forall other: bytes | Hex(other) == Hex(raw) ensures other == raw {
      HexInjective(other, raw);
    }
  }

  /** After any calls at all the cache is sound and the next answer is the uncached decision. */
  lemma {:induction false} CacheTransparent(calls: seq<bytes>, raw: bytes)
    ensures Sound(AfterCalls(calls)) && CachedAnswer(AfterCalls(calls), raw) == StrictPublicKey(raw)
  {
    hide CachedAnswer, StrictPublicKey, Remembered, Sound;
    if calls == [] {
      EmptySound();
    } else {
      var last := |calls| - 1;
      CacheTransparent(calls[..last], raw);
      RememberedSound(AfterCalls(calls[..last]), calls[last]);
    }
    RememberedSound(AfterCalls(calls), raw);
  }

  lemma EmptySound()
    ensures Sound(map[])
  {
  }
}
