/** RFC 3339 timestamps: the scanner, the instant a string names, and the order the chain walk reports. */
module Timestamp {
  import opened Prelude
  import opened Calendar

  function DigitOf(c: char): nat
    requires Digit(c)
  {
    c as int - '0' as int
  }

  predicate DigitsAt(s: string, i: nat, n: nat) {
    i + n <= |s| && forall k | i <= k < i + n :: Digit(s[k])
  }

  /** The date and the time of day up to the seconds. */
  predicate Head(s: string) {
    && |s| >= 20
    && DigitsAt(s, 0, 4) && s[4] == '-' && DigitsAt(s, 5, 2) && s[7] == '-' && DigitsAt(s, 8, 2)
    && (s[10] == 'T' || s[10] == 't')
    && DigitsAt(s, 11, 2) && s[13] == ':' && DigitsAt(s, 14, 2) && s[16] == ':' && DigitsAt(s, 17, 2)
  }

  /** From `i` to the end: `Z`, `z` or a numeric offset. */
  predicate Zone(s: string, i: nat) {
    || (|s| == i + 1 && (s[i] == 'Z' || s[i] == 'z'))
    || (|s| == i + 6 && (s[i] == '+' || s[i] == '-') && DigitsAt(s, i + 1, 2) && s[i + 3] == ':'
        && DigitsAt(s, i + 4, 2))
  }

  /** The pattern with `k` fraction digits, none when `k` is 0. */
  predicate Pattern(s: string, k: nat) {
    && k <= 9 && Head(s)
    && if k == 0 then Zone(s, 19) else s[19] == '.' && DigitsAt(s, 20, k) && Zone(s, 20 + k)
  }

  /** The number of digits from `i` on. */
  function DigitRun(s: string, i: nat): (n: nat)
    requires i <= |s|
    ensures DigitsAt(s, i, n) && (i + n < |s| ==> !Digit(s[i + n]))
    decreases |s| - i
  {
    if i < |s| && Digit(s[i]) then 1 + DigitRun(s, i + 1) else 0
  }

  function FractionDigits(s: string): nat {
    if |s| > 20 && s[19] == '.' then DigitRun(s, 20) else 0
  }

  predicate IsRfc3339(s: string) { Pattern(s, FractionDigits(s)) && FractionDigits(s) <= 9 }

  /** At most one reading: the fraction width in a matching string is the digit run it has. */
  lemma PatternUnique(s: string, k: nat)
    requires Pattern(s, k)
    ensures k == FractionDigits(s)
  {
    if k > 0 {
      var n := DigitRun(s, 20);
      assert !Digit(s[20 + k]);
    }
  }

  /** The scanner decides exactly the published pattern. */
  method ScanRfc3339(s: string) returns (ok: bool)
    ensures ok <==> exists k: nat :: Pattern(s, k)
  {
    ok := Scan(s);
    if ok {
      assert Pattern(s, FractionDigits(s));
    } else {
      forall k: nat | Pattern(s, k) ensures false {
        PatternUnique(s, k);
      }
    }
  }

  method Scan(s: string) returns (ok: bool)
    ensures ok == IsRfc3339(s)
  {
    var n := |s|;
    if !Head(s) { return false; }
    var i := 19;
    if s[i] == '.' {
      i := i + 1;
      var frac := 0;
      while i < n && Digit(s[i])
        invariant 20 <= i <= n && frac == i - 20
        invariant DigitRun(s, 20) == frac + DigitRun(s, i)
      {
        frac := frac + 1;
        i := i + 1;
      }
      if frac < 1 || frac > 9 { return false; }
    }
    if i >= n { return false; }
    if s[i] == 'Z' || s[i] == 'z' { return i == n - 1; }
    if s[i] != '+' && s[i] != '-' { return false; }
    if n - i != 6 { return false; }
    return DigitsAt(s, i + 1, 2) && s[i + 3] == ':' && DigitsAt(s, i + 4, 2);
  }

  function Two(s: string, i: nat): (n: nat)
    requires DigitsAt(s, i, 2)
    ensures n < 100
  {
    DigitOf(s[i]) * 10 + DigitOf(s[i + 1])
  }

  function Four(s: string, i: nat): (n: nat)
    requires DigitsAt(s, i, 4)
    ensures n < 10000
  {
    DigitOf(s[i]) * 1000 + DigitOf(s[i + 1]) * 100 + DigitOf(s[i + 2]) * 10 + DigitOf(s[i + 3])
  }

  /** The lexical form and the field ranges of section 5.6 of RFC 3339; second 60 is in range. */
  predicate IsInstant(s: string) {
    && IsRfc3339(s)
    && 1 <= Two(s, 5) <= 12 && 1 <= Two(s, 8) <= DaysInMonth(Four(s, 0), Two(s, 5))
    && Two(s, 11) <= 23 && Two(s, 14) <= 59 && Two(s, 17) <= 60
    && var n := |s|;
       (s[n - 1] == 'Z' || s[n - 1] == 'z' || (Two(s, n - 5) <= 23 && Two(s, n - 2) <= 59))
  }

  /** Signed minutes east of UTC. */
  function OffsetMinutes(s: string): int
    requires IsRfc3339(s)
  {
    var n := |s|;
    if s[n - 1] == 'Z' || s[n - 1] == 'z' then 0
    else
      var offset := Two(s, n - 5) * 60 + Two(s, n - 2);
      if s[n - 6] == '+' then offset else -offset
  }

  /** The digits from `i`, `n` of them, as a number. */
  function Number(s: string, i: nat, n: nat): nat
    requires DigitsAt(s, i, n)
  {
    if n == 0 then 0 else Number(s, i, n - 1) * 10 + DigitOf(s[i + n - 1])
  }

  /** The fractional second in nanoseconds: the written digits, scaled by the missing ones. */
  function Nanos(s: string): int
    requires IsRfc3339(s)
  {
    Number(s, 20, FractionDigits(s)) * Pow(10, 9 - FractionDigits(s))
  }

  lemma {:induction false} NumberBound(s: string, i: nat, n: nat)
    requires DigitsAt(s, i, n)
    ensures Number(s, i, n) < Pow(10, n)
  {
    if n > 0 {
      NumberBound(s, i, n - 1);
    }
  }

  lemma MulAssoc(a: int, b: int, c: int)
    ensures a * b * c == a * (b * c)
  {
  }

  lemma MulBelow(a: nat, b: nat, c: nat)
    requires a < b && c > 0
    ensures 0 <= a * c < b * c
  {
  }

  /** A fraction is less than a second. */
  lemma NanosRange(s: string)
    requires IsRfc3339(s)
    ensures 0 <= Nanos(s) < 1_000_000_000
  {
    var k := FractionDigits(s);
    NumberBound(s, 20, k);
    PowAdd(10, k, 9 - k);
    PowPositive(10, 9 - k);
    MulBelow(Number(s, 20, k), Pow(10, k), Pow(10, 9 - k));
    assert Pow(10, 9) == 1_000_000_000 by {
      assert Pow(10, 5) == 100_000;
      PowAdd(10, 5, 4);
    }
  }

  /** The two digit loops: accumulate the written digits, then pad to nine. */
  method FractionNanos(s: string) returns (value: int)
    requires IsRfc3339(s)
    ensures value == Nanos(s)
  {
    if |s| < 21 || s[19] != '.' {
      PadStep(0, 9);
      return 0;
    }
    value := 0;
    var digits, i := 0, 20;
    while i < |s| && Digit(s[i])
      invariant 20 <= i <= |s| && digits == i - 20 && digits <= FractionDigits(s)
      invariant DigitRun(s, 20) == digits + DigitRun(s, i)
      invariant value == Number(s, 20, digits)
    {
      value := value * 10 + DigitOf(s[i]);
      digits := digits + 1;
      i := i + 1;
    }
    value := Pad(value, digits);
  }

  /** Right-pads a run of `digits` digits with zeros up to nine. */
  method Pad(number: int, digits: nat) returns (value: int)
    requires digits <= 9
    ensures value == number * Pow(10, 9 - digits)
  {
    value := number;
    var n := digits;
    while n < 9
      invariant digits <= n <= 9
      invariant value == number * Pow(10, n - digits)
    {
      PadStep(number, n - digits);
      value := value * 10;
      n := n + 1;
    }
  }

  lemma PadStep(number: int, k: nat)
    ensures number * Pow(10, k) * 10 == number * Pow(10, k + 1)
    ensures 0 * Pow(10, k) == 0
  {
    MulAssoc(number, Pow(10, k), 10);
  }

  /** The fields of a timestamp that passed every range check. */
  datatype Stamp = Stamp(year: int, month: int, day: int, hour: int, minute: int, second: int, nanos: int,
                         offset: int) {
    predicate Valid() {
      && ValidDate(year, month, day)
      && 0 <= hour <= 23 && 0 <= minute <= 59 && 0 <= second <= 60
      && 0 <= nanos < 1_000_000_000
      && -1440 < offset < 1440
    }

    /** The UTC minute named, counted from a fixed origin. */
    function UtcMinute(): int {
      MarchDays(year, month, day) * 1440 + hour * 60 + minute - offset
    }

    /** The instant in nanoseconds, by the era-based day count; none for second 60. */
    function Instant(): Option<int> {
      if second > 59 then None
      else
        var local := EraDays(year, month, day) * 86400 + hour * 3600 + minute * 60 + second;
        Some((local - offset * 60) * 1_000_000_000 + nanos)
    }
  }

  function ReadStamp(s: string): (r: Option<Stamp>)
    ensures r.Some? <==> IsInstant(s)
    ensures r.Some? ==> r.value.Valid()
  {
    if !IsInstant(s) then None
    else
      NanosRange(s);
      Some(Stamp(Four(s, 0), Two(s, 5), Two(s, 8), Two(s, 11), Two(s, 14), Two(s, 17), Nanos(s), OffsetMinutes(s)))
  }

  /** The instant a string names, when it names one. */
  function Instant(s: string): Option<int> {
    match ReadStamp(s)
    case Some(t) => t.Instant()
    case None => None
  }

  // ---- order -----------------------------------------------------------------------------------

  datatype Order = InOrder | Backwards | NotComparable

  /** `b` before `a` when second 60 is a leap second, after second 59 of its own minute. */
  predicate BackAsLeap(a: Stamp, b: Stamp) {
    var ma, mb := a.UtcMinute(), b.UtcMinute();
    mb < ma || (mb == ma && (b.second < a.second || (b.second == a.second && b.nanos < a.nanos)))
  }

  /** `b` before `a` when second 60 is second 0 of the next minute. */
  predicate BackAsNextMinute(a: Stamp, b: Stamp) {
    var ea, eb := a.UtcMinute() * 60 + a.second, b.UtcMinute() * 60 + b.second;
    eb < ea || (eb == ea && b.nanos < a.nanos)
  }

  function StampOrder(a: Stamp, b: Stamp): Order {
    if BackAsLeap(a, b) && BackAsNextMinute(a, b) then Backwards
    else if BackAsLeap(a, b) != BackAsNextMinute(a, b) then NotComparable
    else InOrder
  }

  /** How the later of two consecutive timestamps compares with the earlier one. */
  function TsOrder(earlier: string, later: string): Order {
    match (ReadStamp(earlier), ReadStamp(later))
    case (Some(a), Some(b)) => StampOrder(a, b)
    case _ => NotComparable
  }

  /** Exactly when the two readings of second 60 disagree: adjacent minutes, 60 in the lower, 0 in the upper. */
  lemma NotComparableExactly(a: Stamp, b: Stamp)
    requires a.Valid() && b.Valid()
    ensures StampOrder(a, b) == NotComparable <==>
            || (b.UtcMinute() == a.UtcMinute() + 1 && a.second == 60 && b.second == 0 && b.nanos < a.nanos)
            || (a.UtcMinute() == b.UtcMinute() + 1 && b.second == 60 && a.second == 0 && b.nanos >= a.nanos)
  {
    hide Stamp.UtcMinute, ValidDate;
  }

  /** "Backwards" is a strict partial order: no timestamp precedes itself, no cycle is ever reported. */
  lemma BackwardsStrict(a: string, b: string, c: string)
    ensures TsOrder(a, a) != Backwards
    ensures !(TsOrder(a, b) == Backwards && TsOrder(b, a) == Backwards)
    ensures TsOrder(a, b) == Backwards && TsOrder(b, c) == Backwards ==> TsOrder(a, c) == Backwards
  {
    hide Stamp.UtcMinute, ReadStamp, Stamp.Valid, IsInstant;
  }

  lemma InstantFromMinute(t: Stamp)
    requires t.Valid() && t.second <= 59
    ensures t.Instant() == Some(((t.UtcMinute() - 865565 * 1440) * 60 + t.second) * 1_000_000_000 + t.nanos)
  {
    hide MarchDays, EraDays, DaysInMonth;
    FormulasAgree(t.year, t.month, t.day);
  }

  /** Away from second 60 the two day counts order timestamps alike, to the nanosecond. */
  lemma BackwardsIsEarlierInstant(a: string, b: string)
    requires Instant(a).Some? && Instant(b).Some?
    ensures TsOrder(a, b) == Backwards <==> Instant(b).value < Instant(a).value
    ensures TsOrder(a, b) == InOrder <==> Instant(a).value <= Instant(b).value
  {
    hide Stamp.UtcMinute, ReadStamp, IsInstant, ValidDate;
    InstantFromMinute(ReadStamp(a).value);
    InstantFromMinute(ReadStamp(b).value);
  }
}
