/** Proleptic Gregorian day counts: two closed formulas against one calendar. */
module Calendar {

  predicate Leap(y: int) { y % 4 == 0 && (y % 100 != 0 || y % 400 == 0) }

  /** The real length of a month; 0 for an out-of-range month, so that any day fails. */
  function DaysInMonth(y: int, m: int): nat {
    if m in {1, 3, 5, 7, 8, 10, 12} then 31
    else if m in {4, 6, 9, 11} then 30
    else if m == 2 then if Leap(y) then 29 else 28
    else 0
  }

  predicate ValidDate(y: int, m: int, d: int) {
    0 <= y && 1 <= m <= 12 && 1 <= d <= DaysInMonth(y, m)
  }

  /** Days by the March-based formula, shifted 400 years so that every term is non-negative. */
  function MarchDays(y: int, m: int, d: int): int {
    var a := y - (if m <= 2 then 1 else 0) + 400;
    var p := (m + 9) % 12;
    365 * a + a / 4 - a / 100 + a / 400 + (153 * p + 2) / 5 + d - 1
  }

  /** Days since 1970-01-01 by the formula that works in 400-year eras. */
  function EraDays(y: int, m: int, d: int): int {
    var a := y - (if m <= 2 then 1 else 0);
    var era := a / 400;
    var yoe := a - era * 400;
    var p := m + (if m > 2 then -3 else 9);
    var doy := (153 * p + 2) / 5 + d - 1;
    var doe := yoe * 365 + yoe / 4 - yoe / 100 + doy;
    era * 146097 + doe - 719468
  }

  // ---- the calendar itself, counted one year and one month at a time --------------------------

  function YearLength(y: int): nat { if Leap(y) then 366 else 365 }

  /** Days from 0000-01-01 to the first day of year `y`. */
  function YearStart(y: nat): nat {
    if y == 0 then 0 else YearStart(y - 1) + YearLength(y - 1)
  }

  /** Days from the first day of year `y` to the first day of month `m`. */
  function MonthStart(y: int, m: nat): nat {
    if m <= 1 then 0 else MonthStart(y, m - 1) + DaysInMonth(y, m - 1)
  }

  function CountedDays(y: int, m: int, d: int): int
    requires 0 <= y && 1 <= m
  {
    YearStart(y) + MonthStart(y, m) + d - 1
  }

  /** The date after a date. */
  function NextDate(y: int, m: int, d: int): (int, int, int) {
    if d < DaysInMonth(y, m) then (y, m, d + 1)
    else if m < 12 then (y, m + 1, 1)
    else (y + 1, 1, 1)
  }

  // ---- facts -----------------------------------------------------------------------------------

  /** Number of leap days in the years before `y`, as the closed formulas count them. */
  function LeapsBefore(y: nat): int { (y + 3) / 4 - (y + 99) / 100 + (y + 399) / 400 }

  lemma FoursStep(y: nat)
    ensures (y + 4) / 4 == (y + 3) / 4 + (if y % 4 == 0 then 1 else 0)
  {
  }

  lemma HundredsStep(y: nat)
    ensures (y + 100) / 100 == (y + 99) / 100 + (if y % 100 == 0 then 1 else 0)
  {
  }

  lemma FourHundredsStep(y: nat)
    ensures (y + 400) / 400 == (y + 399) / 400 + (if y % 400 == 0 then 1 else 0)
  {
  }

  lemma CenturiesAreFours(y: nat)
    ensures y % 100 == 0 ==> y % 4 == 0
    ensures y % 400 == 0 ==> y % 100 == 0
  {
    if y % 100 == 0 {
      FactorDivides(y, 4, 25, y / 100);
    }
    if y % 400 == 0 {
      FactorDivides(y, 100, 4, y / 400);
    }
  }

  lemma FactorDivides(y: nat, a: nat, b: nat, q: nat)
    requires (a == 4 || a == 100) && y == a * b * q
    ensures y % a == 0
  {
    var k := b * q;
    assert y == a * k;
  }

  lemma LeapsStep(y: nat)
    ensures LeapsBefore(y + 1) == LeapsBefore(y) + (if Leap(y) then 1 else 0)
  {
    FoursStep(y);
    HundredsStep(y);
    FourHundredsStep(y);
    CenturiesAreFours(y);
  }

  lemma {:induction false} YearStartClosed(y: nat)
    ensures YearStart(y) == 365 * y + LeapsBefore(y)
  {
    if y > 0 {
      YearStartClosed(y - 1);
      LeapsStep(y - 1);
    }
  }

  lemma {:induction false} MonthStartClosed(y: nat, m: nat)
    requires 1 <= m <= 12
    ensures m <= 2 ==> MonthStart(y, m) == 31 * (m - 1)
    ensures m > 2 ==> MonthStart(y, m) == (153 * (m - 3) + 2) / 5 + 59 + (if Leap(y) then 1 else 0)
  {
    if m > 1 {
      MonthStartClosed(y, m - 1);
    }
  }

  lemma ShiftedLeaps(y: nat)
    ensures var a := y + 399; a / 4 - a / 100 + a / 400 == LeapsBefore(y) + 96
    ensures LeapsBefore(0) == 0
  {
    assert (y + 399) / 4 == (y + 3) / 4 + 99;
    assert (y + 399) / 100 == (y + 99) / 100 + 3;
  }

  lemma MarchDaysClosed(y: nat, m: int, d: int)
    requires 1 <= m <= 12
    ensures m <= 2 ==> MarchDays(y, m, d) == 365 * y + LeapsBefore(y) + 146037 + 31 * (m - 1) + d - 1
    ensures m > 2 ==> MarchDays(y, m, d) == 365 * y + LeapsBefore(y + 1) + 146096 + (153 * (m - 3) + 2) / 5 + d - 1
  {
    hide LeapsBefore;
    if m <= 2 {
      ShiftedLeaps(y);
      assert (m + 9) % 12 == m + 9;
    } else {
      ShiftedLeaps(y + 1);
      assert (m + 9) % 12 == m - 3;
    }
  }

  /** The March-based formula counts days: it is the calendar count plus a constant. */
  lemma MarchDaysCounts(y: int, m: int, d: int)
    requires 0 <= y && 1 <= m <= 12
    ensures MarchDays(y, m, d) == CountedDays(y, m, d) + MarchDays(0, 1, 1)
  {
    hide LeapsBefore, MarchDays, Leap;
    YearStartClosed(y);
    MonthStartClosed(y, m);
    LeapsStep(y);
    MarchDaysClosed(y, m, d);
    MarchDaysClosed(0, 1, 1);
    ShiftedLeaps(0);
  }

  /** The era-based formula counts the same days from another origin. */
  lemma FormulasAgree(y: int, m: int, d: int)
    requires 0 <= y && 1 <= m <= 12
    ensures MarchDays(y, m, d) == EraDays(y, m, d) + 865565
  {
    var a := y - (if m <= 2 then 1 else 0);
    var era := a / 400;
    var yoe := a - era * 400;
    assert (a + 400) / 400 == era + 1;
    assert (a + 400) / 4 == (era + 1) * 100 + yoe / 4;
    assert (a + 400) / 100 == (era + 1) * 4 + yoe / 100;
  }

  /** Both formulas add exactly one from each date to the next, across every month, year and leap boundary. */
  lemma NextDateIsOneLater(y: int, m: int, d: int)
    requires ValidDate(y, m, d)
    ensures var n := NextDate(y, m, d);
            && ValidDate(n.0, n.1, n.2)
            && MarchDays(n.0, n.1, n.2) == MarchDays(y, m, d) + 1
            && EraDays(n.0, n.1, n.2) == EraDays(y, m, d) + 1
  {
    hide MarchDays, EraDays, Leap;
    var n := NextDate(y, m, d);
    MarchDaysCounts(y, m, d);
    MarchDaysCounts(n.0, n.1, n.2);
    FormulasAgree(y, m, d);
    FormulasAgree(n.0, n.1, n.2);
    if m == 12 {
      MonthStartClosed(y, 12);
    }
  }

  /** Chronological order of dates. */
  predicate Earlier(y: int, m: int, d: int, y': int, m': int, d': int) {
    y < y' || (y == y' && (m < m' || (m == m' && d < d')))
  }

  lemma {:induction false} YearStartGrows(y: nat, y': nat)
    requires y < y'
    ensures YearStart(y) + YearLength(y) <= YearStart(y')
    decreases y'
  {
    if y < y' - 1 {
      YearStartGrows(y, y' - 1);
    }
  }

  lemma {:induction false} MonthStartGrows(y: int, m: nat, m': nat)
    requires 1 <= m < m'
    ensures MonthStart(y, m) + DaysInMonth(y, m) <= MonthStart(y, m')
    decreases m'
  {
    if m < m' - 1 {
      MonthStartGrows(y, m, m' - 1);
    }
  }

  lemma DateWithinYear(y: nat, m: nat, d: nat)
    requires ValidDate(y, m, d)
    ensures MonthStart(y, m) + d <= YearLength(y)
  {
    MonthStartClosed(y, m);
  }

  lemma EarlierCounts(y: int, m: int, d: int, y': int, m': int, d': int)
    requires ValidDate(y, m, d) && ValidDate(y', m', d')
    requires Earlier(y, m, d, y', m', d')
    ensures CountedDays(y, m, d) < CountedDays(y', m', d')
  {
    if y < y' {
      YearStartGrows(y, y');
      DateWithinYear(y, m, d);
    } else if m < m' {
      MonthStartGrows(y, m, m');
    }
  }

  /** Earlier dates, and only those, get smaller numbers. */
  lemma MarchDaysOrder(y: int, m: int, d: int, y': int, m': int, d': int)
    requires ValidDate(y, m, d) && ValidDate(y', m', d')
    ensures Earlier(y, m, d, y', m', d') <==> MarchDays(y, m, d) < MarchDays(y', m', d')
  {
    MarchDaysCounts(y, m, d);
    MarchDaysCounts(y', m', d');
    if Earlier(y, m, d, y', m', d') {
      EarlierCounts(y, m, d, y', m', d');
    } else if Earlier(y', m', d', y, m, d) {
      EarlierCounts(y', m', d', y, m, d);
    }
  }
}
