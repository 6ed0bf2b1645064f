/** Day counts as civil dates (src/rpc/mev.rs, `civil_from_days`). */
module Calendar {

  datatype Date = Date(year: int, month: int, day: int)

  // ----- the Gregorian calendar by its leap rule -----

  predicate IsLeap(year: int) {
    year % 4 == 0 && (year % 100 != 0 || year % 400 == 0)
  }

  function MonthLength(year: int, month: int): int {
    if month == 2 then (if IsLeap(year) then 29 else 28)
    else if month == 4 || month == 6 || month == 9 || month == 11 then 30
    else 31
  }

  predicate IsDate(d: Date) {
    1 <= d.month <= 12 && 1 <= d.day <= MonthLength(d.year, d.month)
  }

  function NextDay(d: Date): Date {
    if d.day < MonthLength(d.year, d.month) then d.(day := d.day + 1)
    else if d.month < 12 then Date(d.year, d.month + 1, 1)
    else Date(d.year + 1, 1, 1)
  }

  predicate Before(a: Date, b: Date) {
    || a.year < b.year
    || (a.year == b.year && (a.month < b.month || (a.month == b.month && a.day < b.day)))
  }

  // ----- the algorithm -----

  const EPOCH_OFFSET := 719_468
  const ERA_DAYS := 146_097

  /** Division that truncates toward zero, as the source's integers do. */
  function TruncatingDiv(a: int, b: int): int
    requires b > 0
  {
    if a >= 0 then a / b else -((-a) / b)
  }

  function YearOfEra(doe: nat): int {
    (doe - doe / 1460 + doe / 36_524 - doe / 146_096) / 365
  }

  function FirstDayOfYear(yoe: int): int {
    365 * yoe + yoe / 4 - yoe / 100
  }

  function Era(z: int): int {
    TruncatingDiv(if z >= 0 then z else z - 146_096, ERA_DAYS)
  }

  lemma EraBounds(z: int)
    ensures 0 <= z - Era(z) * ERA_DAYS < ERA_DAYS
  {
  }

  /** `days` counts from 1970-01-01; years run from March inside the algorithm. */
  function CivilFromDays(days: int): Date {
    var z := days + EPOCH_OFFSET;
    var era := Era(z);
    EraBounds(z);
    var doe := z - era * ERA_DAYS;
    var yoe := YearOfEra(doe);
    var y := yoe + era * 400;
    var doy := doe - FirstDayOfYear(yoe);
    FromMarch(y, doy)
  }

  /** The date of a day counted from March the first. */
  function FromMarch(y: int, doy: int): Date {
    var mp := (5 * doy + 2) / 153;
    var day := doy - (153 * mp + 2) / 5 + 1;
    var month := if mp < 10 then mp + 3 else mp - 9;
    Date(if month <= 2 then y + 1 else y, month, day)
  }

  // ----- which March year a day lies in -----

  /** The day number of March the first, by the leap rule. */
  function MarchFirst(y: int): int {
    365 * y + y / 4 - y / 100 + y / 400
  }

  lemma MarchYearLength(y: int)
    ensures MarchFirst(y + 1) - MarchFirst(y) == if IsLeap(y + 1) then 366 else 365
  {
    LeapDays(y + 1);
  }

  /** Of the three leap terms of a year exactly the leap day is left. */
  lemma LeapDays(y: int)
    ensures (y / 4 - y / 100 + y / 400) - ((y - 1) / 4 - (y - 1) / 100 + (y - 1) / 400) == if IsLeap(y) then 1 else 0
  {
    FourYears(y);
    Century(y);
    FourCenturies(y);
    CenturyIsFourth(y);
    FourCenturiesAreCentury(y);
  }

  lemma CenturyIsFourth(y: int)
    ensures y % 100 == 0 ==> y % 4 == 0
  {
    if y % 100 == 0 {
      assert y == 4 * (25 * (y / 100));
    }
  }

  lemma FourCenturiesAreCentury(y: int)
    ensures y % 400 == 0 ==> y % 100 == 0
  {
    if y % 400 == 0 {
      assert y == 100 * (4 * (y / 400));
    }
  }

  /** A day of the era as century, four-year cycle, year and day. */
  lemma SplitDayOfEra(doe: nat) returns (c: int, q: int, yr: int, d: int)
    requires doe < ERA_DAYS
    ensures doe == 36_524 * c + 1461 * q + 365 * yr + d
    ensures 0 <= c <= 3 && 0 <= q <= 24 && 0 <= yr <= 3 && 0 <= d
    ensures d <= 364 || (d == 365 && yr == 3 && (q < 24 || c == 3))
  {
    c := if doe / 36_524 <= 3 then doe / 36_524 else 3;
    var r := doe - 36_524 * c;
    q := r / 1461;
    var r2 := r - 1461 * q;
    yr := if r2 / 365 <= 3 then r2 / 365 else 3;
    d := r2 - 365 * yr;
  }

  lemma YearOfSplit(doe: nat, c: int, q: int, yr: int, d: int)
    requires doe == 36_524 * c + 1461 * q + 365 * yr + d
    requires 0 <= c <= 3 && 0 <= q <= 24 && 0 <= yr <= 3 && 0 <= d
    requires d <= 364 || (d == 365 && yr == 3 && (q < 24 || c == 3))
    ensures YearOfEra(doe) == 100 * c + 4 * q + yr
    ensures FirstDayOfYear(100 * c + 4 * q + yr) == doe - d
  {
    var low := 24 * c + q + 365 * yr + d;
    var e := if low >= 1460 then 1 else 0;
    assert doe == 1460 * (25 * c + q + e) + (low - 1460 * e);
    assert doe / 1460 == 25 * c + q + e;
    var last := if doe == 146_096 then 1 else 0;
    assert doe / 36_524 == c + last && doe / 146_096 == last;
    var y := 100 * c + 4 * q + yr;
    assert doe - doe / 1460 + doe / 36_524 - doe / 146_096 == 365 * y + (d - e);
    assert y / 4 == 25 * c + q && y / 100 == c;
  }

  lemma EraShift(yoe: int, era: int)
    requires 0 <= yoe < 400
    ensures MarchFirst(yoe + era * 400) == era * ERA_DAYS + FirstDayOfYear(yoe)
  {
    var y := yoe + era * 400;
    assert y / 4 == yoe / 4 + 100 * era;
    assert y / 100 == yoe / 100 + 4 * era;
  }

  lemma Mod4Repeats(y: int, era: int)
    ensures (y + era * 400) % 4 == y % 4
  {
    assert y + era * 400 == 4 * (y / 4 + 100 * era) + y % 4;
  }

  lemma Mod100Repeats(y: int, era: int)
    ensures (y + era * 400) % 100 == y % 100
  {
    assert y + era * 400 == 100 * (y / 100 + 4 * era) + y % 100;
  }

  lemma Mod400Repeats(y: int, era: int)
    ensures (y + era * 400) % 400 == y % 400
  {
    assert y + era * 400 == 400 * (y / 400 + era) + y % 400;
  }

  lemma LeapRepeats(year: int, era: int)
    ensures IsLeap(year + era * 400) == IsLeap(year)
  {
    Mod4Repeats(year, era);
    Mod100Repeats(year, era);
    Mod400Repeats(year, era);
  }

  /** The algorithm finds the March year that holds the day. */
  lemma MarchYear(days: int) returns (y: int, doy: int)
    ensures days + EPOCH_OFFSET == MarchFirst(y) + doy
    ensures 0 <= doy < MarchFirst(y + 1) - MarchFirst(y)
    ensures CivilFromDays(days) == FromMarch(y, doy)
  {
    hide MarchFirst, FromMarch, Era, YearOfEra, FirstDayOfYear;
    var z := days + EPOCH_OFFSET;
    EraBounds(z);
    var era := Era(z);
    var doe := z - era * ERA_DAYS;
    var c, q, yr, d := SplitDayOfEra(doe);
    YearOfSplit(doe, c, q, yr, d);
    var yoe := 100 * c + 4 * q + yr;
    y, doy := yoe + era * 400, d;
    EraShift(yoe, era);
    LeapRepeats(yoe + 1, era);
    MarchYearLength(y);
    assert d == 365 ==> IsLeap(yoe + 1);
  }

  // ----- walking through a March year -----

  lemma DayInsideMarchYear(y: int, doy: int)
    requires 0 <= doy && doy + 1 < (if IsLeap(y + 1) then 366 else 365)
    ensures IsDate(FromMarch(y, doy))
    ensures FromMarch(y, doy + 1) == NextDay(FromMarch(y, doy))
  {
  }

  lemma LastDayOfMarchYear(y: int, doy: int)
    requires doy + 1 == if IsLeap(y + 1) then 366 else 365
    ensures IsDate(FromMarch(y, doy))
    ensures FromMarch(y + 1, 0) == NextDay(FromMarch(y, doy))
  {
  }

  lemma MarchFirstMonotone(a: int, b: int)
    requires a < b
    ensures MarchFirst(a) < MarchFirst(b)
  {
  }

  /** Each day's date is valid, and the next day's date follows it by the leap rule. */
  lemma CivilSuccessor(days: int)
    ensures IsDate(CivilFromDays(days))
    ensures CivilFromDays(days + 1) == NextDay(CivilFromDays(days))
  {
    hide MarchFirst, FromMarch, CivilFromDays, NextDay, IsDate;
    var y, doy := MarchYear(days);
    var y', doy' := MarchYear(days + 1);
    MarchYearLength(y);
    if doy + 1 < MarchFirst(y + 1) - MarchFirst(y) {
      SameMarchYear(y, doy + 1, y', doy');
      DayInsideMarchYear(y, doy);
    } else {
      MarchYearLength(y + 1);
      SameMarchYear(y + 1, 0, y', doy');
      LastDayOfMarchYear(y, doy);
    }
  }

  lemma SameMarchYear(a: int, d: int, b: int, e: int)
    requires MarchFirst(a) + d == MarchFirst(b) + e
    requires 0 <= d < MarchFirst(a + 1) - MarchFirst(a) && 0 <= e < MarchFirst(b + 1) - MarchFirst(b)
    ensures a == b && d == e
  {
    hide MarchFirst;
    if a < b {
      if a + 1 < b { MarchFirstMonotone(a + 1, b); }
    } else if b < a {
      if b + 1 < a { MarchFirstMonotone(b + 1, a); }
    }
  }

  // ----- an independent count of days -----

  function DaysBeforeYear(year: int): int {
    365 * (year - 1) + (year - 1) / 4 - (year - 1) / 100 + (year - 1) / 400
  }

  function DaysBeforeMonth(year: int, month: int): int {
    if month <= 1 then 0 else DaysBeforeMonth(year, month - 1) + MonthLength(year, month - 1)
  }

  /** Days since 1970-01-01, counted over whole years and months. */
  function DayNumber(d: Date): int {
    DaysBeforeYear(d.year) + DaysBeforeMonth(d.year, d.month) + d.day - 719_163
  }

  lemma YearLength(year: int)
    ensures DaysBeforeYear(year + 1) - DaysBeforeYear(year) == if IsLeap(year) then 366 else 365
    ensures DaysBeforeMonth(year, 13) == if IsLeap(year) then 366 else 365
  {
    hide DaysBeforeMonth;
    LeapDays(year);
    MonthsSum(year);
  }

  lemma FourYears(y: int)
    ensures y / 4 == (y - 1) / 4 + (if y % 4 == 0 then 1 else 0)
  {
  }

  lemma Century(y: int)
    ensures y / 100 == (y - 1) / 100 + (if y % 100 == 0 then 1 else 0)
  {
  }

  lemma FourCenturies(y: int)
    ensures y / 400 == (y - 1) / 400 + (if y % 400 == 0 then 1 else 0)
  {
  }

  lemma MonthsSum(year: int)
    ensures DaysBeforeMonth(year, 13) == 337 + MonthLength(year, 2)
  {
    hide IsLeap;
    assert DaysBeforeMonth(year, 2) == 31;
    assert DaysBeforeMonth(year, 3) == 31 + MonthLength(year, 2);
    assert DaysBeforeMonth(year, 5) == DaysBeforeMonth(year, 3) + 61;
    assert DaysBeforeMonth(year, 7) == DaysBeforeMonth(year, 5) + 61;
    assert DaysBeforeMonth(year, 9) == DaysBeforeMonth(year, 7) + 62;
    assert DaysBeforeMonth(year, 11) == DaysBeforeMonth(year, 9) + 61;
  }

  lemma NextDayNumber(d: Date)
    requires IsDate(d)
    ensures DayNumber(NextDay(d)) == DayNumber(d) + 1
  {
    YearLength(d.year);
  }

  lemma {:induction false} MonthsMonotone(year: int, m: int, n: int)
    requires 1 <= m < n <= 13
    ensures DaysBeforeMonth(year, m) + MonthLength(year, m) <= DaysBeforeMonth(year, n)
    decreases n
  {
    if m + 1 < n {
      MonthsMonotone(year, m, n - 1);
    }
  }

  lemma YearsMonotone(a: int, b: int)
    requires a <= b
    ensures DaysBeforeYear(a) <= DaysBeforeYear(b)
  {
  }

  /** The count follows the order of the dates. */
  lemma DayNumberMonotone(a: Date, b: Date)
    requires IsDate(a) && IsDate(b) && Before(a, b)
    ensures DayNumber(a) < DayNumber(b)
  {
    hide DaysBeforeYear, DaysBeforeMonth, MonthLength;
    if a.year < b.year {
      YearLength(a.year);
      MonthsMonotone(a.year, a.month, 13);
      YearsMonotone(a.year + 1, b.year);
      if b.month > 1 {
        FirstMonthStartsTheYear(b.year, b.month);
      }
      FirstMonthStartsTheYear(b.year, 1);
    } else if a.month < b.month {
      MonthsMonotone(a.year, a.month, b.month);
    }
  }

  lemma {:induction false} FirstMonthStartsTheYear(year: int, month: int)
    requires month >= 1
    ensures DaysBeforeMonth(year, month) >= 0
  {
    if month > 1 {
      FirstMonthStartsTheYear(year, month - 1);
    }
  }

  /** The algorithm inverts the count on every day ... */
  lemma {:induction false} CivilInvertsDayNumber(days: int)
    ensures DayNumber(CivilFromDays(days)) == days
    decreases if days < 0 then -days else days
  {
    if days == 0 {
      assert CivilFromDays(0) == Date(1970, 1, 1);
    } else {
      hide CivilFromDays, DayNumber, NextDay, IsDate;
      var before := if days > 0 then days - 1 else days;
      CivilInvertsDayNumber(if days > 0 then days - 1 else days + 1);
      CivilSuccessor(before);
      NextDayNumber(CivilFromDays(before));
    }
  }

  /** ... and on every date. */
  lemma DayNumberInvertsCivil(d: Date)
    requires IsDate(d)
    ensures CivilFromDays(DayNumber(d)) == d
  {
    hide CivilFromDays, DayNumber, IsDate;
    var e := CivilFromDays(DayNumber(d));
    CivilInvertsDayNumber(DayNumber(d));
    CivilSuccessor(DayNumber(d));
    if Before(d, e) {
      DayNumberMonotone(d, e);
    } else if Before(e, d) {
      DayNumberMonotone(e, d);
    }
  }

  /** Later days have later dates, so no two days share one. */
  lemma CivilOrder(a: int, b: int)
    ensures a < b <==> Before(CivilFromDays(a), CivilFromDays(b))
    ensures a == b <==> CivilFromDays(a) == CivilFromDays(b)
  {
    hide CivilFromDays, DayNumber, IsDate, NextDay;
    var d, e := CivilFromDays(a), CivilFromDays(b);
    CivilInvertsDayNumber(a);
    CivilInvertsDayNumber(b);
    CivilSuccessor(a);
    CivilSuccessor(b);
    if Before(d, e) {
      DayNumberMonotone(d, e);
    } else if Before(e, d) {
      DayNumberMonotone(e, d);
    }
  }
}
