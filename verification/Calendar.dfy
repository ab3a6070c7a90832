/** Julian-day arithmetic of base/Date.cc.

    The code's `int` division truncates toward zero, so it is written out as `TruncDiv`.
    The reference is the proleptic Gregorian calendar itself: month lengths, the leap rule and
    the successor of a date. */
module Calendar {

  /** C++ `a / b` for a positive divisor. */
  function TruncDiv(a: int, b: int): int
    requires b > 0
  {
    if a >= 0 then a / b else -((-a) / b)
  }

  /** C++ `a % b` for a positive divisor: the sign follows the dividend. */
  function TruncMod(a: int, b: int): int
    requires b > 0
  {
    a - b * TruncDiv(a, b)
  }

  const INT_MIN := -0x8000_0000
  const INT_MAX := 0x7fff_ffff

  predicate FitsInt(x: int) {
    INT_MIN <= x <= INT_MAX
  }

  datatype YearMonthDay = YearMonthDay(year: int, month: int, day: int)

  // ---------------------------------------------------------------- the code

  function GetJulianDayNumber(year: int, month: int, day: int): int {
    var a := TruncDiv(14 - month, 12);
    var y := year + 4800 - a;
    var m := month + 12 * a - 3;
    day + TruncDiv(153 * m + 2, 5) + y * 365 + TruncDiv(y, 4) - TruncDiv(y, 100) + TruncDiv(y, 400) - 32045
  }

  function GetYearMonthDay(julianDayNumber: int): YearMonthDay {
    var a := julianDayNumber + 32044;
    var b := TruncDiv(4 * a + 3, 146097);
    var c := a - TruncDiv(b * 146097, 4);
    var d := TruncDiv(4 * c + 3, 1461);
    var e := c - TruncDiv(1461 * d, 4);
    var m := TruncDiv(5 * e + 2, 153);
    YearMonthDay(b * 100 + d - 4800 + TruncDiv(m, 10),
                 m + 3 - 12 * TruncDiv(m, 10),
                 e - TruncDiv(153 * m + 2, 5) + 1)
  }

  function DayNumber(date: YearMonthDay): int {
    GetJulianDayNumber(date.year, date.month, date.day)
  }

  const FIRST_DAY := -32044
  const LAST_DAY := 536838867
  const JULIAN_DAY_OF_1970_01_01 := 2440588

  // ---------------------------------------------------------------- the reference calendar

  predicate IsLeap(year: int) {
    year % 4 == 0 && (year % 100 != 0 || year % 400 == 0)
  }

  function DaysInMonth(year: int, month: int): int {
    if month == 2 then (if IsLeap(year) then 29 else 28)
    else if month in {4, 6, 9, 11} then 30
    else 31
  }

  predicate IsDate(date: YearMonthDay) {
    1 <= date.month <= 12 && 1 <= date.day <= DaysInMonth(date.year, date.month)
  }

  /** The calendar day after `date`. */
  function NextDay(date: YearMonthDay): YearMonthDay {
    if date.day < DaysInMonth(date.year, date.month) then date.(day := date.day + 1)
    else if date.month < 12 then YearMonthDay(date.year, date.month + 1, 1)
    else YearMonthDay(date.year + 1, 1, 1)
  }

  /** Not before 1 March 4801 BC, day 0 of the shifted count the code uses. */
  predicate InRange(date: YearMonthDay) {
    date.year > -4800 || (date.year == -4800 && date.month >= 3)
  }

  // ---------------------------------------------------------------- years that start in March

  /** Days before the shifted year `y`, whose first month is March. */
  function YearStart(y: nat): int {
    365 * y + y / 4 - y / 100 + y / 400
  }

  /** Days before shifted month `m` (0 is March). */
  function MonthStart(m: nat): int {
    (153 * m + 2) / 5
  }

  function ShiftedYear(date: YearMonthDay): int {
    date.year + 4800 - (if date.month <= 2 then 1 else 0)
  }

  function ShiftedMonth(date: YearMonthDay): int {
    date.month + (if date.month <= 2 then 9 else -3)
  }

  function DayOfYear(date: YearMonthDay): int
    requires 0 <= ShiftedMonth(date)
  {
    MonthStart(ShiftedMonth(date)) + date.day - 1
  }

  lemma ShiftedForm(date: YearMonthDay)
    requires IsDate(date)
    ensures 0 <= ShiftedMonth(date) <= 11
    ensures InRange(date) <==> ShiftedYear(date) >= 0
    ensures InRange(date) ==> DayNumber(date) == YearStart(ShiftedYear(date)) + DayOfYear(date) - 32044
  {
    assert TruncDiv(14 - date.month, 12) == if date.month <= 2 then 1 else 0;
  }

  lemma DayOfYearBounds(date: YearMonthDay)
    requires IsDate(date)
    ensures 0 <= DayOfYear(date) <= 365
    ensures DayOfYear(date) == 365 ==> IsLeap(ShiftedYear(date) - 4800 + 1)
    ensures (5 * DayOfYear(date) + 2) / 153 == ShiftedMonth(date)
  {
  }

  lemma SplitYear(b: nat, d: nat)
    requires d <= 99
    ensures YearStart(100 * b + d) == (146097 * b) / 4 + (1461 * d) / 4
    ensures 4 * ((146097 * b) / 4) == 146097 * b - b % 4
    ensures 4 * ((1461 * d) / 4) == 1461 * d - d % 4
  {
    assert (100 * b + d) / 4 == 25 * b + d / 4;
    assert (100 * b + d) / 100 == b;
    assert (100 * b + d) / 400 == b / 4;
  }

  lemma {:induction false} CenturyLeaps(b: nat)
    ensures IsLeap(100 * (b + 1)) <==> b % 4 == 3
  {
    var q, r := b / 4, b % 4;
    assert 100 * (b + 1) == 400 * q + 100 * (r + 1);
  }

  lemma {:induction false} YearLeaps(b: nat, d: nat)
    requires d < 99
    ensures IsLeap(100 * b + d + 1) <==> d % 4 == 3
  {
    var y := 100 * b + d + 1;
    assert y % 100 == d + 1;
    assert y == 4 * (25 * b) + (d + 1) && y % 4 == (d + 1) % 4;
  }

  lemma LeapOfSplit(b: nat, d: nat)
    requires d <= 99
    ensures IsLeap(100 * b + d + 1) <==> if d == 99 then b % 4 == 3 else d % 4 == 3
  {
    if d == 99 {
      CenturyLeaps(b);
      assert 100 * b + d + 1 == 100 * (b + 1);
    } else {
      YearLeaps(b, d);
    }
  }

  lemma {:induction false} Shift4(y: int)
    ensures (y - 4800) % 4 == y % 4
  {
  }

  lemma {:induction false} Shift100(y: int)
    ensures (y - 4800) % 100 == y % 100
  {
  }

  lemma {:induction false} Shift400(y: int)
    ensures (y - 4800) % 400 == y % 400
  {
  }

  lemma {:induction false} LeapShift(y: int)
    ensures IsLeap(y - 4800) <==> IsLeap(y)
  {
    Shift4(y);
    Shift100(y);
    Shift400(y);
  }

  // ---------------------------------------------------------------- each function inverts the other

  /** The decomposition the code computes is the unique one with century `b`, year `d` and day `e`. */
  lemma DecomposeUnique(b: nat, d: nat, e: nat)
    requires d <= 99 && e <= 365 && (e == 365 ==> IsLeap(100 * b + d + 1))
    ensures var a := YearStart(100 * b + d) + e;
            var c := a - (146097 * b) / 4;
            (4 * a + 3) / 146097 == b && c >= 0 && (4 * c + 3) / 1461 == d && c - (1461 * d) / 4 == e
  {
    SplitYear(b, d);
    LeapOfSplit(b, d);
    var c := (1461 * d) / 4 + e;
    assert 1461 * d <= 4 * c + 3 < 1461 * (d + 1);
    var n := 4 * ((146097 * b) / 4 + c) + 3;
    assert 146097 * b <= n < 146097 * (b + 1);
  }

  /** Day `e` of shifted year `y` as a calendar date. */
  function DateOf(y: int, e: nat): YearMonthDay {
    var m := (5 * e + 2) / 153;
    YearMonthDay(y - 4800 + m / 10, m + 3 - 12 * (m / 10), e - MonthStart(m) + 1)
  }

  lemma CodeOnParts(a: nat, b: nat, d: nat, e: nat)
    requires (4 * a + 3) / 146097 == b && a - (146097 * b) / 4 >= 0
    requires (4 * (a - (146097 * b) / 4) + 3) / 1461 == d && a - (146097 * b) / 4 - (1461 * d) / 4 == e
    ensures GetYearMonthDay(a - 32044) == DateOf(100 * b + d, e)
  {
  }

  lemma CodeOnDecomposition(b: nat, d: nat, e: nat)
    requires d <= 99 && e <= 365 && (e == 365 ==> IsLeap(100 * b + d + 1))
    ensures GetYearMonthDay(YearStart(100 * b + d) + e - 32044) == DateOf(100 * b + d, e)
  {
    hide GetYearMonthDay, DateOf, IsLeap, YearStart;
    DecomposeUnique(b, d, e);
    CodeOnParts(YearStart(100 * b + d) + e, b, d, e);
  }

  lemma CodeOnYear(y: nat, e: nat)
    requires e <= 365 && (e == 365 ==> IsLeap(y + 1))
    ensures GetYearMonthDay(YearStart(y) + e - 32044) == DateOf(y, e)
  {
    hide *;
    assert y == 100 * (y / 100) + y % 100;
    CodeOnDecomposition(y / 100, y % 100, e);
  }

  lemma DateOfShifted(date: YearMonthDay)
    requires IsDate(date)
    ensures DayOfYear(date) >= 0 && DateOf(ShiftedYear(date), DayOfYear(date)) == date
  {
    DayOfYearBounds(date);
  }

  lemma ShiftedFacts(date: YearMonthDay)
    requires IsDate(date) && InRange(date)
    ensures 0 <= ShiftedYear(date)
    ensures 0 <= DayOfYear(date) <= 365
    ensures DayOfYear(date) == 365 ==> IsLeap(ShiftedYear(date) + 1)
    ensures DateOf(ShiftedYear(date), DayOfYear(date)) == date
  {
    DateOfShifted(date);
    DayOfYearBounds(date);
    LeapShift(ShiftedYear(date) + 1);
  }

  lemma DateOfDayNumber(date: YearMonthDay)
    requires IsDate(date) && InRange(date)
    ensures GetYearMonthDay(DayNumber(date)) == date
  {
    hide GetYearMonthDay, DayNumber, IsDate, IsLeap, YearStart, DateOf;
    ShiftedForm(date);
    ShiftedFacts(date);
    CodeOnYear(ShiftedYear(date), DayOfYear(date));
  }

  /** Every calendar date from -4800-03-01 on is recovered from its day number, and no earlier one is. */
  lemma DateRoundTrip(date: YearMonthDay)
    requires IsDate(date)
    ensures GetYearMonthDay(DayNumber(date)) == date <==> InRange(date)
  {
    hide *;
    if InRange(date) {
      DateOfDayNumber(date);
    } else {
      DayNumberRoundTrip(DayNumber(date));
    }
  }

  lemma {:induction false} Century(a: nat)
    ensures var b := (4 * a + 3) / 146097;
            var c := a - (146097 * b) / 4;
            0 <= c <= 36524 && (c == 36524 ==> b % 4 == 3)
  {
    var b := (4 * a + 3) / 146097;
    assert 146097 * b <= 4 * a + 3 < 146097 * b + 146097;
    assert 4 * ((146097 * b) / 4) == 146097 * b - b % 4;
  }

  lemma {:induction false} YearOfCentury(c: nat)
    requires c <= 36524
    ensures var d := (4 * c + 3) / 1461;
            var e := c - (1461 * d) / 4;
            d <= 99 && 0 <= e <= 365 && (e == 365 ==> d % 4 == 3) && (d == 99 && e == 365 ==> c == 36524)
  {
    var d := (4 * c + 3) / 1461;
    assert 1461 * d <= 4 * c + 3 < 1461 * d + 1461;
    assert 4 * ((1461 * d) / 4) == 1461 * d - d % 4;
  }

  /** The code's decomposition of a non-negative shifted day count. */
  lemma Decompose(a: nat) returns (b: nat, d: nat, e: nat)
    ensures b == (4 * a + 3) / 146097
    ensures d == (4 * (a - (146097 * b) / 4) + 3) / 1461
    ensures d <= 99 && e <= 365 && (e == 365 ==> IsLeap(100 * b + d + 1))
    ensures e == a - (146097 * b) / 4 - (1461 * d) / 4
    ensures a == YearStart(100 * b + d) + e
  {
    hide IsLeap, YearStart;
    b := (4 * a + 3) / 146097;
    Century(a);
    var c := a - (146097 * b) / 4;
    d := (4 * c + 3) / 1461;
    YearOfCentury(c);
    e := c - (1461 * d) / 4;
    SplitYear(b, d);
    LeapOfSplit(b, d);
  }

  /** Which shifted month a day of the year falls into. */
  lemma {:induction false} MonthOf(e: nat)
    requires e <= 365
    ensures var m := (5 * e + 2) / 153; m <= 11 && MonthStart(m) <= e < MonthStart(m + 1)
  {
    var m := (5 * e + 2) / 153;
    assert 153 * m <= 5 * e + 2 < 153 * m + 153;
  }

  lemma {:induction false} MonthLength(year: int, m: nat)
    requires m <= 11
    ensures var month := m + 3 - 12 * (m / 10);
            1 <= month <= 12 && (month <= 2 <==> m >= 10) && (m == 11 <==> month == 2)
            && (m < 11 ==> DaysInMonth(year, month) == MonthStart(m + 1) - MonthStart(m))
            && (m == 11 ==> DaysInMonth(year, month) == (if IsLeap(year) then 29 else 28) && MonthStart(m) == 337)
  {
  }

  lemma DateOfIsDate(y: nat, e: nat)
    requires e <= 365 && (e == 365 ==> IsLeap(y + 1))
    ensures IsDate(DateOf(y, e)) && InRange(DateOf(y, e))
    ensures ShiftedYear(DateOf(y, e)) == y && DayOfYear(DateOf(y, e)) == e
  {
    hide IsLeap, MonthStart, DaysInMonth;
    LeapShift(y + 1);
    MonthOf(e);
    var m := (5 * e + 2) / 153;
    assert m / 10 == if m >= 10 then 1 else 0;
    MonthLength(DateOf(y, e).year, m);
  }

  lemma DayNumberOfDate(j: int)
    requires j >= FIRST_DAY
    ensures IsDate(GetYearMonthDay(j)) && InRange(GetYearMonthDay(j)) && DayNumber(GetYearMonthDay(j)) == j
  {
    hide GetYearMonthDay, DayNumber, IsDate, IsLeap, YearStart, DateOf;
    var b, d, e := Decompose(j + 32044);
    var y := 100 * b + d;
    CodeOnYear(y, e);
    DateOfIsDate(y, e);
    ShiftedForm(DateOf(y, e));
  }

  /** Every day number from -32044 on is recovered from its date, which is a calendar date; below that the
      code never produces a calendar date at all. */
  lemma DayNumberRoundTrip(j: int)
    ensures IsDate(GetYearMonthDay(j)) <==> j >= FIRST_DAY
    ensures j >= FIRST_DAY ==> InRange(GetYearMonthDay(j)) && DayNumber(GetYearMonthDay(j)) == j
  {
    hide GetYearMonthDay, GetJulianDayNumber;
    if j >= FIRST_DAY {
      DayNumberOfDate(j);
    } else {
      BelowFirstDay(-(j + 32044));
    }
  }

  /** With truncating division every remainder of a negative count is negative, so the day comes out below 1. */
  lemma BelowFirstDay(n: int)
    requires n >= 1
    ensures GetYearMonthDay(-n - 32044).day <= 0
  {
    var b := (4 * n - 3) / 146097;
    var c := n - (146097 * b) / 4;
    assert c >= 1;
    var d := (4 * c - 3) / 1461;
    var e := c - (1461 * d) / 4;
    assert e >= 1;
    var m := (5 * e - 2) / 153;
    assert TruncDiv(-(153 * m) + 2, 5) >= -((153 * m) / 5);
  }

  lemma EpochDay()
    ensures GetJulianDayNumber(1970, 1, 1) == JULIAN_DAY_OF_1970_01_01
    ensures GetJulianDayNumber(-4800, 3, 1) == FIRST_DAY
  {
  }

  // ---------------------------------------------------------------- consecutive days

  lemma NextDayIsDate(date: YearMonthDay)
    requires IsDate(date) && InRange(date)
    ensures IsDate(NextDay(date)) && InRange(NextDay(date))
    ensures if date.month == 2 && NextDay(date).month == 3
            then ShiftedYear(NextDay(date)) == ShiftedYear(date) + 1
                 && DayOfYear(NextDay(date)) == 0 && date.day == DaysInMonth(date.year, 2)
            else ShiftedYear(NextDay(date)) == ShiftedYear(date)
                 && DayOfYear(NextDay(date)) == DayOfYear(date) + 1
  {
  }

  /** Consecutive calendar days have consecutive day numbers: the code counts days. */
  lemma NextDayAddsOne(date: YearMonthDay)
    requires IsDate(date) && InRange(date)
    ensures IsDate(NextDay(date)) && InRange(NextDay(date))
    ensures DayNumber(NextDay(date)) == DayNumber(date) + 1
  {
    hide *;
    NextDayIsDate(date);
    ShiftedForm(date);
    ShiftedForm(NextDay(date));
    if date.month == 2 && NextDay(date).month == 3 {
      NewYear(date);
    }
  }

  lemma NewYear(date: YearMonthDay)
    requires IsDate(date) && InRange(date) && date.month == 2 && date.day == DaysInMonth(date.year, 2)
    ensures ShiftedYear(date) >= 0
    ensures YearStart(ShiftedYear(date) + 1) == YearStart(ShiftedYear(date)) + DayOfYear(date) + 1
  {
    hide YearStart, IsLeap;
    var y := ShiftedYear(date);
    YearLength(y);
    LeapShift(y + 1);
  }

  lemma YearLength(y: nat)
    ensures YearStart(y + 1) == YearStart(y) + (if IsLeap(y + 1) then 366 else 365)
  {
    StepQuotient(y, 4);
    StepQuotient(y, 100);
    StepQuotient(y, 400);
  }

  lemma StepQuotient(y: nat, k: nat)
    requires k in {4, 100, 400}
    ensures (y + 1) / k == y / k + (if (y + 1) % k == 0 then 1 else 0)
  {
  }

  // ---------------------------------------------------------------- 32-bit range

  /** All intermediate values of `GetYearMonthDay` on a day number in range. */
  predicate NoOverflow(j: int) {
    var a := j + 32044;
    var b := TruncDiv(4 * a + 3, 146097);
    var c := a - TruncDiv(b * 146097, 4);
    var d := TruncDiv(4 * c + 3, 1461);
    var e := c - TruncDiv(1461 * d, 4);
    var m := TruncDiv(5 * e + 2, 153);
    && FitsInt(a) && FitsInt(4 * a + 3) && FitsInt(b * 146097) && FitsInt(c) && FitsInt(4 * c + 3)
    && FitsInt(1461 * d) && FitsInt(e) && FitsInt(5 * e + 2) && FitsInt(153 * m + 2)
    && FitsInt(b * 100 + d - 4800 + TruncDiv(m, 10))
  }

  /** From day -32044 on, no intermediate value leaves 32 bits exactly up to day 536838867. */
  lemma OverflowBound(j: int)
    requires j >= FIRST_DAY
    ensures NoOverflow(j) <==> j <= LAST_DAY
  {
    if j <= LAST_DAY {
      var b, d, e := Decompose(j + 32044);
    }
  }

  /** All intermediate values of `GetJulianDayNumber`, the sum from left to right. */
  predicate DateFits(date: YearMonthDay) {
    var a := TruncDiv(14 - date.month, 12);
    var y := date.year + 4800 - a;
    var m := date.month + 12 * a - 3;
    var days := date.day + TruncDiv(153 * m + 2, 5);
    && FitsInt(date.year + 4800) && FitsInt(y) && FitsInt(153 * m + 2) && FitsInt(y * 365) && FitsInt(days)
    && FitsInt(days + y * 365) && FitsInt(days + y * 365 + TruncDiv(y, 4))
    && FitsInt(days + y * 365 + TruncDiv(y, 4) - TruncDiv(y, 100))
    && FitsInt(days + y * 365 + TruncDiv(y, 4) - TruncDiv(y, 100) + TruncDiv(y, 400))
    && FitsInt(DayNumber(date))
  }

  lemma YearsFit(date: YearMonthDay)
    requires 1 <= date.month <= 12 && 1 <= date.day <= 31 && 0 <= ShiftedYear(date) <= 2_000_000
    ensures DateFits(date)
  {
    assert TruncDiv(14 - date.month, 12) == if date.month <= 2 then 1 else 0;
  }

  lemma DayOfMonth(date: YearMonthDay)
    requires IsDate(date)
    ensures 1 <= date.month <= 12 && 1 <= date.day <= 31
  {
  }

  lemma YearsPass(y: nat)
    ensures YearStart(y) >= 365 * y
  {
    assert y / 100 <= y / 4;
  }

  /** Both conversions stay within 32 bits, and undo each other, for all dates up to that of day 536838867. */
  lemma RoundTripWithoutOverflow(date: YearMonthDay)
    requires IsDate(date) && InRange(date) && DayNumber(date) <= LAST_DAY
    ensures DateFits(date) && NoOverflow(DayNumber(date)) && GetYearMonthDay(DayNumber(date)) == date
  {
    hide DateFits, NoOverflow, GetYearMonthDay, DayNumber, YearStart, IsDate, DayOfYear;
    ShiftedForm(date);
    ShiftedFacts(date);
    YearsPass(ShiftedYear(date));
    DayOfMonth(date);
    YearsFit(date);
    DateOfDayNumber(date);
    DayNumberRoundTrip(DayNumber(date));
    assert DayNumber(date) >= FIRST_DAY;
    OverflowBound(DayNumber(date));
  }
}
