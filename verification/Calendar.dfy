/** Day counting in the proleptic Gregorian calendar. */
module Calendar {
  import opened Bytes

  // ---- the calendar itself ----

  datatype Date = Date(year: int, month: int, day: int)

  predicate IsLeap(year: int) {
    year % 4 == 0 && (year % 100 != 0 || year % 400 == 0)
  }

  function DaysInMonth(year: int, month: int): int {
    if month == 2 then (if IsLeap(year) then 29 else 28)
    else if month == 4 || month == 6 || month == 9 || month == 11 then 30
    else 31
  }

  predicate ValidDate(d: Date) {
    1 <= d.month <= 12 && 1 <= d.day <= DaysInMonth(d.year, d.month)
  }

  const EPOCH := Date(1970, 1, 1)

  /** The day after. */
  function Next(d: Date): (n: Date)
    requires ValidDate(d)
    ensures ValidDate(n)
  {
    if d.day < DaysInMonth(d.year, d.month) then Date(d.year, d.month, d.day + 1)
    else if d.month < 12 then Date(d.year, d.month + 1, 1)
    else Date(d.year + 1, 1, 1)
  }

  /** The day before. */
  function Previous(d: Date): (p: Date)
    requires ValidDate(d)
    ensures ValidDate(p) && Next(p) == d
  {
    if d.day > 1 then Date(d.year, d.month, d.day - 1)
    else if d.month > 1 then Date(d.year, d.month - 1, DaysInMonth(d.year, d.month - 1))
    else Date(d.year - 1, 12, 31)
  }

  ghost predicate Before(a: Date, b: Date) {
    a.year < b.year || (a.year == b.year && (a.month < b.month || (a.month == b.month && a.day < b.day)))
  }

  // ---- the code ----

  /** Unsigned 32-bit arithmetic wraps. */
  function Wrap(x: int): u32 {
    x % TWO32
  }

  /** Division of a signed integer truncates toward zero. */
  function TruncatedQuotient(a: int, b: nat): int
    requires b > 0
  {
    if a >= 0 then a / b else -((-a) / b)
  }

  function DaysFromCivil(year: int, m: u32, d: u32): int {
    var y := if m <= 2 then year - 1 else year;
    var era := TruncatedQuotient(if y >= 0 then y else y - 399, 400);
    var yoe := Wrap(y - era * 400);
    var doy := Wrap(Wrap(153 * Wrap(m + (if m > 2 then -3 else 9)) + 2) / 5 + d - 1);
    var doe := Wrap(yoe * 365 + yoe / 4 - yoe / 100 + doy);
    era * 146097 + doe - 719468
  }

  function Days(d: Date): int
    requires ValidDate(d)
  {
    DaysFromCivil(d.year, d.month, d.day)
  }

  /** The month's place in a year that starts in March. */
  function Rank(m: int): int {
    if m > 2 then m - 3 else m + 9
  }

  /** Days of the March-based year before the month of a rank. */
  function RankStart(rank: int): int {
    (153 * rank + 2) / 5
  }

  function MonthStart(m: int): int {
    RankStart(Rank(m))
  }

  function ShiftedYear(d: Date): int {
    if d.month <= 2 then d.year - 1 else d.year
  }

  /** The leap-year rule as a sum. */
  function LeapDays(y: int): int {
    y / 4 - y / 100 + y / 400
  }

  lemma WrapSmall(x: int)
    requires 0 <= x < TWO32
    ensures Wrap(x) == x
  {}

  /** Each month starts where the one before it ends; February, which can vary, comes last. */
  lemma MonthLengths(year: int, m: int)
    requires 1 <= m <= 12 && m != 2
    ensures RankStart(Rank(m) + 1) == MonthStart(m) + DaysInMonth(year, m)
  {
    hide IsLeap;
  }

  lemma RankBounds(rank: int)
    requires 0 <= rank <= 11
    ensures RankStart(0) == 0 && 0 <= RankStart(rank) <= 337 && RankStart(11) == 337
  {}

  lemma NoWrapInDayOfYear(m: u32, d: u32)
    requires 1 <= m <= 12 && 1 <= d <= 31
    ensures Wrap(Wrap(153 * Wrap(m + (if m > 2 then -3 else 9)) + 2) / 5 + d - 1) == MonthStart(m) + d - 1
    ensures 0 <= MonthStart(m) + d - 1 <= 367
  {
    var mp := if m > 2 then m - 3 else m + 9;
    WrapSmall(mp);
    WrapSmall(153 * mp + 2);
    RankBounds(mp);
    WrapSmall(MonthStart(m) + d - 1);
    hide Wrap;
  }

  lemma EraIsFloor(y: int)
    ensures TruncatedQuotient(if y >= 0 then y else y - 399, 400) == y / 400
    ensures Wrap(y - y / 400 * 400) == y % 400
  {}

  lemma LeapDaysByEra(y: int)
    ensures LeapDays(y) == 97 * (y / 400) + y % 400 / 4 - y % 400 / 100
  {
    var era, yoe := y / 400, y % 400;
    assert y == 400 * era + yoe;
    assert y / 4 == 100 * era + yoe / 4;
    assert y / 100 == 4 * era + yoe / 100;
  }

  ghost function Count(d: Date): int {
    365 * ShiftedYear(d) + LeapDays(ShiftedYear(d)) + MonthStart(d.month) + d.day - 719469
  }

  /** On a valid date no intermediate value wraps, and the count is the familiar closed form. */
  lemma ClosedForm(d: Date)
    requires ValidDate(d)
    ensures Days(d) == Count(d)
  {
    var y := ShiftedYear(d);
    var yoe := y % 400;
    NoWrapInDayOfYear(d.month, d.day);
    EraIsFloor(y);
    LeapDaysByEra(y);
    DayOfEraBound(yoe, MonthStart(d.month) + d.day - 1);
    hide MonthStart, LeapDays, TruncatedQuotient, Wrap, DaysInMonth;
  }

  lemma DayOfEraBound(yoe: int, doy: int)
    requires 0 <= yoe < 400 && 0 <= doy <= 367
    ensures Wrap(yoe * 365 + yoe / 4 - yoe / 100 + doy) == yoe * 365 + yoe / 4 - yoe / 100 + doy
  {
    WrapSmall(yoe * 365 + yoe / 4 - yoe / 100 + doy);
    hide Wrap;
  }

  /** A quotient goes up by one exactly at the multiples. */
  lemma QuotientStep(y: int, d: int)
    requires d > 1
    ensures y / d - (y - 1) / d == if y % d == 0 then 1 else 0
  {
    var q, r := y / d, y % d;
    if r == 0 {
      assert y - 1 == d * (q - 1) + (d - 1);
      QuotientUnique(y - 1, d, q - 1, d - 1);
    } else {
      assert y - 1 == d * q + (r - 1);
      QuotientUnique(y - 1, d, q, r - 1);
    }
  }

  lemma CenturiesAreFourths(y: int)
    ensures y % 100 == 0 ==> y % 4 == 0
    ensures y % 400 == 0 ==> y % 100 == 0
  {
    if y % 100 == 0 {
      assert y == 4 * (25 * (y / 100));
      QuotientUnique(y, 4, 25 * (y / 100), 0);
    }
    if y % 400 == 0 {
      assert y == 100 * (4 * (y / 400));
      QuotientUnique(y, 100, 4 * (y / 400), 0);
    }
  }

  lemma LeapDaysStep(y: int)
    ensures LeapDays(y) - LeapDays(y - 1) == if IsLeap(y) then 1 else 0
  {
    QuotientStep(y, 4);
    QuotientStep(y, 100);
    QuotientStep(y, 400);
    CenturiesAreFourths(y);
  }

  /** The next day is the next number. */
  lemma NextIsSuccessor(d: Date)
    requires ValidDate(d)
    ensures Days(Next(d)) == Days(d) + 1
  {
    hide Days, Count, Next, DaysInMonth, ValidDate;
    NextIsValid(d);
    ClosedForm(d);
    ClosedForm(Next(d));
    if d.day == DaysInMonth(d.year, d.month) {
      MonthEnds(d);
    } else {
      MonthGoesOn(d);
    }
  }

  lemma NextIsValid(d: Date)
    requires ValidDate(d)
    ensures ValidDate(Next(d))
  {}

  lemma MonthGoesOn(d: Date)
    requires ValidDate(d) && d.day != DaysInMonth(d.year, d.month)
    ensures Count(Next(d)) == Count(d) + 1
  {
    hide LeapDays, RankStart, IsLeap, DaysInMonth;
  }

  lemma MonthEnds(d: Date)
    requires ValidDate(d) && d.day == DaysInMonth(d.year, d.month)
    ensures Count(Next(d)) == Count(d) + 1
  {
    hide LeapDays, RankStart, IsLeap;
    if d.month == 2 {
      LeapDaysStep(d.year);
      RankBounds(0);
    } else {
      MonthLengths(d.year, d.month);
      assert Rank(Next(d).month) == Rank(d.month) + 1 && ShiftedYear(Next(d)) == ShiftedYear(d);
    }
  }

  lemma EpochIsZero()
    ensures ValidDate(EPOCH) && Days(EPOCH) == 0
  {
    hide Days;
    ClosedForm(EPOCH);
  }

  // ---- it is the day count of the calendar ----

  /** The calendar's own count: walk the days one by one from the epoch. */
  ghost function Walk(n: int): (d: Date)
    ensures ValidDate(d)
    decreases if n >= 0 then n else -n
  {
    if n == 0 then EPOCH
    else if n > 0 then Next(Walk(n - 1))
    else Previous(Walk(n + 1))
  }

  lemma {:induction false} WalkIsCounted(n: int)
    ensures Days(Walk(n)) == n
    decreases if n >= 0 then n else -n
  {
    hide Days, Next, Previous;
    if n == 0 {
      EpochIsZero();
    } else if n > 0 {
      WalkIsCounted(n - 1);
      NextIsSuccessor(Walk(n - 1));
    } else {
      WalkIsCounted(n + 1);
      NextIsSuccessor(Walk(n));
    }
  }

  lemma {:induction false} LeapDaysGrow(y: int, z: int)
    requires y <= z
    ensures LeapDays(y) <= LeapDays(z)
    decreases z - y
  {
    if y < z {
      LeapDaysGrow(y, z - 1);
      LeapDaysStep(z);
      hide LeapDays;
    }
  }

  /** From the end of one month to the start of a later one of the same March-based year. */
  lemma MonthsInOrder(year: int, m: int, n: int)
    requires 1 <= m <= 12 && 1 <= n <= 12 && Rank(m) < Rank(n)
    ensures MonthStart(m) + DaysInMonth(year, m) <= MonthStart(n)
  {
    MonthLengths(year, m);
    assert RankStart(Rank(m) + 1) <= RankStart(Rank(n));
    hide DaysInMonth;
  }

  /** A March-based year has 365 days, or 366 when its February is long. */
  lemma WithinShiftedYear(d: Date)
    requires ValidDate(d)
    ensures MonthStart(d.month) + d.day <= 365 + (if IsLeap(ShiftedYear(d) + 1) then 1 else 0)
  {
    RankBounds(0);
    hide IsLeap, RankStart;
    if d.month != 2 {
      MonthsInOrder(d.year, d.month, 2);
    }
  }

  /** Later dates have larger numbers. */
  lemma OrderIsKept(a: Date, b: Date)
    requires ValidDate(a) && ValidDate(b) && Before(a, b)
    ensures Days(a) < Days(b)
  {
    ClosedForm(a);
    ClosedForm(b);
    hide Days, Count, DaysInMonth, RankStart;
    if ShiftedYear(a) < ShiftedYear(b) {
      YearsInOrder(a, b);
    } else {
      SameYearInOrder(a, b);
    }
  }

  lemma YearsInOrder(a: Date, b: Date)
    requires ValidDate(a) && ValidDate(b) && ShiftedYear(a) < ShiftedYear(b)
    ensures Count(a) < Count(b)
  {
    LeapDaysGrow(ShiftedYear(a) + 1, ShiftedYear(b));
    LeapDaysStep(ShiftedYear(a) + 1);
    WithinShiftedYear(a);
    StartIsNotNegative(b.month);
    hide MonthStart, LeapDays, IsLeap, DaysInMonth;
  }

  lemma SameYearInOrder(a: Date, b: Date)
    requires ValidDate(a) && ValidDate(b) && ShiftedYear(a) == ShiftedYear(b)
    requires Rank(a.month) < Rank(b.month) || (a.month == b.month && a.day < b.day)
    ensures Count(a) < Count(b)
  {
    if a.month != b.month {
      MonthsInOrder(a.year, a.month, b.month);
    }
    hide MonthStart, LeapDays, DaysInMonth;
  }

  lemma StartIsNotNegative(m: int)
    requires 1 <= m <= 12
    ensures MonthStart(m) >= 0
  {
    RankBounds(Rank(m));
  }

  /** `days_from_civil` is the calendar's day count: a bijection between the valid dates of every year, negative
      ones too, and the integers, inverse to walking day by day from 1 January 1970. */
  lemma DaysIsTheDayCount(d: Date, n: int)
    requires ValidDate(d)
    ensures Days(d) == n <==> Walk(n) == d
  {
    hide Days, Walk;
    WalkIsCounted(n);
    WalkIsCounted(Days(d));
    var w := Walk(Days(d));
    if Before(w, d) {
      OrderIsKept(w, d);
    } else if Before(d, w) {
      OrderIsKept(d, w);
    }
  }
}
