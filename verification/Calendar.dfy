/** Gregorian dates: day counts by loops and by closed forms, weekdays, and Easter. */
module Calendar {

  predicate IsLeap(year: int) {
    year % 4 == 0 && (year % 100 != 0 || year % 400 == 0)
  }

  function Leap(year: int): int {
    if IsLeap(year) then 1 else 0
  }

  function MonthDays(leap: bool, month: int): int
    requires 1 <= month <= 12
  {
    if month == 2 then (if leap then 29 else 28)
    else if month in {4, 6, 9, 11} then 30 else 31
  }

  datatype Date = Date(day: int, month: int, year: int)

  predicate IsDate(t: Date) {
    1 <= t.month <= 12 && 1 <= t.day <= MonthDays(IsLeap(t.year), t.month)
  }

  // ---------------------------------------------------------------- counting days one year and month at a time

  /** The days of the first n months. */
  function DaysOfMonths(leap: bool, n: int): int
    requires 0 <= n <= 12
    decreases n
  {
    if n == 0 then 0 else DaysOfMonths(leap, n - 1) + MonthDays(leap, n)
  }

  /** The days of the years from a to b - 1. */
  function DaysOfYears(a: int, b: int): int
    decreases b - a
  {
    if a >= b then 0 else DaysOfYears(a, b - 1) + 365 + Leap(b - 1)
  }

  lemma YearIsMonths(leap: bool)
    ensures DaysOfMonths(leap, 12) == 365 + if leap then 1 else 0
  {
    assert DaysOfMonths(leap, 3) == 90 + if leap then 1 else 0;
    assert DaysOfMonths(leap, 6) == 181 + if leap then 1 else 0;
    assert DaysOfMonths(leap, 9) == 273 + if leap then 1 else 0;
  }

  /** The days before the first day of year, or all days once year has passed t's. */
  ghost predicate Totalled(t: Date, year: int, days: int)
    requires 1 <= t.month <= 12
  {
    1 <= year &&
    if t.year < 1 then year == 1 && days == t.day
    else
      year <= t.year + 1 &&
      days == t.day + if year <= t.year then DaysOfYears(1, year)
                      else DaysOfYears(1, t.year) + DaysOfMonths(IsLeap(t.year), t.month - 1)
  }

  lemma TotalledStarts(t: Date)
    requires 1 <= t.month <= 12
    ensures Totalled(t, 1, t.day)
  {}

  lemma TotalledNext(t: Date, year: int, days: int)
    requires 1 <= t.month <= 12 && year <= t.year && Totalled(t, year, days)
    ensures year >= 1
    ensures Totalled(t, year + 1, days + DaysOfMonths(IsLeap(year), if year < t.year then 12 else t.month - 1))
  {
    YearIsMonths(IsLeap(year));
    hide DaysOfMonths;
  }

  lemma LeapIs(year: int)
    ensures IsLeap(year) == if year % 100 == 0 && year % 400 != 0 then false else year % 4 == 0
  {
    Multiples(year);
  }

  method Daystotal(t: Date) returns (days: int)
    requires 1 <= t.month <= 12
    ensures t.year >= 1 ==> days == t.day + DaysOfYears(1, t.year) + DaysOfMonths(IsLeap(t.year), t.month - 1)
    ensures t.year < 1 ==> days == t.day
  {
    hide IsLeap, MonthDays, Totalled;
    days := t.day;
    var year := 1;
    TotalledStarts(t);
    while year <= t.year
      invariant Totalled(t, year, days)
      decreases t.year - year
    {
      var maxMonth := if year < t.year then 12 else t.month - 1;
      var leap := year % 4 == 0;
      if year % 100 == 0 && year % 400 != 0 {
        leap := false;
      }
      LeapIs(year);
      TotalledNext(t, year, days);
      ghost var before := days;
      for month := 1 to maxMonth + 1
        invariant days == before + DaysOfMonths(leap, month - 1)
      {
        days := days + MonthDays(leap, month);
      }
      year := year + 1;
    }
    TotalledEnds(t, year, days);
  }

  lemma TotalledEnds(t: Date, year: int, days: int)
    requires 1 <= t.month <= 12 && Totalled(t, year, days) && year > t.year
    ensures t.year >= 1 ==> days == t.day + DaysOfYears(1, t.year) + DaysOfMonths(IsLeap(t.year), t.month - 1)
    ensures t.year < 1 ==> days == t.day
  {}

  // ---------------------------------------------------------------- the closed forms

  /** The Julian Day Number. */
  function Jdn(t: Date): int {
    var a := (14 - t.month) / 12;
    t.day + (153 * (t.month + 12 * a - 3) + 2) / 5 + 365 * (t.year + 4800 - a)
    + (t.year + 4800 - a) / 4 - (t.year + 4800 - a) / 100 + (t.year + 4800 - a) / 400 - 32045
  }

  /** 365 days a year and the leap days before year y. */
  function Cycle(y: int): int {
    365 * y + y / 4 - y / 100 + y / 400
  }

  /** One year's length in the closed form. */
  lemma CycleStep(y: int)
    ensures Cycle(y) == Cycle(y - 1) + 365 + Leap(y)
  {
    DivStep(y, 4);
    DivStep(y, 100);
    DivStep(y, 400);
    Multiples(y);
  }

  lemma Multiples(y: int)
    ensures y % 400 == 0 ==> y % 100 == 0
    ensures y % 100 == 0 ==> y % 4 == 0
  {
    Multiple(y, y / 400, 4, 100);
    Multiple(y, y / 100, 25, 4);
  }

  lemma Multiple(y: int, q: int, j: int, k: int)
    requires (j == 4 && k == 100) || (j == 25 && k == 4)
    ensures y == j * k * q ==> y % k == 0
  {
    if y == j * k * q { assert y == k * (j * q); }
  }

  lemma DivStep(y: int, k: int)
    requires k == 4 || k == 100 || k == 400
    ensures y / k - (y - 1) / k == if y % k == 0 then 1 else 0
  {}

  lemma {:induction false} YearsClosed(a: int, b: int)
    requires a <= b
    ensures DaysOfYears(a, b) == Cycle(b - 1) - Cycle(a - 1)
    decreases b - a
  {
    if a < b {
      YearsClosed(a, b - 1);
      CycleStep(b - 1);
    }
  }

  /** The closed form counts the days of the earlier months too. */
  lemma JdnIsCycle(t: Date)
    requires 1 <= t.month <= 12
    ensures Jdn(t) == t.day + DaysOfMonths(IsLeap(t.year), t.month - 1) + Cycle(t.year - 1) + 1721425
  {
    Shift(t.year);
    Shift(t.year - 1);
    CycleStep(t.year);
    MonthsClosed(IsLeap(t.year), t.month);
    hide Cycle;
  }

  lemma Shift(y: int)
    ensures 365 * (y + 4800) + (y + 4800) / 4 - (y + 4800) / 100 + (y + 4800) / 400 == Cycle(y) + 1753164
  {
    assert (y + 4800) / 4 == y / 4 + 1200;
    assert (y + 4800) / 100 == y / 100 + 48;
    assert (y + 4800) / 400 == y / 400 + 12;
  }

  lemma MonthsClosed(leap: bool, month: int)
    requires 1 <= month <= 12
    ensures var a := (14 - month) / 12;
            (a == if month <= 2 then 1 else 0)
            && DaysOfMonths(leap, month - 1)
               == (153 * (month + 12 * a - 3) + 2) / 5 - if month <= 2 then 306 else if leap then -60 else -59
  {
    var l := if leap then 1 else 0;
    assert DaysOfMonths(leap, 2) == 59 + l && DaysOfMonths(leap, 4) == 120 + l && DaysOfMonths(leap, 6) == 181 + l;
    assert DaysOfMonths(leap, 8) == 243 + l && DaysOfMonths(leap, 10) == 304 + l;
  }

  /** The loop and the closed form differ by a constant for every date from the year 1 on. */
  lemma DaystotalIsJdn(t: Date)
    requires 1 <= t.month <= 12 && t.year >= 1
    ensures Jdn(t) == t.day + DaysOfYears(1, t.year) + DaysOfMonths(IsLeap(t.year), t.month - 1) + 1721425
  {
    JdnIsCycle(t);
    YearsClosed(1, t.year);
    assert Cycle(0) == 0;
  }

  /** The day after t. */
  function Next(t: Date): Date
    requires IsDate(t)
  {
    if t.day < MonthDays(IsLeap(t.year), t.month) then t.(day := t.day + 1)
    else if t.month < 12 then Date(1, t.month + 1, t.year)
    else Date(1, 1, t.year + 1)
  }

  /** The number goes up by one each day, over the ends of months and years. */
  lemma NextDayIsOneMore(t: Date)
    requires IsDate(t)
    ensures IsDate(Next(t)) && Jdn(Next(t)) == Jdn(t) + 1
  {
    hide Jdn;
    if t.day < MonthDays(IsLeap(t.year), t.month) {
      NextDayInMonth(t.day, t.month, t.year);
    } else if t.month < 12 {
      FirstOfNextMonth(t.month, t.year);
    } else {
      NewYear(t.year);
    }
  }

  lemma NextDayInMonth(day: int, month: int, year: int)
    ensures Jdn(Date(day + 1, month, year)) == Jdn(Date(day, month, year)) + 1
  {}

  lemma FirstOfNextMonth(month: int, year: int)
    requires 1 <= month < 12
    ensures Jdn(Date(1, month + 1, year)) == Jdn(Date(MonthDays(IsLeap(year), month), month, year)) + 1
  {
    hide Jdn, Cycle, IsLeap, MonthDays;
    JdnIsCycle(Date(1, month + 1, year));
    JdnIsCycle(Date(MonthDays(IsLeap(year), month), month, year));
  }

  lemma NewYear(year: int)
    ensures Jdn(Date(1, 1, year + 1)) == Jdn(Date(31, 12, year)) + 1
  {
    YearIsMonths(IsLeap(year));
    assert DaysOfMonths(IsLeap(year), 12) == DaysOfMonths(IsLeap(year), 11) + 31;
    assert DaysOfMonths(IsLeap(year + 1), 0) == 0;
    hide Jdn, Cycle, IsLeap, DaysOfMonths;
    JdnIsCycle(Date(1, 1, year + 1));
    JdnIsCycle(Date(31, 12, year));
    CycleStep(year);
  }

  // ---------------------------------------------------------------- weekdays

  /** One more than the largest 64-bit unsigned number. */
  const WORD := 0x1_0000_0000_0000_0000

  const MONTH_SHIFT := [0, 3, 2, 5, 0, 3, 5, 1, 4, 6, 2, 4]

  /** Division of ints, which cuts off towards zero. */
  function Quot(a: int, b: int): int
    requires b > 0
  {
    if a >= 0 then a / b else -(-a / b)
  }

  function Rem(a: int, b: int): (r: int)
    requires b > 0
    ensures r == a - b * Quot(a, b)
  {
    if a >= 0 then a % b else -(-a % b)
  }

  /** The leap-day terms as both programs compute them. */
  function LeapTerms(y: int): int {
    Quot(y, 4) - Quot(y, 100) + Quot(y, 400)
  }

  /** The year counted from March. */
  function YearFromMarch(t: Date): int {
    if t.month < 3 then t.year - 1 else t.year
  }

  function TableSum(t: Date): int
    requires 1 <= t.month <= 12
  {
    var year := YearFromMarch(t);
    year + LeapTerms(year) + MONTH_SHIFT[t.month - 1] + t.day
  }

  /** 0 for Sunday. */
  function DayOfWeek(t: Date): int
    requires 1 <= t.month <= 12
  {
    Rem(TableSum(t), 7)
  }

  /** The closed form as the program computes it; its first three dividends are never negative. */
  function ClosedForm(t: Date): int
    requires 1 <= t.month <= 12
  {
    var a := (14 - t.month) / 12;
    var year := t.year + 4800 - a;
    t.day + (153 * (t.month + 12 * a - 3) + 2) / 5 + 365 * year + LeapTerms(year) - 32045
  }

  /** Index into names that begin with Monday, computed with ints. */
  function Weekday(t: Date): int
    requires 1 <= t.month <= 12
  {
    Rem(ClosedForm(t), 7)
  }

  /** The same with the number stored in a 64-bit size_t. */
  function WeekdayUnsigned(t: Date): int
    requires 1 <= t.month <= 12
  {
    ClosedForm(t) % WORD % 7
  }

  /** Cutting off towards zero gives one day more for the years below 0 that are no leap years, and only for these. */
  lemma LeapTermsAre(y: int)
    ensures LeapTerms(y) == y / 4 - y / 100 + y / 400 + if y >= 0 || IsLeap(y) then 0 else 1
  {
    QuotIs(y, 4);
    QuotIs(y, 100);
    QuotIs(y, 400);
    Multiples(y);
    hide Quot;
  }

  lemma QuotIs(y: int, k: int)
    requires k == 4 || k == 100 || k == 400
    ensures Quot(y, k) == y / k + if y >= 0 || y % k == 0 then 0 else 1
  {}

  /** The program's closed form is the Julian Day Number exactly when the leap-day terms are not cut off. */
  lemma ClosedFormIsJdnIff(t: Date)
    requires 1 <= t.month <= 12
    ensures var year := YearFromMarch(t) + 4800; ClosedForm(t) == Jdn(t) <==> year >= 0 || IsLeap(year)
  {
    assert (14 - t.month) / 12 == if t.month < 3 then 1 else 0;
    LeapTermsAre(YearFromMarch(t) + 4800);
    hide LeapTerms;
  }

  /** For int years the two ways of computing the index agree exactly when the number is not negative. */
  lemma WeekdaysAgreeIff(t: Date)
    requires 1 <= t.month <= 12 && 1 <= t.day <= 31 && -0x8000_0000 <= t.year < 0x8000_0000
    ensures Weekday(t) == WeekdayUnsigned(t) <==> ClosedForm(t) >= 0
    ensures ClosedForm(t) >= 0 ==> Weekday(t) == ClosedForm(t) % 7
  {
    ClosedFormBounds(t);
    hide ClosedForm, WORD;
    Remaindered(ClosedForm(t));
  }

  lemma Remaindered(n: int)
    requires -WORD < n < WORD
    ensures Rem(n, 7) == n % WORD % 7 <==> n >= 0
    ensures n >= 0 ==> Rem(n, 7) == n % 7
  {
    if n < 0 {
      WrappedRemainder(n);
    } else {
      assert n % WORD == n;
    }
  }

  lemma ClosedFormBounds(t: Date)
    requires 1 <= t.month <= 12 && 1 <= t.day <= 31 && -0x8000_0000 <= t.year < 0x8000_0000
    ensures -WORD < ClosedForm(t) < WORD
    ensures YearFromMarch(t) >= 0 ==> ClosedForm(t) >= 0
  {
    var a := (14 - t.month) / 12;
    assert a == if t.month < 3 then 1 else 0;
    assert 0 <= (153 * (t.month + 12 * a - 3) + 2) / 5 <= 400;
    LeapTermsBounds(t.year + 4800 - a);
    hide LeapTerms;
  }

  lemma LeapTermsBounds(y: int)
    ensures if y >= 0 then 0 <= LeapTerms(y) <= 2 * y else 2 * y <= LeapTerms(y) <= 1 - y
  {
    LeapTermsAre(y);
    hide LeapTerms;
    assert y >= 0 ==> y / 100 <= y / 4 && y / 400 <= y;
  }

  lemma WrappedRemainder(n: int)
    requires -WORD < n < 0
    ensures n % WORD % 7 != Rem(n, 7)
  {
    assert n % WORD == n + WORD;
  }

  lemma MonthShiftIsDays(month: int)
    requires 1 <= month <= 12
    ensures ((153 * (month + 12 * ((14 - month) / 12) - 3) + 2) / 5 + 2 - MONTH_SHIFT[month - 1]) % 7 == 0
  {}

  /** From March of the year 0 on the table and the two closed forms all give the Julian Day Number's weekday. */
  lemma DayOfWeekIsJdn(t: Date)
    requires 1 <= t.month <= 12 && t.day >= 1
    requires YearFromMarch(t) >= 0
    ensures DayOfWeek(t) == (Jdn(t) + 1) % 7
    ensures ClosedForm(t) == Jdn(t) && Weekday(t) == Jdn(t) % 7 && (DayOfWeek(t) + 6) % 7 == Weekday(t)
  {
    DayOfWeekIsJdnIff(t);
    ClosedFormIsJdnIff(t);
    JdnPositive(t);
    hide DayOfWeek, ClosedForm, Jdn;
    Sevens(Jdn(t) + 1, 0);
  }

  lemma JdnPositive(t: Date)
    requires 1 <= t.month <= 12 && t.day >= 1 && YearFromMarch(t) >= 0
    ensures Jdn(t) > 0
  {
    assert (14 - t.month) / 12 == if t.month < 3 then 1 else 0;
  }

  /** The sum of the table with leap days that are not cut off. */
  function FloorSum(t: Date): int
    requires 1 <= t.month <= 12
  {
    var year := YearFromMarch(t);
    year + year / 4 - year / 100 + year / 400 + MONTH_SHIFT[t.month - 1] + t.day
  }

  lemma FloorSumIsJdn(t: Date)
    requires 1 <= t.month <= 12
    ensures FloorSum(t) % 7 == (Jdn(t) + 1) % 7
  {
    var a := (14 - t.month) / 12;
    var year := t.year - a;
    assert year == YearFromMarch(t);
    Shift(year);
    MonthShiftIsDays(t.month);
    var m := (153 * (t.month + 12 * a - 3) + 2) / 5;
    var k := (m + 2 - MONTH_SHIFT[t.month - 1]) / 7;
    var w := FloorSum(t);
    assert Jdn(t) + 1 == w + 7 * (k + 52 * year + 245874);
    Sevens(w, k + 52 * year + 245874);
  }

  /**
    For all years: the table gives the weekday exactly from March of the year 0 on, and before that in
    leap years with a sum that is not negative or gives no remainder.
   */
  lemma DayOfWeekIsJdnIff(t: Date)
    requires 1 <= t.month <= 12 && t.day >= 1
    ensures DayOfWeek(t) == (Jdn(t) + 1) % 7
            <==> var year := YearFromMarch(t);
                 year >= 0 || (IsLeap(year) && (TableSum(t) >= 0 || TableSum(t) % 7 == 0))
  {
    var year := YearFromMarch(t);
    FloorSumIsJdn(t);
    LeapTermsAre(year);
    var sum, floor := TableSum(t), FloorSum(t);
    assert sum == floor + if year >= 0 || IsLeap(year) then 0 else 1;
    assert year >= 0 ==> floor >= 0 by { hide LeapTerms, Jdn; }
    hide TableSum, FloorSum, Jdn;
    Remainders(floor, sum - floor);
  }

  lemma Remainders(n: int, more: int)
    ensures more == 0 ==> (Rem(n, 7) == n % 7 <==> n >= 0 || n % 7 == 0)
    ensures more == 1 ==> Rem(n + 1, 7) != n % 7
  {}

  /** Concretely: 1 January of the year 0 was a Saturday, and the table says Sunday. */
  lemma YearZeroDiffers()
    ensures DayOfWeek(Date(1, 1, 0)) == 0 && (Jdn(Date(1, 1, 0)) + 1) % 7 == 6
  {
    assert LeapTerms(-1) == 0;
    assert Jdn(Date(1, 1, 0)) == 1721060 by { hide LeapTerms; }
  }

  lemma Sevens(w: int, k: int)
    ensures (w + 7 * k) % 7 == w % 7 && (w % 7 + 6) % 7 == (w + 7 * k - 1) % 7
  {}

  // ---------------------------------------------------------------- distances

  /** Day of the year, counted from 1. */
  function DayOfYear(t: Date): int
    requires 1 <= t.month <= 12
  {
    t.day + DaysOfMonths(IsLeap(t.year), t.month - 1)
  }

  method DaysInto(t: Date) returns (days: int)
    requires 1 <= t.month <= 12
    ensures days == DayOfYear(t)
  {
    days := t.day;
    for i := t.month - 1 downto 0
      invariant days + DaysOfMonths(IsLeap(t.year), i) == DayOfYear(t)
    {
      days := days + MonthDays(IsLeap(t.year), i + 1);
    }
  }

  /**
    What the macro __isleap of the C library's time.h gives for the argument year++, and the year
    afterwards: each of its up to three tests evaluates the argument, and so moves the year on.
   */
  function LeapOfNext(year: int): (bool, int) {
    var second, third := (year + 1) % 100 != 0, (year + 2) % 400 == 0;
    if year % 4 != 0 then (false, year + 1)
    else if second then (true, year + 2)
    else (third, year + 3)
  }

  /** The second test never fails, so a year divisible by 4 counts as a leap year and takes the next one along. */
  lemma LeapOfNextIs(year: int)
    ensures LeapOfNext(year) == if StepsTwice(year) then (true, year + 2) else (false, year + 1)
  {}

  predicate StepsTwice(year: int) {
    year % 4 == 0
  }

  /** The days that the program counts for the years from a to b - 1. */
  function Counted(a: int, b: int): int
    decreases b - a
  {
    if a >= b then 0 else if StepsTwice(a) then 366 + Counted(a + 2, b) else 365 + Counted(a + 1, b)
  }

  /** The distance in days that the program computes, as a 64-bit unsigned long. */
  method DistDias(inicio: Date, fim: Date) returns (r: int)
    requires 1 <= inicio.month <= 12 && 1 <= fim.month <= 12
    ensures r == (Counted(inicio.year, fim.year) - DayOfYear(inicio) + DayOfYear(fim)) % WORD
  {
    var idias := DaysInto(inicio);
    var fdias := DaysInto(fim);
    var defAnos, ano := 0, inicio.year;
    while ano < fim.year
      invariant defAnos + Counted(ano, fim.year) == Counted(inicio.year, fim.year)
      decreases fim.year - ano
    {
      LeapOfNextIs(ano);
      var (leap, next) := LeapOfNext(ano);
      ano := next;
      defAnos := defAnos + 365 + if leap then 1 else 0;
    }
    r := (defAnos - idias + fdias) % WORD;
  }

  /** No year is skipped, and the last is no century year that the macro takes for a leap year. */
  ghost predicate CountsRight(a: int, b: int) {
    && (forall m :: a <= m <= b - 2 ==> !StepsTwice(m))
    && (a < b && StepsTwice(b - 1) ==> IsLeap(b - 1))
  }

  lemma FirstYear(a: int, b: int)
    requires a < b
    ensures DaysOfYears(a, b) == 365 + Leap(a) + DaysOfYears(a + 1, b)
  {
    YearsClosed(a, b);
    YearsClosed(a + 1, b);
    CycleStep(a);
    hide DaysOfYears, Cycle;
  }

  /** Every skipped year loses at least 364 days, and only a century year at the end adds one. */
  lemma {:induction false} CountedIff(a: int, b: int)
    requires a <= b
    ensures 0 <= Counted(a, b) <= DaysOfYears(a, b) + 1
    ensures Counted(a, b) == DaysOfYears(a, b) <==> CountsRight(a, b)
    decreases b - a
  {
    hide DaysOfYears, IsLeap;
    if a == b {
      NoYears(a, b);
    } else {
      FirstYear(a, b);
      if StepsTwice(a) {
        NotLeapAfter(a);
        if a + 1 < b {
          FirstYear(a + 1, b);
          CountedIff(a + 2, b);
        } else {
          NoYears(a + 1, b);
        }
      } else {
        NoLeap(a);
        CountedIff(a + 1, b);
      }
    }
  }

  lemma NoLeap(year: int)
    requires !StepsTwice(year)
    ensures Leap(year) == 0
  {}

  lemma NotLeapAfter(year: int)
    requires StepsTwice(year)
    ensures Leap(year + 1) == 0
  {}

  lemma {:induction false} YearsAtLeast(a: int, b: int)
    requires a <= b
    ensures 365 * (b - a) <= DaysOfYears(a, b) <= 366 * (b - a)
    decreases b - a
  {
    if a < b { YearsAtLeast(a, b - 1); }
  }

  /**
    For int years the program's distance is the difference of the day numbers, modulo the word,
    exactly when the years are in order, no multiple of 4 comes two years or more before the later
    one, and the year just before it is not a century year that is no leap year.
   */
  lemma DistanceIsDifferenceIff(inicio: Date, fim: Date)
    requires 1 <= inicio.month <= 12 && 1 <= fim.month <= 12
    requires -0x8000_0000 <= inicio.year < 0x8000_0000 && -0x8000_0000 <= fim.year < 0x8000_0000
    ensures (Counted(inicio.year, fim.year) - DayOfYear(inicio) + DayOfYear(fim)) % WORD
            == (Jdn(fim) - Jdn(inicio)) % WORD
            <==> inicio.year <= fim.year && CountsRight(inicio.year, fim.year)
  {
    JdnDifference(inicio, fim);
    var a, b, x := inicio.year, fim.year, DayOfYear(fim) - DayOfYear(inicio);
    WordIsLarge();
    hide *;
    if a > b {
      NoneCounted(a, b);
      YearsAtLeast(b, a);
      Apart(x, DaysOfYears(b, a));
    } else {
      CountedIff(a, b);
      YearsAtLeast(a, b);
      SameOrApart(x, Counted(a, b), DaysOfYears(a, b));
    }
  }

  lemma NoneCounted(a: int, b: int)
    requires a >= b
    ensures Counted(a, b) == 0
  {}

  lemma WordIsLarge()
    ensures WORD > 366 * 0x1_0000_0001
  {}

  lemma SameOrApart(x: int, m: int, n: int)
    requires -WORD < m - n < WORD
    ensures (m + x) % WORD == (n + x) % WORD <==> m == n
  {
    if m < n { Apart(n + x, n - m); }
    if n < m { Apart(m + x, m - n); }
  }

  /** Concretely: from 1 January 2004 to 1 January 2006 the program counts 366 days, and it is 731. */
  lemma TwoYearsLoseOne()
    ensures var inicio, fim := Date(1, 1, 2004), Date(1, 1, 2006);
            && Counted(2004, 2006) - DayOfYear(inicio) + DayOfYear(fim) == 366
            && Jdn(fim) - Jdn(inicio) == 731
  {
    hide Jdn;
    assert Counted(2006, 2006) == 0;
    assert Counted(2004, 2006) == 366;
    JdnDifference(Date(1, 1, 2004), Date(1, 1, 2006));
    assert DaysOfYears(2004, 2005) == 366;
    assert DaysOfYears(2004, 2006) == 731;
  }

  lemma JdnByYear(t: Date)
    requires 1 <= t.month <= 12
    ensures Jdn(t) == DayOfYear(t) + Cycle(t.year - 1) + 1721425
  {
    hide Jdn, Cycle;
    JdnIsCycle(t);
  }

  lemma JdnDifference(inicio: Date, fim: Date)
    requires 1 <= inicio.month <= 12 && 1 <= fim.month <= 12
    ensures Jdn(fim) - Jdn(inicio)
            == DayOfYear(fim) - DayOfYear(inicio)
               + if inicio.year <= fim.year then DaysOfYears(inicio.year, fim.year)
                 else -DaysOfYears(fim.year, inicio.year)
  {
    hide *;
    JdnByYear(inicio);
    JdnByYear(fim);
    if inicio.year <= fim.year { YearsClosed(inicio.year, fim.year); } else { YearsClosed(fim.year, inicio.year); }
  }

  lemma NoYears(a: int, b: int)
    requires a >= b
    ensures DaysOfYears(a, b) == 0
  {}

  lemma Apart(x: int, n: int)
    requires 0 < n < WORD
    ensures x % WORD != (x - n) % WORD
  {
    assert x == WORD * (x / WORD) + x % WORD;
  }

  // ---------------------------------------------------------------- Easter

  /** The intermediate values of the computation. */
  datatype Computus = Computus(a: int, b: int, c: int, d: int, e: int, h: int, i: int, j: int, k: int, l: int)

  function Compute(year: int): Computus
    requires year >= 0
  {
    var a := year % 19;
    var b := year / 100;
    var c := year % 100;
    var d := b / 4;
    var e := b % 4;
    var f := (b + 8) / 25;
    var g := (b - f + 1) / 3;
    var h := (19 * a + b - d - g + 15) % 30;
    var i := c / 4;
    var j := c % 4;
    var k := (32 + 2 * e + 2 * i - h - j) % 7;
    var l := (a + 11 * h + 22 * k) / 451;
    Computus(a, b, c, d, e, h, i, j, k, l)
  }

  function Easter(year: int): Date
    requires year >= 0
  {
    var x := Compute(year);
    var n := x.h + x.k - 7 * x.l + 114;
    Date(n % 31 + 1, n / 31, year)
  }

  /** The place of the year in the 19-year cycle of the moon, from 1. */
  function GoldenNumber(year: int): int {
    year % 19 + 1
  }

  /** The leap days that the Gregorian calendar drops, three in four centuries. */
  function SolarCorrection(year: int): int {
    3 * (year / 100 + 1) / 4 - 12
  }

  /** The days by which 19 years are longer than the moons in them, eight in 25 centuries. */
  function LunarCorrection(year: int): int {
    (8 * (year / 100 + 1) + 5) / 25 - 5
  }

  /** The age of the moon at the beginning of the year, two of its values moved on by a day. */
  function Epact(year: int): int {
    var g := GoldenNumber(year);
    var e := (11 * g + 20 + LunarCorrection(year) - SolarCorrection(year)) % 30;
    if e == 24 || (e == 25 && g > 11) then e + 1 else e
  }

  /**
    The paschal full moon by the calendar's own rule: the first from 21 March on, as a day of March
    counted on into April.
   */
  function FullMoon(year: int): int {
    var n := 44 - Epact(year);
    if n < 21 then n + 30 else n
  }

  /** The two correction terms of the computation are those of the calendar. */
  lemma Corrections(b: int)
    requires b >= 0
    ensures 3 * (b + 1) / 4 - 12 == b - b / 4 - 12
    ensures (8 * (b + 1) + 5) / 25 - 5 == (b - (b + 8) / 25 + 1) / 3 - 5
  {
    var q, r := b / 25, b % 25;
    assert (b + 8) / 25 == q + if r >= 17 then 1 else 0;
    assert (8 * (b + 1) + 5) / 25 == 8 * q + (8 * r + 13) / 25;
  }

  /** The computation's term h is the day of the full moon after 21 March, but for the two values moved. */
  lemma FullMoonIs(year: int)
    requires year >= 0
    ensures var x := Compute(year);
            FullMoon(year) == 21 + x.h - if x.h == 29 || (x.h == 28 && x.a > 10) then 1 else 0
  {
    var a, solar, lunar := year % 19, SolarCorrection(year), LunarCorrection(year);
    var x := Compute(year);
    TermIs(year);
    EpactAndTerm(a, solar, lunar);
    hide Compute, SolarCorrection, LunarCorrection;
    assert Epact(year) == var e := (11 * (a + 1) + 20 + lunar - solar) % 30;
           if e == 24 || (e == 25 && a > 10) then e + 1 else e;
  }

  lemma TermIs(year: int)
    requires year >= 0
    ensures var x := Compute(year);
            x.a == year % 19 && x.h == (19 * x.a + SolarCorrection(year) - LunarCorrection(year) + 22) % 30
  {
    Corrections(year / 100);
  }

  lemma EpactAndTerm(a: int, solar: int, lunar: int)
    ensures var e, h := (11 * (a + 1) + 20 + lunar - solar) % 30, (19 * a + solar - lunar + 22) % 30;
            e == if h <= 23 then 23 - h else 53 - h
  {
    var e, h := 11 * (a + 1) + 20 + lunar - solar, 19 * a + solar - lunar + 22;
    assert e == 30 * (a + 1) + 23 - h;
    Mirrored(h, a + 1);
  }

  lemma Mirrored(h: int, m: int)
    ensures (30 * m + 23 - h) % 30 == if h % 30 <= 23 then 23 - h % 30 else 53 - h % 30
  {
    var q, r := h / 30, h % 30;
    assert 30 * m + 23 - h == 30 * (m - q) + (23 - r);
    var x := if r <= 23 then 23 - r else 53 - r;
    var k := if r <= 23 then m - q else m - q - 1;
    assert 30 * m + 23 - h == 30 * k + x;
    Thirty(k, x);
  }

  lemma Thirty(k: int, x: int)
    requires 0 <= x < 30
    ensures (30 * k + x) % 30 == x
  {}

  /** A date in March or April as a day of March. */
  function InMarch(t: Date): int {
    t.day + if t.month == 4 then 31 else 0
  }

  /** Every dividend is non-negative, and the year is put together from its parts. */
  lemma ComputeRanges(year: int)
    requires year >= 0
    ensures var x := Compute(year);
            && 0 <= x.a < 19 && 0 <= x.h < 30 && 0 <= x.k < 7 && 0 <= x.e < 4 && 0 <= x.j < 4
            && year == 400 * x.d + 100 * x.e + 4 * x.i + x.j && x.b == 4 * x.d + x.e && x.c == 4 * x.i + x.j
            && 0 <= x.c < 100
            && (32 + 2 * x.e + 2 * x.i - x.h - x.j) % 7 == x.k && 32 + 2 * x.e + 2 * x.i - x.h - x.j >= 0
            && 19 * x.a + x.b - x.d - (x.b - (x.b + 8) / 25 + 1) / 3 + 15 >= 0
  {}

  /** The last term is 1 for exactly the Sundays that would come a week late. */
  lemma LastTerm(year: int)
    requires year >= 0
    ensures var x := Compute(year);
            x.l == if x.k == 6 && (x.h == 29 || (x.h == 28 && x.a > 10)) then 1 else 0
  {
    ComputeRanges(year);
    var x := Compute(year);
    assert x.l == (x.a + 11 * x.h + 22 * x.k) / 451;
  }

  /** Easter lies between 22 March and 25 April, and within the seven days after the full moon. */
  lemma EasterFollowsFullMoon(year: int)
    requires year >= 0
    ensures var t := Easter(year);
            && IsDate(t) && (t.month == 3 || t.month == 4)
            && 22 <= InMarch(t) <= 31 + 25
            && FullMoon(year) < InMarch(t) <= FullMoon(year) + 7
  {
    ComputeRanges(year);
    LastTerm(year);
    FullMoonIs(year);
    hide Compute, FullMoon;
    var x := Compute(year);
    var n := x.h + x.k - 7 * x.l + 114;
    assert 114 <= n <= 148;
    assert n / 31 == if n < 124 then 3 else 4;
  }

  /** The table of weekdays gives Sunday for Easter. */
  lemma EasterIsSunday(year: int)
    requires year >= 0
    ensures DayOfWeek(Easter(year)) == 0
    ensures Weekday(Easter(year)) == 6
  {
    hide *;
    var x, t := Compute(year), Easter(year);
    ComputeRanges(year);
    EasterInSpring(year);
    DayOfWeekIsJdn(t);
    EasterInMarch(year);
    DayOfWeekInSpring(t);
    CenturyParts(year, x.d, x.e, x.i, x.j);
    SevenDivides(x.d, x.e, x.h, x.i, x.j, x.k, x.l);
  }

  lemma EasterInSpring(year: int)
    requires year >= 0
    ensures var t := Easter(year);
            t.year == year && (t.month == 3 || t.month == 4) && t.day >= 1 && YearFromMarch(t) == year
  {
    EasterFollowsFullMoon(year);
    hide FullMoon;
  }

  /** No date between the full moon and Easter is a Sunday. */
  lemma EasterIsFirstSunday(year: int, t: Date)
    requires year >= 0 && t.year == year && IsDate(t) && (t.month == 3 || t.month == 4)
    requires FullMoon(year) < InMarch(t)
    ensures InMarch(t) < InMarch(Easter(year)) ==> DayOfWeek(t) != 0
  {
    hide DayOfWeek, FullMoon, Compute;
    var easter := Easter(year);
    EasterFollowsFullMoon(year);
    EasterIsSunday(year);
    DayOfWeekInSpring(t);
    DayOfWeekInSpring(easter);
    hide Easter, InMarch;
    var y := year;
    var base := y + y / 4 - y / 100 + y / 400 + 2;
    SameWeek(base, InMarch(t), if t.month == 4 then 28 else 0);
    SameWeek(base, InMarch(easter), if easter.month == 4 then 28 else 0);
    assert InMarch(easter) - 7 < InMarch(t);
    if InMarch(t) < InMarch(easter) { WeekApart(base, InMarch(easter), InMarch(t)); }
  }

  lemma SameWeek(base: int, m: int, weeks: int)
    requires weeks == 0 || weeks == 28
    ensures (base + m - weeks) % 7 == (base + m) % 7
  {}

  lemma WeekApart(base: int, m: int, n: int)
    requires (base + m) % 7 == 0 && m - 7 < n < m
    ensures (base + n) % 7 != 0
  {}

  lemma EasterInMarch(year: int)
    requires year >= 0 && (Easter(year).month == 3 || Easter(year).month == 4)
    ensures var x := Compute(year); InMarch(Easter(year)) == x.h + x.k - 7 * x.l + 22 && Easter(year).year == year
  {
    hide Compute;
  }

  lemma DayOfWeekInSpring(t: Date)
    requires (t.month == 3 || t.month == 4) && t.year >= 0 && t.day >= 1
    ensures var y := t.year;
            DayOfWeek(t) == (y + y / 4 - y / 100 + y / 400 + InMarch(t) + 2 - if t.month == 4 then 28 else 0) % 7
  {}

  /** The weekday sum of an Easter in March; in April it is 28 less. */
  lemma SevenDivides(d: int, e: int, h: int, i: int, j: int, k: int, l: int)
    requires (32 + 2 * e + 2 * i - h - j) % 7 == k
    ensures var w := (400 * d + 100 * e + 4 * i + j) + (100 * d + 25 * e + i) - (4 * d + e) + d + h + k - 7 * l + 24;
            w % 7 == 0 && (w - 28) % 7 == 0
  {
    var q := (32 + 2 * e + 2 * i - h - j) / 7;
    var w := (400 * d + 100 * e + 4 * i + j) + (100 * d + 25 * e + i) - (4 * d + e) + d + h + k - 7 * l + 24;
    assert 32 + 2 * e + 2 * i - h - j == 7 * q + k;
    assert w == 7 * (71 * d + 18 * e + i + 8 - q - l);
    SevenTimes(71 * d + 18 * e + i + 8 - q - l);
  }

  lemma SevenTimes(x: int)
    ensures 7 * x % 7 == 0 && (7 * x - 28) % 7 == 0
  {}

  lemma CenturyParts(year: int, d: int, e: int, i: int, j: int)
    requires 0 <= d && 0 <= e < 4 && 0 <= 4 * i + j < 100 && 0 <= j < 4 && year == 400 * d + 100 * e + 4 * i + j
    ensures year / 4 == 100 * d + 25 * e + i && year / 100 == 4 * d + e && year / 400 == d
  {}
}
