/** The Gregorian calendar counted in days from 1 January 1970, month by month, and what clock.c computes in closed
    form from it. */
module Calendar {
  import opened CArithmetic

  const EPOCH_YR: int := 1970
  const YEAR0: int := 1900

  /** LEAPYEAR. */
  predicate LeapYear(year: int) {
    Rem(year, 4) == 0 && (Rem(year, 100) != 0 || Rem(year, 400) == 0)
  }

  lemma LeapYearIsGregorian(year: int)
    ensures LeapYear(year) <==> (year % 4 == 0 && year % 100 != 0) || year % 400 == 0
  {
    RemIsZero4(year);
    RemIsZero100(year);
    RemIsZero400(year);
    hide Rem;
  }

  lemma RemIsZero4(a: int)
    ensures Rem(a, 4) == 0 <==> a % 4 == 0
  {}

  lemma RemIsZero100(a: int)
    ensures Rem(a, 100) == 0 <==> a % 100 == 0
  {}

  lemma RemIsZero400(a: int)
    ensures Rem(a, 400) == 0 <==> a % 400 == 0
    ensures a % 400 == 0 ==> a % 4 == 0
  {}

  /** YEARSIZE. */
  function YearSize(year: int): int { if LeapYear(year) then 366 else 365 }

  /** The table of month lengths. */
  function MonthLength(year: int, mon: int): int
    requires 0 <= mon < 12
  {
    if mon == 1 then (if LeapYear(year) then 29 else 28)
    else if mon in {3, 5, 8, 10} then 30
    else 31
  }

  /** Length of a month numbered from January of the year 0. */
  function Length(n: int): int { MonthLength(n / 12, n % 12) }

  /** Days from 1 January 1970 to the first day of a month, for past months as well as for future ones. */
  function DaysTo(n: int): int
    decreases if n < 12 * EPOCH_YR then 12 * EPOCH_YR - n else n - 12 * EPOCH_YR
  {
    if n == 12 * EPOCH_YR then 0
    else if n > 12 * EPOCH_YR then DaysTo(n - 1) + Length(n - 1)
    else DaysTo(n + 1) - Length(n)
  }

  lemma NextMonth(year: int, mon: int)
    requires 0 <= mon < 12
    ensures DaysTo(12 * year + mon + 1) == DaysTo(12 * year + mon) + MonthLength(year, mon)
  {
    var n := 12 * year + mon;
    assert n / 12 == year && n % 12 == mon;
    assert Length(n) == MonthLength(year, mon);
  }

  /** Days of a year before a month. */
  function DaysBefore(year: int, mon: int): int
    requires 0 <= mon <= 12
  {
    if mon == 0 then 0 else DaysBefore(year, mon - 1) + MonthLength(year, mon - 1)
  }

  /** Days before a month without the table: from March on, months of 31 and 30 days alternate in fives. */
  lemma {:induction false} DaysBeforeIs(year: int, mon: int)
    requires 0 <= mon <= 12
    ensures DaysBefore(year, mon)
            == if mon <= 1 then 31 * mon
               else (153 * (mon - 2) + 2) / 5 + 59
                    + (if (year % 4 == 0 && year % 100 != 0) || year % 400 == 0 then 1 else 0)
  {
    LeapYearIsGregorian(year);
    hide LeapYear;
    if mon > 0 {
      DaysBeforeIs(year, mon - 1);
    }
  }

  lemma {:induction false} MonthsAddUp(year: int, mon: int)
    requires 0 <= mon <= 12
    ensures DaysTo(12 * year + mon) == DaysTo(12 * year) + DaysBefore(year, mon)
  {
    if mon > 0 {
      MonthsAddUp(year, mon - 1);
      NextMonth(year, mon - 1);
    }
  }

  /** The twelve months make up the year. */
  lemma YearAddsUp(year: int)
    ensures DaysTo(12 * (year + 1)) == DaysTo(12 * year) + YearSize(year)
  {
    MonthsAddUp(year, 12);
    DaysBeforeIs(year, 12);
    LeapYearIsGregorian(year);
    hide LeapYear, DaysBefore;
  }

  /** The leap days in the closed form of section 4.16 of IEEE Std 1003.1-2017, for years from 1970. */
  function LeapDays(year: int): int {
    (year - 1969) / 4 - (year - 1901) / 100 + (year - 1601) / 400
  }

  lemma OneMoreYear(year: int)
    ensures LeapDays(year + 1) == LeapDays(year) + if LeapYear(year) then 1 else 0
  {
    LeapYearIsGregorian(year);
    Fourths(year);
    Hundredths(year);
    FourHundredths(year);
    Multiples(year);
    hide LeapYear;
  }

  lemma Fourths(year: int)
    ensures (year - 1968) / 4 == (year - 1969) / 4 + if year % 4 == 0 then 1 else 0
  {}

  lemma Hundredths(year: int)
    ensures (year - 1900) / 100 == (year - 1901) / 100 + if year % 100 == 0 then 1 else 0
  {}

  lemma FourHundredths(year: int)
    ensures (year - 1600) / 400 == (year - 1601) / 400 + if year % 400 == 0 then 1 else 0
  {}

  lemma Multiples(year: int)
    ensures year % 400 == 0 ==> year % 100 == 0
    ensures year % 100 == 0 ==> year % 4 == 0
  {}

  /** The closed form is the sum of the lengths of all the years since 1970, or of those before it, taken off. */
  lemma {:induction false} ClosedForm(year: int)
    ensures DaysTo(12 * year) == 365 * (year - EPOCH_YR) + LeapDays(year)
    decreases if year < EPOCH_YR then EPOCH_YR - year else year - EPOCH_YR
  {
    hide DaysTo, LeapYear;
    if year > EPOCH_YR {
      ClosedForm(year - 1);
      OneMoreYear(year - 1);
      YearAddsUp(year - 1);
      hide LeapDays;
    } else if year < EPOCH_YR {
      ClosedForm(year + 1);
      OneMoreYear(year);
      YearAddsUp(year);
      hide LeapDays;
    } else {
      EpochIsZero();
      assert LeapDays(EPOCH_YR) == 0;
    }
  }

  lemma EpochIsZero()
    ensures DaysTo(12 * EPOCH_YR) == 0
  {}

  /** The first day of any month, counted from 1 January 1970, without the table and without the sum. */
  lemma DaysToIs(n: int)
    ensures var year, mon := n / 12, n % 12;
            DaysTo(n) == 365 * (year - 1970) + (year - 1969) / 4 - (year - 1901) / 100 + (year - 1601) / 400
                         + if mon <= 1 then 31 * mon
                           else (153 * (mon - 2) + 2) / 5 + 59
                                + (if (year % 4 == 0 && year % 100 != 0) || year % 400 == 0 then 1 else 0)
  {
    hide DaysTo, DaysBefore;
    var year, mon := n / 12, n % 12;
    assert n == 12 * year + mon;
    MonthsAddUp(year, mon);
    ClosedForm(year);
    DaysBeforeIs(year, mon);
  }

  /** The corrections that clock_mktime makes to plain quotients of the years since 1970. */
  lemma QuotientsCountLeapDays(year: int)
    requires year >= EPOCH_YR
    ensures Quot(year - EPOCH_YR, 4) + (if Rem(year, 4) != 0 && Rem(year, 4) < Rem(EPOCH_YR, 4) then 1 else 0)
            - (Quot(year - EPOCH_YR, 100) + (if Rem(year, 100) != 0 && Rem(year, 100) < Rem(EPOCH_YR, 100) then 1 else 0))
            + Quot(year - EPOCH_YR, 400) + (if Rem(year, 400) != 0 && Rem(year, 400) < Rem(EPOCH_YR, 400) then 1 else 0)
            == LeapDays(year)
  {
    FourYears(year);
    Centuries(year);
    FourCenturies(year);
    hide Quot, Rem;
  }

  lemma FourYears(year: int)
    requires year >= EPOCH_YR
    ensures Quot(year - EPOCH_YR, 4) + (if Rem(year, 4) != 0 && Rem(year, 4) < Rem(EPOCH_YR, 4) then 1 else 0)
            == (year - 1969) / 4
  {
    assert Rem(EPOCH_YR, 4) == 2;
  }

  lemma Centuries(year: int)
    requires year >= EPOCH_YR
    ensures Quot(year - EPOCH_YR, 100) + (if Rem(year, 100) != 0 && Rem(year, 100) < Rem(EPOCH_YR, 100) then 1 else 0)
            == (year - 1901) / 100
  {
    assert Rem(EPOCH_YR, 100) == 70;
  }

  lemma FourCenturies(year: int)
    requires year >= EPOCH_YR
    ensures Quot(year - EPOCH_YR, 400) + (if Rem(year, 400) != 0 && Rem(year, 400) < Rem(EPOCH_YR, 400) then 1 else 0)
            == (year - 1601) / 400
  {
    assert Rem(EPOCH_YR, 400) == 370;
  }

  /** Years before 1970 lie before the epoch. */
  lemma {:induction false} DaysToBounds(n: int)
    ensures n <= 12 * EPOCH_YR ==> DaysTo(n) <= 28 * (n - 12 * EPOCH_YR)
    ensures n >= 12 * EPOCH_YR ==> DaysTo(n) >= 28 * (n - 12 * EPOCH_YR)
    decreases if n < 12 * EPOCH_YR then 12 * EPOCH_YR - n else n - 12 * EPOCH_YR
  {
    if n > 12 * EPOCH_YR {
      DaysToBounds(n - 1);
    } else if n < 12 * EPOCH_YR {
      DaysToBounds(n + 1);
    }
  }
}
