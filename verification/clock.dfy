/** clock_mktime (clock.c): a broken-down date, whatever its fields, becomes a normalised one and a time_t. */
module Clock {
  import opened CArithmetic
  import opened Calendar

  const SECS_DAY: int := 86400
  const LONG_MAX: int := 0x7FFF_FFFF
  const TIME_MAX: int := 0xFFFF_FFFF

  /** Seconds since the start of 1970 of a date whose fields need not be in their ranges: a month number counts
      months, a day of the month counts days, and so on. */
  function Instant(sec: int, min: int, hour: int, mday: int, mon: int, year: int): int {
    sec + 60 * (min + 60 * (hour + 24 * (mday - 1 + DaysTo(12 * (year + YEAR0) + mon))))
  }

  /** A 32-bit unsigned value as a time_t, which is a signed long. */
  function ToTimeT(n: int): int
    requires 0 <= n <= TIME_MAX
  {
    if n <= LONG_MAX then n else n - 0x1_0000_0000
  }

  /** "Seconds Since the Epoch", section 4.16 of IEEE Std 1003.1-2017. */
  function SecondsSinceTheEpoch(sec: int, min: int, hour: int, yday: int, year: int): int {
    sec + min * 60 + hour * 3600 + yday * 86400 + (year - 70) * 31536000
    + ((year - 69) / 4) * 86400 - ((year - 1) / 100) * 86400 + ((year + 299) / 400) * 86400
  }

  /** A leap year by its remainders. */
  predicate Gregorian(year: int) {
    (year % 4 == 0 && year % 100 != 0) || year % 400 == 0
  }

  class Tm {
    var sec: int
    var min: int
    var hour: int
    var mday: int
    var mon: int
    var year: int
    var wday: int
    var yday: int

    ghost predicate InClock()
      reads this
    {
      0 <= sec < 60 && 0 <= min < 60 && 0 <= hour < 24
    }

    ghost predicate Normal()
      reads this
    {
      InClock() && 0 <= mon < 12 && 1 <= mday <= MonthLength(YEAR0 + year, mon)
    }

    ghost function At(): int
      reads this
    {
      Instant(sec, min, hour, mday, mon, year)
    }

    /** The time of day: what is too much or too little is carried to the next field, and from the hours to days. */
    method NormaliseTime() returns (day: int)
      modifies this`sec, this`min, this`hour
      ensures InClock()
      ensures sec + 60 * (min + 60 * (hour + 24 * day)) == old(sec + 60 * (min + 60 * hour))
    {
      hide Quot, Rem;
      Truncated(sec, 60);
      min := min + Quot(sec, 60);
      sec := Rem(sec, 60);
      if sec < 0 {
        sec := sec + 60;
        min := min - 1;
      }
      assert sec + 60 * min == old(sec + 60 * min);
      Truncated(min, 60);
      hour := hour + Quot(min, 60);
      min := Rem(min, 60);
      if min < 0 {
        min := min + 60;
        hour := hour - 1;
      }
      Truncated(hour, 24);
      day := Quot(hour, 24);
      hour := Rem(hour, 24);
      if hour < 0 {
        hour := hour + 24;
        day := day - 1;
      }
    }

    method NormaliseMonth()
      modifies this`mon, this`year
      ensures 0 <= mon < 12 && 12 * year + mon == old(12 * year + mon)
    {
      hide Quot, Rem;
      Truncated(mon, 12);
      year := year + Quot(mon, 12);
      mon := Rem(mon, 12);
      if mon < 0 {
        mon := mon + 12;
        year := year - 1;
      }
    }

    /** The two loops that move a day count into the month it belongs to. */
    method NormaliseDay(days: int)
      requires InClock() && 0 <= mon < 12
      modifies this`mon, this`year, this`mday
      ensures Normal() && At() == old(Instant(sec, min, hour, days + 1, mon, year))
    {
      hide DaysTo, MonthLength;
      var day := days;
      ghost var was := days + DaysTo(12 * (year + YEAR0) + mon);
      while day < 0
        invariant 0 <= mon < 12 && was == day + DaysTo(12 * (year + YEAR0) + mon)
        decreases -day
      {
        mon := mon - 1;
        if mon < 0 {
          year := year - 1;
          mon := 11;
        }
        NextMonth(YEAR0 + year, mon);
        LengthBounds(YEAR0 + year, mon);
        day := day + MonthLength(YEAR0 + year, mon);
      }
      while day >= MonthLength(YEAR0 + year, mon)
        invariant 0 <= mon < 12 && day >= 0 && was == day + DaysTo(12 * (year + YEAR0) + mon)
        decreases day
      {
        NextMonth(YEAR0 + year, mon);
        LengthBounds(YEAR0 + year, mon);
        day := day - MonthLength(YEAR0 + year, mon);
        mon := mon + 1;
        if mon == 12 {
          mon := 0;
          year := year + 1;
        }
      }
      mday := day + 1;
    }

    /** The days of the year before the month, and the day in it. */
    method DayOfYear() returns (day: int)
      requires Normal()
      ensures day == DaysBefore(YEAR0 + year, mon) + (mday - 1)
    {
      day := 0;
      var month := 0;
      while month < mon
        invariant 0 <= month <= mon && day == DaysBefore(YEAR0 + year, month)
      {
        day := day + MonthLength(YEAR0 + year, month);
        month := month + 1;
      }
      day := day + (mday - 1);
    }

    /** The closed form for the days before the year, with its two tests for an overflow of a long. */
    method DaysBeforeYear() returns (day: int, overflow: int)
      requires year >= 70
      ensures day == DaysTo(12 * (YEAR0 + year)) && day >= 0 && overflow >= 0
      ensures overflow > 0 ==> day * SECS_DAY > TIME_MAX
    {
      hide DaysTo, Quot, Rem;
      var epoch := EPOCH_YR;
      var tmYear := year + YEAR0;
      overflow := 0;
      if LONG_MAX / 365 < tmYear - epoch {
        overflow := overflow + 1;
      }
      day := (tmYear - epoch) * 365;
      if LONG_MAX - day < Quot(tmYear - epoch, 4) + 1 {
        overflow := overflow + 1;
      }
      day := day + Quot(tmYear - epoch, 4) + (if Rem(tmYear, 4) != 0 && Rem(tmYear, 4) < Rem(epoch, 4) then 1 else 0);
      day := day - (Quot(tmYear - epoch, 100)
                    + (if Rem(tmYear, 100) != 0 && Rem(tmYear, 100) < Rem(epoch, 100) then 1 else 0));
      day := day + Quot(tmYear - epoch, 400)
             + (if Rem(tmYear, 400) != 0 && Rem(tmYear, 400) < Rem(epoch, 400) then 1 else 0);
      QuotientsCountLeapDays(tmYear);
      ClosedForm(tmYear);
      QuarterBound(tmYear - epoch);
    }

    /** The second half of clock_mktime, for a normalised date since 1970: the day of the year, the seconds with the
        tests for an overflow, and the day of the week. */
    method CountSeconds() returns (time: int)
      requires Normal() && year >= 70 && At() >= 0
      modifies this`yday, this`wday
      ensures time == if At() <= 0xFFFF_FFFF then ToTimeT(At()) else -1
      ensures yday == YearDay(mday, mon, year) && wday == (4 + At() / 86400) % 7
      ensures At() == SecondsSinceTheEpoch(sec, min, hour, yday, year)
    {
      hide DaysTo, MonthLength, Rem, DaysBefore, SecondsSinceTheEpoch, ToTimeT, LeapDays, YearDay;
      var day, overflow := DaysBeforeYear();
      BeforeIsPositive(YEAR0 + year, mon);
      yday := DayOfYear();
      YearDayIs(mday, mon, year, yday);
      if day + yday < 0 {
        overflow := overflow + 1;
      }
      InstantOf(sec, min, hour, mday, mon, year, day, yday);
      day := day + yday;
      wday := Rem(day + 4, 7);
      var seconds := (hour * 60 + min) * 60 + sec;
      if (TIME_MAX - seconds) / SECS_DAY < day {
        overflow := overflow + 1;
      }
      DayAndSeconds(day, seconds);
      seconds := seconds + day * SECS_DAY;
      SameFormula(sec, min, hour, mday, mon, year, yday);
      if overflow > 0 {
        return -1;
      }
      time := ToTimeT(seconds);
    }

    /** clock_mktime. The instant of the fields stays the same; the answer, the day of the year and the day of the week
        are those of the Gregorian calendar. */
    method MkTime() returns (time: int)
      modifies this
      ensures Normal() && At() == old(At())
      ensures time == if At() < 0 || At() > 0xFFFF_FFFF then -1
                      else if At() <= 0x7FFF_FFFF then At() else At() - 0x1_0000_0000
      ensures At() < 0 <==> year < 70
      ensures year >= 70 ==>
                yday == mday - 1 + if mon <= 1 then 31 * mon
                                   else (153 * (mon - 2) + 2) / 5 + 59 + if Gregorian(year + 1900) then 1 else 0
      ensures year >= 70 ==>
                At() == sec + 60 * min + 3600 * hour
                        + 86400 * (yday + 365 * (year - 70) + (year - 69) / 4 - (year - 1) / 100 + (year + 299) / 400)
      ensures year >= 70 ==> wday == (4 + At() / 86400) % 7
      ensures year < 70 ==> yday == old(yday) && wday == old(wday)
    {
      hide DaysTo, MonthLength, Rem, DaysBefore, SecondsSinceTheEpoch, LeapDays;
      var day := NormaliseTime();
      NormaliseMonth();
      day := day + (mday - 1);
      assert Instant(sec, min, hour, day + 1, mon, year) == old(At());
      NormaliseDay(day);
      BeforeTheEpoch(sec, min, hour, mday, mon, year);
      if year < EPOCH_YR - YEAR0 {
        return -1;
      }
      time := CountSeconds();
      FormulaIs(sec, min, hour, yday, year);
    }
  }

  /** The day of the year, from 0. */
  function YearDay(mday: int, mon: int, year: int): int {
    mday - 1 + if mon <= 1 then 31 * mon
               else (153 * (mon - 2) + 2) / 5 + 59 + if Gregorian(year + 1900) then 1 else 0
  }

  lemma YearDayIs(mday: int, mon: int, year: int, yday: int)
    requires 0 <= mon < 12 && yday == DaysBefore(YEAR0 + year, mon) + (mday - 1)
    ensures yday == YearDay(mday, mon, year)
  {
    DaysBeforeIs(YEAR0 + year, mon);
    hide DaysBefore;
  }

  lemma InstantOf(sec: int, min: int, hour: int, mday: int, mon: int, year: int, day: int, yday: int)
    requires 0 <= mon < 12 && day == DaysTo(12 * (YEAR0 + year)) && yday == DaysBefore(YEAR0 + year, mon) + (mday - 1)
    ensures Instant(sec, min, hour, mday, mon, year) == (hour * 60 + min) * 60 + sec + (day + yday) * SECS_DAY
  {
    hide DaysTo, DaysBefore;
    MonthsAddUp(YEAR0 + year, mon);
  }

  lemma QuarterBound(n: int)
    requires n >= 0
    ensures LONG_MAX / 365 < n || LONG_MAX - n * 365 < Quot(n, 4) + 1 ==> n > 5_000_000
    ensures n > 5_000_000 ==> (n * 365 + LeapDays(n + EPOCH_YR)) * SECS_DAY > TIME_MAX
    ensures n * 365 + LeapDays(n + EPOCH_YR) >= 0
  {
    assert LeapDays(n + EPOCH_YR) >= -(n + 69) / 100;
  }

  lemma {:induction false} BeforeIsPositive(year: int, mon: int)
    requires 0 <= mon <= 12
    ensures DaysBefore(year, mon) >= 0
  {
    if mon > 0 {
      BeforeIsPositive(year, mon - 1);
    }
  }

  lemma DayAndSeconds(day: int, seconds: int)
    requires day >= 0 && 0 <= seconds < SECS_DAY
    ensures (seconds + day * SECS_DAY) / SECS_DAY == day
    ensures (TIME_MAX - seconds) / SECS_DAY < day <==> seconds + day * SECS_DAY > TIME_MAX
    ensures Rem(day + 4, 7) == (4 + day) % 7
  {}

  /** The instant of a normalised date since 1970 is what the standard's formula says. */
  lemma SameFormula(sec: int, min: int, hour: int, mday: int, mon: int, year: int, yday: int)
    requires year >= 70 && 0 <= mon < 12
    requires yday == DaysBefore(YEAR0 + year, mon) + mday - 1
    ensures Instant(sec, min, hour, mday, mon, year) == SecondsSinceTheEpoch(sec, min, hour, yday, year)
  {
    MonthsAddUp(YEAR0 + year, mon);
    ClosedForm(YEAR0 + year);
    hide DaysTo, DaysBefore;
  }

  lemma FormulaIs(sec: int, min: int, hour: int, yday: int, year: int)
    ensures SecondsSinceTheEpoch(sec, min, hour, yday, year)
            == sec + 60 * min + 3600 * hour
               + 86400 * (yday + 365 * (year - 70) + (year - 69) / 4 - (year - 1) / 100 + (year + 299) / 400)
  {}

  /** What the fields mean, without the table of months: any number of months counts from the start of its year. */
  lemma InstantIs(sec: int, min: int, hour: int, mday: int, mon: int, year: int)
    ensures var n := 12 * (year + 1900) + mon;
            var y, m := n / 12, n % 12;
            Instant(sec, min, hour, mday, mon, year)
            == sec + 60 * min + 3600 * hour + 86400 * (mday - 1)
               + 86400 * (365 * (y - 1970) + (y - 1969) / 4 - (y - 1901) / 100 + (y - 1601) / 400
                          + if m <= 1 then 31 * m
                            else (153 * (m - 2) + 2) / 5 + 59 + if Gregorian(y) then 1 else 0)
  {
    DaysToIs(12 * (year + 1900) + mon);
    hide DaysTo;
  }

  /** The answer determines the instant, except that the last second before 2^32 answers like an error. */
  lemma TimeTReadsBack(n: int)
    requires 0 <= n <= TIME_MAX
    ensures ToTimeT(n) % 0x1_0000_0000 == n && -0x8000_0000 <= ToTimeT(n) <= LONG_MAX
    ensures ToTimeT(n) == -1 <==> n == TIME_MAX
  {}

  lemma LengthBounds(year: int, mon: int)
    requires 0 <= mon < 12
    ensures 28 <= MonthLength(year, mon) <= 31
  {}

  lemma BeforeTheEpoch(sec: int, min: int, hour: int, mday: int, mon: int, year: int)
    requires 0 <= sec < 60 && 0 <= min < 60 && 0 <= hour < 24 && 0 <= mon < 12
    requires 1 <= mday <= MonthLength(YEAR0 + year, mon)
    ensures Instant(sec, min, hour, mday, mon, year) < 0 <==> year < 70
  {
    hide DaysTo, MonthLength;
    var n := 12 * (YEAR0 + year) + mon;
    NextMonth(YEAR0 + year, mon);
    DaysToBounds(n);
    DaysToBounds(n + 1);
  }
}
