/** gmtime and mktime: seconds since 1970 and calendar dates, under the rule that every fourth year is a leap year. */
module Calendar {
  const EPOCH := 1970
  const DAY := 86400

  /** The month lengths that gmtime looks up. */
  const MONTH_DAYS: seq<int> := [31, 28, 31, 30, 31, 30, 31, 31, 30, 31, 30, 31]

  // ----- the calendar

  predicate IsLeap(year: int) { year % 4 == 0 }

  function YearDays(year: int): int { if IsLeap(year) then 366 else 365 }

  /** Thirty days has September, April, June and November; all the rest have 31, but for February. */
  function MonthDays(leap: bool, mon: int): (n: int)
    ensures 28 <= n <= 31
    ensures n == 30 <==> mon in {8, 3, 5, 10}
    ensures n < 30 <==> mon == 1
    ensures n == 28 <==> mon == 1 && !leap
  {
    if mon == 1 then (if leap then 29 else 28) else if mon in {3, 5, 8, 10} then 30 else 31
  }

  /** The table agrees, and has one day less for February of a leap year. */
  lemma TableIsRight(leap: bool, mon: int)
    requires 0 <= mon < 12
    ensures MonthDays(leap, mon) == MONTH_DAYS[mon] + if leap && mon == 1 then 1 else 0
  {
  }

  /** The year day on which each month of a year begins, in days from 1 January. */
  lemma MonthsBegin(leap: bool)
    ensures var d := if leap then 1 else 0;
            && MonthStart(leap, 0) == 0 && MonthStart(leap, 1) == 31
            && MonthStart(leap, 2) == 59 + d && MonthStart(leap, 3) == 90 + d
            && MonthStart(leap, 4) == 120 + d && MonthStart(leap, 5) == 151 + d
            && MonthStart(leap, 6) == 181 + d && MonthStart(leap, 7) == 212 + d
            && MonthStart(leap, 8) == 243 + d && MonthStart(leap, 9) == 273 + d
            && MonthStart(leap, 10) == 304 + d && MonthStart(leap, 11) == 334 + d
            && MonthStart(leap, 12) == 365 + d
  {
    MonthStartSteps(leap, 1);
    MonthStartSteps(leap, 4);
    MonthStartSteps(leap, 7);
    MonthStartSteps(leap, 10);
  }

  lemma MonthStartSteps(leap: bool, mon: nat)
    ensures mon > 0 ==> MonthStart(leap, mon) == MonthStart(leap, mon - 1) + MonthDays(leap, mon - 1)
    ensures MonthStart(leap, mon + 1) == MonthStart(leap, mon) + MonthDays(leap, mon)
    ensures MonthStart(leap, mon + 2) == MonthStart(leap, mon + 1) + MonthDays(leap, mon + 1)
  {
  }

  /** The number of days in a year before its month `mon`. */
  function MonthStart(leap: bool, mon: nat): int {
    if mon == 0 then 0 else MonthStart(leap, mon - 1) + MonthDays(leap, mon - 1)
  }

  /** The number of days from 1 January 1970 to 1 January of the year; negative for the years before. */
  function YearStart(year: int): int {
    365 * (year - EPOCH) + (year - 1) / 4 - (EPOCH - 1) / 4
  }

  /** This fixes YearStart: it is 0 for 1970, and each year adds its days. */
  lemma YearStartIsSum(year: int)
    ensures YearStart(EPOCH) == 0
    ensures YearStart(year + 1) == YearStart(year) + YearDays(year)
  {
    var q := year / 4;
    var r := year % 4;
    assert year == 4 * q + r;
    if r == 0 {
      assert (year - 1) / 4 == q - 1;
    } else {
      assert (year - 1) / 4 == q;
    }
  }

  lemma YearStartGrows(a: int, b: int)
    requires a < b
    ensures YearStart(a) + YearDays(a) <= YearStart(b)
  {
    YearStartIsSum(a);
    assert (a + 1 - 1) / 4 <= (b - 1) / 4;
  }

  lemma {:induction false} MonthStartGrows(leap: bool, a: nat, b: nat)
    requires a <= b
    ensures MonthStart(leap, a) <= MonthStart(leap, b)
    ensures a < b ==> MonthStart(leap, a) + MonthDays(leap, a) <= MonthStart(leap, b)
    decreases b
  {
    if a < b { MonthStartGrows(leap, a, b - 1); }
  }

  /** The end of each month in a year that is no leap year. */
  const MON_DAYS: seq<int> := [31, 59, 90, 120, 151, 181, 212, 243, 273, 304, 334, 365]

  /** The table of mktime agrees with the month lengths of gmtime. */
  lemma {:induction false} MonDays(leap: bool, mon: int)
    requires 1 <= mon <= 12
    ensures MonthStart(leap, mon) == MON_DAYS[mon - 1] + if leap && mon > 1 then 1 else 0
    decreases mon
  {
    if mon > 1 { MonDays(leap, mon - 1); }
  }

  lemma YearIsItsMonths(year: int)
    ensures MonthStart(IsLeap(year), 12) == YearDays(year)
  {
    MonDays(IsLeap(year), 12);
  }

  // ----- dates

  datatype Date = Date(year: int, mon: int, mday: int, hour: int, min: int, sec: int)

  /** Month 0 is January; the year is the full one. */
  predicate InRange(d: Date) {
    && 0 <= d.mon < 12 && 1 <= d.mday <= MonthDays(IsLeap(d.year), d.mon)
    && 0 <= d.hour < 24 && 0 <= d.min < 60 && 0 <= d.sec < 60
  }

  function DayNumber(d: Date): int
    requires 0 <= d.mon
  {
    YearStart(d.year) + MonthStart(IsLeap(d.year), d.mon) + d.mday - 1
  }

  function SecondsOf(d: Date): int
    requires 0 <= d.mon
  {
    DayNumber(d) * DAY + d.hour * 3600 + d.min * 60 + d.sec
  }

  predicate DayBefore(a: Date, b: Date) {
    a.year < b.year || (a.year == b.year && (a.mon < b.mon || (a.mon == b.mon && a.mday < b.mday)))
  }

  predicate SameDay(a: Date, b: Date) { a.year == b.year && a.mon == b.mon && a.mday == b.mday }

  /** Lexicographic order of (year, month, day, hour, minute, second). */
  predicate Before(a: Date, b: Date) {
    DayBefore(a, b) ||
    (SameDay(a, b) && (a.hour < b.hour || (a.hour == b.hour && (a.min < b.min || (a.min == b.min && a.sec < b.sec)))))
  }

  lemma DayInYear(d: Date)
    requires InRange(d)
    ensures YearStart(d.year) <= DayNumber(d) < YearStart(d.year) + YearDays(d.year)
  {
    MonthStartGrows(IsLeap(d.year), 0, d.mon);
    MonthStartGrows(IsLeap(d.year), d.mon, 12);
    YearIsItsMonths(d.year);
  }

  lemma EarlierDay(a: Date, b: Date)
    requires InRange(a) && InRange(b) && DayBefore(a, b)
    ensures DayNumber(a) < DayNumber(b)
  {
    if a.year < b.year {
      DayInYear(a);
      DayInYear(b);
      YearStartGrows(a.year, b.year);
    } else if a.mon < b.mon {
      MonthStartGrows(IsLeap(a.year), a.mon, b.mon);
    }
  }

  /** Counting seconds keeps the order of dates, both ways. */
  lemma SecondsAreOrdered(a: Date, b: Date)
    requires InRange(a) && InRange(b)
    ensures SecondsOf(a) < SecondsOf(b) <==> Before(a, b)
  {
    if DayBefore(a, b) {
      EarlierDay(a, b);
    } else if DayBefore(b, a) {
      EarlierDay(b, a);
    }
  }

  /** So no two dates are the same second. */
  lemma SecondsIdentify(a: Date, b: Date)
    requires InRange(a) && InRange(b) && SecondsOf(a) == SecondsOf(b)
    ensures a == b
  {
    SecondsAreOrdered(a, b);
    SecondsAreOrdered(b, a);
  }

  /** What a date in range is, in full. */
  lemma RangeInFull(d: Date)
    ensures InRange(d) <==>
            && 0 <= d.mon <= 11 && 0 <= d.hour <= 23 && 0 <= d.min <= 59 && 0 <= d.sec <= 59 && d.mday >= 1
            && d.mday <= [31, if d.year % 4 == 0 then 29 else 28, 31, 30, 31, 30, 31, 31, 30, 31, 30, 31][d.mon]
  {
  }

  /** What its seconds are, in full. */
  lemma SecondsInFull(d: Date)
    requires 0 <= d.mon <= 11
    ensures var days := 365 * (d.year - 1970) + (d.year - 1969) / 4
                        + [0, 31, 59, 90, 120, 151, 181, 212, 243, 273, 304, 334][d.mon]
                        + (if d.year % 4 == 0 && d.mon >= 2 then 1 else 0) + d.mday - 1;
            SecondsOf(d) == 86400 * days + 3600 * d.hour + 60 * d.min + d.sec
  {
    MonthsBegin(IsLeap(d.year));
    assert (d.year - 1) / 4 - 1969 / 4 == (d.year - 1969) / 4;
  }

  // ----- the program

  /** C's division: towards zero. */
  function CDiv(a: int, b: int): int
    requires b > 0
  {
    if a >= 0 then a / b else -((-a) / b)
  }

  /** The day before the epoch was a Wednesday; going back from it, the weekday should go back as well. */
  lemma WeekdayBackwards(days: int)
    ensures (3 + days) % 7 == (4 + (-days - 1)) % 7 <==> days % 7 == 0
  {
    var q, r := days / 7, days % 7;
    assert (3 + days) % 7 == (3 + r) % 7;
    assert 3 - days == 3 - r + (-q) * 7;
    assert (3 - days) % 7 == (3 - r) % 7;
  }

  /** The day, counted from 1 January 1970, is the 1 January of a later year. */
  ghost predicate NewYear(day: int) {
    exists y {:trigger YearStart(y)} :: y > EPOCH && YearStart(y) == day
  }

  lemma NewYearDate(d: Date, day: int)
    requires InRange(d) && DayNumber(d) == day
    ensures d.year > EPOCH && d.mon == 0 && d.mday == 1 <==> NewYear(day)
  {
    if y :| y > EPOCH && YearStart(y) == day {
      var first := d.(year := y, mon := 0, mday := 1);
      assert DayNumber(first) == day;
      SecondsIdentify(d, first);
    } else if d.mon == 0 && d.mday == 1 {
      assert YearStart(d.year) == day;
    }
  }

  /** In the search for the month of a day of the year `first`, `days` are left over at a month: down to its end, or
      up from its start; or the next year is reached. */
  predicate AtMonth(neg: bool, first: int, year: int, mon: int, days: int, day: int) {
    && 0 <= mon < 12
    && (neg ==>
          && year == first && days < MonthStart(IsLeap(first), mon + 1)
          && day == YearStart(year) + MonthStart(IsLeap(first), mon + 1) - 1 - days)
    && (!neg && year == first ==>
          && day == YearStart(year) + MonthStart(IsLeap(first), mon) + days
          && days <= MonthStart(IsLeap(first), 12) - MonthStart(IsLeap(first), mon))
    && (year != first ==> !neg && year == first + 1 && mon == 0 && days == 0 && day == YearStart(year))
  }

  lemma FirstMonth(neg: bool, year: int, days: int, day: int)
    requires 0 <= days
    requires neg ==> days < YearDays(year) && day == YearStart(year) + YearDays(year) - 1 - days
    requires !neg ==> days <= YearDays(year) && day == YearStart(year) + days
    ensures AtMonth(neg, year, year, if neg then 11 else 0, days, day)
  {
    YearIsItsMonths(year);
  }

  /** At a month with more days than are left over, that is the month, and they give its day. */
  lemma FoundMonth(neg: bool, first: int, year: int, mon: int, days: int, day: int)
    requires AtMonth(neg, first, year, mon, days, day) && 0 <= days < MonthDays(IsLeap(first), mon)
    ensures var mday := if neg then MonthDays(IsLeap(first), mon) - days else 1 + days;
            && mday == (if neg then MonthDays(IsLeap(first), mon) else 1) + (if neg then -1 else 1) * days
            && 1 <= mday <= MonthDays(IsLeap(year), mon)
            && day == YearStart(year) + MonthStart(IsLeap(year), mon) + mday - 1
            && (year == first || (year == first + 1 && !neg && mon == 0 && mday == 1))
    ensures !neg && year == first ==> day < YearStart(first) + YearDays(first)
  {
    YearIsItsMonths(first);
    MonthStartGrows(IsLeap(first), mon + 1, 12);
    MonthStartGrows(IsLeap(first), mon, 12);
  }

  lemma NextMonth(neg: bool, first: int, year: int, mon: int, days: int, day: int)
    requires AtMonth(neg, first, year, mon, days, day) && days >= MonthDays(IsLeap(first), mon)
    ensures year == first && (neg ==> mon > 0)
    ensures var mon', days' := mon + (if neg then -1 else 1), days - MonthDays(IsLeap(first), mon);
            && (mon' < 12 ==> AtMonth(neg, first, year, mon', days', day))
            && (mon' == 12 ==> AtMonth(neg, first, year + 1, 0, days', day) && days == MonthDays(IsLeap(first), mon))
  {
    MonthStartGrows(IsLeap(first), mon + 1, 12);
    YearIsItsMonths(first);
    YearStartIsSum(first);
  }

  class Tm {
    var year: int   // since 1900
    var mon: int
    var mday: int
    var hour: int
    var min: int
    var sec: int
    var wday: int
    var yday: int
    var isdst: int

    ghost function Fields(): Date
      reads this
    {
      Date(year + 1900, mon, mday, hour, min, sec)
    }

    /** gmtime, into the static structure. */
    method Gmtime(time: int)
      modifies this
      ensures InRange(Fields()) && SecondsOf(Fields()) == time
      ensures Fields() == Date(year + 1900, mon, mday, hour, min, sec)
      ensures yday == DayNumber(Fields()) - YearStart(Fields().year) <==> !(time >= 0 && NewYear(time / DAY))
      ensures time >= 0 && NewYear(time / DAY) ==> yday == YearDays(Fields().year - 1)
      ensures wday == (4 + DayNumber(Fields())) % 7 <==> time >= 0 || (-time - 1) / DAY % 7 == 0
      ensures wday == if time >= 0 then (4 + time / 86400) % 7 else (3 + (-time - 1) / 86400) % 7
      ensures isdst == -1
    {
      var neg := time < 0;
      var t := if neg then -time - 1 else time;
      var days, seconds := t / DAY, t % DAY;
      ghost var day := if neg then -days - 1 else days;
      if neg {
        wday := (3 + days) % 7;
        seconds := DAY - 1 - seconds;
      } else {
        wday := (4 + days) % 7;
      }
      assert time == day * DAY + seconds && 0 <= seconds < DAY;
      WeekdayBackwards(-day - 1);
      FindDate(neg, days, day);
      SetClock(seconds);
      isdst := -1;
    }

    /** Sets the fields of the date. */
    method FindDate(neg: bool, days: int, ghost day: int)
      requires days >= 0 && day == if neg then -days - 1 else days
      modifies `year, `mon, `mday, `yday
      ensures 0 <= mon < 12 && 1 <= mday <= MonthDays(IsLeap(year + 1900), mon)
      ensures day == YearStart(year + 1900) + MonthStart(IsLeap(year + 1900), mon) + mday - 1
      ensures yday == day - YearStart(year + 1900) <==> neg || !NewYear(day)
      ensures !neg && NewYear(day) ==> yday == YearDays(year + 1899)
    {
      var left := FindYear(neg, days, day);
      FindMonth(neg, left, day);
      NewYearDate(Date(year + 1900, mon, mday, 0, 0, 0), day);
    }

    method SetClock(seconds: int)
      requires 0 <= seconds < DAY
      modifies `hour, `min, `sec
      ensures 0 <= hour < 24 && 0 <= min < 60 && 0 <= sec < 60
      ensures hour * 3600 + min * 60 + sec == seconds
    {
      hour := seconds / 3600;
      min := seconds % 3600 / 60;
      sec := seconds % 60;
    }

    /** Steps through the years, from 1969 down or from 1970 up. Going up it may stop a year early, with all
        days of that year left. */
    method FindYear(neg: bool, days0: int, ghost day: int) returns (days: int)
      requires days0 >= 0 && day == if neg then -days0 - 1 else days0
      modifies `year, `yday
      ensures 0 <= days
      ensures neg ==> days < YearDays(year) && day == YearStart(year) + YearDays(year) - 1 - days
      ensures !neg ==> days <= YearDays(year) && day == YearStart(year) + days && year >= EPOCH
      ensures yday == if neg then YearDays(year) - days - 1 else days
      ensures !neg && year > EPOCH ==> days > 0
    {
      days := days0;
      year := if neg then 1969 else EPOCH;
      YearStartIsSum(1969);
      while (if neg then YearDays(year) <= days else YearDays(year) < days)
        invariant days >= 0
        invariant neg ==> day == YearStart(year) + YearDays(year) - 1 - days
        invariant !neg ==> day == YearStart(year) + days && year >= EPOCH
        invariant !neg && year > EPOCH ==> days > 0
        decreases days
      {
        YearStartIsSum(year - 1);
        YearStartIsSum(year);
        days := days - YearDays(year);
        year := year + (if neg then -1 else 1);
      }
      yday := if neg then YearDays(year) - days - 1 else days;
    }

    /** Steps through the months, from December down or from January up; behind December comes the next January. */
    method FindMonth(neg: bool, days0: int, ghost day: int)
      requires 0 <= days0
      requires neg ==> days0 < YearDays(year) && day == YearStart(year) + YearDays(year) - 1 - days0
      requires !neg ==> days0 <= YearDays(year) && day == YearStart(year) + days0 && year >= EPOCH
      modifies `year, `mon, `mday
      ensures 0 <= mon < 12 && 1 <= mday <= MonthDays(IsLeap(year + 1900), mon)
      ensures day == YearStart(year + 1900) + MonthStart(IsLeap(year + 1900), mon) + mday - 1
      ensures !neg && days0 == YearDays(old(year)) ==> year + 1900 == old(year) + 1 && mon == 0 && mday == 1
      ensures neg || days0 < YearDays(old(year)) ==> year + 1900 == old(year)
    {
      var step := if neg then -1 else 1;
      ghost var first := year;
      var days, monthdays;
      year, mon, days, monthdays := SearchMonth(neg, year, days0, day);
      FoundMonth(neg, first, year, mon, days, day);
      mday := (if neg then monthdays else 1) + step * days;
      year := year - 1900;
    }

    /** The month, the days left over there, and its length; behind December comes the next January. */
    static method SearchMonth(neg: bool, year0: int, days0: int, ghost day: int)
      returns (year: int, mon: int, days: int, monthdays: int)
      requires 0 <= days0
      requires neg ==> days0 < YearDays(year0) && day == YearStart(year0) + YearDays(year0) - 1 - days0
      requires !neg ==> days0 <= YearDays(year0) && day == YearStart(year0) + days0
      ensures AtMonth(neg, year0, year, mon, days, day) && 0 <= days < monthdays == MonthDays(IsLeap(year0), mon)
      ensures year != year0 ==> days0 == YearDays(year0)
    {
      year, days, mon := year0, days0, if neg then 11 else 0;
      var leap := IsLeap(year);
      monthdays := MonthLength(leap, mon);
      FirstMonth(neg, year, days0, day);
      while monthdays <= days
        invariant 0 <= days && AtMonth(neg, year0, year, mon, days, day)
        invariant monthdays == MonthDays(leap, mon) && (year != year0 ==> days0 == YearDays(year0))
        decreases days
      {
        NextMonth(neg, year0, year, mon, days, day);
        mon := mon + (if neg then -1 else 1);
        days := days - monthdays;
        if mon == 12 {
          mon := 0;
          year := year + 1;
        }
        monthdays := MonthLength(leap, mon);
      }
    }

    /** A month's length, from the table. */
    static method MonthLength(leap: bool, mon: int) returns (monthdays: int)
      requires 0 <= mon < 12
      ensures monthdays == MonthDays(leap, mon)
    {
      monthdays := MONTH_DAYS[mon];
      if leap && mon == 1 {
        monthdays := monthdays + 1;
      }
    }

    /** mktime; `timezone` is what tzset finds. */
    method Mktime(timezone: int) returns (r: int)
      requires 0 <= mon < 12
      ensures r == SecondsOf(Date(year + 1900, mon, mday, hour, min, sec)) + timezone
    {
      var leapYear := IsLeap(year + 1900);
      var tyears := year - 70;
      var leaps := CDiv(tyears + 2, 4);
      if tyears < 0 {
        leaps := CDiv(tyears - 2, 4);
        if leapYear && mon > 1 { leaps := leaps + 1; }
      } else {
        leaps := CDiv(tyears + 2, 4);
        if leapYear && (mon == 0 || mon == 1) { leaps := leaps - 1; }
      }
      var tdays := if mon > 0 then MON_DAYS[mon - 1] else 0;
      LeapDays(year + 1900, mon, leaps);
      tdays := tdays + (mday - 1);
      tdays := tdays + tyears * 365 + leaps;
      return tdays * DAY + hour * 3600 + min * 60 + sec + timezone;
    }
  }

  /** The truncating formula counts the leap days between 1970 and the first of the month, both ways in time. */
  lemma LeapDays(y: int, mon: int, leaps: int)
    requires 0 <= mon < 12
    requires leaps == if y < EPOCH then CDiv(y - EPOCH - 2, 4) + (if IsLeap(y) && mon > 1 then 1 else 0)
                      else CDiv(y - EPOCH + 2, 4) - (if IsLeap(y) && mon <= 1 then 1 else 0)
    ensures (y - EPOCH) * 365 + leaps + (if mon > 0 then MON_DAYS[mon - 1] else 0)
         == YearStart(y) + MonthStart(IsLeap(y), mon)
  {
    if mon > 0 { MonDays(IsLeap(y), mon); }
    var q, r := y / 4, y % 4;
    assert y == 4 * q + r && 0 <= r < 4;
    assert (y - 1) / 4 == if r == 0 then q - 1 else q;
    if y < EPOCH {
      assert CDiv(y - EPOCH - 2, 4) == -((1972 - 4 * q - r) / 4);
      assert (1972 - 4 * q - r) / 4 == if r == 0 then 493 - q else 492 - q;
    } else {
      assert CDiv(y - EPOCH + 2, 4) == (4 * q + r - 1968) / 4 == q - 492;
    }
  }

  /** Breaking a time down and putting it together again gives the time, plus the time zone. */
  method GmtimeThenMktime(t: int, timezone: int, tm: Tm) returns (r: int)
    modifies tm
    ensures r == t + timezone
  {
    tm.Gmtime(t);
    r := tm.Mktime(timezone);
  }

  /** And the other way round: a date in range comes back as it was. */
  method MktimeThenGmtime(tm: Tm, timezone: int)
    requires InRange(tm.Fields())
    modifies tm
    ensures tm.Fields() == old(tm.Fields())
  {
    var r := tm.Mktime(timezone);
    tm.Gmtime(r - timezone);
    SecondsIdentify(tm.Fields(), old(tm.Fields()));
  }

  /** Breaking down later times gives later dates. */
  method GmtimeIsMonotone(a: Tm, b: Tm, s: int, t: int)
    requires a != b && s < t
    modifies a, b
    ensures Before(a.Fields(), b.Fields())
  {
    a.Gmtime(s);
    b.Gmtime(t);
    SecondsAreOrdered(a.Fields(), b.Fields());
  }

  /** The last second of August 1970, and the first of September. */
  method EndOfAugust(a: Tm, b: Tm)
    requires a != b
    modifies a, b
    ensures a.Fields() == Date(1970, 7, 31, 23, 59, 59)
    ensures b.Fields() == Date(1970, 8, 1, 0, 0, 0)
  {
    a.Gmtime(20995199);
    SecondsInFull(Date(1970, 7, 31, 23, 59, 59));
    SecondsIdentify(a.Fields(), Date(1970, 7, 31, 23, 59, 59));
    b.Gmtime(20995200);
    SecondsInFull(Date(1970, 8, 1, 0, 0, 0));
    SecondsIdentify(b.Fields(), Date(1970, 8, 1, 0, 0, 0));
  }

  /** The end of February 1972, which has a 29th. */
  method LeapDay(a: Tm, b: Tm)
    requires a != b
    modifies a, b
    ensures a.Fields() == Date(1972, 1, 29, 23, 59, 59)
    ensures b.Fields() == Date(1972, 2, 1, 0, 0, 0)
  {
    a.Gmtime(68255999);
    SecondsInFull(Date(1972, 1, 29, 23, 59, 59));
    SecondsIdentify(a.Fields(), Date(1972, 1, 29, 23, 59, 59));
    b.Gmtime(68256000);
    SecondsInFull(Date(1972, 2, 1, 0, 0, 0));
    SecondsIdentify(b.Fields(), Date(1972, 2, 1, 0, 0, 0));
  }

  /** For 1 January 1971, tm_yday is not 0. */
  method WrongYearDay(tm: Tm)
    modifies tm
    ensures tm.Fields() == Date(1971, 0, 1, 0, 0, 0) && tm.yday != 0
  {
    YearStartIsSum(EPOCH);
    tm.Gmtime(365 * DAY);
    SecondsIdentify(tm.Fields(), Date(1971, 0, 1, 0, 0, 0));
    assert NewYear(365) by { assert YearStart(1971) == 365; }
  }

  /** 30 December 1969 was a Tuesday, and tm_wday says another day. */
  method WrongWeekday(tm: Tm)
    modifies tm
    ensures tm.Fields() == Date(1969, 11, 30, 0, 0, 0) && tm.wday != (4 + DayNumber(tm.Fields())) % 7 == 2
  {
    YearStartIsSum(1969);
    MonDays(false, 11);
    tm.Gmtime(-2 * DAY);
    SecondsIdentify(tm.Fields(), Date(1969, 11, 30, 0, 0, 0));
  }
}
