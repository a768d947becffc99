/** Calendar arithmetic of libc/src/time.c against "Seconds Since the Epoch" (section 4.16
    of IEEE Std 1003.1-2017). `time_t` and `int` are unbounded here; YearFitsInt says how
    far the source's 32-bit year reaches. */
module Calendar {
  import opened Arith
  import opened Options

  datatype Tm = Tm(sec: int, min: int, hour: int, mday: int, mon: int, year: int, wday: int, yday: int, isdst: int)

  const MONTH_DAYS: seq<nat> := [31, 28, 31, 30, 31, 30, 31, 31, 30, 31, 30, 31]
  const BEFORE_MONTH: seq<nat> := [0, 31, 59, 90, 120, 151, 181, 212, 243, 273, 304, 334, 365]

  predicate IsLeap(year: int) {
    (year % 4 == 0 && year % 100 != 0) || year % 400 == 0
  }

  function YearDays(year: int): nat { if IsLeap(year) then 366 else 365 }

  function MonthDays(month: int, year: int): nat
    requires 0 <= month < 12
  {
    if month == 1 && IsLeap(year) then 29 else MONTH_DAYS[month]
  }

  // ----- The reference -----

  function DaysBeforeYear(year: int): int {
    365 * (year - 1970) + (year - 1969) / 4 - (year - 1901) / 100 + (year - 1601) / 400
  }

  function DaysBeforeMonth(month: int, year: int): nat
    requires 0 <= month <= 12
  {
    BEFORE_MONTH[month] + if month > 1 && IsLeap(year) then 1 else 0
  }

  /** The field ranges that `mktime` checks. */
  predicate Valid(tm: Tm) {
    && 0 <= tm.mon <= 11 && 1 <= tm.mday <= MonthDays(tm.mon, tm.year + 1900)
    && 0 <= tm.hour <= 23 && 0 <= tm.min <= 59 && 0 <= tm.sec <= 60
  }

  function DayOfYear(tm: Tm): int
    requires 0 <= tm.mon < 12
  {
    DaysBeforeMonth(tm.mon, tm.year + 1900) + tm.mday - 1
  }

  function TimeOfDay(tm: Tm): int { tm.hour * 3600 + tm.min * 60 + tm.sec }

  /** The formula of the standard, with tm_yday computed from month and day. */
  function Posix(tm: Tm): int
    requires 0 <= tm.mon < 12
  {
    tm.sec + tm.min * 60 + tm.hour * 3600 + DayOfYear(tm) * 86400
    + (tm.year - 70) * 31536000 + (tm.year - 69) / 4 * 86400
    - (tm.year - 1) / 100 * 86400 + (tm.year + 299) / 400 * 86400
  }

  function DayNumber(tm: Tm): int
    requires 0 <= tm.mon < 12
  {
    DaysBeforeYear(tm.year + 1900) + DayOfYear(tm)
  }

  lemma PosixByDays(tm: Tm)
    requires 0 <= tm.mon < 12
    ensures Posix(tm) == 86400 * DayNumber(tm) + TimeOfDay(tm)
  {
  }

  lemma QuotientSteps(year: int)
    ensures (year - 1968) / 4 == (year - 1969) / 4 + if year % 4 == 0 then 1 else 0
    ensures (year - 1900) / 100 == (year - 1901) / 100 + if year % 100 == 0 then 1 else 0
    ensures (year - 1600) / 400 == (year - 1601) / 400 + if year % 400 == 0 then 1 else 0
  {
    var a, b, c := year / 4, year / 100, year / 400;
    assert (year - 1968) / 4 == a - 492 && (year - 1969) / 4 == (year - 1) / 4 - 492;
    assert (year - 1900) / 100 == b - 19 && (year - 1901) / 100 == (year - 1) / 100 - 19;
    assert (year - 1600) / 400 == c - 4 && (year - 1601) / 400 == (year - 1) / 400 - 4;
  }

  lemma LeapRule(year: int)
    ensures year % 400 == 0 ==> year % 100 == 0
    ensures year % 100 == 0 ==> year % 4 == 0
  {
    if year % 400 == 0 { Hundreds(year, 4 * (year / 400)); }
    if year % 100 == 0 { Fours(year, 25 * (year / 100)); }
  }

  lemma Hundreds(n: int, m: int)
    requires n == 100 * m
    ensures n % 100 == 0
  {
  }

  lemma Fours(n: int, m: int)
    requires n == 4 * m
    ensures n % 4 == 0
  {
  }

  lemma YearStep(year: int)
    ensures DaysBeforeYear(year + 1) == DaysBeforeYear(year) + YearDays(year)
  {
    QuotientSteps(year);
    LeapRule(year);
  }

  lemma MonthStep(month: int, year: int)
    requires 0 <= month < 12
    ensures DaysBeforeMonth(month + 1, year) == DaysBeforeMonth(month, year) + MonthDays(month, year)
    ensures DaysBeforeMonth(12, year) == YearDays(year)
  {
    if month == 0 {} else if month == 1 {} else if month == 2 {} else if month == 3 {} else if month == 4 {}
    else if month == 5 {} else if month == 6 {} else if month == 7 {} else if month == 8 {} else if month == 9 {}
    else if month == 10 {} else {}
  }

  lemma {:induction false} YearsGrow(a: int, b: int)
    requires a <= b
    ensures DaysBeforeYear(a) + 365 * (b - a) <= DaysBeforeYear(b)
    decreases b - a
  {
    if a < b { YearStep(b - 1); YearsGrow(a, b - 1); }
  }

  lemma {:induction false} MonthsGrow(a: int, b: int, year: int)
    requires 0 <= a <= b <= 12
    ensures DaysBeforeMonth(a, year) <= DaysBeforeMonth(b, year)
    decreases b - a
  {
    if a < b { MonthStep(b - 1, year); MonthsGrow(a, b - 1, year); }
  }

  lemma DayOfYearRange(tm: Tm)
    requires Valid(tm)
    ensures 0 <= DayOfYear(tm) < YearDays(tm.year + 1900)
    ensures 0 <= TimeOfDay(tm) <= 86400 && (tm.sec <= 59 ==> TimeOfDay(tm) < 86400)
  {
    MonthStep(tm.mon, tm.year + 1900);
    MonthsGrow(tm.mon + 1, 12, tm.year + 1900);
  }

  // ----- mktime -----

  /** The value `mktime` returns: its year loop never runs below 1970. */
  function Mk(tm: Tm): int {
    if !Valid(tm) then -1
    else 86400 * ((if tm.year < 70 then 0 else DaysBeforeYear(tm.year + 1900)) + DayOfYear(tm)) + TimeOfDay(tm)
  }

  method Mktime(tmp: Option<Tm>) returns (r: int)
    ensures tmp.None? ==> r == -1
    ensures tmp.Some? ==> r == Mk(tmp.value)
  {
    if tmp.None? { return -1; }
    var tm := tmp.value;
    var year, month, day := tm.year + 1900, tm.mon, tm.mday;
    if month < 0 || month > 11 { return -1; }
    if day < 1 || day > MonthDays(month, year) { return -1; }
    if tm.hour < 0 || tm.hour > 23 { return -1; }
    if tm.min < 0 || tm.min > 59 { return -1; }
    if tm.sec < 0 || tm.sec > 60 { return -1; }
    var days := 0;
    var y := 1970;
    while y < year
      invariant 1970 <= y && (y <= year || y == 1970)
      invariant days == DaysBeforeYear(y)
    {
      YearStep(y);
      days := days + if IsLeap(y) then 366 else 365;
      y := y + 1;
    }
    ghost var start := days;
    for m := 0 to month
      invariant days == start + DaysBeforeMonth(m, year)
    {
      MonthStep(m, year);
      days := days + MonthDays(m, year);
    }
    days := days + day - 1;
    r := days * 86400;
    r := r + tm.hour * 3600;
    r := r + tm.min * 60;
    r := r + tm.sec;
  }

  /** On valid dates `mktime` is the standard's formula exactly from 1970 on. */
  lemma MkIsPosixExactly(tm: Tm)
    requires Valid(tm)
    ensures Mk(tm) == Posix(tm) <==> tm.year >= 70
  {
    PosixByDays(tm);
    if tm.year < 70 {
      YearsGrow(tm.year + 1900, 1970);
      assert DaysBeforeYear(1970) == 0;
    }
  }

  predicate Before(a: Tm, b: Tm) {
    a.year < b.year || (a.year == b.year &&
    (a.mon < b.mon || (a.mon == b.mon &&
    (a.mday < b.mday || (a.mday == b.mday &&
    (a.hour < b.hour || (a.hour == b.hour &&
    (a.min < b.min || (a.min == b.min && a.sec < b.sec)))))))))
  }

  /** Minutes since the epoch. */
  function MinuteNumber(tm: Tm): int
    requires 0 <= tm.mon < 12
  {
    1440 * DayNumber(tm) + 60 * tm.hour + tm.min
  }

  /** Later dates never get earlier times, and two dates share a time exactly when the earlier
      is a leap second and the later the first second of the next minute. */
  lemma PosixMonotone(a: Tm, b: Tm)
    requires Valid(a) && Valid(b) && Before(a, b)
    ensures Posix(a) <= Posix(b)
    ensures Posix(a) == Posix(b) <==> a.sec == 60 && b.sec == 0 && MinuteNumber(b) == MinuteNumber(a) + 1
  {
    PosixByDays(a); PosixByDays(b);
    if (a.year, a.mon, a.mday) != (b.year, b.mon, b.mday) { LaterDate(a, b); }
  }

  lemma PosixStrictlyMonotone(a: Tm, b: Tm)
    requires Valid(a) && Valid(b) && a.sec <= 59 && Before(a, b)
    ensures Posix(a) < Posix(b)
  {
    PosixMonotone(a, b);
  }

  lemma LaterDate(a: Tm, b: Tm)
    requires Valid(a) && Valid(b) && Before(a, b) && (a.year, a.mon, a.mday) != (b.year, b.mon, b.mday)
    ensures DayNumber(a) < DayNumber(b)
  {
    if a.year < b.year {
      DayOfYearRange(a); DayOfYearRange(b);
      YearsApart(a.year + 1900, b.year + 1900);
    } else {
      LaterInYear(a, b);
    }
  }

  lemma LaterInYear(a: Tm, b: Tm)
    requires Valid(a) && Valid(b) && a.year == b.year && (a.mon < b.mon || (a.mon == b.mon && a.mday < b.mday))
    ensures DayOfYear(a) < DayOfYear(b)
  {
    if a.mon < b.mon { MonthsApart(a.mon, b.mon, a.year + 1900); }
  }

  lemma YearsApart(a: int, b: int)
    requires a < b
    ensures DaysBeforeYear(a) + YearDays(a) <= DaysBeforeYear(b)
  {
    YearStep(a);
    YearsGrow(a + 1, b);
  }

  lemma MonthsApart(a: int, b: int, year: int)
    requires 0 <= a < b < 12
    ensures DaysBeforeMonth(a, year) + MonthDays(a, year) <= DaysBeforeMonth(b, year)
  {
    MonthStep(a, year);
    MonthsGrow(a + 1, b, year);
  }

  // ----- gmtime -----

  /** What it means for `tm` to be the broken-down form of `t`. */
  predicate Represents(tm: Tm, t: int) {
    && Valid(tm) && tm.sec <= 59 && tm.year >= 70 && Posix(tm) == t
    && tm.yday == DayOfYear(tm) && tm.wday == (4 + t / 86400) % 7 && tm.isdst == -1
  }

  lemma RepresentationUnique(a: Tm, b: Tm, t: int)
    requires Represents(a, t) && Represents(b, t)
    ensures a == b
  {
    if Before(a, b) { PosixStrictlyMonotone(a, b); }
    if Before(b, a) { PosixStrictlyMonotone(b, a); }
  }

  /** The broken-down form left for a time before the epoch. */
  predicate Negative(tm: Tm, t: int) {
    var days := CDiv(CDiv(CDiv(t, 60), 60), 24);
    && tm.sec == CRem(t, 60) && tm.min == CRem(CDiv(t, 60), 60) && tm.hour == CRem(CDiv(CDiv(t, 60), 60), 24)
    && tm.year == 70 && tm.mon == 0 && tm.mday == days + 1
    && tm.yday == days && tm.wday == CRem(4 + days, 7) && tm.isdst == -1
  }

  /** The year loop of gmtime. */
  method FindYear(t: int) returns (year: int, days: int)
    ensures year >= 1970 && t == DaysBeforeYear(year) + days && days < YearDays(year)
    ensures days >= 0 || (days == t && year == 1970)
  {
    days, year := t, 1970;
    while days >= YearDays(year)
      invariant year >= 1970 && t == DaysBeforeYear(year) + days
      invariant days >= 0 || (days == t && year == 1970)
      decreases days
    {
      YearStep(year);
      days := days - YearDays(year);
      year := year + 1;
    }
  }

  /** The month loop of gmtime, which never passes December. */
  method FindMonth(yday: int, year: int) returns (month: int, days: int)
    requires yday < YearDays(year)
    ensures 0 <= month < 12 && yday == DaysBeforeMonth(month, year) + days && days < MonthDays(month, year)
    ensures days >= 0 || (days == yday && month == 0)
  {
    days, month := yday, 0;
    MonthStep(0, year);
    while days >= MonthDays(month, year)
      invariant 0 <= month < 12 && yday == DaysBeforeMonth(month, year) + days
      invariant days >= 0 || (days == yday && month == 0)
      decreases days
    {
      MonthStep(month, year);
      days := days - MonthDays(month, year);
      month := month + 1;
    }
  }

  class Time {
    /** The static `current_tm` that every call overwrites. */
    var currentTm: Tm

    constructor ()
    {
      currentTm := Tm(0, 0, 0, 0, 0, 0, 0, 0, 0);
    }

    /** False is the NULL result. */
    method Gmtime(timep: Option<int>) returns (ok: bool)
      modifies this
      ensures ok == timep.Some?
      ensures timep.None? ==> currentTm == old(currentTm)
      ensures timep.Some? && timep.value >= 0 ==> Represents(currentTm, timep.value)
      ensures timep.Some? && timep.value < 0 ==> Negative(currentTm, timep.value)
    {
      if timep.None? { return false; }
      var t := timep.value;
      var sec := CRem(t, 60);
      t := CDiv(t, 60);
      var min := CRem(t, 60);
      t := CDiv(t, 60);
      var hour := CRem(t, 24);
      t := CDiv(t, 24);
      var year, yday := FindYear(t);
      var month, days := FindMonth(yday, year);
      currentTm := Tm(sec, min, hour, days + 1, month, year - 1900, CRem(4 + t, 7), yday, -1);
      if timep.value >= 0 { Assembled(currentTm, timep.value); }
      return true;
    }
  }

  lemma Assembled(tm: Tm, t: int)
    requires t >= 0 && Valid(tm) && tm.year >= 70
    requires tm.sec == t % 60 && tm.min == t / 60 % 60 && tm.hour == t / 60 / 60 % 24
    requires DayNumber(tm) == t / 60 / 60 / 24 && tm.yday == DayOfYear(tm)
    requires tm.wday == (4 + t / 60 / 60 / 24) % 7 && tm.isdst == -1
    ensures Represents(tm, t)
  {
    SplitTime(t);
    PosixByDays(tm);
  }

  lemma SplitTime(t: int)
    requires t >= 0
    ensures t == t / 60 / 60 / 24 * 86400 + t / 60 / 60 % 24 * 3600 + t / 60 % 60 * 60 + t % 60
    ensures t / 60 / 60 / 24 == t / 86400
  {
    assert t == t / 60 * 60 + t % 60;
    assert t / 60 == t / 60 / 60 * 60 + t / 60 % 60;
    assert t / 60 / 60 == t / 60 / 60 / 24 * 24 + t / 60 / 60 % 24;
  }

  // ----- Round trips -----

  lemma NegativeIsInvalid(tm: Tm, t: int)
    requires t < 0 && Negative(tm, t)
    ensures !Valid(tm)
  {
    var u := CDiv(t, 60);
    var v := CDiv(u, 60);
    if tm.sec >= 0 && tm.min >= 0 && tm.hour >= 0 {
      assert u < 0; assert v < 0; assert CDiv(v, 24) < 0;
    }
  }

  /** What gmtime leaves for a time before the epoch: a split of it into days, hours, minutes
      and seconds that are none of them positive, the days counted from 1 January 1970. */
  lemma NegativeSplits(tm: Tm, t: int)
    requires t < 0 && Negative(tm, t)
    ensures t == 86400 * tm.yday + 3600 * tm.hour + 60 * tm.min + tm.sec
    ensures tm.yday <= 0 && -24 < tm.hour <= 0 && -60 < tm.min <= 0 && -60 < tm.sec <= 0
    ensures tm.year == 70 && tm.mon == 0 && tm.mday == tm.yday + 1
    ensures (tm.wday - 4 - tm.yday) % 7 == 0 && -7 < tm.wday < 7
  {
    SplitTime(-t);
    var days := -t / 60 / 60 / 24;
    assert tm.yday == -days;
    WeekdayBefore(days);
  }

  lemma WeekdayBefore(days: nat)
    ensures (CRem(4 - days, 7) - 4 + days) % 7 == 0 && -7 < CRem(4 - days, 7) < 7
  {
    var a := 4 - days;
    if a < 0 { assert -a == -a / 7 * 7 + -a % 7; }
  }

  /** mktime after gmtime gives the time back for every t >= 0 (and for -1, which is also
      the error value); every earlier time is answered with the error value. */
  method MktimeAfterGmtime(t: int) returns (r: int)
    ensures r == if t >= 0 then t else -1
    ensures r == t <==> t >= -1
  {
    var time := new Time();
    var _ := time.Gmtime(Some(t));
    if t >= 0 { MkIsPosixExactly(time.currentTm); } else { NegativeIsInvalid(time.currentTm, t); }
    r := Mktime(Some(time.currentTm));
  }

  predicate SameFields(a: Tm, b: Tm) {
    a.sec == b.sec && a.min == b.min && a.hour == b.hour && a.mday == b.mday && a.mon == b.mon && a.year == b.year
  }

  /** gmtime after mktime gives a valid date back exactly when it is from 1970 on and no
      leap second. */
  lemma GmtimeAfterMktimeExactly(tm: Tm, back: Tm)
    requires Valid(tm) && Represents(back, Mk(tm))
    ensures SameFields(back, tm) <==> tm.year >= 70 && tm.sec <= 59
  {
    if tm.year >= 70 && tm.sec <= 59 {
      MkIsPosixExactly(tm);
      if Before(back, tm) { PosixStrictlyMonotone(back, tm); }
      if Before(tm, back) { PosixStrictlyMonotone(tm, back); }
    }
  }

  lemma ValidDatesHaveTimes(tm: Tm)
    requires Valid(tm)
    ensures Mk(tm) >= 0
  {
    DayOfYearRange(tm);
    if tm.year >= 70 { YearsGrow(1970, tm.year + 1900); }
  }

  /** The length of a month, written out. */
  function MonthLength(month: int, year: int): nat {
    if month == 3 || month == 5 || month == 8 || month == 10 then 30
    else if month != 1 then 31
    else if year % 4 == 0 && (year % 100 != 0 || year % 400 == 0) then 29
    else 28
  }

  /** Exactly the dates that mktime answers, the leap second included. */
  lemma MkAcceptsExactly(tm: Tm)
    ensures Mk(tm) != -1
            <==> && 0 <= tm.mon <= 11 && 1 <= tm.mday <= MonthLength(tm.mon, tm.year + 1900)
                 && 0 <= tm.hour <= 23 && 0 <= tm.min <= 59 && 0 <= tm.sec <= 60
  {
    if 0 <= tm.mon <= 11 { MonthsWrittenOut(tm.mon, tm.year + 1900); }
    if Valid(tm) { ValidDatesHaveTimes(tm); }
  }

  lemma MonthsWrittenOut(month: int, year: int)
    requires 0 <= month < 12
    ensures MonthDays(month, year) == MonthLength(month, year)
  {
    LeapRule(year);
    if month == 0 {} else if month == 1 {} else if month == 2 {} else if month == 3 {} else if month == 4 {}
    else if month == 5 {} else if month == 6 {} else if month == 7 {} else if month == 8 {} else if month == 9 {}
    else if month == 10 {} else {}
  }

  /** The epoch was a Thursday, and weekdays follow one another. */
  lemma Weekdays(tm: Tm, next: Tm, t: int)
    requires Represents(tm, t) && Represents(next, t + 86400)
    ensures next.wday == (tm.wday + 1) % 7 && (t == 0 ==> tm.wday == 4)
  {
    WeekdayOf(tm, t);
    WeekdayOf(next, t + 86400);
    NextWeekday(t, tm.wday, next.wday);
  }

  lemma WeekdayOf(tm: Tm, t: int)
    requires Represents(tm, t)
    ensures tm.wday == (4 + t / 86400) % 7
  {
  }

  lemma NextWeekday(t: int, today: int, tomorrow: int)
    requires today == (4 + t / 86400) % 7 && tomorrow == (4 + (t + 86400) / 86400) % 7
    ensures tomorrow == (today + 1) % 7 && (t == 0 ==> today == 4)
  {
    assert (t + 86400) / 86400 == t / 86400 + 1;
  }

  method GmtimeAfterMktime(tm: Tm) returns (back: Tm)
    requires Valid(tm)
    ensures SameFields(back, tm) <==> tm.year >= 70 && tm.sec <= 59
    ensures tm.year >= 70 && tm.sec <= 59 ==> back.yday == DayOfYear(tm)
  {
    ValidDatesHaveTimes(tm);
    var t := Mktime(Some(tm));
    var time := new Time();
    var _ := time.Gmtime(Some(t));
    back := time.currentTm;
    GmtimeAfterMktimeExactly(tm, back);
  }

  /** The calendar repeats every 400 years, which are 146097 days. */
  lemma FourHundredYears(tm: Tm, later: Tm, t: int)
    requires Represents(tm, t) && Represents(later, t + 146097 * 86400)
    ensures later == tm.(year := tm.year + 400)
  {
    var shifted := tm.(year := tm.year + 400);
    ShiftedDate(tm, shifted);
    WeekdayPeriod(t);
    RepresentationUnique(later, shifted, t + 146097 * 86400);
  }

  lemma ShiftedDate(tm: Tm, shifted: Tm)
    requires Valid(tm) && shifted == tm.(year := tm.year + 400)
    ensures Valid(shifted) && DayOfYear(shifted) == DayOfYear(tm) && Posix(shifted) == Posix(tm) + 146097 * 86400
  {
    PeriodOfLeaps(tm.year + 1900);
    PosixByDays(tm); PosixByDays(shifted);
  }

  lemma PeriodOfLeaps(year: int)
    ensures IsLeap(year + 400) == IsLeap(year)
    ensures DaysBeforeYear(year + 400) == DaysBeforeYear(year) + 146097
  {
    assert (year + 400 - 1969) / 4 == (year - 1969) / 4 + 100;
    assert (year + 400 - 1901) / 100 == (year - 1901) / 100 + 4;
    assert (year + 400 - 1601) / 400 == (year - 1601) / 400 + 1;
    assert (year + 400) % 4 == year % 4;
    assert (year + 400) % 100 == year % 100;
    assert (year + 400) % 400 == year % 400;
  }

  lemma WeekdayPeriod(t: int)
    ensures (4 + (t + 146097 * 86400) / 86400) % 7 == (4 + t / 86400) % 7
  {
    assert (t + 146097 * 86400) / 86400 == t / 86400 + 146097;
    var d := 4 + t / 86400;
    assert 146097 == 7 * 20871;
    assert (d + 7 * 20871) % 7 == d % 7;
  }

  /** The year of `t` fits the source's 32-bit `int` exactly up to the end of year 2^31 - 1. */
  lemma YearFitsInt(tm: Tm, t: int)
    requires Represents(tm, t)
    ensures tm.year + 1900 <= 0x7FFF_FFFF <==> t < 86400 * DaysBeforeYear(0x8000_0000)
  {
    PosixByDays(tm);
    DayOfYearRange(tm);
    YearStep(tm.year + 1900);
    if tm.year + 1900 <= 0x7FFF_FFFF {
      YearsGrow(tm.year + 1901, 0x8000_0000);
    } else {
      YearsGrow(0x8000_0000, tm.year + 1900);
    }
  }
}
