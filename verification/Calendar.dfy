/**
 The proleptic Gregorian calendar (section 4.3.2 of ISO 8601:2004), as day and second numbers.

 Months are numbered through by `k = 12 * year + month - 1`, so month arithmetic has no carries.
 */
module Calendar {
  import opened CInt

  predicate IsLeapYear(year: int) {
    (CMod(year, 4) == 0 && CMod(year, 100) != 0) || CMod(year, 400) == 0
  }

  function DaysInMonth(year: int, month: int): (n: int)
    ensures 1 <= month <= 12 ==> 28 <= n <= 31
  {
    if month < 1 || month > 12 then 0
    else if month == 2 then if IsLeapYear(year) then 29 else 28
    else if month in {4, 6, 9, 11} then 30
    else 31
  }

  function MonthIndex(year: int, month: int): (r: int) {
    12 * year + month - 1
  }

  function MonthLength(k: int): (n: int)
    ensures 28 <= n <= 31
  {
    DaysInMonth(k / 12, k % 12 + 1)
  }

  /** The day number of the first day of month `k`, counting the days from the start of year 0. */
  function MonthStart(k: int): (r: int)
    decreases if k < 0 then -k else k
  {
    if k == 0 then 0
    else if k > 0 then MonthStart(k - 1) + MonthLength(k - 1)
    else MonthStart(k + 1) - MonthLength(k)
  }

  /** What EebusDateIsValid accepts. */
  predicate IsDate(year: int, month: int, day: int) {
    0 <= year <= 2100 && 1 <= month <= 12 && 1 <= day <= DaysInMonth(year, month)
  }

  /** What EebusTimeIsValid accepts. */
  predicate IsTime(hour: int, min: int, sec: int) {
    0 <= hour < 24 && 0 <= min < 60 && 0 <= sec < 60
  }

  /** The years from 0 to 2100 have valid dates, and no others. */
  lemma YearIsValidIff(year: int)
    ensures (exists month, day :: IsDate(year, month, day)) <==> 0 <= year <= 2100
  {
    if 0 <= year <= 2100 {
      assert IsDate(year, 1, 1);
    }
  }

  /** The valid times are the seconds of a day, each once. */
  lemma TimeIsValidIff(hour: int, min: int, sec: int)
    ensures IsTime(hour, min, sec)
            <==> exists n :: 0 <= n < 86400 && hour == n / 3600 && min == n / 60 % 60 && sec == n % 60
  {
    if IsTime(hour, min, sec) {
      var m := 60 * hour + min;
      var n := 60 * m + sec;
      assert n / 60 == m && n % 60 == sec;
      assert m / 60 == hour && m % 60 == min;
      assert n / 3600 == hour;
    }
  }

  datatype Moment = Moment(year: int, month: int, day: int, hour: int, min: int, sec: int)
  {
    predicate TimeInRange() {
      IsTime(hour, min, sec)
    }

    /** A point of the calendar, of whatever year. */
    predicate OnCalendar() {
      1 <= month <= 12 && 1 <= day <= DaysInMonth(year, month) && TimeInRange()
    }

    /** What EebusDateTimeIsValid accepts. */
    predicate IsValid() {
      IsDate(year, month, day) && IsTime(hour, min, sec)
    }

    function Month(): (r: int) {
      MonthIndex(year, month)
    }

    /** Seconds since midnight before the first of the month, less a day. */
    function DayTime(): (r: int) {
      86400 * day + 3600 * hour + 60 * min + sec
    }

    /** The number of the second, counted from the start of year 0. */
    function Second(): (r: int) {
      SecondAt(Month(), day, hour, min, sec)
    }
  }

  function SecondAt(k: int, day: int, hour: int, min: int, sec: int): (r: int) {
    86400 * (MonthStart(k) + day - 1) + 3600 * hour + 60 * min + sec
  }

  /** C's truncating remainder decides leap years before year 0 as well. */
  lemma LeapByRemainder(y: int)
    ensures IsLeapYear(y) <==> (y % 4 == 0 && y % 100 != 0) || y % 400 == 0
    ensures y % 400 == 0 ==> y % 4 == 0 && y % 100 == 0
    ensures y % 100 == 0 ==> y % 4 == 0
  {
    ZeroRemainder4(y);
    ZeroRemainder100(y);
    ZeroRemainder400(y);
    Centuries(y);
  }

  lemma Centuries(y: int)
    ensures y % 400 == 0 ==> y % 4 == 0 && y % 100 == 0
    ensures y % 100 == 0 ==> y % 4 == 0
  {
    if y % 400 == 0 {
      WholeCenturies(y);
    }
    if y % 100 == 0 {
      CenturyIsFours(y);
    }
  }

  lemma WholeCenturies(y: int)
    requires y % 400 == 0
    ensures y % 100 == 0
  {
    assert y == 100 * (4 * (y / 400));
  }

  lemma CenturyIsFours(y: int)
    requires y % 100 == 0
    ensures y % 4 == 0
  {
    assert y == 4 * (25 * (y / 100));
  }

  lemma ZeroRemainder4(y: int)
    ensures CMod(y, 4) == 0 <==> y % 4 == 0
  {
  }

  lemma ZeroRemainder100(y: int)
    ensures CMod(y, 100) == 0 <==> y % 100 == 0
  {
  }

  lemma ZeroRemainder400(y: int)
    ensures CMod(y, 400) == 0 <==> y % 400 == 0
  {
  }

  lemma MonthFollows(k: int)
    ensures MonthStart(k + 1) == MonthStart(k) + MonthLength(k)
  {
  }

  lemma {:induction false} MonthsAreOrdered(k: int, l: int)
    requires k < l
    ensures MonthStart(k) + MonthLength(k) <= MonthStart(l)
    decreases l - k
  {
    MonthFollows(k);
    if k + 1 < l {
      MonthsAreOrdered(k + 1, l);
    }
  }

  lemma MonthOf(year: int, month: int)
    requires 1 <= month <= 12
    ensures MonthIndex(year, month) / 12 == year && MonthIndex(year, month) % 12 == month - 1
  {
  }

  lemma MonthEnds(year: int, month: int)
    requires 1 <= month <= 12
    ensures MonthLength(MonthIndex(year, month)) == DaysInMonth(year, month)
    ensures MonthStart(MonthIndex(year, month) + 1) == MonthStart(MonthIndex(year, month)) + DaysInMonth(year, month)
  {
    MonthOf(year, month);
    MonthFollows(MonthIndex(year, month));
  }

  lemma NextMonthStarts(year: int, month: int, nextYear: int, nextMonth: int)
    requires 1 <= month <= 12
    requires MonthIndex(nextYear, nextMonth) == MonthIndex(year, month) + 1
    ensures MonthStart(MonthIndex(nextYear, nextMonth))
             == MonthStart(MonthIndex(year, month)) + DaysInMonth(year, month)
  {
    MonthEnds(year, month);
  }

  /** EebusDateTimeCompare over the fields, dates first. */
  function Compare(a: Moment, b: Moment): (r: int) {
    if a.year != b.year then a.year - b.year
    else if a.month != b.month then a.month - b.month
    else if a.day != b.day then a.day - b.day
    else if a.hour != b.hour then a.hour - b.hour
    else if a.min != b.min then a.min - b.min
    else a.sec - b.sec
  }

  /** The field-wise comparison has the sign of the difference in seconds. */
  lemma CompareIsChronological(a: Moment, b: Moment)
    requires a.OnCalendar() && b.OnCalendar()
    ensures Compare(a, b) < 0 <==> a.Second() < b.Second()
    ensures Compare(a, b) == 0 <==> a.Second() == b.Second()
    ensures Compare(a, b) == 0 <==> a == b
  {
    MonthOf(a.year, a.month);
    MonthOf(b.year, b.month);
    if a.Month() < b.Month() {
      MonthsAreOrdered(a.Month(), b.Month());
    } else if b.Month() < a.Month() {
      MonthsAreOrdered(b.Month(), a.Month());
    }
  }

  // ---------------------------------------------------------------- the usual closed form

  /** Days from 1 January of year 0 to 1 January of `year`; negative before year 0. */
  function DaysBeforeYear(year: int): (r: int) {
    365 * year + (year + 3) / 4 - (year + 99) / 100 + (year + 399) / 400
  }

  function DaysBeforeMonth(year: int, month: int): (r: int)
    requires 1 <= month <= 13
    decreases month
  {
    if month == 1 then 0 else DaysBeforeMonth(year, month - 1) + DaysInMonth(year, month - 1)
  }

  lemma YearLength(y: int)
    ensures DaysBeforeYear(y + 1) == DaysBeforeYear(y) + if IsLeapYear(y) then 366 else 365
  {
    LeapByRemainder(y);
    assert (y + 4) / 4 == (y + 3) / 4 + if y % 4 == 0 then 1 else 0;
    assert (y + 100) / 100 == (y + 99) / 100 + if y % 100 == 0 then 1 else 0;
    assert (y + 400) / 400 == (y + 399) / 400 + if y % 400 == 0 then 1 else 0;
  }

  lemma MonthsOfYear(y: int)
    ensures DaysBeforeMonth(y, 13) == if IsLeapYear(y) then 366 else 365
  {
    assert DaysBeforeMonth(y, 4) == 31 + DaysInMonth(y, 2) + 31;
    assert DaysBeforeMonth(y, 7) == DaysBeforeMonth(y, 4) + 91;
    assert DaysBeforeMonth(y, 10) == DaysBeforeMonth(y, 7) + 92;
    assert DaysBeforeMonth(y, 13) == DaysBeforeMonth(y, 10) + 92;
  }

  function ClosedForm(k: int): (r: int) {
    DaysBeforeYear(k / 12) + DaysBeforeMonth(k / 12, k % 12 + 1)
  }

  lemma ClosedFormFollows(k: int, next: int)
    requires next == k + 1
    ensures ClosedForm(next) == ClosedForm(k) + MonthLength(k)
  {
    if k % 12 == 11 {
      assert next / 12 == k / 12 + 1 && next % 12 == 0;
      YearLength(k / 12);
      MonthsOfYear(k / 12);
    } else {
      assert next / 12 == k / 12 && next % 12 == k % 12 + 1;
    }
  }

  lemma BothGrowAlike(k: int, next: int)
    requires next == k + 1
    ensures ClosedForm(next) - ClosedForm(k) == MonthStart(next) - MonthStart(k)
  {
    ClosedFormFollows(k, next);
    MonthFollows(k);
  }

  /** Counting month by month gives the Gregorian rule with its 4, 100 and 400 year cycles. */
  lemma {:induction false} MonthStartIsGregorian(k: int)
    ensures MonthStart(k) == ClosedForm(k)
    decreases if k < 0 then -k else k
  {
    if k > 0 {
      MonthStartIsGregorian(k - 1);
      BothGrowAlike(k - 1, k);
    } else if k < 0 {
      MonthStartIsGregorian(k + 1);
      BothGrowAlike(k, k + 1);
    } else {
      FirstYearStartsAtZero(k);
    }
  }

  lemma FirstYearStartsAtZero(k: int)
    requires k == 0
    ensures ClosedForm(k) == 0
  {
  }
}
