/**
 Adding a duration to a date-time in place: mixed-radix carries through the time fields, then a
 walk over months of different lengths. All fields are 32-bit, and the proofs show that no
 intermediate value overflows as long as none of the five sums does (`SumsFit`).
 */
module DateTimes {
  import opened Errors
  import opened CInt
  import opened Durations
  import Calendar

  type Moment = Calendar.Moment

  /** A sum is an int32_t and can be negated. */
  predicate InRange(v: int) {
    INT32_MIN < v <= INT32_MAX
  }

  /** The hour field before its carry; carries are floors. */
  function HourSum(a: Moment, d: Duration): (h: int) {
    var min := a.min + (a.sec + d.seconds as int) / 60 + d.minutes as int;
    a.hour + min / 60 + d.hours as int
  }

  /** The day field before the walk over the months. */
  function DaySum(a: Moment, d: Duration): (n: int) {
    a.day + HourSum(a, d) / 24 + d.days as int
  }

  /**
   None of the five 32-bit sums of AddDuration overflows. The month sum is that of the month in which
   the day has arrived by then; `k` counts months from the start of year 0.
   */
  ghost predicate SumsFit(a: Moment, d: Duration) {
    && InRange(a.sec + d.seconds as int)
    && InRange(a.min + (a.sec + d.seconds as int) / 60 + d.minutes as int)
    && InRange(HourSum(a, d))
    && InRange(DaySum(a, d))
    && var last := Calendar.MonthStart(a.Month()) + DaySum(a, d);
       forall k :: Calendar.MonthStart(k) < last <= Calendar.MonthStart(k + 1) ==>
         InRange(k % 12 + 1 + d.months as int) && InRange(k % 12 + d.months as int)
  }

  /** The month that the walk ends in is the one that the last sum is about. */
  lemma MonthSumFits(a: Moment, d: Duration, r: Moment)
    requires SumsFit(a, d) && 1 <= r.month <= 12 && 1 <= r.day <= Calendar.MonthLength(r.Month())
    requires Calendar.MonthStart(r.Month()) + r.day == Calendar.MonthStart(a.Month()) + DaySum(a, d)
    ensures InRange(r.month + d.months as int) && InRange(r.month + d.months as int - 1)
  {
    Calendar.MonthFollows(r.Month());
    Calendar.MonthOf(r.year, r.month);
  }

  /** The three stages together: `t` after the time fields, `m` after the walk, `r` after the months. */
  lemma SumOf(a: Moment, d: Duration, t: Moment, m: Moment, r: Moment)
    requires t.TimeInRange() && t.Month() == a.Month() && t.DayTime() == a.DayTime() + d.DayTimeSeconds()
    requires m.TimeInRange() && m.hour == t.hour && m.min == t.min && m.sec == t.sec
    requires 1 <= m.day <= Calendar.MonthLength(m.Month())
    requires Calendar.MonthStart(m.Month()) + m.day == Calendar.MonthStart(a.Month()) + t.day
    requires 1 <= r.month <= 12 && r.Month() == m.Month() + d.months as int
    requires r.day == m.day && r.hour == m.hour && r.min == m.min && r.sec == m.sec
    ensures IsSum(a, d, r)
  {
  }

  const COMPONENT_LIMIT: int := 2_000_000_000

  /** Components up to two thousand million are always small enough. */
  lemma LimitFits(a: Moment, d: Duration)
    requires a.IsValid()
    requires Abs(d.months as int) <= COMPONENT_LIMIT && Abs(d.days as int) <= COMPONENT_LIMIT
    requires Abs(d.hours as int) <= COMPONENT_LIMIT && Abs(d.minutes as int) <= COMPONENT_LIMIT
    requires Abs(d.seconds as int) <= COMPONENT_LIMIT
    ensures SumsFit(a, d)
  {
  }

  /**
   `r` is `a` plus the day and time part of `d` on the second line, moved on by `d.months` months
   with the day of the month left alone.
   */
  predicate IsSum(a: Moment, d: Duration, r: Moment) {
    var k := r.Month() - d.months as int;
    && 1 <= r.month <= 12
    && 1 <= r.day <= Calendar.MonthLength(k)
    && r.TimeInRange()
    && Calendar.SecondAt(k, r.day, r.hour, r.min, r.sec) == a.Second() + d.DayTimeSeconds()
  }

  class EebusDateTime {
    var year: int32
    var month: int32
    var day: int32
    var hour: int32
    var min: int32
    var sec: int32

    constructor (m: Moment)
      requires m.IsValid()
      ensures Value() == m
    {
      year, month, day := m.year as int32, m.month as int32, m.day as int32;
      hour, min, sec := m.hour as int32, m.min as int32, m.sec as int32;
    }

    function Value(): (r: Moment)
      reads this
    {
      Calendar.Moment(year as int, month as int, day as int, hour as int, min as int, sec as int)
    }

    method DaysInMonth() returns (n: int32)
      ensures n as int == Calendar.DaysInMonth(year as int, month as int)
    {
      n := Calendar.DaysInMonth(year as int, month as int) as int32;
    }

    method NormalizeMonths()
      requires month as int > INT32_MIN + 1 && Abs(year as int) <= 1_000_000_000
      modifies this`month, this`year
      ensures 1 <= month <= 12
      ensures Value().Month() == old(Value().Month())
    {
      month := month - 1;
      var m, y := Normalize(month, year, 12);
      month, year := m + 1, y;
    }

    /**
     Moves whole months between the day and month fields until the day lies in its month. The day
     number (first of the month plus day) does not change.
     */
    method NormalizeDays()
      requires 1 <= month <= 12 && 0 <= year <= 2100
      requires day as int > INT32_MIN
      modifies this`day, this`month, this`year
      ensures Value().(hour := 0, min := 0, sec := 0).OnCalendar()
      ensures Calendar.MonthStart(Value().Month()) + day as int
               == old(Calendar.MonthStart(Value().Month()) + day as int)
      ensures Abs(year as int) <= 10_000_000
    {
      day := day - 1;
      ghost var k0, d0 := Value().Month(), day as int;
      var daysInMonth := DaysInMonth();
      if day > 0 {
        while day >= daysInMonth
          invariant 1 <= month <= 12 && 0 <= day
          invariant daysInMonth as int == Calendar.DaysInMonth(year as int, month as int)
          invariant Calendar.MonthStart(Value().Month()) + day as int == Calendar.MonthStart(k0) + d0
          invariant 0 <= 28 * (Value().Month() - k0) <= d0 - day as int
          decreases day
        {
          ghost var from := Value();
          day := day - daysInMonth;
          month := month + 1;
          NormalizeMonths();
          Calendar.NextMonthStarts(from.year, from.month, year as int, month as int);
          daysInMonth := DaysInMonth();
        }
      } else {
        while day < 0
          invariant 1 <= month <= 12
          invariant day as int < Calendar.DaysInMonth(year as int, month as int)
          invariant Calendar.MonthStart(Value().Month()) + day as int == Calendar.MonthStart(k0) + d0
          invariant 0 <= 28 * (k0 - Value().Month()) <= day as int - d0
          decreases -(day as int)
        {
          ghost var from := Value();
          month := month - 1;
          NormalizeMonths();
          Calendar.NextMonthStarts(year as int, month as int, from.year, from.month);
          daysInMonth := DaysInMonth();
          day := day + daysInMonth;
        }
      }
      day := day + 1;
    }

    /** The carries from seconds up to days; the day may leave its month. */
    method AddDayTime(d: Duration)
      requires Value().IsValid() && SumsFit(Value(), d)
      modifies this`sec, this`min, this`hour, this`day
      ensures Value().TimeInRange() && day as int == DaySum(old(Value()), d)
      ensures Value().DayTime() == old(Value().DayTime()) + d.DayTimeSeconds()
    {
      sec := sec + d.seconds;
      sec, min := Normalize(sec, min, 60);
      min := min + d.minutes;
      min, hour := Normalize(min, hour, 60);
      hour := hour + d.hours;
      hour, day := Normalize(hour, day, 24);
      day := day + d.days;
    }

    method AddDuration(d: Duration) returns (err: EebusError)
      requires Value().IsValid() && d.IsValid() ==> SumsFit(Value(), d)
      modifies this
      ensures err == if old(Value()).IsValid() && d.IsValid() then Ok else InputArgument
      ensures err != Ok ==> Value() == old(Value())
      ensures err == Ok ==> IsSum(old(Value()), d, Value())
    {
      if !Value().IsValid() || !d.IsValid() {
        return InputArgument;
      }
      AddDayTime(d);
      ghost var time := Value();
      NormalizeDays();
      Calendar.MonthEnds(year as int, month as int);
      MonthSumFits(old(Value()), d, Value());
      ghost var whole := Value();
      month := month + d.months;
      NormalizeMonths();
      SumOf(old(Value()), d, time, whole, Value());
      err := Ok;
    }
  }

  /** One carry: the field ends in [0, max) and the pair keeps its value in units of the field. */
  method Normalize(field: int32, next: int32, max: int32) returns (f: int32, n: int32)
    requires 2 <= max && field as int > INT32_MIN
    requires INT32_MIN <= next as int + field as int / max as int <= INT32_MAX
    ensures 0 <= f < max && n as int == next as int + field as int / max as int
    ensures f as int + max as int * n as int == field as int + max as int * next as int
  {
    f, n := field, next;
    CarryIsFloor(field as int, max as int);
    Distribute(max as int, next as int, field as int / max as int);
    var rem := CMod(field as int, max as int);
    if field >= max {
      n := (next as int + CDiv(field as int, max as int)) as int32;
      f := rem as int32;
    } else if field < 0 {
      var q := CDiv(-(field as int), max as int);
      if rem == 0 {
        n := (next as int - q) as int32;
        f := 0;
      } else {
        n := (next as int - (1 + q)) as int32;
        f := (max as int + rem) as int32;
      }
    }
  }

  /** The three branches of a carry, with C's truncating division, add the floor of the quotient. */
  lemma CarryIsFloor(v: int, max: int)
    requires max >= 2
    ensures v == max * (v / max) + v % max && 0 <= v % max < max
    ensures 0 <= v < max ==> v / max == 0
    ensures v >= 0 ==> CDiv(v, max) == v / max && CMod(v, max) == v % max
    ensures v < 0 ==> if CMod(v, max) == 0 then CDiv(-v, max) == -(v / max) && v % max == 0
                      else 1 + CDiv(-v, max) == -(v / max) && max + CMod(v, max) == v % max
  {
    TruncatedDivision(v, max);
    if v < 0 {
      NegativeCarry(v, max, CDiv(-v, max), CMod(v, max));
    } else {
      Quotient(v, max, CDiv(v, max), CMod(v, max));
      SmallQuotient(v, max);
    }
  }

  lemma SmallQuotient(v: int, max: int)
    requires max >= 2
    ensures 0 <= v < max ==> v / max == 0
  {
  }

  lemma NegativeCarry(v: int, max: int, q: int, r: int)
    requires max >= 2 && v == max * -q + r && -max < r <= 0
    ensures if r == 0 then q == -(v / max) && v % max == 0 else 1 + q == -(v / max) && max + r == v % max
  {
    if r == 0 {
      Quotient(v, max, -q, 0);
    } else {
      Distribute(max, -q, -1);
      Quotient(v, max, -q - 1, max + r);
    }
  }

  lemma Quotient(v: int, max: int, q: int, r: int)
    requires max > 0 && v == max * q + r && 0 <= r < max
    ensures v / max == q && v % max == r
  {
    var d := v / max - q;
    assert max * d == r - v % max by {
      Distribute(max, v / max, -q);
    }
    assert d >= 1 ==> max * d >= max;
    assert d <= -1 ==> max * d <= -max;
  }

  lemma Distribute(a: int, b: int, c: int)
    ensures a * (b + c) == a * b + a * c && a * -b == -(a * b) && a * -c == -(a * c)
  {
  }

  // ---------------------------------------------------------------- what the sum means

  lemma ClockIsUnique(x: int, h: int, m: int, s: int, y: int, i: int, n: int, t: int)
    requires 0 <= h < 24 && 0 <= m < 60 && 0 <= s < 60
    requires 0 <= i < 24 && 0 <= n < 60 && 0 <= t < 60
    requires 86400 * x + 3600 * h + 60 * m + s == 86400 * y + 3600 * i + 60 * n + t
    ensures x == y && h == i && m == n && s == t
  {
  }

  lemma DayIsUnique(k: int, d: int, l: int, e: int)
    requires 1 <= d <= Calendar.MonthLength(k) && 1 <= e <= Calendar.MonthLength(l)
    requires Calendar.MonthStart(k) + d == Calendar.MonthStart(l) + e
    ensures k == l && d == e
  {
    if k < l {
      Calendar.MonthsAreOrdered(k, l);
    } else if l < k {
      Calendar.MonthsAreOrdered(l, k);
    }
  }

  /** IsSum leaves no choice: AddDuration computes a function of its inputs. */
  lemma SumIsUnique(a: Moment, d: Duration, r: Moment, s: Moment)
    requires IsSum(a, d, r) && IsSum(a, d, s)
    ensures r == s
  {
    var k, l := r.Month() - d.months as int, s.Month() - d.months as int;
    ClockIsUnique(Calendar.MonthStart(k) + r.day - 1, r.hour, r.min, r.sec,
                  Calendar.MonthStart(l) + s.day - 1, s.hour, s.min, s.sec);
    DayIsUnique(k, r.day, l, s.day);
    Calendar.MonthOf(r.year, r.month);
    Calendar.MonthOf(s.year, s.month);
  }

  /**
   With no months in the duration the result is on the calendar, and AddDuration is addition on
   absolute seconds exactly when the duration has no years and less than a second of milliseconds:
   those are the components it ignores and ToSeconds does not.
   */
  lemma SumAddsSecondsIff(a: Moment, d: Duration, r: Moment)
    requires d.IsValid() && d.months == 0 && IsSum(a, d, r)
    ensures r.OnCalendar()
    ensures r.Second() == a.Second() + d.ToSeconds() <==> d.years == 0 && Abs(d.milliseconds as int) < 1000
  {
    Calendar.MonthEnds(r.year, r.month);
  }

  /** Adding a duration of positive length moves strictly forward in the order of Compare. */
  lemma AddingPositiveMovesForward(a: Moment, d: Duration, r: Moment)
    requires a.IsValid() && d.IsPositive() && d.months == 0 && d.years == 0 && IsSum(a, d, r)
    ensures Calendar.Compare(a, r) < 0 <==> d.DayTimeSeconds() > 0
    ensures Calendar.Compare(a, r) <= 0
  {
    Calendar.MonthEnds(r.year, r.month);
    Calendar.CompareIsChronological(a, r);
  }

  /** Adding the same months-free duration keeps the chronological order of any two date-times. */
  lemma AddingKeepsOrder(a: Moment, b: Moment, d: Duration, r: Moment, s: Moment)
    requires a.IsValid() && b.IsValid() && d.months == 0 && IsSum(a, d, r) && IsSum(b, d, s)
    ensures Calendar.Compare(a, b) < 0 <==> Calendar.Compare(r, s) < 0
  {
    Calendar.MonthEnds(r.year, r.month);
    Calendar.MonthEnds(s.year, s.month);
    Calendar.CompareIsChronological(a, b);
    Calendar.CompareIsChronological(r, s);
  }

  /** Adding a months-free duration and then its inverse gives back the original date-time. */
  lemma InverseRestores(a: Moment, d: Duration, r: Moment, back: Moment)
    requires a.IsValid() && d.Negatable() && d.months == 0
    requires IsSum(a, d, r) && IsSum(r, d.InvertSign(), back)
    ensures back == a
  {
    Calendar.MonthEnds(r.year, r.month);
    Calendar.MonthEnds(a.year, a.month);
    Calendar.MonthEnds(back.year, back.month);
    Calendar.CompareIsChronological(back, a);
  }

  /** Two calls on the object: the second undoes the first whenever it accepts the result of the first. */
  method AddThenSubtract(t: EebusDateTime, d: Duration) returns (err: EebusError)
    requires t.Value().IsValid() && d.IsValid() && d.Negatable() && d.months == 0 && SumsFit(t.Value(), d)
    requires forall r :: IsSum(t.Value(), d, r) && r.IsValid() ==> SumsFit(r, d.InvertSign())
    modifies t
    ensures err == Ok ==> t.Value() == old(t.Value())
  {
    ghost var a := t.Value();
    err := t.AddDuration(d);
    ghost var r := t.Value();
    err := t.AddDuration(d.InvertSign());
    if err == Ok {
      InverseRestores(a, d, r, t.Value());
    }
  }

  /**
   Months are added last and the day is not clamped: a duration of months alone gives a calendar
   date exactly when the target month has the day.
   */
  lemma AddingMonthsStaysOnCalendarIff(a: Moment, d: Duration, r: Moment)
    requires a.IsValid() && d.DayTimeSeconds() == 0 && IsSum(a, d, r)
    ensures r.Month() == a.Month() + d.months as int && r.(year := a.year, month := a.month) == a
    ensures r.OnCalendar() <==> a.day <= Calendar.MonthLength(a.Month() + d.months as int)
  {
    var k, l := r.Month() - d.months as int, a.Month();
    Calendar.MonthEnds(a.year, a.month);
    Calendar.MonthEnds(r.year, r.month);
    ClockIsUnique(Calendar.MonthStart(k) + r.day - 1, r.hour, r.min, r.sec,
                  Calendar.MonthStart(l) + a.day - 1, a.hour, a.min, a.sec);
    DayIsUnique(k, r.day, l, a.day);
  }

  /** 31 January plus one month is 31 February. */
  lemma JanuaryPlusAMonth()
    ensures var a := Calendar.Moment(2023, 1, 31, 0, 0, 0);
            var r := Calendar.Moment(2023, 2, 31, 0, 0, 0);
            && a.IsValid() && IsSum(a, Duration(0, 1, 0, 0, 0, 0, 0), r) && !r.OnCalendar()
  {
    Calendar.MonthOf(2023, 1);
    assert Calendar.Moment(2023, 1, 31, 0, 0, 0).Month() == 24276;
    assert Calendar.Moment(2023, 2, 31, 0, 0, 0).Month() == 24277;
  }
}
