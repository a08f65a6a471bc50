/** Durations (section 4.4.3.2 of ISO 8601:2004) as seven signed components. */
module Durations {
  import opened CInt

  datatype Duration = Duration(
    years: int32, months: int32, days: int32, hours: int32, minutes: int32, seconds: int32, milliseconds: int32)
  {
    predicate IsZero() {
      years == 0 && months == 0 && days == 0 && hours == 0 && minutes == 0 && seconds == 0 && milliseconds == 0
    }

    predicate IsNegative() {
      && !IsZero()
      && years <= 0 && months <= 0 && days <= 0 && hours <= 0 && minutes <= 0 && seconds <= 0 && milliseconds <= 0
    }

    predicate IsPositive() {
      && !IsZero()
      && years >= 0 && months >= 0 && days >= 0 && hours >= 0 && minutes >= 0 && seconds >= 0 && milliseconds >= 0
    }

    predicate IsValid() {
      IsZero() || IsNegative() || IsPositive()
    }

    /** No component is INT32_MIN, so every component can be negated. */
    predicate Negatable() {
      && years as int > INT32_MIN && months as int > INT32_MIN && days as int > INT32_MIN && hours as int > INT32_MIN
      && minutes as int > INT32_MIN && seconds as int > INT32_MIN && milliseconds as int > INT32_MIN
    }

    function InvertSign(): (r: Duration) {
      Duration(Neg32(years), Neg32(months), Neg32(days), Neg32(hours), Neg32(minutes), Neg32(seconds),
        Neg32(milliseconds))
    }

    /** The part that AddDuration takes into account on the day and time fields. */
    function DayTimeSeconds(): (r: int) {
      days as int * SECONDS_PER_DAY + hours as int * SECONDS_PER_HOUR + minutes as int * SECONDS_PER_MINUTE
        + seconds as int
    }

    function ToSeconds(): (r: int) {
      if !IsValid() then 0
      else
        years as int * SECONDS_PER_YEAR + months as int * SECONDS_PER_MONTH + DayTimeSeconds()
        + CDiv(milliseconds as int, 1000)
    }
  }

  const SECONDS_PER_MINUTE := 60
  const SECONDS_PER_HOUR := 3600
  const SECONDS_PER_DAY := 86400
  const SECONDS_PER_MONTH := 2592000
  const SECONDS_PER_YEAR := 31536000

  function Compare(a: Duration, b: Duration): (r: int) {
    if !a.IsValid() || !b.IsValid() then 0
    else if a.years != b.years then (if a.years < b.years then -1 else 1)
    else if a.months != b.months then (if a.months < b.months then -1 else 1)
    else if a.days != b.days then (if a.days < b.days then -1 else 1)
    else if a.hours != b.hours then (if a.hours < b.hours then -1 else 1)
    else if a.minutes != b.minutes then (if a.minutes < b.minutes then -1 else 1)
    else if a.seconds != b.seconds then (if a.seconds < b.seconds then -1 else 1)
    else if a.milliseconds != b.milliseconds then (if a.milliseconds < b.milliseconds then -1 else 1)
    else 0
  }

  function Components(d: Duration): (xs: set<int32>) {
    {d.years, d.months, d.days, d.hours, d.minutes, d.seconds, d.milliseconds}
  }

  /** Valid is what has no two components of opposite sign; it is negative when a component is. */
  lemma ValidIff(d: Duration)
    ensures d.IsValid() <==> forall x, y :: x in Components(d) && y in Components(d) ==> !(x < 0 && y > 0)
    ensures d.IsNegative() <==> d.IsValid() && exists x :: x in Components(d) && x < 0
  {
    var xs := Components(d);
    assert d.years in xs && d.months in xs && d.days in xs && d.hours in xs && d.minutes in xs;
    assert d.seconds in xs && d.milliseconds in xs;
  }

  /** The length in seconds, with years of 365 and months of 30 days and whole seconds of the milliseconds. */
  lemma LengthInDays(d: Duration)
    requires d.IsValid()
    ensures var ms := d.milliseconds as int;
            d.ToSeconds() == 86400 * (365 * d.years as int + 30 * d.months as int + d.days as int)
                             + 3600 * d.hours as int + 60 * d.minutes as int + d.seconds as int
                             + if ms >= 0 then ms / 1000 else -(-ms / 1000)
  {
  }

  /** Compare is a total order on valid durations: antisymmetric, transitive, and zero only on equals. */
  lemma CompareIsTotalOrder(a: Duration, b: Duration, c: Duration)
    requires a.IsValid() && b.IsValid() && c.IsValid()
    ensures Compare(a, b) == 0 <==> a == b
    ensures Compare(a, b) == -Compare(b, a)
    ensures Compare(a, b) <= 0 && Compare(b, c) <= 0 ==> Compare(a, c) <= 0
  {
  }

  /** A duration whose components do not spill into the next larger one (30-day months, 365-day years). */
  predicate Normalised(d: Duration) {
    && 0 <= d.years && 0 <= d.months <= 11 && 0 <= d.days <= 29 && 0 <= d.hours <= 23
    && 0 <= d.minutes <= 59 && 0 <= d.seconds <= 59 && 0 <= d.milliseconds <= 999
  }

  /**
   On normalised durations the component order is the order of the lengths in seconds, except that
   lengths in seconds do not see a difference in milliseconds.
   */
  lemma CompareAgreesWithSeconds(a: Duration, b: Duration)
    requires Normalised(a) && Normalised(b)
    ensures a.ToSeconds() < b.ToSeconds() ==> Compare(a, b) < 0
    ensures a.ToSeconds() == b.ToSeconds() <==> a.(milliseconds := 0) == b.(milliseconds := 0)
  {
    assert a.IsValid() && b.IsValid();
    SubYearBound(a);
    SubYearBound(b);
    if a.years != b.years {
    } else if a.months != b.months {
    } else if a.days != b.days {
    }
  }

  lemma SubYearBound(a: Duration)
    requires Normalised(a)
    ensures 0 <= a.ToSeconds() - a.years as int * SECONDS_PER_YEAR
             - a.months as int * SECONDS_PER_MONTH < SECONDS_PER_MONTH
    ensures a.ToSeconds() - a.years as int * SECONDS_PER_YEAR < SECONDS_PER_YEAR
  {
  }

  /** The int64 accumulator of ToSeconds never overflows, and inverting the sign negates the length. */
  lemma ToSecondsIsSafeAndOdd(d: Duration)
    ensures -0x8000_0000_0000_0000 <= d.ToSeconds() < 0x8000_0000_0000_0000
    ensures d.Negatable() ==> d.InvertSign().IsValid() == d.IsValid()
    ensures d.Negatable() ==> d.InvertSign().ToSeconds() == -d.ToSeconds()
    ensures d.Negatable() ==> d.InvertSign().InvertSign() == d
  {
  }
}
