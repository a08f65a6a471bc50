/**
 Date, time and date-time text (section 4.3.2 of ISO 8601:2004), and the leaf that holds either a
 date-time or a duration and tells the two apart by trying the duration parser first.
 */
module DateTimeText {
  import opened Errors
  import opened CInt
  import opened Sequences
  import opened Text
  import Durations
  import DurationText
  import Calendar

  type Moment = Calendar.Moment

  datatype Date = Date(year: int, month: int, day: int)
  {
    predicate IsValid() {
      Calendar.IsDate(year, month, day)
    }
  }

  datatype TimeOfDay = TimeOfDay(hour: int, min: int, sec: int)
  {
    predicate IsValid() {
      Calendar.IsTime(hour, min, sec)
    }
  }

  function DateOf(m: Moment): (r: Date) { Date(m.year, m.month, m.day) }

  function TimeOf(m: Moment): (r: TimeOfDay) { TimeOfDay(m.hour, m.min, m.sec) }

  function MomentOf(d: Date, t: TimeOfDay): (r: Moment) { Calendar.Moment(d.year, d.month, d.day, t.hour, t.min,
                    t.sec) }

  /** A number that must be followed by `stop`; the rest of the text comes after it. */
  datatype Field = NoField | Field(value: int, rest: string)

  function NumberBefore(s: string, stop: char): (f: Field)
    ensures f.Field? ==> |f.rest| < |s|
  {
    var n := Strtol(s);
    if n.length == 0 || n.length == |s| || s[n.length] != stop then NoField
    else Field(Low32(n.value) as int, s[n.length + 1..])
  }

  function ParseDate(s: string): (r: Result<Date>)
    ensures r.Done? ==> r.value.IsValid()
  {
    var y := NumberBefore(s, '-');
    if y.NoField? then Failed(Parse)
    else
      var m := NumberBefore(y.rest, '-');
      if m.NoField? then Failed(Parse)
      else
        var d := Strtol(m.rest);
        var date := Date(y.value, m.value, Low32(d.value) as int);
        if d.length == 0 || d.length != |m.rest| || !date.IsValid() then Failed(Parse) else Done(date)
  }

  /** What may follow the seconds: nothing, 'Z' and anything, or a fraction and then one of these. */
  predicate EndsTime(rest: string) {
    At(rest, 0) == NUL || At(rest, 0) == 'Z'
  }

  function SkipFraction(rest: string): (r: string) {
    if At(rest, 0) == '.' then rest[1 + DigitLength(rest[1..])..] else rest
  }

  function ParseSeconds(hour: int, min: int, s: string): (r: Result<TimeOfDay>)
    ensures r.Done? ==> r.value.IsValid()
  {
    var n := Strtol(s);
    var time := TimeOfDay(hour, min, Low32(n.value) as int);
    if n.length == 0 || !EndsTime(SkipFraction(s[n.length..])) || !time.IsValid() then Failed(Parse) else Done(time)
  }

  function ParseTime(s: string): (r: Result<TimeOfDay>)
    ensures r.Done? ==> r.value.IsValid()
  {
    var h := NumberBefore(s, ':');
    if h.NoField? then Failed(Parse)
    else
      var m := NumberBefore(h.rest, ':');
      if m.NoField? then Failed(Parse) else ParseSeconds(h.value, m.value, m.rest)
  }

  /** strtol at the cursor, and the check of the character behind the number. */
  method ReadNumber(s: string, from: nat, stop: char) returns (f: Field, next: nat)
    requires from <= |s|
    ensures f == NumberBefore(s[from..], stop)
    ensures f.Field? ==> from < next <= |s| && s[next..] == f.rest
  {
    var rest := s[from..];
    var n := Strtol(rest);
    next := from + n.length;
    if n.length == 0 || next == |s| || s[next] != stop {
      return NoField, next;
    }
    next := next + 1;
    f := Field(Low32(n.value) as int, s[next..]);
  }

  /** The loop over the fraction digits. */
  method SkipDigits(s: string, from: nat) returns (next: nat)
    requires from <= |s|
    ensures next == from + DigitLength(s[from..])
  {
    next := from;
    while next < |s| && IsDigit(s[next])
      invariant from <= next <= |s|
      invariant DigitLength(s[from..]) == next - from + DigitLength(s[next..])
    {
      next := next + 1;
    }
  }

  /** The end of EebusTimeParse, from the seconds on; a C string holds no NUL. */
  method ParseSecondsText(hour: int, min: int, s: string, from: nat) returns (r: Result<TimeOfDay>)
    requires NUL !in s && from <= |s|
    ensures r == ParseSeconds(hour, min, s[from..])
  {
    var n := Strtol(s[from..]);
    var end := from + n.length;
    if n.length == 0 {
      return Failed(Parse);
    }
    ghost var rest := s[from..][n.length..];
    assert rest == s[end..];
    if At(s, end) != NUL && At(s, end) != 'Z' && At(s, end) != '.' {
      return Failed(Parse);
    }
    if At(s, end) == '.' {
      assert rest[1..] == s[end + 1..];
      end := SkipDigits(s, end + 1);
    }
    assert SkipFraction(rest) == s[end..];
    if At(s, end) != NUL && At(s, end) != 'Z' {
      return Failed(Parse);
    }
    var time := TimeOfDay(hour, min, Low32(n.value) as int);
    r := if time.IsValid() then Done(time) else Failed(Parse);
  }

  method ParseTimeText(s: string) returns (r: Result<TimeOfDay>)
    requires NUL !in s
    ensures r == ParseTime(s)
  {
    assert s[0..] == s;
    var h, i := ReadNumber(s, 0, ':');
    if h.NoField? {
      return Failed(Parse);
    }
    var m, j := ReadNumber(s, i, ':');
    if m.NoField? {
      return Failed(Parse);
    }
    r := ParseSecondsText(h.value, m.value, s, j);
  }

  /** strchr(s, 'T') as an offset, the length when there is none. */
  function IndexOfT(s: string): (n: nat)
    ensures n <= |s| && 'T' !in s[..n] && (n < |s| ==> s[n] == 'T')
  {
    if s == "" || s[0] == 'T' then 0 else 1 + IndexOfT(s[1..])
  }

  /** The date buffer has room for ten characters and the terminator. */
  const DATE_BUF_SIZE := 11

  function ParseDateTime(s: string): (r: Result<Moment>) {
    var n := IndexOfT(s);
    if n == |s| || n >= DATE_BUF_SIZE then Failed(Parse) else Join(ParseDate(s[..n]), ParseTime(s[n + 1..]))
  }

  /** Both parts, or the first error. */
  function Join(d: Result<Date>, t: Result<TimeOfDay>): (r: Result<Moment>) {
    if d.Failed? then Failed(d.err)
    else if t.Failed? then Failed(t.err)
    else Done(MomentOf(d.value, t.value))
  }

  /** Every text that is accepted gives a valid date-time. */
  lemma ParsedIsValid(s: string)
    ensures ParseDateTime(s).Done? ==> ParseDateTime(s).value.IsValid()
  {
    var n := IndexOfT(s);
    if n < |s| {
      JoinIsValid(ParseDate(s[..n]), ParseTime(s[n + 1..]));
    }
  }

  lemma JoinIsValid(d: Result<Date>, t: Result<TimeOfDay>)
    requires d.Done? ==> d.value.IsValid()
    requires t.Done? ==> t.value.IsValid()
    ensures Join(d, t).Done? ==> Join(d, t).value.IsValid()
  {
  }

  // ---------------------------------------------------------------- printing

  function PrintDate(d: Date): (r: string)
    requires d.IsValid()
  {
    Pad(d.year, 4) + ("-" + (Pad(d.month, 2) + ("-" + Pad(d.day, 2))))
  }

  function PrintTime(t: TimeOfDay): (r: string)
    requires t.IsValid()
  {
    Pad(t.hour, 2) + (":" + (Pad(t.min, 2) + (":" + (Pad(t.sec, 2) + "Z"))))
  }

  function PrintDateTime(m: Moment): (r: string)
    requires m.IsValid()
  {
    PrintDate(DateOf(m)) + ("T" + PrintTime(TimeOf(m)))
  }

  // ---------------------------------------------------------------- round trips

  /** A padded number at the end of the text or in front of something that is not a digit. */
  lemma StrtolReadsPadded(n: nat, w: nat, rest: string)
    requires n <= INT32_MAX && !IsDigit(At(rest, 0))
    ensures Strtol(Pad(n, w) + rest) == Number(n, |Pad(n, w)|) && Low32(n) as int == n
  {
    PadValue(n, w);
    StrtolReadsDigits(Pad(n, w), rest);
    LowOfSmall(n);
  }

  lemma ReadPadded(n: nat, w: nat, stop: char, rest: string)
    requires n <= INT32_MAX && !IsDigit(stop)
    ensures NumberBefore(Pad(n, w) + ([stop] + rest), stop) == Field(n, rest)
  {
    var t := Pad(n, w);
    var s := t + ([stop] + rest);
    StrtolReadsPadded(n, w, [stop] + rest);
    assert s[|t|] == stop && s[|t| + 1..] == rest;
  }

  lemma DateRoundTrip(d: Date)
    requires d.IsValid()
    ensures ParseDate(PrintDate(d)) == Done(d)
  {
    var day := Pad(d.day, 2);
    ReadPadded(d.year, 4, '-', Pad(d.month, 2) + ("-" + day));
    ReadPadded(d.month, 2, '-', day);
    StrtolReadsPadded(d.day, 2, "");
    assert day + "" == day;
  }

  lemma SecondsRoundTrip(t: TimeOfDay, junk: string)
    requires t.IsValid()
    ensures ParseSeconds(t.hour, t.min, Pad(t.sec, 2) + (['Z'] + junk)) == Done(t)
  {
    var tail := ['Z'] + junk;
    StrtolReadsPadded(t.sec, 2, tail);
    assert (Pad(t.sec, 2) + tail)[|Pad(t.sec, 2)|..] == tail;
    assert SkipFraction(tail) == tail;
  }

  /** Whatever follows the 'Z' is ignored. */
  lemma TimeRoundTrip(t: TimeOfDay, junk: string)
    requires t.IsValid()
    ensures ParseTime(PrintTime(t) + junk) == Done(t)
  {
    var sec := Pad(t.sec, 2) + (['Z'] + junk);
    var min := Pad(t.min, 2) + ([':'] + sec);
    assert PrintTime(t) + junk == Pad(t.hour, 2) + ([':'] + min);
    ReadPadded(t.hour, 2, ':', min);
    ReadPadded(t.min, 2, ':', sec);
    SecondsRoundTrip(t, junk);
  }

  lemma {:induction false} IndexOfFirstT(p: string, rest: string)
    requires 'T' !in p
    ensures IndexOfT(p + ("T" + rest)) == |p|
  {
    if p != "" {
      assert (p + ("T" + rest))[1..] == p[1..] + ("T" + rest);
      IndexOfFirstT(p[1..], rest);
    } else {
      assert p + ("T" + rest) == "T" + rest;
    }
  }

  lemma DateTextShape(d: Date)
    requires d.IsValid()
    ensures |PrintDate(d)| == 10 && 'T' !in PrintDate(d) && IsDigit(PrintDate(d)[0])
  {
    assert Pow10(2) == 100;
    assert Pow10(4) == 100 * Pow10(2);
    PadLength(d.year, 4);
    PadLength(d.month, 2);
    PadLength(d.day, 2);
  }

  lemma TimeTextShape(t: TimeOfDay)
    requires t.IsValid()
    ensures var s := PrintTime(t); |s| == 9 && s[2] == ':' && s[5] == ':' && s[8] == 'Z'
  {
    assert Pow10(2) == 100;
    PadLength(t.hour, 2);
    PadLength(t.min, 2);
    PadLength(t.sec, 2);
  }

  /** The printed text has the layout YYYY-MM-DDTHH:MM:SSZ. */
  lemma PrintedLayout(m: Moment)
    requires m.IsValid()
    ensures var s := PrintDateTime(m);
            && |s| == 20 && s[4] == '-' && s[7] == '-' && s[10] == 'T' && s[13] == ':' && s[16] == ':' && s[19] == 'Z'
            && forall i :: 0 <= i < 20 && i !in {4, 7, 10, 13, 16, 19} ==> IsDigit(s[i])
  {
    DateTextShape(DateOf(m));
    DateSeparators(DateOf(m));
    TimeTextShape(TimeOf(m));
    TimeDigits(TimeOf(m));
    var d, t, s := PrintDate(DateOf(m)), PrintTime(TimeOf(m)), PrintDateTime(m);
    assert forall i :: 0 <= i < 10 ==> s[i] == d[i];
    assert forall i :: 11 <= i < 20 ==> s[i] == t[i - 11];
  }

  lemma DateSeparators(d: Date)
    requires d.IsValid()
    ensures var s := PrintDate(d);
            && |s| == 10 && s[4] == '-' && s[7] == '-'
            && forall i :: 0 <= i < 10 && i != 4 && i != 7 ==> IsDigit(s[i])
  {
    assert Pow10(2) == 100;
    assert Pow10(4) == 100 * Pow10(2);
    PadLength(d.year, 4);
    PadLength(d.month, 2);
    PadLength(d.day, 2);
  }

  lemma TimeDigits(t: TimeOfDay)
    requires t.IsValid()
    ensures var s := PrintTime(t); |s| == 9 && forall i :: 0 <= i < 8 && i != 2 && i != 5 ==> IsDigit(s[i])
  {
    TimeTextShape(t);
    PadLength(t.hour, 2);
    PadLength(t.min, 2);
    PadLength(t.sec, 2);
  }

  lemma SplitAtT(d: string, t: string)
    requires 'T' !in d
    ensures var s := d + ("T" + t); IndexOfT(s) == |d| < |s| && s[..|d|] == d && s[|d| + 1..] == t
  {
    IndexOfFirstT(d, t);
  }

  lemma DateTimeOfParts(d: string, t: string)
    requires 'T' !in d && |d| < DATE_BUF_SIZE
    ensures ParseDateTime(d + ("T" + t)) == Join(ParseDate(d), ParseTime(t))
  {
    SplitAtT(d, t);
  }

  lemma JoinAtT(a: string, b: string, c: string)
    ensures (a + ("T" + b)) + c == a + ("T" + (b + c))
  {
  }

  /** Parsing the printed text gives back every valid date-time, also with text after the 'Z'. */
  lemma DateTimeRoundTrip(m: Moment, junk: string)
    requires m.IsValid()
    ensures ParseDateTime(PrintDateTime(m) + junk) == Done(m)
  {
    var d, t := DateOf(m), TimeOf(m);
    JoinAtT(PrintDate(d), PrintTime(t), junk);
    DateTextShape(d);
    DateTimeOfParts(PrintDate(d), PrintTime(t) + junk);
    DateRoundTrip(d);
    TimeRoundTrip(t, junk);
  }

  // ---------------------------------------------------------------- exactly what is accepted

  lemma ReadNumeral(n: string, stop: char, rest: string)
    requires IsNumeral(n) && !IsDigit(stop)
    ensures NumberBefore(n + ([stop] + rest), stop) == Field(NumberIn(n) as int, rest)
  {
    var s := n + ([stop] + rest);
    assert s[..|n|] == n && s[|n|] == stop && s[|n| + 1..] == rest;
    NumeralIsLong(n);
    StrtolIff(s, |n|);
  }

  lemma FieldIsNumeral(s: string, stop: char) returns (n: string)
    requires NumberBefore(s, stop).Field? && !IsDigit(stop)
    ensures IsNumeral(n) && s == n + ([stop] + NumberBefore(s, stop).rest)
    ensures NumberBefore(s, stop).value == NumberIn(n) as int
  {
    var k := Strtol(s).length;
    n := s[..k];
    StrtolIff(s, k);
    CutAt(s, k);
  }

  /** The end of the text, where the terminator stands, or a 'Z' and anything. */
  predicate EndsClock(z: string) {
    At(z, 0) == NUL || At(z, 0) == 'Z'
  }

  /** What may follow the seconds: an end, at once or after a point and any number of digits. */
  ghost predicate IsClockTail(tail: string) {
    EndsClock(tail) || exists f, z :: AllDigits(f) && EndsClock(z) && tail == "." + (f + z)
  }

  lemma ClockTailIff(tail: string)
    ensures EndsTime(SkipFraction(tail)) <==> IsClockTail(tail)
  {
    if tail != "" && tail[0] == '.' {
      var n := DigitLength(tail[1..]);
      var f, z := tail[1..][..n], tail[1 + n..];
      assert tail == "." + (f + z);
      if f', z' :| AllDigits(f') && EndsClock(z') && tail == "." + (f' + z') {
        assert tail[1..] == f' + z';
        DigitLengthOf(f', z');
        assert tail[1 + |f'|..] == z';
      }
    }
  }

  lemma ParseSecondsOf(hour: int, min: int, n: string, tail: string)
    requires IsNumeral(n) && !IsDigit(At(tail, 0))
    ensures var t := TimeOfDay(hour, min, NumberIn(n) as int);
            ParseSeconds(hour, min, n + tail) == if IsClockTail(tail) && t.IsValid() then Done(t) else Failed(Parse)
  {
    var s := n + tail;
    assert s[..|n|] == n && s[|n|..] == tail && At(s, |n|) == At(tail, 0);
    NumeralIsLong(n);
    StrtolIff(s, |n|);
    ClockTailIff(tail);
  }

  /** Hours, minutes and seconds, and what follows them. */
  function ClockText(h: string, m: string, n: string, tail: string): (s: string) {
    h + (":" + (m + (":" + (n + tail))))
  }

  lemma ParseClock(h: string, m: string, n: string, tail: string)
    requires IsNumeral(h) && IsNumeral(m) && IsNumeral(n) && !IsDigit(At(tail, 0))
    ensures var t := TimeOfDay(NumberIn(h) as int, NumberIn(m) as int, NumberIn(n) as int);
            ParseTime(ClockText(h, m, n, tail)) == if IsClockTail(tail) && t.IsValid() then Done(t) else Failed(Parse)
  {
    ReadNumeral(h, ':', m + ([':'] + (n + tail)));
    ReadNumeral(m, ':', n + tail);
    ParseSecondsOf(NumberIn(h) as int, NumberIn(m) as int, n, tail);
  }

  /** Three numerals and what may follow the last. */
  ghost predicate SpellsTime(s: string, t: TimeOfDay, h: string, m: string, n: string, tail: string) {
    && IsNumeral(h) && IsNumeral(m) && IsNumeral(n) && IsClockTail(tail) && s == ClockText(h, m, n, tail)
    && t == TimeOfDay(NumberIn(h) as int, NumberIn(m) as int, NumberIn(n) as int) && t.IsValid()
  }

  ghost predicate IsTimeText(s: string, t: TimeOfDay) {
    exists h, m, n, tail :: SpellsTime(s, t, h, m, n, tail)
  }

  /** The texts that are read as a time, all of them. */
  lemma TimeTextIff(s: string, t: TimeOfDay)
    ensures ParseTime(s) == Done(t) <==> IsTimeText(s, t)
  {
    if h, m, n, tail :| SpellsTime(s, t, h, m, n, tail) {
      ParseClock(h, m, n, tail);
    }
    if ParseTime(s) == Done(t) {
      var h, m, n, tail := TimeIsText(s, t);
    }
  }

  lemma TimeIsText(s: string, t: TimeOfDay) returns (h: string, m: string, n: string, tail: string)
    requires ParseTime(s) == Done(t)
    ensures SpellsTime(s, t, h, m, n, tail)
  {
    h := FieldIsNumeral(s, ':');
    var r := NumberBefore(s, ':').rest;
    m := FieldIsNumeral(r, ':');
    var u := NumberBefore(r, ':').rest;
    n, tail := SecondsAreText(u, Strtol(u).length);
    ClockTailIff(tail);
  }

  lemma SecondsAreText(u: string, k: nat) returns (n: string, tail: string)
    requires Strtol(u).length == k > 0
    ensures IsNumeral(n) && u == n + tail && n == u[..k] && tail == u[k..] && NumberIn(n) == Low32(Strtol(u).value)
    ensures !IsDigit(At(tail, 0))
  {
    StrtolIff(u, k);
    CutText(u, k);
    n, tail := u[..k], u[k..];
  }

  lemma PaddedIsNumeral(n: nat, w: nat)
    requires n <= INT32_MAX
    ensures IsNumeral(Pad(n, w)) && NumberIn(Pad(n, w)) as int == n
  {
    var t := Pad(n, w);
    assert Spells(t, "", "", t);
    StrtolReadsPadded(n, w, "");
    assert t + "" == t;
  }

  /** With its three padded numbers a time is accepted by what follows them alone, a fraction being ignored. */
  lemma TimeAcceptedIff(t: TimeOfDay, tail: string)
    requires t.IsValid() && !IsDigit(At(tail, 0))
    ensures ParseTime(ClockText(Pad(t.hour, 2), Pad(t.min, 2), Pad(t.sec, 2), tail))
            == if IsClockTail(tail) then Done(t) else Failed(Parse)
  {
    PaddedIsNumeral(t.hour, 2);
    PaddedIsNumeral(t.min, 2);
    PaddedIsNumeral(t.sec, 2);
    ParseClock(Pad(t.hour, 2), Pad(t.min, 2), Pad(t.sec, 2), tail);
  }

  /** In particular "12:30:45", "12:30:45Z" and "12:30:45.5Z" are one time. */
  lemma FractionIsIgnored(t: TimeOfDay, f: string, z: string)
    requires t.IsValid() && AllDigits(f) && EndsClock(z)
    ensures ParseTime(ClockText(Pad(t.hour, 2), Pad(t.min, 2), Pad(t.sec, 2), "." + (f + z))) == Done(t)
    ensures ParseTime(ClockText(Pad(t.hour, 2), Pad(t.min, 2), Pad(t.sec, 2), z)) == Done(t)
  {
    TimeAcceptedIff(t, "." + (f + z));
    TimeAcceptedIff(t, z);
  }

  /** Year, month and day. */
  function DateText(y: string, m: string, n: string): (s: string) {
    y + ("-" + (m + ("-" + n)))
  }

  ghost predicate SpellsDate(s: string, d: Date, y: string, m: string, n: string) {
    && IsNumeral(y) && IsNumeral(m) && IsNumeral(n) && s == DateText(y, m, n)
    && d == Date(NumberIn(y) as int, NumberIn(m) as int, NumberIn(n) as int) && d.IsValid()
  }

  ghost predicate IsDateText(s: string, d: Date) {
    exists y, m, n :: SpellsDate(s, d, y, m, n)
  }

  /** The texts that are read as a date, all of them. */
  lemma DateTextIff(s: string, d: Date)
    ensures ParseDate(s) == Done(d) <==> IsDateText(s, d)
  {
    if y, m, n :| SpellsDate(s, d, y, m, n) {
      TextIsDate(s, d, y, m, n);
    }
    if ParseDate(s) == Done(d) {
      var y, m, n := DateIsText(s, d);
    }
  }

  lemma TextIsDate(s: string, d: Date, y: string, m: string, n: string)
    requires SpellsDate(s, d, y, m, n)
    ensures ParseDate(s) == Done(d)
  {
    ReadNumeral(y, '-', m + (['-'] + n));
    ReadNumeral(m, '-', n);
    WholeNumeral(n);
  }

  lemma DateIsText(s: string, d: Date) returns (y: string, m: string, n: string)
    requires ParseDate(s) == Done(d)
    ensures SpellsDate(s, d, y, m, n)
  {
    y := FieldIsNumeral(s, '-');
    var r := NumberBefore(s, '-').rest;
    m := FieldIsNumeral(r, '-');
    n := NumberBefore(r, '-').rest;
    WholeNumeral(n);
  }

  ghost predicate SpellsDateTime(s: string, m: Moment, d: string, t: string) {
    'T' !in d && |d| <= 10 && s == d + ("T" + t) && IsDateText(d, DateOf(m)) && IsTimeText(t, TimeOf(m))
  }

  /** The texts that are read as a date-time: a date of at most ten characters, a 'T' and a time. */
  lemma DateTimeTextIff(s: string, m: Moment)
    ensures ParseDateTime(s) == Done(m) <==> exists d, t :: SpellsDateTime(s, m, d, t)
  {
    if d, t :| SpellsDateTime(s, m, d, t) {
      TextIsDateTime(s, m, d, t);
    }
    if ParseDateTime(s) == Done(m) {
      DateTimeIsText(s, m, IndexOfT(s));
    }
  }

  lemma JoinIff(d: Result<Date>, t: Result<TimeOfDay>, m: Moment)
    ensures Join(d, t) == Done(m) <==> d == Done(DateOf(m)) && t == Done(TimeOf(m))
  {
  }

  lemma TextIsDateTime(s: string, m: Moment, d: string, t: string)
    requires SpellsDateTime(s, m, d, t)
    ensures ParseDateTime(s) == Done(m)
  {
    PartsAreRead(m, d, t);
    DateTimeOfParts(d, t);
    JoinIff(ParseDate(d), ParseTime(t), m);
  }

  lemma DateTimeIsText(s: string, m: Moment, n: nat)
    requires n < |s| && n <= 10 && s[n] == 'T' && 'T' !in s[..n]
    requires Join(ParseDate(s[..n]), ParseTime(s[n + 1..])) == Done(m)
    ensures exists d, t :: SpellsDateTime(s, m, d, t)
  {
    CutAt(s, n);
    SpellsParts(s, m, s[..n], s[n + 1..]);
  }

  lemma SpellsParts(s: string, m: Moment, d: string, t: string)
    requires 'T' !in d && |d| <= 10 && s == d + ("T" + t)
    requires Join(ParseDate(d), ParseTime(t)) == Done(m)
    ensures SpellsDateTime(s, m, d, t)
  {
    JoinIff(ParseDate(d), ParseTime(t), m);
    PartsAreRead(m, d, t);
  }

  lemma PartsAreRead(m: Moment, d: string, t: string)
    ensures ParseDate(d) == Done(DateOf(m)) <==> IsDateText(d, DateOf(m))
    ensures ParseTime(t) == Done(TimeOf(m)) <==> IsTimeText(t, TimeOf(m))
  {
    DateTextIff(d, DateOf(m));
    TimeTextIff(t, TimeOf(m));
  }

  // ---------------------------------------------------------------- absolute or relative

  datatype AbsoluteOrRelative = Absolute(moment: Moment) | Relative(duration: Durations.Duration)
  {
    predicate IsValid() {
      if Absolute? then moment.IsValid() else duration.IsValid()
    }
  }

  function ParseAbsoluteOrRelative(s: string): (r: Result<AbsoluteOrRelative>) {
    var d := DurationText.ParseText(s);
    if d.err == Ok then Done(Relative(d.value))
    else
      var m := ParseDateTime(s);
      if m.Done? then Done(Absolute(m.value)) else Failed(Parse)
  }

  function PrintAbsoluteOrRelative(a: AbsoluteOrRelative): (r: string)
    requires a.IsValid()
  {
    if a.Absolute? then PrintDateTime(a.moment) else DurationText.Print(a.duration)
  }

  /** No printed date-time is accepted as a duration, so the parser recovers the variant. */
  lemma AbsoluteOrRelativeRoundTripIff(a: AbsoluteOrRelative)
    requires a.IsValid() && (a.Relative? ==> a.duration.Negatable())
    ensures ParseAbsoluteOrRelative(PrintAbsoluteOrRelative(a)) == Done(a)
            <==> (a.Absolute? || DurationText.SecondsReadable(a.duration))
  {
    match a
    case Absolute(m) =>
      var s := PrintDateTime(m);
      DateTextShape(DateOf(m));
      assert s[0] == PrintDate(DateOf(m))[0];
      DateTimeRoundTrip(m, "");
      assert s + "" == s;
    case Relative(d) =>
      DurationText.PrintThenParseIff(d);
  }
}
