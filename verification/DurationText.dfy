/** Duration text (section 4.4.3.2 of ISO 8601:2004): the parser, the printer and their round trip. */
module DurationText {
  import opened Errors
  import opened CInt
  import opened Durations
  import opened Text

  const ZERO := Duration(0, 0, 0, 0, 0, 0, 0)

  /** The return code together with what the parser leaves in the caller's structure. */
  datatype Parsed = Parsed(err: EebusError, value: Duration)

  function SetValue(d: Duration, key: char, isTime: bool, v: int32): (r: Parsed) {
    if isTime then
      match key
      case 'H' => Parsed(Ok, d.(hours := v))
      case 'M' => Parsed(Ok, d.(minutes := v))
      case 'S' => Parsed(Ok, d.(seconds := v))
      case _ => Parsed(InputArgument, d)
    else
      match key
      case 'Y' => Parsed(Ok, d.(years := v))
      case 'M' => Parsed(Ok, d.(months := v))
      case 'D' => Parsed(Ok, d.(days := v))
      case _ => Parsed(InputArgument, d)
  }

  /** Up to three digits, weighted 100, 10 and 1. */
  function Fraction(s: string, factor: nat): (r: Number)
    decreases factor
  {
    if factor > 0 && s != "" && IsDigit(s[0]) then
      var r := Fraction(s[1..], factor / 10);
      Number(Digit(s[0]) * factor + r.value, r.length + 1)
    else Number(0, 0)
  }

  lemma FractionStep(s: string, i: nat, factor: nat)
    requires i < |s| && factor > 0 && IsDigit(s[i])
    ensures var r := Fraction(s[i + 1..], factor / 10);
            Fraction(s[i..], factor) == Number(Digit(s[i]) * factor + r.value, r.length + 1)
  {
    assert s[i..][0] == s[i] && s[i..][1..] == s[i + 1..];
  }

  lemma FractionEnds(s: string, i: nat, factor: nat)
    requires i <= |s| && (i == |s| || !IsDigit(s[i]) || factor == 0)
    ensures Fraction(s[i..], factor) == Number(0, 0)
  {
    assert i < |s| ==> s[i..][0] == s[i];
  }

  lemma {:induction false} FractionFits(s: string, factor: nat)
    requires factor in {0, 1, 10, 100}
    ensures Fraction(s, factor).length <= |s|
    ensures 0 <= Fraction(s, factor).value < if factor == 0 then 1 else 10 * factor
    decreases factor
  {
    if factor > 0 && s != "" && IsDigit(s[0]) {
      FractionFits(s[1..], factor / 10);
    }
  }

  /** What one turn of the parser's loop leaves: the structure, the time flag, the characters consumed. */
  datatype Item = Item(err: EebusError, value: Duration, isTime: bool, length: nat)

  /** EebusDurationParseMs: `u` is the text behind the decimal point, which stands `n` characters on. */
  function FractionItem(u: string, v: int32, n: nat, isTime: bool, d: Duration): (r: Item)
    ensures r.err == Ok ==> 0 < r.length <= n + 1 + |u|
  {
    FractionFits(u, 100);
    var f := Fraction(u, 100);
    if At(u, f.length) != 'S' then Item(Parse, d, isTime, n)
    else Item(Ok, d.(seconds := v, milliseconds := f.value as int32), isTime, n + f.length + 2)
  }

  /** One turn of the loop of EebusDurationParse on the rest `s` of the text: a 'T' or a component. */
  function NextItem(s: string, isTime: bool, d: Duration): (r: Item)
    requires s != ""
    ensures r.err == Ok ==> 0 < r.length <= |s|
  {
    if s[0] == 'T' then Item(if isTime then Parse else Ok, d, true, 1)
    else
      var number := Strtol(s);
      if number.length == 0 then Item(Parse, d, isTime, 0)
      else
        var v, n := Low32(number.value), number.length;
        if At(s, n) == '.' then FractionItem(s[n + 1..], v, n, isTime, d)
        else
          var r := SetValue(d, At(s, n), isTime, v);
          Item(r.err, r.value, isTime, n + 1)
  }

  function ParseFrom(s: string, isTime: bool, d: Duration): (r: Parsed)
    decreases |s|
  {
    if s == "" then Parsed(Ok, d)
    else
      var r := NextItem(s, isTime, d);
      if r.err != Ok then Parsed(r.err, r.value) else ParseFrom(s[r.length..], r.isTime, r.value)
  }

  /** EebusDurationParse: an optional sign, 'P', then the components. */
  function ParseText(s: string): (r: Parsed) {
    var signed := At(s, 0) == '-' || At(s, 0) == '+';
    var body := if signed then s[1..] else s;
    if At(body, 0) != 'P' then Parsed(Parse, ZERO)
    else
      var r := ParseFrom(body[1..], false, ZERO);
      if r.err == Ok && At(s, 0) == '-' then Parsed(Ok, r.value.InvertSign()) else r
  }

  // ---------------------------------------------------------------- printing

  /** print_non_zero: nothing for zero, otherwise the magnitude (INT32_MIN has none and keeps its minus). */
  function NonZero(n: int32): (r: string) {
    if n == 0 then ""
    else if n as int == INT32_MIN then "-" + Dec(Abs(n as int))
    else Dec(Abs(n as int))
  }

  function Component(n: int32, key: char): (r: string) {
    if n == 0 then "" else NonZero(n) + [key]
  }

  function Millis(n: int32): (r: string) {
    if n == 0 then ""
    else if n as int == INT32_MIN then ".-" + Dec(Abs(n as int)) + "S"
    else "." + Pad(Abs(n as int), 3) + "S"
  }

  function SecondsText(d: Duration): (r: string) {
    if d.milliseconds != 0 then NonZero(d.seconds) + Millis(d.milliseconds) else Component(d.seconds, 'S')
  }

  predicate HasTime(d: Duration) {
    d.hours != 0 || d.minutes != 0 || d.seconds != 0 || d.milliseconds != 0
  }

  function TimeText(d: Duration): (r: string) {
    if HasTime(d) then "T" + (Component(d.hours, 'H') + (Component(d.minutes, 'M') + SecondsText(d))) else ""
  }

  function BodyText(d: Duration): (r: string) {
    Component(d.years, 'Y') + (Component(d.months, 'M') + (Component(d.days, 'D') + TimeText(d)))
  }

  /** The text of a valid duration. */
  function Print(d: Duration): (r: string) {
    if d.IsZero() then "PT0S" else (if d.IsNegative() then "-" else "") + ("P" + BodyText(d))
  }

  /** EebusDurationGetStringLength: the sum of the component lengths, two for 'P' and the terminator. */
  function StringLength(d: Duration): (r: nat) {
    if d.IsZero() then 5
    else
      2 + (if d.IsNegative() then 1 else 0)
      + |Component(d.years, 'Y')| + |Component(d.months, 'M')| + |Component(d.days, 'D')|
      + if HasTime(d) then
          1 + |Component(d.hours, 'H')| + |Component(d.minutes, 'M')|
          + if d.milliseconds != 0 then |NonZero(d.seconds)| + |Millis(d.milliseconds)| else |Component(d.seconds, 'S')|
        else 0
  }

  /** The length pass is exact: the printed text plus its terminator. */
  lemma StringLengthIsExact(d: Duration)
    ensures StringLength(d) == |Print(d)| + 1
  {
  }

  // ---------------------------------------------------------------- the objects

  class EebusDuration {
    var value: Duration

    constructor ()
      ensures value == ZERO
    {
      value := ZERO;
    }

    method InvertSign()
      modifies this
      ensures value == old(value).InvertSign()
    {
      value := Duration(Neg32(value.years), Neg32(value.months), Neg32(value.days), Neg32(value.hours),
                        Neg32(value.minutes), Neg32(value.seconds), Neg32(value.milliseconds));
    }

    method Set(key: char, isTime: bool, v: int32) returns (err: EebusError)
      modifies this
      ensures Parsed(err, value) == SetValue(old(value), key, isTime, v)
    {
      err := Ok;
      if isTime {
        match key {
          case 'H' => value := value.(hours := v);
          case 'M' => value := value.(minutes := v);
          case 'S' => value := value.(seconds := v);
          case _ => err := InputArgument;
        }
      } else {
        match key {
          case 'Y' => value := value.(years := v);
          case 'M' => value := value.(months := v);
          case 'D' => value := value.(days := v);
          case _ => err := InputArgument;
        }
      }
    }

    /** `ps` stands on the decimal point; on success `end` stands on the 'S'. */
    method ParseMs(s: string, v: int32, ps: nat) returns (err: EebusError, end: nat)
      requires ps < |s|
      modifies this
      ensures var f := Fraction(s[ps + 1..], 100);
              && err == (if At(s, ps + 1 + f.length) == 'S' then Ok else Parse)
              && (err == Ok ==> end == ps + 1 + f.length < |s|
                                && 0 <= f.value < 1000
                                && value == old(value).(seconds := v, milliseconds := f.value as int32))
              && (err != Ok ==> value == old(value))
    {
      var i, factor, fractional := ps + 1, 100, 0;
      ghost var f := Fraction(s[ps + 1..], 100);
      FractionFits(s[ps + 1..], 100);
      while i < |s| && IsDigit(s[i]) && factor > 0
        invariant ps + 1 <= i <= |s| && factor in {0, 1, 10, 100} && value == old(value)
        invariant f.value == fractional + Fraction(s[i..], factor).value
        invariant f.length == i - (ps + 1) + Fraction(s[i..], factor).length
        decreases factor
      {
        FractionStep(s, i, factor);
        fractional := fractional + Digit(s[i]) * factor;
        factor := factor / 10;
        i := i + 1;
      }
      FractionEnds(s, i, factor);
      end := i;
      if At(s, i) != 'S' {
        return Parse, end;
      }
      err := Set('S', true, v);
      value := value.(milliseconds := fractional as int32);
    }

    /** One turn of the parser's loop, from the cursor `ps`. */
    method ParseItem(s: string, ps: nat, isTime: bool) returns (err: EebusError, next: nat, time: bool)
      requires ps < |s|
      modifies this
      ensures var r := NextItem(s[ps..], isTime, old(value));
              && err == r.err && value == r.value
              && (err == Ok ==> time == r.isTime && next == ps + r.length <= |s|)
    {
      next, time := ps, isTime;
      ghost var rest := s[ps..];
      if s[ps] == 'T' {
        return if isTime then Parse else Ok, ps + 1, true;
      }
      var number := Strtol(s[ps..]);
      if number.length == 0 {
        return Parse, next, time;
      }
      var v := Low32(number.value);
      next := ps + number.length;
      assert At(s, next) == At(rest, number.length);
      if At(s, next) == '.' {
        assert s[next + 1..] == rest[number.length + 1..];
        err, next := ParseMs(s, v, next);
      } else {
        err := Set(At(s, next), isTime, v);
      }
      next := next + 1;
    }

    /** The cursor `ps` never passes the terminator, on any text. */
    method ParseDuration(s: string) returns (err: EebusError)
      modifies this
      ensures Parsed(err, value) == ParseText(s)
    {
      value := ZERO;
      var negative, ps := false, 0;
      if At(s, 0) == '-' {
        negative, ps := true, 1;
      } else if At(s, 0) == '+' {
        ps := 1;
      }
      if At(s, ps) != 'P' {
        return Parse;
      }
      ps := ps + 1;
      var isTime := false;
      ghost var whole := ParseFrom(s[ps..], false, ZERO);
      while ps < |s|
        invariant ps <= |s|
        invariant ParseFrom(s[ps..], isTime, value) == whole
      {
        ghost var rest := s[ps..];
        err, ps, isTime := ParseItem(s, ps, isTime);
        if err != Ok {
          return;
        }
        assert s[ps..] == rest[|rest| - (|s| - ps)..];
      }
      if negative {
        InvertSign();
      }
      err := Ok;
    }
  }

  /**
   snprintf into the room left at `offset`. The whole text is what is printed already, then `piece`,
   then `rest`; the buffer has room for it and a terminator, so nothing is cut off.
   */
  method PrintAt(buffer: array<char>, offset: nat, piece: string, ghost rest: string) returns (next: nat)
    requires offset + |piece| + |rest| < buffer.Length
    modifies buffer
    ensures next == offset + |piece|
    ensures buffer[..next] == old(buffer[..offset]) + piece
    ensures buffer[..next] + rest == old(buffer[..offset]) + (piece + rest)
    ensures buffer[next] == NUL
  {
    var i := 0;
    while i < |piece|
      invariant i <= |piece|
      invariant buffer[..offset + i] == old(buffer[..offset]) + piece[..i]
    {
      buffer[offset + i] := piece[i];
      i := i + 1;
    }
    next := offset + |piece|;
    buffer[next] := NUL;
    assert buffer[..next] == old(buffer[..offset]) + piece;
  }

  /** The part behind the 'T'. */
  method PrintTime(d: Duration, buffer: array<char>, offset: nat) returns (next: nat)
    requires HasTime(d) && offset + |TimeText(d)| < buffer.Length
    modifies buffer
    ensures next == offset + |TimeText(d)|
    ensures buffer[..next] == old(buffer[..offset]) + TimeText(d) && buffer[next] == NUL
  {
    ghost var minutes := Component(d.minutes, 'M') + SecondsText(d);
    ghost var hours := Component(d.hours, 'H') + minutes;
    next := PrintAt(buffer, offset, "T", hours);
    next := PrintAt(buffer, next, Component(d.hours, 'H'), minutes);
    next := PrintAt(buffer, next, Component(d.minutes, 'M'), SecondsText(d));
    if d.milliseconds != 0 {
      next := PrintAt(buffer, next, NonZero(d.seconds), Millis(d.milliseconds));
      next := PrintAt(buffer, next, Millis(d.milliseconds), "");
    } else {
      next := PrintAt(buffer, next, Component(d.seconds, 'S'), "");
    }
  }

  /** The part behind the 'P'. */
  method PrintBody(d: Duration, buffer: array<char>, offset: nat) returns (next: nat)
    requires offset + |BodyText(d)| < buffer.Length
    modifies buffer
    ensures next == offset + |BodyText(d)|
    ensures buffer[..next] == old(buffer[..offset]) + BodyText(d) && buffer[next] == NUL
  {
    ghost var days := Component(d.days, 'D') + TimeText(d);
    ghost var months := Component(d.months, 'M') + days;
    next := PrintAt(buffer, offset, Component(d.years, 'Y'), months);
    next := PrintAt(buffer, next, Component(d.months, 'M'), days);
    next := PrintAt(buffer, next, Component(d.days, 'D'), TimeText(d));
    if HasTime(d) {
      next := PrintTime(d, buffer, next);
    } else {
      assert buffer[..next] == buffer[..next] + "";
    }
  }

  /** EebusDurationToString into a buffer of the computed size; null for an invalid duration. */
  method ToString(d: Duration) returns (buffer: array?<char>)
    ensures buffer == null <==> !d.IsValid()
    ensures buffer != null ==>
              && fresh(buffer) && buffer.Length == |Print(d)| + 2
              && buffer[..|Print(d)|] == Print(d) && buffer[|Print(d)|] == NUL
  {
    if !d.IsValid() {
      return null;
    }
    buffer := new char[StringLength(d) + 1];
    if d.IsZero() {
      var _ := PrintAt(buffer, 0, "PT0S", "");
      assert buffer[..4] == "PT0S";
      return;
    }
    StringLengthIsExact(d);
    var offset := 0;
    if d.IsNegative() {
      offset := PrintAt(buffer, 0, "-", "P" + BodyText(d));
    }
    assert buffer[..offset] == if d.IsNegative() then "-" else "";
    offset := PrintAt(buffer, offset, "P", BodyText(d));
    assert buffer[..offset] + BodyText(d) == Print(d);
    offset := PrintBody(d, buffer, offset);
  }

  // ---------------------------------------------------------------- round trip

  function Magnitude(n: int32): (r: int32)
    requires n as int > INT32_MIN
  {
    if n < 0 then -n else n
  }

  /** One turn of the loop on a number, a designator and more text. */
  lemma ItemOfNumber(t: string, key: char, rest: string, isTime: bool, d: Duration)
    requires AllDigits(t) && t != "" && DigitsValue(t) <= INT32_MAX && !IsDigit(key) && key != '.'
    ensures var r := SetValue(d, key, isTime, DigitsValue(t) as int32);
            NextItem(t + ([key] + rest), isTime, d) == Item(r.err, r.value, isTime, |t| + 1)
  {
    var s := t + ([key] + rest);
    StrtolReadsDigits(t, [key] + rest);
    LowOfSmall(DigitsValue(t));
    assert s[0] == t[0] && At(s, |t|) == key;
  }

  /** One turn of the loop on a number, a decimal point and more text. */
  lemma ItemOfFraction(t: string, u: string, isTime: bool, d: Duration)
    requires AllDigits(t) && t != "" && DigitsValue(t) <= INT32_MAX
    ensures NextItem(t + ("." + u), isTime, d) == FractionItem(u, DigitsValue(t) as int32, |t|, isTime, d)
  {
    var s := t + ("." + u);
    StrtolReadsDigits(t, "." + u);
    LowOfSmall(DigitsValue(t));
    assert s[0] == t[0] && At(s, |t|) == '.' && s[|t| + 1..] == u;
  }

  /** A number with an accepted designator is read, and the rest of the text follows. */
  lemma ParseNumber(t: string, key: char, rest: string, isTime: bool, d: Duration)
    requires AllDigits(t) && t != "" && DigitsValue(t) <= INT32_MAX && !IsDigit(key) && key != '.'
    requires SetValue(d, key, isTime, DigitsValue(t) as int32).err == Ok
    ensures ParseFrom(t + ([key] + rest), isTime, d)
            == ParseFrom(rest, isTime, SetValue(d, key, isTime, DigitsValue(t) as int32).value)
  {
    ItemOfNumber(t, key, rest, isTime, d);
    assert (t + ([key] + rest))[|t| + 1..] == rest;
  }

  /** A number with a fraction is the last that is read, if it is accepted. */
  lemma ParseFraction(t: string, u: string, isTime: bool, d: Duration)
    requires AllDigits(t) && t != "" && DigitsValue(t) <= INT32_MAX
    ensures var f := Fraction(u, 100); var r := ParseFrom(t + ("." + u), isTime, d);
            && (At(u, f.length) != 'S' ==> r.err != Ok)
            && (At(u, f.length) == 'S' && f.length == |u| - 1 && 0 <= f.value < 1000 ==>
                  r == Parsed(Ok, d.(seconds := DigitsValue(t) as int32, milliseconds := f.value as int32)))
  {
    var s := t + ("." + u);
    ItemOfFraction(t, u, isTime, d);
    assert s[|s|..] == "";
  }

  /** A printed component is read back into its field; a zero component prints nothing. */
  lemma ParseComponent(n: int32, key: char, isTime: bool, d: Duration, rest: string)
    requires n as int > INT32_MIN && !IsDigit(key) && key != '.'
    requires SetValue(d, key, isTime, 0) == Parsed(Ok, d)
    ensures ParseFrom(Component(n, key) + rest, isTime, d)
            == ParseFrom(rest, isTime, SetValue(d, key, isTime, Magnitude(n)).value)
  {
    if n == 0 {
      assert Component(n, key) + rest == rest;
    } else {
      var m := Abs(n as int);
      DecValue(m);
      assert Component(n, key) + rest == Dec(m) + ([key] + rest);
      ParseNumber(Dec(m), key, rest, isTime, d);
    }
  }

  /** The seconds of `d` can be read back. */
  predicate SecondsReadable(d: Duration) {
    d.milliseconds == 0 || (d.seconds != 0 && Abs(d.milliseconds as int) <= 999)
  }

  lemma FractionOfMillis(n: nat)
    requires 0 < n
    ensures var f := Fraction(Pad(n, 3) + "S", 100); var t := Pad(n, 3) + "S";
            if n <= 999 then f == Number(n, 3) && t[f.length] == 'S' && f.length == |t| - 1
            else At(t, f.length) != 'S'
  {
    var p := Pad(n, 3);
    var t := p + "S";
    PadValue(n, 3);
    if n <= 999 {
      assert Pow10(3) == 1000;
      PadLength(n, 3);
      assert t == [p[0], p[1], p[2], 'S'];
      ThreeDigits(p);
      assert t[1..][1..][1..] == "S";
      assert Fraction(t[1..][1..][1..], 0) == Number(0, 0);
      assert Fraction(t[1..][1..], 1) == Number(Digit(p[2]), 1);
      assert Fraction(t[1..], 10) == Number(10 * Digit(p[1]) + Digit(p[2]), 2);
    } else {
      LongDec(n);
      FractionStops(t, 100);
    }
  }

  lemma ThreeDigits(p: string)
    requires AllDigits(p) && |p| == 3
    ensures DigitsValue(p) == 100 * Digit(p[0]) + 10 * Digit(p[1]) + Digit(p[2])
  {
    assert p[..2][..1][..0] == "";
    assert DigitsValue(p[..2][..1]) == Digit(p[0]);
    assert DigitsValue(p[..2]) == 10 * Digit(p[0]) + Digit(p[1]);
  }

  lemma LongDec(n: nat)
    requires n > 999
    ensures |Dec(n)| > 3 && Pad(n, 3) == Dec(n)
  {
    assert n / 10 > 99 && n / 10 / 10 > 9;
    assert |Dec(n / 10 / 10)| >= 2;
    assert |Dec(n / 10)| >= 3;
  }

  lemma FractionStops(t: string, factor: nat)
    requires factor == 100 && |t| > 4 && AllDigits(t[..4])
    ensures IsDigit(At(t, Fraction(t, factor).length))
  {
    assert t[..4][3] == t[3];
    assert t[1..][1..][1..] == t[3..];
    assert Fraction(t[3..], 0).length == 0;
    assert t[1..][1..] == t[2..] && t[..4][2] == t[2];
    assert Fraction(t[2..], 1).length == 1;
    assert t[..4][1] == t[1];
    assert Fraction(t[1..], 10).length == 2;
    assert t[..4][0] == t[0];
  }

  lemma ParseSeconds(d: Duration, base: Duration)
    requires d.Negatable() && base.seconds == 0 && base.milliseconds == 0
    ensures ParseFrom(SecondsText(d), true, base).err == Ok <==> SecondsReadable(d)
    ensures SecondsReadable(d) ==>
              ParseFrom(SecondsText(d), true, base)
              == Parsed(Ok, base.(seconds := Magnitude(d.seconds), milliseconds := Magnitude(d.milliseconds)))
  {
    if d.milliseconds == 0 {
      ParseComponent(d.seconds, 'S', true, base, "");
      assert Component(d.seconds, 'S') + "" == SecondsText(d);
    } else {
      var ms := Abs(d.milliseconds as int);
      var t := Pad(ms, 3) + "S";
      assert Millis(d.milliseconds) == "." + t;
      if d.seconds == 0 {
        assert SecondsText(d) == "." + t;
        assert Strtol("." + t).length == 0;
      } else {
        var n := Abs(d.seconds as int);
        assert SecondsText(d) == Dec(n) + ("." + t);
        DecValue(n);
        FractionOfMillis(ms);
        ParseFraction(Dec(n), t, true, base);
      }
    }
  }

  function Unsigned(d: Duration): (r: Duration)
    requires d.Negatable()
  {
    Duration(Magnitude(d.years), Magnitude(d.months), Magnitude(d.days), Magnitude(d.hours),
             Magnitude(d.minutes), Magnitude(d.seconds), Magnitude(d.milliseconds))
  }

  lemma ParseTime(d: Duration, base: Duration)
    requires d.Negatable()
    requires base.hours == 0 && base.minutes == 0 && base.seconds == 0 && base.milliseconds == 0
    ensures ParseFrom(TimeText(d), false, base).err == Ok <==> SecondsReadable(d)
    ensures SecondsReadable(d) ==>
              ParseFrom(TimeText(d), false, base)
              == Parsed(Ok, Unsigned(d).(years := base.years, months := base.months, days := base.days))
  {
    if HasTime(d) {
      var hm := Component(d.minutes, 'M') + SecondsText(d);
      var t := Component(d.hours, 'H') + hm;
      assert TimeText(d)[1..] == t;
      var b1 := base.(hours := Magnitude(d.hours));
      var b2 := b1.(minutes := Magnitude(d.minutes));
      ParseComponent(d.hours, 'H', true, base, hm);
      ParseComponent(d.minutes, 'M', true, b1, SecondsText(d));
      ParseSeconds(d, b2);
    }
  }

  lemma ParseBody(d: Duration)
    requires d.Negatable()
    ensures ParseFrom(BodyText(d), false, ZERO).err == Ok <==> SecondsReadable(d)
    ensures SecondsReadable(d) ==> ParseFrom(BodyText(d), false, ZERO) == Parsed(Ok, Unsigned(d))
  {
    var dt := Component(d.days, 'D') + TimeText(d);
    var mt := Component(d.months, 'M') + dt;
    var b1 := ZERO.(years := Magnitude(d.years));
    var b2 := b1.(months := Magnitude(d.months));
    var b3 := b2.(days := Magnitude(d.days));
    ParseComponent(d.years, 'Y', false, ZERO, mt);
    ParseComponent(d.months, 'M', false, b1, dt);
    ParseComponent(d.days, 'D', false, b2, TimeText(d));
    ParseTime(d, b3);
  }

  lemma ParseTextOf(b: string)
    ensures ParseText("P" + b) == ParseFrom(b, false, ZERO)
    ensures var r := ParseFrom(b, false, ZERO);
            ParseText("-" + ("P" + b)) == if r.err == Ok then Parsed(Ok, r.value.InvertSign()) else r
  {
    var p := "P" + b;
    assert p[0] == 'P' && p[1..] == b;
    var m := "-" + p;
    assert m[0] == '-' && m[1..] == p;
  }

  /**
   Parsing the printed text gives the duration back exactly when its seconds can be read back: with
   milliseconds it needs a non-zero number of seconds ("PT.500S" is rejected) and at most three digits.
   */
  lemma PrintThenParseIff(d: Duration)
    requires d.IsValid() && d.Negatable()
    ensures ParseText(Print(d)) == Parsed(Ok, d) <==> SecondsReadable(d)
    ensures ParseText(Print(d)).err == Ok <==> SecondsReadable(d)
  {
    if d.IsZero() {
      ZeroRoundTrips();
    } else {
      ParseBody(d);
      ParseTextOf(BodyText(d));
      PrintedSign(d);
    }
  }

  /** A valid duration prints as its body with a sign, and inverting the sign of what was read undoes that. */
  lemma PrintedSign(d: Duration)
    requires d.IsValid() && d.Negatable() && !d.IsZero()
    ensures if d.IsNegative() then Print(d) == "-" + ("P" + BodyText(d)) && Unsigned(d).InvertSign() == d
            else Print(d) == "P" + BodyText(d) && Unsigned(d) == d
  {
  }

  lemma ZeroRoundTrips()
    ensures ParseText("PT0S") == Parsed(Ok, ZERO)
  {
    var s := Dec(0) + (['S'] + "");
    DecValue(0);
    ParseNumber(Dec(0), 'S', "", true, ZERO);
    assert ("T" + s)[1..] == s;
    assert ParseFrom("T" + s, false, ZERO) == Parsed(Ok, ZERO);
    ParseTextOf("T" + s);
    assert "P" + ("T" + s) == "PT0S";
  }

  /**
   What may follow a number: in front of a 'T' the designators of years, months and days, behind it
   those of hours, minutes and seconds, and nothing else.
   */
  lemma DesignatorsAcceptedIff(t: string, key: char, rest: string, isTime: bool, d: Duration)
    requires AllDigits(t) && t != "" && DigitsValue(t) <= INT32_MAX && !IsDigit(key) && key != '.'
    ensures NextItem(t + ([key] + rest), isTime, d).err == Ok
            <==> key in (if isTime then {'H', 'M', 'S'} else {'Y', 'M', 'D'})
  {
    ItemOfNumber(t, key, rest, isTime, d);
    SetValueAccepts(key, isTime, d, DigitsValue(t) as int32);
  }

  lemma SetValueAccepts(key: char, isTime: bool, d: Duration, v: int32)
    ensures SetValue(d, key, isTime, v).err == Ok <==> key in (if isTime then {'H', 'M', 'S'} else {'Y', 'M', 'D'})
  {
  }

  /**
   A number with a fraction of up to three digits is accepted exactly when an 'S' follows, in front of
   a 'T' as well as behind it, although seconds without a fraction need the 'T'.
   */
  lemma FractionAcceptedIff(t: string, u: string, isTime: bool, d: Duration)
    requires AllDigits(t) && t != "" && DigitsValue(t) <= INT32_MAX
    ensures NextItem(t + ("." + u), isTime, d).err == Ok <==> At(u, Fraction(u, 100).length) == 'S'
  {
    ItemOfFraction(t, u, isTime, d);
  }

  /** So "P1.500S" is a second and a half. */
  lemma FractionNeedsNoTime(seconds: nat, millis: nat)
    requires seconds <= INT32_MAX && 0 < millis <= 999
    ensures ParseText("P" + (Dec(seconds) + ("." + (Pad(millis, 3) + "S"))))
            == Parsed(Ok, ZERO.(seconds := seconds as int32, milliseconds := millis as int32))
  {
    var t := Pad(millis, 3) + "S";
    DecValue(seconds);
    FractionOfMillis(millis);
    ParseFraction(Dec(seconds), t, false, ZERO);
    ParseTextOf(Dec(seconds) + ("." + t));
  }
}
