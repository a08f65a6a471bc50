/**
 Decimal text: what printf's %d and %0Nd write and what strtol in base 10 reads.
 C strings are sequences without the terminator; looking at the terminator reads NUL.
 */
module Text {
  import opened CInt
  import opened Sequences

  const NUL: char := '\0'
  const LONG_MAX: int := 0x7FFF_FFFF_FFFF_FFFF

  predicate IsDigit(c: char) {
    '0' <= c <= '9'
  }

  predicate IsSpace(c: char) {
    c == ' ' || 9 as char <= c <= 13 as char
  }

  predicate AllDigits(s: string) {
    forall i :: 0 <= i < |s| ==> IsDigit(s[i])
  }

  /** The character at the cursor, or the terminator at the end. */
  function At(s: string, i: nat): (r: char) {
    if i < |s| then s[i] else NUL
  }

  function Digit(c: char): (r: nat)
    requires IsDigit(c)
  {
    c as nat - '0' as nat
  }

  function DigitChar(n: nat): (r: char)
    requires n < 10
  {
    (n + '0' as nat) as char
  }

  /** %d of a non-negative number. */
  function Dec(n: nat): (s: string)
    ensures AllDigits(s) && |s| > 0
  {
    if n < 10 then [DigitChar(n)] else Dec(n / 10) + [DigitChar(n % 10)]
  }

  /** %0wd of a non-negative number. */
  function Pad(n: nat, w: nat): (s: string)
    ensures AllDigits(s) && |s| > 0
  {
    Zeros(w - |Dec(n)|) + Dec(n)
  }

  function Zeros(k: int): (s: string)
    ensures |s| == if k < 0 then 0 else k
    ensures forall i :: 0 <= i < |s| ==> s[i] == '0'
  {
    if k <= 0 then "" else seq(k, _ => '0')
  }

  function DigitsValue(s: string): (r: nat)
    requires AllDigits(s)
  {
    if s == "" then 0 else 10 * DigitsValue(s[..|s| - 1]) + Digit(s[|s| - 1])
  }

  function SpaceLength(s: string): (n: nat)
    ensures n <= |s|
  {
    if s == "" || !IsSpace(s[0]) then 0 else 1 + SpaceLength(s[1..])
  }

  /** The length of the longest prefix of digits. */
  function DigitLength(s: string): (n: nat)
    ensures n <= |s| && AllDigits(s[..n]) && (n < |s| ==> !IsDigit(s[n]))
  {
    if s == "" || !IsDigit(s[0]) then 0
    else
      var n := 1 + DigitLength(s[1..]);
      assert s[..n] == [s[0]] + s[1..][..n - 1];
      n
  }

  function Saturate(v: int): (r: int) {
    if v > LONG_MAX then LONG_MAX else if v < -LONG_MAX - 1 then -LONG_MAX - 1 else v
  }

  datatype Number = Number(value: int, length: nat)

  /** strtol(s, &end, 10): spaces, an optional sign, digits; length 0 when there is no number. */
  function Strtol(s: string): (r: Number)
    ensures r.length <= |s|
  {
    var i := SpaceLength(s);
    var signed := At(s, i) == '-' || At(s, i) == '+';
    var from := if signed then i + 1 else i;
    var n := DigitLength(s[from..]);
    if n == 0 then Number(0, 0)
    else
      var m: int := DigitsValue(s[from..][..n]);
      Number(Saturate(if At(s, i) == '-' then -m else m), from + n)
  }

  lemma {:induction false} DecValue(n: nat)
    ensures DigitsValue(Dec(n)) == n
  {
    if n >= 10 {
      DecValue(n / 10);
      assert Dec(n)[..|Dec(n)| - 1] == Dec(n / 10);
    }
  }

  lemma {:induction false} LeadingZerosAddNothing(z: string, s: string)
    requires AllDigits(s) && forall i :: 0 <= i < |z| ==> z[i] == '0'
    ensures AllDigits(z + s) && DigitsValue(z + s) == DigitsValue(s)
    decreases |s|, |z|
  {
    if s != "" {
      LeadingZerosAddNothing(z, s[..|s| - 1]);
      assert (z + s)[..|z + s| - 1] == z + s[..|s| - 1];
    } else if z != "" {
      LeadingZerosAddNothing(z[..|z| - 1], "");
      assert z + "" == z && z[..|z| - 1] + "" == z[..|z| - 1];
    }
  }

  lemma PadValue(n: nat, w: nat)
    ensures DigitsValue(Pad(n, w)) == n
  {
    DecValue(n);
    LeadingZerosAddNothing(Zeros(w - |Dec(n)|), Dec(n));
  }

  lemma {:induction false} DigitLengthOf(t: string, rest: string)
    requires AllDigits(t) && !IsDigit(At(rest, 0))
    ensures DigitLength(t + rest) == |t|
  {
    if t == "" {
      assert t + rest == rest;
    } else {
      assert (t + rest)[1..] == t[1..] + rest;
      DigitLengthOf(t[1..], rest);
    }
  }

  /** strtol reads back a run of digits that something other than a digit follows. */
  lemma StrtolReadsDigits(t: string, rest: string)
    requires AllDigits(t) && t != "" && !IsDigit(At(rest, 0)) && DigitsValue(t) <= LONG_MAX
    ensures Strtol(t + rest) == Number(DigitsValue(t), |t|)
  {
    var s := t + rest;
    assert s[0] == t[0];
    assert SpaceLength(s) == 0 && s[0..] == s;
    DigitLengthOf(t, rest);
    assert s[..|t|] == t;
  }

  // ---------------------------------------------------------------- every number that strtol reads

  predicate AllSpaces(s: string) {
    forall i :: 0 <= i < |s| ==> IsSpace(s[i])
  }

  /** Spaces, an optional sign, and digits. */
  predicate Spells(n: string, spaces: string, sign: string, digits: string) {
    && n == spaces + (sign + digits)
    && AllSpaces(spaces) && (sign == "" || sign == "+" || sign == "-") && AllDigits(digits) && digits != ""
  }

  ghost predicate IsNumeral(n: string) {
    exists spaces, sign, digits :: Spells(n, spaces, sign, digits)
  }

  function SignedValue(sign: string, digits: string): (v: int)
    requires AllDigits(digits)
  {
    if sign == "-" then -(DigitsValue(digits) as int) else DigitsValue(digits)
  }

  lemma {:induction false} SpaceLengthOf(spaces: string, rest: string)
    requires AllSpaces(spaces) && !IsSpace(At(rest, 0))
    ensures SpaceLength(spaces + rest) == |spaces|
  {
    if spaces == "" {
      assert spaces + rest == rest;
    } else {
      assert (spaces + rest)[1..] == spaces[1..] + rest;
      SpaceLengthOf(spaces[1..], rest);
    }
  }

  /** Where the sign and the digits stand. */
  lemma PartsOfNumeral(spaces: string, sign: string, digits: string, rest: string)
    requires Spells(spaces + (sign + digits), spaces, sign, digits)
    ensures var s := spaces + (sign + (digits + rest));
            && SpaceLength(s) == |spaces| && |spaces| + |sign| <= |s|
            && (At(s, |spaces|) == '-' <==> sign == "-") && (At(s, |spaces|) == '+' <==> sign == "+")
            && s[|spaces| + |sign|..] == digits + rest
  {
    var tail := sign + (digits + rest);
    assert At(tail, 0) == if sign == "" then digits[0] else sign[0];
    SpaceLengthOf(spaces, tail);
  }

  lemma StrtolFrom(s: string, i: nat, from: nat, u: string, n: nat)
    requires i == SpaceLength(s) && from == (if At(s, i) == '-' || At(s, i) == '+' then i + 1 else i)
    requires from <= |s| && u == s[from..] && n == DigitLength(u) > 0
    ensures Strtol(s).length == from + n
    ensures Strtol(s).value == Saturate(if At(s, i) == '-' then -(DigitsValue(u[..n]) as int) else DigitsValue(u[..n]))
  {
  }

  /** strtol reads a numeral up to the first character that is not a digit, clipped to the range of a long. */
  lemma StrtolReads(n: string, spaces: string, sign: string, digits: string, rest: string)
    requires Spells(n, spaces, sign, digits) && !IsDigit(At(rest, 0))
    ensures Strtol(n + rest).length == |n|
    ensures var v := SignedValue(sign, digits);
            Strtol(n + rest).value == if v > LONG_MAX then LONG_MAX else if v < -LONG_MAX - 1 then -LONG_MAX - 1 else v
  {
    var s, u := spaces + (sign + (digits + rest)), digits + rest;
    Regroup(spaces, sign + digits, rest);
    Regroup(sign, digits, rest);
    PartsOfNumeral(spaces, sign, digits, rest);
    DigitLengthOf(digits, rest);
    assert u[..|digits|] == digits;
    StrtolFrom(s, |spaces|, |spaces| + |sign|, u, |digits|);
  }

  /** And what it reads is always such a numeral, followed by something else than a digit. */
  lemma StrtolReadsNumeral(s: string) returns (spaces: string, sign: string, digits: string)
    requires Strtol(s).length > 0
    ensures Spells(s[..Strtol(s).length], spaces, sign, digits) && !IsDigit(At(s, Strtol(s).length))
  {
    var i := SpaceLength(s);
    SpacesAreSpaces(s);
    var signed := At(s, i) == '-' || At(s, i) == '+';
    var from := if signed then i + 1 else i;
    var n := DigitLength(s[from..]);
    spaces, sign, digits := s[..i], s[i..from], s[from..][..n];
    CutInThree(s, i, from, n);
    assert At(s, from + n) == At(s[from..], n);
  }

  lemma CutInThree(s: string, i: nat, j: nat, n: nat)
    requires i <= j && j + n <= |s|
    ensures s[..j + n] == s[..i] + (s[i..j] + s[j..][..n])
  {
    assert s[j..][..n] == s[j..j + n];
  }

  lemma {:induction false} SpacesAreSpaces(s: string)
    ensures AllSpaces(s[..SpaceLength(s)])
  {
    if s != "" && IsSpace(s[0]) {
      SpacesAreSpaces(s[1..]);
      var n := SpaceLength(s[1..]);
      assert s[..1 + n] == [s[0]] + s[1..][..n];
    }
  }

  /** A numeral is cut off the front of a text in exactly one way, by the character that ends it. */
  lemma StrtolIff(s: string, k: nat)
    requires k <= |s|
    ensures Strtol(s).length == k > 0 <==> IsNumeral(s[..k]) && !IsDigit(At(s, k))
    ensures Strtol(s).length == k > 0 ==> Strtol(s[..k]) == Strtol(s)
  {
    if IsNumeral(s[..k]) && !IsDigit(At(s, k)) {
      var spaces, sign, digits :| Spells(s[..k], spaces, sign, digits);
      assert s == s[..k] + s[k..] && s[..k] + "" == s[..k];
      StrtolReads(s[..k], spaces, sign, digits, s[k..]);
    }
    if Strtol(s).length == k > 0 {
      var spaces, sign, digits := StrtolReadsNumeral(s);
      assert s == s[..k] + s[k..] && s[..k] + "" == s[..k];
      StrtolReads(s[..k], spaces, sign, digits, s[k..]);
      StrtolReads(s[..k], spaces, sign, digits, "");
    }
  }

  lemma CutText(u: string, k: nat)
    requires k <= |u|
    ensures u == u[..k] + u[k..] && At(u[k..], 0) == At(u, k)
  {
  }

  lemma NumeralIsLong(n: string)
    requires IsNumeral(n)
    ensures |n| > 0
  {
  }

  lemma WholeNumeral(n: string)
    ensures IsNumeral(n) <==> Strtol(n).length == |n| > 0
  {
    assert n[..|n|] == n;
    StrtolIff(n, |n|);
    if IsNumeral(n) {
      NumeralIsLong(n);
    }
  }

  /** The value of a numeral in a 32-bit field. */
  function NumberIn(n: string): (v: int32) {
    Low32(Strtol(n).value)
  }

  lemma {:induction false} DecLength(n: nat, w: nat)
    requires w > 0 && n < Pow10(w)
    ensures |Dec(n)| <= w
  {
    assert Pow10(1) == 10;
    if n >= 10 {
      DecLength(n / 10, w - 1);
    }
  }

  function Pow10(w: nat): (r: nat) {
    if w == 0 then 1 else 10 * Pow10(w - 1)
  }

  lemma PadLength(n: nat, w: nat)
    requires w > 0 && n < Pow10(w)
    ensures |Pad(n, w)| == w
  {
    DecLength(n, w);
  }
}
