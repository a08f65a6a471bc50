/** The texts that the duration parser accepts, all of them, and what it reads from them. */
module DurationGrammar {
  import opened Errors
  import opened CInt
  import opened Durations
  import opened Sequences
  import opened Text
  import opened DurationText

  /** A piece of the text behind the 'P'. A numeral may have spaces and a sign in front of its digits. */
  datatype Piece =
    | TimeMark
    | Part(number: string, key: char)
    | Decimal(number: string, digits: string)

  function Spelling(p: Piece): (s: string) {
    match p
    case TimeMark => "T"
    case Part(n, key) => n + [key]
    case Decimal(n, f) => n + ("." + (f + "S"))
  }

  function Spelled(ps: seq<Piece>): (s: string) {
    if ps == [] then "" else Spelling(ps[0]) + Spelled(ps[1..])
  }

  /** One 'T' at most; years, months and days in front of it, the other designators behind it; decimals anywhere. */
  ghost predicate Allowed(p: Piece, isTime: bool) {
    match p
    case TimeMark => !isTime
    case Part(n, key) => IsNumeral(n) && key in (if isTime then {'H', 'M', 'S'} else {'Y', 'M', 'D'})
    case Decimal(n, f) => IsNumeral(n) && AllDigits(f) && |f| <= 3
  }

  ghost predicate WellFormed(ps: seq<Piece>, isTime: bool) {
    ps != [] ==> Allowed(ps[0], isTime) && WellFormed(ps[1..], isTime || ps[0].TimeMark?)
  }

  /** The decimals in thousandths. */
  function Thousandths(f: string): (n: nat)
    requires AllDigits(f) && |f| <= 3
  {
    DigitsValue(f + Zeros(3 - |f|))
  }

  /** What a piece sets; a later piece overwrites an earlier one. */
  ghost function Effect(p: Piece, isTime: bool, d: Duration): (r: Duration)
    requires Allowed(p, isTime)
  {
    match p
    case TimeMark => d
    case Decimal(n, f) =>
      ThousandthsFit(f);
      d.(seconds := NumberIn(n), milliseconds := Thousandths(f) as int32)
    case Part(n, key) =>
      match key
      case 'Y' => d.(years := NumberIn(n))
      case 'D' => d.(days := NumberIn(n))
      case 'H' => d.(hours := NumberIn(n))
      case 'S' => d.(seconds := NumberIn(n))
      case _ => if isTime then d.(minutes := NumberIn(n)) else d.(months := NumberIn(n))
  }

  ghost function Meaning(ps: seq<Piece>, isTime: bool, d: Duration): (r: Duration)
    requires WellFormed(ps, isTime)
  {
    if ps == [] then d else Meaning(ps[1..], isTime || ps[0].TimeMark?, Effect(ps[0], isTime, d))
  }

  // ---------------------------------------------------------------- decimals

  lemma ThreeDigitValue(p: string)
    requires AllDigits(p) && |p| == 3
    ensures DigitsValue(p) == 100 * Digit(p[0]) + 10 * Digit(p[1]) + Digit(p[2]) < 1000
  {
    ThreeDigits(p);
  }

  lemma ThousandthsFit(f: string)
    requires AllDigits(f) && |f| <= 3
    ensures Thousandths(f) < 1000
  {
    ThreeDigitValue(f + Zeros(3 - |f|));
  }

  /** The digits with these weights, from the left. */
  function Weighted(f: string, factor: nat): (n: nat)
    requires AllDigits(f)
  {
    if f == "" then 0 else Digit(f[0]) * factor + Weighted(f[1..], factor / 10)
  }

  lemma {:induction false} ZerosWeighNothing(z: string, factor: nat)
    requires forall i :: 0 <= i < |z| ==> z[i] == '0'
    ensures Weighted(z, factor) == 0
  {
    if z != "" {
      ZerosWeighNothing(z[1..], factor / 10);
    }
  }

  lemma {:induction false} PaddedWeighsSame(f: string, z: string, factor: nat)
    requires AllDigits(f) && forall i :: 0 <= i < |z| ==> z[i] == '0'
    ensures Weighted(f + z, factor) == Weighted(f, factor)
    decreases |f|
  {
    if f == "" {
      assert f + z == z;
      ZerosWeighNothing(z, factor);
    } else {
      assert (f + z)[1..] == f[1..] + z;
      PaddedWeighsSame(f[1..], z, factor / 10);
    }
  }

  lemma WeightedStep(f: string, i: nat, factor: nat)
    requires AllDigits(f) && i < |f|
    ensures Weighted(f[i..], factor) == Digit(f[i]) * factor + Weighted(f[i + 1..], factor / 10)
  {
    assert f[i..][0] == f[i] && f[i..][1..] == f[i + 1..];
  }

  lemma WeightedIsThousandths(f: string)
    requires AllDigits(f) && |f| <= 3
    ensures Weighted(f, 100) == Thousandths(f)
  {
    var p := f + Zeros(3 - |f|);
    PaddedWeighsSame(f, Zeros(3 - |f|), 100);
    ThreeDigitValue(p);
    ThreeWeights(p);
  }

  lemma ThreeWeights(p: string)
    requires AllDigits(p) && |p| == 3
    ensures Weighted(p, 100) == 100 * Digit(p[0]) + 10 * Digit(p[1]) + Digit(p[2])
  {
    assert p[0..] == p && p[3..] == "";
    WeightedStep(p, 0, 100);
    WeightedStep(p, 1, 10);
    WeightedStep(p, 2, 1);
  }

  /** As many digits as `factor` leaves room for. */
  function Room(factor: nat): (n: nat) {
    if factor == 0 then 0 else if factor < 10 then 1 else if factor < 100 then 2 else 3
  }

  /** The digits in front of something else are all read. */
  lemma {:induction false} FractionReads(f: string, rest: string, factor: nat)
    requires AllDigits(f) && factor in {0, 1, 10, 100} && |f| <= Room(factor) && !IsDigit(At(rest, 0))
    ensures Fraction(f + rest, factor) == Number(Weighted(f, factor), |f|)
    decreases |f|
  {
    var u := f + rest;
    if f == "" {
      assert u == rest;
    } else {
      assert u[0] == f[0] && u[1..] == f[1..] + rest;
      FractionReads(f[1..], rest, factor / 10);
    }
  }

  lemma {:induction false} FractionTakesDigits(u: string, factor: nat)
    requires factor in {0, 1, 10, 100}
    ensures var n := Fraction(u, factor).length;
            n <= |u| && AllDigits(u[..n]) && n <= Room(factor)
    decreases factor
  {
    if factor > 0 && u != "" && IsDigit(u[0]) {
      FractionTakesDigits(u[1..], factor / 10);
      var n := Fraction(u[1..], factor / 10).length;
      assert u[..n + 1] == [u[0]] + u[1..][..n];
    }
  }

  // ---------------------------------------------------------------- what is printed

  function Named(n: int32, key: char): (ps: seq<Piece>) {
    if n == 0 then [] else [Part(Dec(Abs(n as int)), key)]
  }

  /** A printed duration has a piece for every component that is not zero, in order, and a 'T' where it needs one. */
  function DatePieces(d: Duration): (ps: seq<Piece>) {
    Named(d.years, 'Y') + (Named(d.months, 'M') + Named(d.days, 'D'))
  }

  function TimePieces(d: Duration): (ps: seq<Piece>) {
    Named(d.hours, 'H') + (Named(d.minutes, 'M')
      + if d.milliseconds == 0 then Named(d.seconds, 'S')
        else [Decimal(Dec(Abs(d.seconds as int)), Pad(Abs(d.milliseconds as int), 3))])
  }

  function Pieces(d: Duration): (ps: seq<Piece>) {
    DatePieces(d) + if TimePieces(d) == [] then [] else [TimeMark] + TimePieces(d)
  }

  lemma {:induction false} SpelledConcat(ps: seq<Piece>, qs: seq<Piece>)
    ensures Spelled(ps + qs) == Spelled(ps) + Spelled(qs)
    decreases |ps|
  {
    if ps == [] {
      assert ps + qs == qs;
    } else {
      assert (ps + qs)[1..] == ps[1..] + qs;
      SpelledConcat(ps[1..], qs);
      Regroup(Spelling(ps[0]), Spelled(ps[1..]), Spelled(qs));
    }
  }

  lemma SpelledOne(p: Piece)
    ensures Spelled([p]) == Spelling(p)
  {
    assert [p][1..] == [];
    assert Spelled([p][1..]) == "";
  }

  lemma NamedIsComponent(n: int32, key: char)
    requires n as int > INT32_MIN
    ensures Spelled(Named(n, key)) == Component(n, key)
  {
    if n != 0 {
      SpelledOne(Part(Dec(Abs(n as int)), key));
    }
  }

  lemma SecondsArePieces(d: Duration)
    requires d.Negatable() && SecondsReadable(d)
    ensures var ps := if d.milliseconds == 0 then Named(d.seconds, 'S')
                      else [Decimal(Dec(Abs(d.seconds as int)), Pad(Abs(d.milliseconds as int), 3))];
            Spelled(ps) == SecondsText(d)
  {
    NamedIsComponent(d.seconds, 'S');
    if d.milliseconds != 0 {
      SpelledOne(Decimal(Dec(Abs(d.seconds as int)), Pad(Abs(d.milliseconds as int), 3)));
    }
  }

  lemma TimeIsPieces(d: Duration)
    requires d.Negatable() && SecondsReadable(d)
    ensures TimeText(d) == Spelled(if TimePieces(d) == [] then [] else [TimeMark] + TimePieces(d))
  {
    var ps := if d.milliseconds == 0 then Named(d.seconds, 'S')
              else [Decimal(Dec(Abs(d.seconds as int)), Pad(Abs(d.milliseconds as int), 3))];
    SecondsArePieces(d);
    NamedIsComponent(d.hours, 'H');
    NamedIsComponent(d.minutes, 'M');
    SpelledConcat(Named(d.minutes, 'M'), ps);
    SpelledConcat(Named(d.hours, 'H'), Named(d.minutes, 'M') + ps);
    assert Named(d.minutes, 'M') + ps == [] <==> d.minutes == 0 && ps == [];
    assert HasTime(d) <==> TimePieces(d) != [];
    if HasTime(d) {
      SpelledConcat([TimeMark], TimePieces(d));
      SpelledOne(TimeMark);
    }
  }

  /** Nothing else is printed: no zero component, no superfluous 'T'. */
  lemma PrintIsPieces(d: Duration)
    requires d.IsValid() && !d.IsZero() && d.Negatable() && SecondsReadable(d)
    ensures Print(d) == (if d.IsNegative() then "-" else "") + ("P" + Spelled(Pieces(d)))
  {
    var time := if TimePieces(d) == [] then [] else [TimeMark] + TimePieces(d);
    TimeIsPieces(d);
    NamedIsComponent(d.years, 'Y');
    NamedIsComponent(d.months, 'M');
    NamedIsComponent(d.days, 'D');
    SpelledConcat(Named(d.months, 'M'), Named(d.days, 'D'));
    SpelledConcat(Named(d.years, 'Y'), Named(d.months, 'M') + Named(d.days, 'D'));
    SpelledConcat(DatePieces(d), time);
    Regroup(Component(d.months, 'M'), Component(d.days, 'D'), TimeText(d));
    Regroup(Component(d.years, 'Y'), Component(d.months, 'M') + Component(d.days, 'D'), TimeText(d));
  }

  // ---------------------------------------------------------------- one piece

  lemma NumeralStart(n: string)
    requires IsNumeral(n)
    ensures n != "" && n[0] != 'T'
  {
  }

  /** One turn of the loop on a numeral of `k` characters. */
  lemma ItemAt(s: string, k: nat, isTime: bool, d: Duration)
    requires s != "" && s[0] != 'T' && 0 < k <= |s| && IsNumeral(s[..k]) && !IsDigit(At(s, k))
    ensures var v := NumberIn(s[..k]);
            NextItem(s, isTime, d)
            == if At(s, k) == '.' then FractionItem(s[k + 1..], v, k, isTime, d)
               else var r := SetValue(d, At(s, k), isTime, v); Item(r.err, r.value, isTime, k + 1)
  {
    StrtolIff(s, k);
  }

  lemma NumeralInFront(n: string, stop: char, rest: string)
    requires IsNumeral(n) && !IsDigit(stop)
    ensures var s := n + ([stop] + rest);
            s[0] != 'T' && s[..|n|] == n && s[|n|] == stop && s[|n| + 1..] == rest
  {
    NumeralStart(n);
  }

  lemma SetValueIsEffect(n: string, key: char, isTime: bool, d: Duration)
    requires Allowed(Part(n, key), isTime)
    ensures SetValue(d, key, isTime, NumberIn(n)) == Parsed(Ok, Effect(Part(n, key), isTime, d))
  {
  }

  lemma ReadPart(n: string, key: char, rest: string, isTime: bool, d: Duration)
    requires Allowed(Part(n, key), isTime)
    ensures NextItem((n + [key]) + rest, isTime, d)
            == Item(Ok, Effect(Part(n, key), isTime, d), isTime, |n| + 1)
  {
    Regroup(n, [key], rest);
    NumeralInFront(n, key, rest);
    ItemAt(n + ([key] + rest), |n|, isTime, d);
    SetValueIsEffect(n, key, isTime, d);
  }

  lemma ReadDecimal(n: string, f: string, rest: string, isTime: bool, d: Duration)
    requires Allowed(Decimal(n, f), isTime)
    ensures NextItem((n + ("." + (f + "S"))) + rest, isTime, d)
            == Item(Ok, Effect(Decimal(n, f), isTime, d), isTime, |n| + |f| + 2)
  {
    var u := f + ("S" + rest);
    Regroup(n, "." + (f + "S"), rest);
    Regroup(".", f + "S", rest);
    Regroup(f, "S", rest);
    NumeralInFront(n, '.', u);
    ItemAt(n + ("." + u), |n|, isTime, d);
    ItemOfDecimal(n, f, rest, isTime, d);
  }

  lemma ItemOfDecimal(n: string, f: string, rest: string, isTime: bool, d: Duration)
    requires Allowed(Decimal(n, f), isTime)
    ensures FractionItem(f + ("S" + rest), NumberIn(n), |n|, isTime, d)
            == Item(Ok, Effect(Decimal(n, f), isTime, d), isTime, |n| + |f| + 2)
  {
    FractionReads(f, "S" + rest, 100);
    WeightedIsThousandths(f);
    ThousandthsFit(f);
    assert At(f + ("S" + rest), |f|) == 'S';
  }

  /** An allowed piece is read as a whole. */
  lemma ReadPiece(p: Piece, rest: string, isTime: bool, d: Duration)
    requires Allowed(p, isTime)
    ensures NextItem(Spelling(p) + rest, isTime, d)
            == Item(Ok, Effect(p, isTime, d), isTime || p.TimeMark?, |Spelling(p)|)
  {
    match p
    case TimeMark =>
    case Part(n, key) => ReadPart(n, key, rest, isTime, d);
    case Decimal(n, f) => ReadDecimal(n, f, rest, isTime, d);
  }

  /** And whatever is read without error is an allowed piece. */
  lemma PieceRead(s: string, isTime: bool, d: Duration) returns (p: Piece)
    requires s != "" && NextItem(s, isTime, d).err == Ok
    ensures Allowed(p, isTime) && s == Spelling(p) + s[NextItem(s, isTime, d).length..]
  {
    if s[0] == 'T' {
      p := TimeMark;
      CutAt(s, 0);
    } else {
      var n := Strtol(s).length;
      StrtolIff(s, n);
      if At(s, n) == '.' {
        p := DecimalRead(s, n, isTime, d);
      } else {
        p := PartRead(s, n, isTime, d);
      }
    }
  }

  lemma PartRead(s: string, n: nat, isTime: bool, d: Duration) returns (p: Piece)
    requires s != "" && s[0] != 'T' && 0 < n <= |s| && IsNumeral(s[..n]) && !IsDigit(At(s, n)) && At(s, n) != '.'
    requires NextItem(s, isTime, d).err == Ok
    ensures Allowed(p, isTime) && s == Spelling(p) + s[NextItem(s, isTime, d).length..]
  {
    ItemAt(s, n, isTime, d);
    OnlyDesignators(At(s, n), isTime, d, NumberIn(s[..n]));
    p := Part(s[..n], s[n]);
    PartSpelled(s, n);
  }

  lemma OnlyDesignators(key: char, isTime: bool, d: Duration, v: int32)
    requires SetValue(d, key, isTime, v).err == Ok
    ensures key in (if isTime then {'H', 'M', 'S'} else {'Y', 'M', 'D'}) && key != NUL
  {
  }

  lemma PartSpelled(s: string, n: nat)
    requires n < |s|
    ensures s == (s[..n] + [s[n]]) + s[n + 1..]
  {
  }

  lemma DecimalRead(s: string, n: nat, isTime: bool, d: Duration) returns (p: Piece)
    requires s != "" && s[0] != 'T' && 0 < n < |s| && IsNumeral(s[..n]) && s[n] == '.'
    requires NextItem(s, isTime, d).err == Ok
    ensures Allowed(p, isTime) && s == Spelling(p) + s[NextItem(s, isTime, d).length..]
  {
    var u := s[n + 1..];
    var k := Fraction(u, 100).length;
    ItemAt(s, n, isTime, d);
    FractionTakesDigits(u, 100);
    p := Decimal(s[..n], u[..k]);
    DecimalSpelled(s, n, k);
  }

  lemma DecimalSpelled(s: string, n: nat, k: nat)
    requires n < |s| && s[n] == '.' && n + 1 + k < |s| && s[n + 1 + k] == 'S'
    ensures s == (s[..n] + ("." + (s[n + 1..][..k] + "S"))) + s[n + k + 2..]
  {
  }

  // ---------------------------------------------------------------- the whole text

  ghost predicate SpellsPieces(s: string, isTime: bool, d: Duration, r: Duration, ps: seq<Piece>) {
    WellFormed(ps, isTime) && s == Spelled(ps) && r == Meaning(ps, isTime, d)
  }

  lemma {:induction false} ReadPieces(ps: seq<Piece>, isTime: bool, d: Duration)
    requires WellFormed(ps, isTime)
    ensures ParseFrom(Spelled(ps), isTime, d) == Parsed(Ok, Meaning(ps, isTime, d))
    decreases |ps|
  {
    if ps != [] {
      var rest := Spelled(ps[1..]);
      ReadPiece(ps[0], rest, isTime, d);
      assert Spelled(ps)[|Spelling(ps[0])|..] == rest;
      ReadPieces(ps[1..], isTime || ps[0].TimeMark?, Effect(ps[0], isTime, d));
    }
  }

  lemma {:induction false} PiecesRead(s: string, isTime: bool, d: Duration) returns (ps: seq<Piece>)
    requires ParseFrom(s, isTime, d).err == Ok
    ensures SpellsPieces(s, isTime, d, ParseFrom(s, isTime, d).value, ps)
    decreases |s|
  {
    ps := [];
    if s != "" {
      var r := NextItem(s, isTime, d);
      var p := PieceRead(s, isTime, d);
      ReadPiece(p, s[r.length..], isTime, d);
      var rest := PiecesRead(s[r.length..], r.isTime, r.value);
      ps := [p] + rest;
      assert ps[1..] == rest;
    }
  }

  /** The sign, the 'P' and the pieces of an accepted text. */
  ghost predicate SpellsText(s: string, r: Duration, sign: string, ps: seq<Piece>) {
    && (sign == "" || sign == "+" || sign == "-") && WellFormed(ps, false) && s == sign + ("P" + Spelled(ps))
    && r == if sign == "-" then Meaning(ps, false, ZERO).InvertSign() else Meaning(ps, false, ZERO)
  }

  lemma SignedText(sign: string, b: string)
    requires sign == "" || sign == "+" || sign == "-"
    ensures var r := ParseFrom(b, false, ZERO);
            ParseText(sign + ("P" + b)) == if r.err == Ok && sign == "-" then Parsed(Ok, r.value.InvertSign()) else r
  {
    var s := sign + ("P" + b);
    assert s[|sign|..] == "P" + b && ("P" + b)[1..] == b;
  }

  lemma TextIsSigned(s: string) returns (sign: string, b: string)
    requires ParseText(s).err == Ok
    ensures (sign == "" || sign == "+" || sign == "-") && s == sign + ("P" + b)
  {
    var signed := At(s, 0) == '-' || At(s, 0) == '+';
    var body := if signed then s[1..] else s;
    assert body[0] == 'P';
    b := body[1..];
    CutAt(body, 0);
    sign := if signed then [s[0]] else "";
    if signed {
      CutAt(s, 0);
    }
  }

  /** A text is read as the duration `r` exactly when it is a sign, a 'P' and well-formed pieces that mean `r`. */
  lemma DurationTextIff(s: string, r: Duration)
    ensures ParseText(s) == Parsed(Ok, r) <==> exists sign, ps :: SpellsText(s, r, sign, ps)
  {
    if sign, ps :| SpellsText(s, r, sign, ps) {
      ReadPieces(ps, false, ZERO);
      SignedText(sign, Spelled(ps));
    }
    if ParseText(s) == Parsed(Ok, r) {
      var sign, b := TextIsSigned(s);
      SignedText(sign, b);
      var ps := PiecesRead(b, false, ZERO);
      assert SpellsText(s, r, sign, ps);
    }
  }
}
