/**
 The string helpers that edit a buffer in place or fill one in a loop. A C string is an array of
 characters, read from an offset up to the first NUL; libc's searches are functions on it.
 */
module StringUtil {
  import opened Errors
  import opened Sequences
  import opened Text

  /** The string that starts at offset `o`. */
  function CString(q: seq<char>, o: nat): (r: string)
    decreases |q| - o
  {
    if o >= |q| || q[o] == NUL then "" else [q[o]] + CString(q, o + 1)
  }

  /** The string that starts at `o` ends at `n`. */
  predicate EndsAt(q: seq<char>, o: nat, n: nat) {
    o <= n < |q| && q[n] == NUL && forall k :: o <= k < n ==> q[k] != NUL
  }

  lemma {:induction false} CStringIs(q: seq<char>, o: nat, n: nat)
    requires EndsAt(q, o, n)
    ensures CString(q, o) == q[o..n]
    decreases n - o
  {
    if o < n {
      CStringIs(q, o + 1, n);
    }
  }

  /** strlen */
  method StrLen(a: array<char>, o: nat) returns (len: nat)
    requires exists n :: EndsAt(a[..], o, n)
    ensures EndsAt(a[..], o, o + len)
  {
    ghost var n: nat :| EndsAt(a[..], o, n);
    len := 0;
    assert n < a.Length && a[..][n] == a[n];
    while a[o + len] != NUL
      invariant o + len <= n < a.Length && a[n] == NUL
      invariant forall k :: o <= k < o + len ==> a[k] != NUL
      decreases n - len
    {
      len := len + 1;
    }
  }

  // ---------------------------------------------------------------- StringRemoveToken

  predicate OccursAt(s: string, t: string, i: int) {
    0 <= i && i + |t| <= |s| && forall j :: 0 <= j < |t| ==> s[i + j] == t[j]
  }

  /** strstr from offset `i`: the first occurrence, or -1. */
  function FirstFrom(s: string, t: string, i: nat): (k: int)
    ensures k == -1 || i <= k <= |s| - |t|
    decreases |s| - i
  {
    if i + |t| > |s| then -1
    else if OccursAt(s, t, i) then i
    else FirstFrom(s, t, i + 1)
  }

  function FirstAt(s: string, t: string): (k: int)
    ensures k == -1 || 0 <= k <= |s| - |t|
  {
    FirstFrom(s, t, 0)
  }

  lemma {:induction false} FirstIsFirst(s: string, t: string, i: nat)
    ensures var k := FirstFrom(s, t, i);
            if k < 0 then forall j :: j >= i ==> !OccursAt(s, t, j)
            else OccursAt(s, t, k) && forall j :: i <= j < k ==> !OccursAt(s, t, j)
    decreases |s| - i
  {
    if i + |t| <= |s| && !OccursAt(s, t, i) {
      FirstIsFirst(s, t, i + 1);
    }
  }

  /** What StringRemoveToken leaves: the search goes on where a token was cut out, not before. */
  function RemoveAll(s: string, t: string): (r: string)
    requires t != ""
    decreases |s|
  {
    var k := FirstAt(s, t);
    if k < 0 then s else s[..k] + RemoveAll(s[k + |t|..], t)
  }

  /** memmove towards the front. */
  method MoveDown(a: array<char>, dst: nat, src: nat, count: nat)
    requires dst <= src && src + count <= a.Length
    modifies a
    ensures a[..dst] == old(a[..dst])
    ensures a[dst..dst + count] == old(a[src..src + count])
    ensures a[dst + count..] == old(a[dst + count..])
  {
    for i := 0 to count
      invariant forall k :: 0 <= k < dst ==> a[k] == old(a[k])
      invariant forall k :: dst <= k < dst + i ==> a[k] == old(a[k + (src - dst)])
      invariant forall k :: dst + i <= k < a.Length ==> a[k] == old(a[k])
    {
      a[dst + i] := a[src + i];
    }
    ghost var moved, wanted := a[dst..dst + count], old(a[src..src + count]);
    forall k | 0 <= k < count
      ensures moved[k] == wanted[k]
    {
      assert moved[k] == a[dst + k];
    }
  }

  method RemoveToken(a: array?<char>, t: string)
    requires a != null ==> exists n :: EndsAt(a[..], 0, n)
    modifies if a == null then {} else {a}
    ensures a != null ==> exists n :: EndsAt(a[..], 0, n)
    ensures a != null ==> CString(a[..], 0)
                          == if t == "" then CString(old(a[..]), 0) else RemoveAll(CString(old(a[..]), 0), t)
  {
    if a == null {
      return;
    }
    var n := StrLen(a, 0);
    ghost var s := a[..n];
    CStringIs(a[..], 0, n);
    if n == 0 || t == "" {
      return;
    }
    var p := 0;
    var k := FirstAt(a[p..n], t);
    assert a[0..n] == s && a[..0] == [];
    while k >= 0
      invariant 0 <= p <= n < a.Length && EndsAt(a[..], 0, n)
      invariant k == FirstAt(a[p..n], t)
      invariant a[..p] + RemoveAll(a[p..n], t) == RemoveAll(s, t)
      decreases n
    {
      p, n, k := CutToken(a, p, n, t, k, s);
    }
    assert a[..p] + a[p..n] == a[..n];
    CStringIs(a[..], 0, n);
  }

  /** One turn of the loop: cuts out the token found `k` characters after `p`. */
  method CutToken(a: array<char>, p: nat, n: nat, t: string, k: int, ghost s: string)
    returns (p': nat, n': nat, k': int)
    requires t != "" && p <= n && EndsAt(a[..], 0, n) && k == FirstAt(a[p..n], t) && k >= 0
    requires a[..p] + RemoveAll(a[p..n], t) == RemoveAll(s, t)
    modifies a
    ensures p' <= n' < n && EndsAt(a[..], 0, n') && k' == FirstAt(a[p'..n'], t)
    ensures a[..p'] + RemoveAll(a[p'..n'], t) == RemoveAll(s, t)
  {
    ghost var x, w := a[..p], a[p..n];
    CutOut(a, p, k, n, |t|);
    p', n' := p + k, n - |t|;
    CutStep(x, w, t, k, a[..p'], a[p'..n'], RemoveAll(s, t));
    k' := FirstAt(a[p'..n'], t);
  }

  /** The `len` characters that stand `k` behind `p` are gone. */
  method CutOut(a: array<char>, p: nat, k: nat, n: nat, len: nat)
    requires p + k + len <= n && EndsAt(a[..], 0, n)
    modifies a
    ensures EndsAt(a[..], 0, n - len)
    ensures a[..p + k] == old(a[..p]) + old(a[p..n])[..k] && a[p + k..n - len] == old(a[p..n])[k + len..]
  {
    ghost var q := a[..];
    MoveDown(a, p + k, p + k + len, n - len + 1 - (p + k));
    CutEnds(q, a[..], p + k, n, len);
    CutLeaves(q, a[..], p, k, n, len);
  }

  lemma CutLeaves(q: string, q': string, p: nat, k: nat, n: nat, len: nat)
    requires p + k + len <= n < |q| == |q'|
    requires q'[..p + k] == q[..p + k] && q'[p + k..n - len + 1] == q[p + k + len..n + 1]
    ensures q'[..p + k] == q[..p] + q[p..n][..k] && q'[p + k..n - len] == q[p..n][k + len..]
  {
    var m := p + k;
    assert q[p..n][..k] == q[p..m];
    assert q[..m] == q[..p] + q[p..m];
    assert q'[m..n - len] == q'[m..n - len + 1][..n - len - m];
    assert q[m + len..n] == q[m + len..n + 1][..n - len - m];
    assert q[p..n][k + len..] == q[m + len..n];
  }

  lemma CutStep(x: string, w: string, t: string, k: nat, front: string, rest: string, whole: string)
    requires t != "" && k == FirstAt(w, t) && front == x + w[..k] && rest == w[k + |t|..]
    requires x + RemoveAll(w, t) == whole
    ensures front + RemoveAll(rest, t) == whole
  {
    RemoveFirst(w, t, k);
    Regroup(x, w[..k], RemoveAll(w[k + |t|..], t));
  }

  lemma RemoveFirst(w: string, t: string, k: nat)
    requires t != "" && k == FirstAt(w, t)
    ensures RemoveAll(w, t) == w[..k] + RemoveAll(w[k + |t|..], t)
  {
  }

  lemma CutEnds(q: string, q': string, m: nat, n: nat, len: nat)
    requires EndsAt(q, 0, n) && m + len <= n && |q'| == |q|
    requires q'[..m] == q[..m] && q'[m..n - len + 1] == q[m + len..n + 1]
    ensures EndsAt(q', 0, n - len)
  {
    forall i | 0 <= i <= n - len
      ensures q'[i] == NUL <==> i == n - len
    {
      if i < m {
        assert q'[..m][i] == q[..m][i];
      } else {
        assert q'[m..n - len + 1][i - m] == q[m + len..n + 1][i - m];
      }
    }
  }

  /** All the characters of the token are the same. */
  predicate Uniform(t: string) {
    forall i :: 0 <= i < |t| ==> t[i] == t[0]
  }

  ghost predicate Contains(s: string, t: string) {
    exists i :: OccursAt(s, t, i)
  }

  /**
   The header promises that the token is removed. It is gone from every string exactly when all its
   characters are the same; otherwise there are strings in which removing it joins a new one.
   */
  lemma TokenIsGoneIff(t: string)
    requires t != ""
    ensures (forall s :: !Contains(RemoveAll(s, t), t)) <==> Uniform(t)
  {
    if Uniform(t) {
      forall s
        ensures !Contains(RemoveAll(s, t), t)
      {
        UniformTokenIsGone(s, t);
      }
    } else {
      var s := TokenCanStay(t);
      assert exists x :: Contains(RemoveAll(x, t), t);
    }
  }

  lemma TokenCanStay(t: string) returns (s: string)
    requires t != "" && !Uniform(t)
    ensures Contains(RemoveAll(s, t), t)
  {
    TokenIsRejoined(t);
    s := [t[0]] + t + t[1..];
  }

  lemma {:induction false} UniformTokenIsGone(s: string, t: string)
    requires t != "" && Uniform(t)
    ensures !Contains(RemoveAll(s, t), t)
    decreases |s|
  {
    var k := FirstAt(s, t);
    if k < 0 {
      FirstIsFirst(s, t, 0);
    } else {
      var rest := RemoveAll(s[k + |t|..], t);
      FirstIsFirst(s, t, 0);
      UniformTokenIsGone(s[k + |t|..], t);
      forall i
        ensures !OccursAt(s[..k] + rest, t, i)
      {
        if OccursAt(s[..k] + rest, t, i) {
          NotAcross(s, t, k, rest, i);
        }
      }
    }
  }

  /** The character before the first occurrence is another one, so no occurrence lies across the cut. */
  lemma NotAcross(s: string, t: string, k: nat, rest: string, i: int)
    requires t != "" && Uniform(t) && k == FirstAt(s, t) && OccursAt(s[..k] + rest, t, i)
    ensures Contains(rest, t)
  {
    FirstIsFirst(s, t, 0);
    var all := s[..k] + rest;
    if i >= k {
      forall j | 0 <= j < |t|
        ensures rest[i - k + j] == t[j]
      {
        assert all[i + j] == t[j];
      }
      assert OccursAt(rest, t, i - k);
    } else if i + |t| <= k {
      forall j | 0 <= j < |t|
        ensures s[i + j] == t[j]
      {
        assert all[i + j] == t[j];
      }
      assert OccursAt(s, t, i);
    } else {
      assert s[k - 1] == all[i + (k - 1 - i)] == t[k - 1 - i];
      forall j | 0 <= j < |t|
        ensures s[k - 1 + j] == t[j]
      {
        if j > 0 {
          assert s[k + (j - 1)] == t[j - 1];
        }
      }
      assert OccursAt(s, t, k - 1);
    }
  }

  /** The token cut out of a copy of itself: both ends join. */
  lemma TokenIsRejoined(t: string)
    requires t != "" && !Uniform(t)
    ensures RemoveAll([t[0]] + t + t[1..], t) == t && Contains(t, t)
  {
    assert OccursAt(t, t, 0);
    var s := [t[0]] + t + t[1..];
    assert OccursAt(s, t, 1) by {
      assert forall j :: 0 <= j < |t| ==> s[1 + j] == t[j];
    }
    if OccursAt(s, t, 0) {
      SameShifted(s, t);
    }
    FirstIsSecond(s, t);
    RemoveFirst(s, t, 1);
    assert s[..1] == [t[0]] && s[1 + |t|..] == t[1..];
    NothingToCut(t[1..], t);
    assert [t[0]] + t[1..] == t;
  }

  lemma FirstIsSecond(s: string, t: string)
    requires t != "" && |s| > |t| && !OccursAt(s, t, 0) && OccursAt(s, t, 1)
    ensures FirstAt(s, t) == 1
  {
    assert FirstFrom(s, t, 1) == 1;
  }

  lemma NothingToCut(w: string, t: string)
    requires |w| < |t|
    ensures RemoveAll(w, t) == w
  {
  }

  lemma SameShifted(s: string, t: string)
    requires t != "" && |s| > |t| && s[0] == t[0] && OccursAt(s, t, 0) && OccursAt(s, t, 1)
    ensures Uniform(t)
  {
    forall i | 0 <= i < |t|
      ensures t[i] == t[0]
    {
      var j := i;
      while j > 0
        invariant 0 <= j <= i && t[j] == t[i]
      {
        assert s[0 + j] == t[j] && s[1 + (j - 1)] == t[j - 1];
        j := j - 1;
      }
    }
  }

  // ---------------------------------------------------------------- StringGroupByN

  /** A token of one character is removed wherever it is. */
  lemma {:induction false} RemoveCharacter(s: string, c: char)
    ensures RemoveAll(s, [c]) == Without(s, c)
    decreases |s|
  {
    if s != "" {
      RemoveCharacter(s[1..], c);
      if s[0] == c {
        RemoveHit(s, c);
      } else {
        assert s == [s[0]] + s[1..];
        RemoveMiss(s[0], s[1..], c);
      }
    }
  }

  lemma RemoveHit(s: string, c: char)
    requires s != "" && s[0] == c
    ensures RemoveAll(s, [c]) == RemoveAll(s[1..], [c])
  {
    OccursOne(s, c, 0);
    assert FirstAt(s, [c]) == 0;
    var rest := RemoveAll(s[1..], [c]);
    assert s[..0] + rest == rest;
  }

  lemma RemoveMiss(d: char, tail: string, c: char)
    requires d != c
    ensures RemoveAll([d] + tail, [c]) == [d] + RemoveAll(tail, [c])
  {
    var s := [d] + tail;
    assert s[1..] == tail;
    OccursOne(s, c, 0);
    FirstShifts(s, c, 0);
    var k := FirstAt(tail, [c]);
    assert FirstAt(s, [c]) == if k < 0 then -1 else k + 1;
    if k >= 0 {
      assert s[k + 2..] == tail[k + 1..];
      assert s[..k + 1] == [d] + tail[..k];
      Regroup([d], tail[..k], RemoveAll(tail[k + 1..], [c]));
    }
  }

  lemma OccursOne(s: string, c: char, i: nat)
    requires i < |s|
    ensures OccursAt(s, [c], i) <==> s[i] == c
  {
    assert [c][0] == c;
    assert OccursAt(s, [c], i) ==> s[i + 0] == [c][0];
  }

  lemma {:induction false} FirstShifts(s: string, c: char, i: nat)
    requires s != ""
    ensures var k := FirstFrom(s[1..], [c], i); FirstFrom(s, [c], i + 1) == if k < 0 then -1 else k + 1
    decreases |s| - i
  {
    if i + 2 <= |s| {
      OccursOne(s, c, i + 1);
      OccursOne(s[1..], c, i);
      FirstShifts(s, c, i + 1);
    }
  }

  /** The spaces that go before character `i`, plus one for each full group before it. */
  function Spaces(i: nat, n: nat): (r: nat)
    requires n > 0
  {
    if i == 0 then 0 else (i - 1) / n
  }

  /** The first `i` characters, grouped. */
  function Grouped(s: string, n: nat, i: nat): (r: string)
    requires n > 0 && i <= |s|
  {
    if i == 0 then ""
    else Grouped(s, n, i - 1) + (if i > 1 && (i - 1) % n == 0 then " " else "") + [s[i - 1]]
  }

  /** A multiple of `n` is where the quotient goes up. */
  lemma QuotientStep(i: nat, n: nat)
    requires n > 0 && i > 0
    ensures i / n == (i - 1) / n + if i % n == 0 then 1 else 0
  {
    var q, r := (i - 1) / n, (i - 1) % n;
    assert i == q * n + (r + 1);
    if r + 1 == n {
      assert i == (q + 1) * n;
      DivideExactly(i, n, q + 1, 0);
    } else {
      DivideExactly(i, n, q, r + 1);
    }
  }

  lemma DivideExactly(i: nat, n: nat, q: nat, r: nat)
    requires n > 0 && i == q * n + r && r < n
    ensures i / n == q && i % n == r
  {
    var d := i / n - q;
    assert i == (i / n) * n + i % n;
    assert d * n == r - i % n;
    assert d >= 1 ==> d * n >= n;
    assert d <= -1 ==> d * n + n <= 0;
  }

  lemma {:induction false} GroupedLength(s: string, n: nat, i: nat)
    requires n > 0 && i <= |s|
    ensures |Grouped(s, n, i)| == i + Spaces(i, n)
    decreases i
  {
    if i > 0 {
      GroupedLength(s, n, i - 1);
      if i > 1 {
        QuotientStep(i - 1, n);
      } else {
        DivideExactly(0, n, 0, 0);
      }
    }
  }

  method GroupByN(input: Option<string>, n: nat) returns (r: array?<char>)
    ensures r == null <==> input.None? || n == 0
    ensures r != null ==> fresh(r) && r[..] == Grouped(input.value, n, |input.value|) + [NUL]
  {
    if input.None? || n == 0 {
      return null;
    }
    var s := input.value;
    var len := |s|;
    var spaces := if len > 0 then (len - 1) / n else 0;
    GroupedLength(s, n, len);
    r := new char[len + spaces + 1];
    var k := 0;
    for i := 0 to len
      invariant k == |Grouped(s, n, i)| && k <= r.Length
      invariant r[..k] == Grouped(s, n, i)
    {
      GroupedGrows(s, n, i + 1, len);
      if i > 0 && i % n == 0 {
        r[k] := ' ';
        k := k + 1;
      }
      r[k] := s[i];
      k := k + 1;
    }
    r[k] := NUL;
    assert r[..] == r[..k] + [r[k]];
  }

  lemma {:induction false} GroupedGrows(s: string, n: nat, i: nat, m: nat)
    requires n > 0 && i <= m <= |s|
    ensures |Grouped(s, n, i)| <= |Grouped(s, n, m)|
    decreases m - i
  {
    if i < m {
      GroupedGrows(s, n, i + 1, m);
    }
  }

  /** Character `j` comes after the spaces of the groups before it. */
  lemma {:induction false} GroupedAt(s: string, n: nat, i: nat, j: nat)
    requires n > 0 && j < i <= |s|
    ensures j + j / n < |Grouped(s, n, i)| && Grouped(s, n, i)[j + j / n] == s[j]
    decreases i
  {
    if j < i - 1 {
      GroupedAt(s, n, i - 1, j);
    } else {
      GroupedLength(s, n, i - 1);
      GroupedLength(s, n, i);
      if j > 0 {
        QuotientStep(j, n);
      } else {
        DivideExactly(0, n, 0, 0);
      }
    }
  }

  /** Removing the spaces undoes the grouping of a string exactly when the string has none itself. */
  lemma UngroupIff(s: string, n: nat)
    requires n > 0
    ensures RemoveAll(Grouped(s, n, |s|), " ") == s <==> ' ' !in s
  {
    RemoveCharacter(Grouped(s, n, |s|), ' ');
    GroupedWithoutSpaces(s, n, |s|);
    assert s[..|s|] == s;
    NothingToRemove(s, ' ');
  }

  lemma {:induction false} GroupedWithoutSpaces(s: string, n: nat, i: nat)
    requires n > 0 && i <= |s|
    ensures Without(Grouped(s, n, i), ' ') == Without(s[..i], ' ')
    decreases i
  {
    if i > 0 {
      GroupedWithoutSpaces(s, n, i - 1);
      var gap := if i > 1 && (i - 1) % n == 0 then " " else "";
      WithoutConcat(Grouped(s, n, i - 1) + gap, [s[i - 1]], ' ');
      WithoutConcat(Grouped(s, n, i - 1), gap, ' ');
      WithoutConcat(s[..i - 1], [s[i - 1]], ' ');
      assert s[..i] == s[..i - 1] + [s[i - 1]];
      assert Without(gap, ' ') == "";
    } else {
      assert s[..0] == "";
    }
  }

  /** And after every full group that is not the last there is a space. */
  lemma {:induction false} GroupedGap(s: string, n: nat, i: nat, g: nat)
    requires n > 0 && g > 0 && g * n < i <= |s|
    ensures g * n + g - 1 < |Grouped(s, n, i)| && Grouped(s, n, i)[g * n + g - 1] == ' '
    decreases i
  {
    if g * n < i - 1 {
      GroupedGap(s, n, i - 1, g);
    } else {
      var j := g * n;
      assert j >= 1;
      DivideExactly(j, n, g, 0);
      QuotientStep(j, n);
      GroupedLength(s, n, j);
      assert Grouped(s, n, i) == Grouped(s, n, j) + " " + [s[j]];
    }
  }

  // ---------------------------------------------------------------- StringToken

  // The delimiters are passed as a string but only used as a set.

  // A `char*` into the buffer, or NULL.
  datatype Cursor = Null | Off(at: nat)

  /** strspn: past the delimiters. */
  function Skip(s: string, i: nat, ds: set<char>): (r: nat)
    requires i <= |s|
    ensures i <= r <= |s|
    decreases |s| - i
  {
    if i < |s| && s[i] in ds then Skip(s, i + 1, ds) else i
  }

  lemma {:induction false} SkipIs(s: string, i: nat, ds: set<char>)
    requires i <= |s|
    ensures var r := Skip(s, i, ds); (forall k :: i <= k < r ==> s[k] in ds) && (r < |s| ==> s[r] !in ds)
    decreases |s| - i
  {
    if i < |s| && s[i] in ds {
      SkipIs(s, i + 1, ds);
    }
  }

  /** strcspn: to the next delimiter. */
  function Stop(s: string, i: nat, ds: set<char>): (r: nat)
    requires i <= |s|
    ensures i <= r <= |s| && (i < |s| && s[i] !in ds ==> i < r)
    decreases |s| - i
  {
    if i < |s| && s[i] !in ds then Stop(s, i + 1, ds) else i
  }

  lemma {:induction false} StopIs(s: string, i: nat, ds: set<char>)
    requires i <= |s|
    ensures var r := Stop(s, i, ds); (forall k :: i <= k < r ==> s[k] !in ds) && (r < |s| ==> s[r] in ds)
    decreases |s| - i
  {
    if i < |s| && s[i] !in ds {
      StopIs(s, i + 1, ds);
    }
  }

  /** One call. The buffer ends in a NUL at `n`; `keep` says that the caller passed a place for the cursor. */
  method Token(a: array<char>, s: Cursor, ds: set<char>, keep: bool, p: Cursor, ghost n: nat)
    returns (token: Cursor, p': Cursor)
    requires NUL !in ds
    requires s.Off? ==> EndsAt(a[..], s.at, n)
    requires s.Null? && keep && p.Off? ==> EndsAt(a[..], p.at, n)
    modifies a
    ensures s.Null? && (!keep || p.Null?) ==> token == Null && p' == p && a[..] == old(a[..])
    ensures s.Off? || (keep && p.Off?) ==>
              var start := if s.Off? then s.at else p.at;
              var text := old(a[..n]);
              var b := Skip(text, start, ds);
              var e := Stop(text, b, ds);
              && token == (if b < n then Off(b) else Null)
              && p' == (if !keep then p else if e < n then Off(e + 1) else Null)
              && a[..] == if e < n then old(a[..])[e := NUL] else old(a[..])
  {
    if s.Null? && (!keep || p.Null?) {
      return Null, p;
    }
    var start := if s.Off? then s.at else p.at;
    ghost var text := a[..n];
    var b := SkipIn(a, start, n, ds);
    if a[b] == NUL {
      return Null, if keep then Null else p;
    }
    var e := StopIn(a, b, n, ds);
    token, p' := Off(b), p;
    if a[e] != NUL {
      a[e] := NUL;
      if keep {
        p' := Off(e + 1);
      }
    } else if keep {
      p' := Null;
    }
  }

  method SkipIn(a: array<char>, o: nat, ghost n: nat, ds: set<char>) returns (i: nat)
    requires NUL !in ds && EndsAt(a[..], o, n)
    ensures o <= i <= n && i == Skip(a[..n], o, ds)
  {
    i := o;
    while a[i] in ds
      invariant o <= i <= n < a.Length && a[n] == NUL && Skip(a[..n], i, ds) == Skip(a[..n], o, ds)
      decreases n - i
    {
      i := i + 1;
    }
  }

  method StopIn(a: array<char>, o: nat, ghost n: nat, ds: set<char>) returns (i: nat)
    requires NUL !in ds && EndsAt(a[..], o, n)
    ensures o <= i <= n && i == Stop(a[..n], o, ds)
  {
    i := o;
    while a[i] != NUL && a[i] !in ds
      invariant o <= i <= n < a.Length && EndsAt(a[..], o, n) && Stop(a[..n], i, ds) == Stop(a[..n], o, ds)
      decreases n - i
    {
      i := i + 1;
    }
  }

  /** A stretch without delimiters that cannot be extended. */
  predicate IsRun(s: string, ds: set<char>, b: nat, e: nat) {
    && b < e <= |s|
    && (forall k :: b <= k < e ==> s[k] !in ds)
    && (b > 0 ==> s[b - 1] in ds)
    && (e < |s| ==> s[e] in ds)
  }

  /** The stretches that calls from offset `i` on hand out. */
  function Runs(s: string, ds: set<char>, i: nat): (r: seq<(nat, nat)>)
    requires i <= |s|
    decreases |s| - i
  {
    var b := Skip(s, i, ds);
    if b == |s| then []
    else
      var e := Stop(s, b, ds);
      if e == |s| then [(b, e)] else [(b, e)] + Runs(s, ds, e + 1)
  }

  predicate InOrder(runs: seq<(nat, nat)>, i: nat) {
    && (forall x :: 0 <= x < |runs| ==> i <= runs[x].0)
    && (forall x, y :: 0 <= x < y < |runs| ==> runs[x].1 < runs[y].0)
  }

  function Stretch(s: string, run: (nat, nat)): (r: string) {
    if run.0 <= run.1 <= |s| then s[run.0..run.1] else ""
  }

  /** They are exactly the maximal stretches, from the left to the right. */
  lemma RunsAreTheRuns(s: string, ds: set<char>)
    ensures InOrder(Runs(s, ds, 0), 0)
    ensures forall b: nat, e: nat :: (b, e) in Runs(s, ds, 0) <==> IsRun(s, ds, b, e)
  {
    RunsAreOrdered(s, ds, 0);
    forall b: nat, e: nat
      ensures (b, e) in Runs(s, ds, 0) <==> IsRun(s, ds, b, e)
    {
      if IsRun(s, ds, b, e) {
        RunIsFound(s, ds, 0, b, e);
      } else if (b, e) in Runs(s, ds, 0) {
        FoundIsRun(s, ds, 0, b, e);
      }
    }
  }

  lemma {:induction false} RunIsFound(s: string, ds: set<char>, i: nat, b: nat, e: nat)
    requires i <= b && IsRun(s, ds, b, e)
    ensures (b, e) in Runs(s, ds, i)
    decreases |s| - i
  {
    RunFrom(s, ds, i, b, e);
    var b0 := Skip(s, i, ds);
    var e0 := Stop(s, b0, ds);
    if (b, e) != (b0, e0) {
      RunIsFound(s, ds, e0 + 1, b, e);
    }
  }

  lemma {:induction false} FoundIsRun(s: string, ds: set<char>, i: nat, b: nat, e: nat)
    requires i <= |s| && (i > 0 ==> s[i - 1] in ds) && (b, e) in Runs(s, ds, i)
    ensures IsRun(s, ds, b, e)
    decreases |s| - i
  {
    FirstRun(s, ds, i);
    var e0 := Stop(s, Skip(s, i, ds), ds);
    if (b, e) != (Skip(s, i, ds), e0) {
      FoundIsRun(s, ds, e0 + 1, b, e);
    }
  }

  lemma FirstRun(s: string, ds: set<char>, i: nat)
    requires i <= |s| && (i > 0 ==> s[i - 1] in ds) && Skip(s, i, ds) < |s|
    ensures IsRun(s, ds, Skip(s, i, ds), Stop(s, Skip(s, i, ds), ds))
  {
    SkipIs(s, i, ds);
    StopIs(s, Skip(s, i, ds), ds);
  }

  /** A run from `i` on is the first one or comes after it. */
  lemma RunFrom(s: string, ds: set<char>, i: nat, b: nat, e: nat)
    requires i <= |s| && i <= b && IsRun(s, ds, b, e)
    ensures var b0 := Skip(s, i, ds); var e0 := Stop(s, b0, ds);
            b0 < |s| && ((b, e) == (b0, e0) || (e0 < |s| && e0 + 1 <= b))
  {
    var b0 := Skip(s, i, ds);
    var e0 := Stop(s, b0, ds);
    SkipIs(s, i, ds);
    StopIs(s, b0, ds);
    assert s[b] !in ds;
    assert b0 <= b;
    assert b > 0 ==> s[b - 1] in ds;
    assert e0 < |s| ==> s[e0] in ds;
    assert e < |s| ==> s[e] in ds;
  }

  lemma {:induction false} RunsAreOrdered(s: string, ds: set<char>, i: nat)
    requires i <= |s|
    ensures InOrder(Runs(s, ds, i), i)
    decreases |s| - i
  {
    var b := Skip(s, i, ds);
    if b < |s| {
      var e := Stop(s, b, ds);
      if e < |s| {
        RunsAreOrdered(s, ds, e + 1);
        Prepend((b, e), Runs(s, ds, e + 1), i);
      }
    }
  }

  lemma Prepend(run: (nat, nat), rest: seq<(nat, nat)>, i: nat)
    requires i <= run.0 <= run.1 && InOrder(rest, run.1 + 1)
    ensures InOrder([run] + rest, i)
  {
  }

  /** What has not been handed out yet. */
  function Left(s: string, ds: set<char>, p: Cursor): (r: seq<(nat, nat)>)
    requires p.Off? ==> p.at <= |s|
  {
    if p.Null? then [] else Runs(s, ds, p.at)
  }

  /** Only what comes after the cursor matters. */
  predicate SameFrom(s: string, u: string, i: nat) {
    i <= |s| == |u| && forall k :: i <= k < |s| ==> s[k] == u[k]
  }

  lemma {:induction false} SameSkip(s: string, u: string, ds: set<char>, i: nat)
    requires SameFrom(s, u, i)
    ensures Skip(s, i, ds) == Skip(u, i, ds)
    decreases |s| - i
  {
    if i < |s| && s[i] in ds {
      SameSkip(s, u, ds, i + 1);
    }
  }

  lemma {:induction false} SameStop(s: string, u: string, ds: set<char>, i: nat)
    requires SameFrom(s, u, i)
    ensures Stop(s, i, ds) == Stop(u, i, ds)
    decreases |s| - i
  {
    if i < |s| && s[i] !in ds {
      SameStop(s, u, ds, i + 1);
    }
  }

  predicate NoNul(s: string) {
    forall k :: 0 <= k < |s| ==> s[k] != NUL
  }

  /** The cursor `from` points to text that no earlier call has touched. */
  predicate Untouched(q: string, text: string, from: Cursor, n: nat) {
    |text| == n < |q| && q[n] == NUL && (from.Off? ==> from.at <= n && forall k :: from.at <= k < n ==> q[k] == text[k])
  }

  /** The run is there, ended by a NUL. */
  predicate Intact(q: string, text: string, run: (nat, nat)) {
    run.0 <= run.1 <= |text| && EndsAt(q, run.0, run.1) && q[run.0..run.1] == text[run.0..run.1]
  }

  /** A NUL was written at `e`, or was there already. */
  predicate EndedAt(q: string, q': string, e: nat) {
    |q'| == |q| && forall k :: 0 <= k < |q| ==> q'[k] == if k == e then NUL else q[k]
  }

  /** What a call does to the buffer, seen from the untouched text. */
  lemma Handed(q: string, q': string, text: string, ds: set<char>, from: nat, n: nat)
    requires NoNul(text) && Untouched(q, text, Off(from), n) && Skip(text, from, ds) < n
    requires EndedAt(q, q', Stop(text, Skip(text, from, ds), ds))
    ensures var b := Skip(text, from, ds); var e := Stop(text, b, ds);
            var p' := if e < n then Off(e + 1) else Null;
            && Runs(text, ds, from) == [(b, e)] + Left(text, ds, p')
            && Intact(q', text, (b, e)) && Untouched(q', text, p', n)
  {
    var b := Skip(text, from, ds);
    EndedIsIntact(q, q', text, b, Stop(text, b, ds), n);
  }

  lemma EndedIsIntact(q: string, q': string, text: string, b: nat, e: nat, n: nat)
    requires NoNul(text) && b <= e <= n && Untouched(q, text, Off(b), n) && EndedAt(q, q', e)
    ensures Intact(q', text, (b, e))
  {
    assert q'[b..e] == text[b..e];
  }

  lemma NothingLeft(text: string, ds: set<char>, from: nat)
    requires from <= |text| && Skip(text, from, ds) == |text|
    ensures Runs(text, ds, from) == []
  {
  }

  /** From an untouched cursor the searches find in the buffer what they find in the text. */
  lemma SearchesAlike(q: string, text: string, ds: set<char>, from: nat, n: nat)
    requires NoNul(text) && Untouched(q, text, Off(from), n)
    ensures EndsAt(q, from, n) && Skip(q[..n], from, ds) == Skip(text, from, ds)
    ensures Stop(q[..n], Skip(text, from, ds), ds) == Stop(text, Skip(text, from, ds), ds)
  {
    assert SameFrom(q[..n], text, from);
    SameSkip(q[..n], text, ds, from);
    SameStop(q[..n], text, ds, Skip(text, from, ds));
  }

  /** A call that finds the buffer `q` hands out the first run that is left and leaves `q'`, ended by a NUL there. */
  ghost predicate HandsOut(q: string, q': string, text: string, ds: set<char>, from: Cursor, n: nat,
                           token: Cursor, p': Cursor) {
    && (from.Off? ==> from.at <= |text|) && (p'.Off? ==> p'.at <= |text|)
    && var left := Left(text, ds, from);
       if left == [] then token == Null && p' == Null && q' == q
       else
         && token == Off(left[0].0)
         && left == [left[0]] + Left(text, ds, p')
         && Intact(q', text, left[0])
         && EndedAt(q, q', left[0].1)
         && (p'.Off? ==> p'.at == left[0].1 + 1)
  }

  /** What Token does from an untouched cursor. */
  lemma TokenHandsOut(q: string, q': string, text: string, ds: set<char>, from: nat, n: nat, token: Cursor, p': Cursor)
    requires NoNul(text) && Untouched(q, text, Off(from), n)
    requires var b := Skip(text, from, ds); var e := Stop(text, b, ds);
             && token == (if b < n then Off(b) else Null)
             && p' == (if e < n then Off(e + 1) else Null)
             && q' == if e < n then q[e := NUL] else q
    ensures Untouched(q', text, p', n) && HandsOut(q, q', text, ds, Off(from), n, token, p')
  {
    var b := Skip(text, from, ds);
    if b < n {
      assert EndedAt(q, q', Stop(text, b, ds));
      Handed(q, q', text, ds, from, n);
    } else {
      NothingLeft(text, ds, from);
    }
  }

  /** A call hands out the first run that is left and ends it with a NUL, touching nothing before it. */
  method NextToken(a: array<char>, s: Cursor, ds: set<char>, p: Cursor, ghost text: string, ghost n: nat)
    returns (token: Cursor, p': Cursor)
    requires NUL !in ds && NoNul(text) && Untouched(a[..], text, if s.Off? then s else p, n)
    modifies a
    ensures Untouched(a[..], text, p', n)
    ensures HandsOut(old(a[..]), a[..], text, ds, if s.Off? then s else p, n, token, p')
  {
    ghost var q := a[..];
    ghost var from := if s.Off? then s else p;
    if from.Off? {
      SearchesAlike(q, text, ds, from.at, n);
    }
    token, p' := Token(a, s, ds, true, p, n);
    if from.Off? {
      TokenHandsOut(q, a[..], text, ds, from.at, n, token, p');
    }
  }

  predicate AllIntact(q: string, text: string, runs: seq<(nat, nat)>, m: nat) {
    m <= |runs| && forall x :: 0 <= x < m ==> Intact(q, text, runs[x])
  }

  /** The runs already handed out stay, and the one just handed out joins them. */
  lemma StayIntact(q: string, q': string, text: string, runs: seq<(nat, nat)>, m: nat)
    requires AllIntact(q, text, runs, m + 1) && InOrder(runs, 0)
    requires if m + 1 < |runs| then EndedAt(q, q', runs[m + 1].1) && Intact(q', text, runs[m + 1]) else q' == q
    ensures AllIntact(q', text, runs, if m + 1 < |runs| then m + 2 else m + 1)
  {
    forall x | 0 <= x <= m
      ensures Intact(q', text, runs[x])
    {
      var b, e := runs[x].0, runs[x].1;
      assert Intact(q, text, runs[x]) && (m + 1 < |runs| ==> e < runs[m + 1].0);
      assert q'[b..e] == q[b..e];
    }
  }

  /**
   Between two turns of the loop over the runs of the text: `tokens` are taken, `token` is the next one,
   and `left` are the runs behind it.
   */
  ghost predicate Between(q: string, text: string, runs: seq<(nat, nat)>, left: seq<(nat, nat)>, tokens: seq<nat>,
                          token: Cursor, p: Cursor, n: nat) {
    && |text| == n && Untouched(q, text, p, n) && NoNul(text) && InOrder(runs, 0)
    && var m := |tokens|;
       && m <= |runs| && (forall x :: 0 <= x < m ==> tokens[x] == runs[x].0)
       && token == (if m < |runs| then Off(runs[m].0) else Null)
       && (m < |runs| ==> left == runs[m + 1..] && (p.Off? ==> p.at == runs[m].1 + 1))
       && AllIntact(q, text, runs, if m < |runs| then m + 1 else m)
  }

  /** The loop over the tokens of a command line: first call with the string, later ones with NULL. */
  method Tokenize(a: array<char>, ds: set<char>, ghost n: nat) returns (tokens: seq<nat>)
    requires NUL !in ds && EndsAt(a[..], 0, n)
    modifies a
    ensures var runs := Runs(old(a[..n]), ds, 0);
            && |tokens| == |runs|
            && forall x :: 0 <= x < |runs| ==>
                 tokens[x] == runs[x].0 && CString(a[..], tokens[x]) == Stretch(old(a[..n]), runs[x])
  {
    ghost var text, q := a[..n], a[..];
    ghost var runs := Runs(text, ds, 0);
    tokens := [];
    var token, p := NextToken(a, Off(0), ds, Null, text, n);
    RunsAreOrdered(text, ds, 0);
    FirstCall(q, a[..], text, ds, n, token, p, runs, Left(text, ds, p));
    while token.Off?
      invariant p.Off? ==> p.at <= |text|
      invariant Between(a[..], text, runs, Left(text, ds, p), tokens, token, p, n)
      decreases |runs| - |tokens|
    {
      tokens, token, p := TakeToken(a, ds, tokens, token, p, text, n, runs);
    }
    forall x | 0 <= x < |tokens|
      ensures CString(a[..], tokens[x]) == Stretch(text, runs[x])
    {
      assert Intact(a[..], text, runs[x]);
      CStringIs(a[..], runs[x].0, runs[x].1);
    }
  }

  lemma FirstCall(q: string, q': string, text: string, ds: set<char>, n: nat, token: Cursor, p: Cursor,
                  runs: seq<(nat, nat)>, left: seq<(nat, nat)>)
    requires |text| == n && NoNul(text) && Untouched(q', text, p, n) && HandsOut(q, q', text, ds, Off(0), n, token, p)
    requires runs == Left(text, ds, Off(0)) && left == Left(text, ds, p) && InOrder(runs, 0)
    ensures Between(q', text, runs, left, [], token, p, n)
  {
    if runs != [] {
      SplitRest(runs, 0, left);
    }
  }

  lemma SplitRest(runs: seq<(nat, nat)>, m: nat, rest: seq<(nat, nat)>)
    requires m < |runs| && runs[m..] == [runs[m..][0]] + rest
    ensures rest == runs[m + 1..]
  {
    assert rest == runs[m..][1..];
  }

  /** The next call takes the loop one turn on. */
  lemma BetweenStep(q: string, q': string, text: string, ds: set<char>, runs: seq<(nat, nat)>, tokens: seq<nat>,
                    token: Cursor, p: Cursor, n: nat, token': Cursor, p': Cursor)
    requires token.Off? && (p.Off? ==> p.at <= |text|)
    requires Between(q, text, runs, Left(text, ds, p), tokens, token, p, n)
    requires Untouched(q', text, p', n) && HandsOut(q, q', text, ds, p, n, token', p')
    ensures Between(q', text, runs, Left(text, ds, p'), tokens + [token.at], token', p', n)
  {
    var left, rest := Left(text, ds, p), Left(text, ds, p');
    if left != [] {
      SplitRest(runs, |tokens| + 1, rest);
    }
    StayIntact(q, q', text, runs, |tokens|);
    TakenNext(q', text, runs, rest, tokens, token, n, token', p');
  }

  /** The same once the runs are cut. */
  lemma TakenNext(q': string, text: string, runs: seq<(nat, nat)>, rest: seq<(nat, nat)>, tokens: seq<nat>,
                  token: Cursor, n: nat, token': Cursor, p': Cursor)
    requires |text| == n && Untouched(q', text, p', n) && NoNul(text) && InOrder(runs, 0)
    requires |tokens| < |runs| && (forall x :: 0 <= x < |tokens| ==> tokens[x] == runs[x].0)
    requires token == Off(runs[|tokens|].0)
    requires var m := |tokens| + 1;
             && token' == (if m < |runs| then Off(runs[m].0) else Null)
             && (m < |runs| ==> rest == runs[m + 1..] && (p'.Off? ==> p'.at == runs[m].1 + 1))
             && AllIntact(q', text, runs, if m < |runs| then m + 1 else m)
    ensures Between(q', text, runs, rest, tokens + [token.at], token', p', n)
  {
  }

  method TakeToken(a: array<char>, ds: set<char>, tokens: seq<nat>, token: Cursor, p: Cursor, ghost text: string,
                   ghost n: nat, ghost runs: seq<(nat, nat)>)
    returns (tokens': seq<nat>, token': Cursor, p': Cursor)
    requires NUL !in ds && token.Off? && (p.Off? ==> p.at <= |text|)
    requires Between(a[..], text, runs, Left(text, ds, p), tokens, token, p, n)
    modifies a
    ensures p'.Off? ==> p'.at <= |text|
    ensures Between(a[..], text, runs, Left(text, ds, p'), tokens', token', p', n) && |tokens'| == |tokens| + 1
  {
    ghost var q := a[..];
    tokens' := tokens + [token.at];
    token', p' := NextToken(a, Null, ds, p, text, n);
    BetweenStep(q, a[..], text, ds, runs, tokens, token, p, n, token', p');
  }

  // ---------------------------------------------------------------- hexadecimal text

  type Byte = x: int | 0 <= x < 256

  /** The digit for four bits; `alpha` is the digit for ten. */
  function HexDigit(v: nat, alpha: char): (r: char)
    requires v < 16 && (alpha == 'a' || alpha == 'A')
  {
    if v >= 10 then (alpha as int - 10 + v) as char else ('0' as int + v) as char
  }

  /** StringHexDigitValue */
  function HexValue(c: char): (v: int)
    ensures -1 <= v < 16
  {
    if '0' <= c <= '9' then c as int - '0' as int
    else if 'a' <= c <= 'f' then c as int - 'a' as int + 10
    else if 'A' <= c <= 'F' then c as int - 'A' as int + 10
    else -1
  }

  /** The first `i` bytes as text. */
  function HexText(data: seq<Byte>, alpha: char, i: nat): (r: string)
    requires i <= |data| && (alpha == 'a' || alpha == 'A')
    ensures |r| == 2 * i
  {
    if i == 0 then ""
    else HexText(data, alpha, i - 1) + [HexDigit(data[i - 1] / 16, alpha), HexDigit(data[i - 1] % 16, alpha)]
  }

  predicate IsHex(s: string) {
    forall k :: 0 <= k < |s| ==> HexValue(s[k]) >= 0
  }

  function BytesOf(s: string, i: nat): (r: seq<Byte>)
    requires IsHex(s) && 2 * i <= |s|
    ensures |r| == i
  {
    if i == 0 then [] else BytesOf(s, i - 1) + [16 * HexValue(s[2 * i - 2]) + HexValue(s[2 * i - 1])]
  }

  method WithHexAlphaBase(data: seq<Byte>, alpha: char) returns (r: array?<char>)
    requires alpha == 'a' || alpha == 'A'
    ensures r == null <==> data == []
    ensures r != null ==> fresh(r) && r[..] == HexText(data, alpha, |data|) + [NUL]
  {
    if data == [] {
      return null;
    }
    r := new char[2 * |data| + 1];
    var j := 0;
    for i := 0 to |data|
      invariant j == 2 * i && r[..j] == HexText(data, alpha, i)
    {
      r[j] := HexDigit(data[i] / 16, alpha);
      r[j + 1] := HexDigit(data[i] % 16, alpha);
      j := j + 2;
    }
    r[j] := NUL;
    assert r[..] == r[..j] + [r[j]];
  }

  method HexToBytes(input: Option<string>, data: array<Byte>) returns (ok: bool)
    modifies data
    ensures ok <==> input.Some? && data.Length > 0 && |input.value| == 2 * data.Length && IsHex(input.value)
    ensures ok ==> data[..] == BytesOf(input.value, data.Length)
  {
    if input.None? || data.Length == 0 {
      return false;
    }
    var s := input.value;
    if |s| != 2 * data.Length {
      return false;
    }
    for i := 0 to data.Length
      invariant forall k :: 0 <= k < 2 * i ==> HexValue(s[k]) >= 0
      invariant forall m :: 0 <= m < i ==> data[m] == 16 * HexValue(s[2 * m]) + HexValue(s[2 * m + 1])
    {
      var h, l := HexValue(s[2 * i]), HexValue(s[2 * i + 1]);
      if h < 0 || l < 0 {
        return false;
      }
      data[i] := 16 * h + l;
    }
    forall m | 0 <= m < data.Length
      ensures data[m] == BytesOf(s, data.Length)[m]
    {
      ByteAt(s, data.Length, m);
    }
    ok := true;
  }

  lemma {:induction false} ByteAt(s: string, i: nat, m: nat)
    requires IsHex(s) && 2 * i <= |s| && m < i
    ensures BytesOf(s, i)[m] == 16 * HexValue(s[2 * m]) + HexValue(s[2 * m + 1])
  {
    if m < i - 1 {
      ByteAt(s, i - 1, m);
    }
  }

  lemma {:induction false} HexTextAt(data: seq<Byte>, alpha: char, i: nat, m: nat)
    requires m < i <= |data| && (alpha == 'a' || alpha == 'A')
    ensures var t := HexText(data, alpha, i);
            HexValue(t[2 * m]) == data[m] / 16 && HexValue(t[2 * m + 1]) == data[m] % 16
  {
    if m < i - 1 {
      HexTextAt(data, alpha, i - 1, m);
    } else {
      DigitRoundTrip(data[m] / 16, alpha);
      DigitRoundTrip(data[m] % 16, alpha);
    }
  }

  const LOWER_DIGITS := "0123456789abcdef"
  const UPPER_DIGITS := "0123456789ABCDEF"

  /** The digits are the usual ones, read in either case and written in the chosen one; nothing else is a digit. */
  lemma HexDigitIff(c: char, v: nat)
    requires v < 16
    ensures HexValue(c) == v <==> c == LOWER_DIGITS[v] || c == UPPER_DIGITS[v]
    ensures HexDigit(v, 'a') == LOWER_DIGITS[v] && HexDigit(v, 'A') == UPPER_DIGITS[v]
  {
  }

  lemma DigitRoundTrip(v: nat, alpha: char)
    requires v < 16 && (alpha == 'a' || alpha == 'A')
    ensures HexValue(HexDigit(v, alpha)) == v
  {
    assert v >= 10 ==> HexDigit(v, alpha) as int == alpha as int - 10 + v;
  }

  /** Reading the text of bytes gives the bytes, in either case of digits. */
  lemma HexRoundTrip(data: seq<Byte>, alpha: char)
    requires alpha == 'a' || alpha == 'A'
    ensures var t := HexText(data, alpha, |data|); IsHex(t) && BytesOf(t, |data|) == data
  {
    var t := HexText(data, alpha, |data|);
    forall k | 0 <= k < |t|
      ensures HexValue(t[k]) >= 0
    {
      HexTextAt(data, alpha, |data|, k / 2);
      assert k == 2 * (k / 2) || k == 2 * (k / 2) + 1;
    }
    forall m | 0 <= m < |data|
      ensures BytesOf(t, |data|)[m] == data[m]
    {
      HexTextAt(data, alpha, |data|, m);
      ByteAt(t, |data|, m);
    }
  }

  /** And the text of what was read has the same digits as the text that was read. */
  lemma TextRoundTrip(s: string, alpha: char, n: nat, k: nat)
    requires IsHex(s) && |s| == 2 * n && k < |s| && (alpha == 'a' || alpha == 'A')
    ensures HexValue(HexText(BytesOf(s, n), alpha, n)[k]) == HexValue(s[k])
  {
    var m := k / 2;
    assert k == 2 * m || k == 2 * m + 1;
    ByteAt(s, n, m);
    HexTextAt(BytesOf(s, n), alpha, n, m);
    DivideExactly(16 * HexValue(s[2 * m]) + HexValue(s[2 * m + 1]), 16, HexValue(s[2 * m]), HexValue(s[2 * m + 1]));
  }
}
