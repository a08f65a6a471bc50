/** Small facts about sequences that several modules use. */
module Sequences {
  lemma Regroup<T>(a: seq<T>, b: seq<T>, c: seq<T>)
    ensures (a + b) + c == a + (b + c)
  {
  }

  lemma CutAt<T>(s: seq<T>, n: nat)
    requires n < |s|
    ensures s == s[..n] + ([s[n]] + s[n + 1..])
  {
  }

  /** The elements other than `x`, in order. */
  function Without<T(==)>(s: seq<T>, x: T): (r: seq<T>)
    ensures |r| <= |s|
  {
    if s == [] then [] else (if s[0] == x then [] else [s[0]]) + Without(s[1..], x)
  }

  lemma {:induction false} WithoutConcat<T>(s: seq<T>, u: seq<T>, x: T)
    ensures Without(s + u, x) == Without(s, x) + Without(u, x)
  {
    if s == [] {
      assert s + u == u;
    } else {
      assert (s + u)[1..] == s[1..] + u;
      WithoutConcat(s[1..], u, x);
    }
  }

  /** One more element at the end. */
  lemma WithoutNext<T>(s: seq<T>, x: T, i: nat)
    requires i < |s|
    ensures Without(s[..i + 1], x) == if s[i] == x then Without(s[..i], x) else Without(s[..i], x) + [s[i]]
  {
    assert s[..i + 1] == s[..i] + [s[i]];
    WithoutConcat(s[..i], [s[i]], x);
    assert Without([s[i]], x) == if s[i] == x then [] else [s[i]];
  }

  lemma {:induction false} WithoutLength<T>(s: seq<T>, x: T)
    ensures |Without(s, x)| == |s| - multiset(s)[x]
  {
    if s != [] {
      assert s == [s[0]] + s[1..];
      WithoutLength(s[1..], x);
    }
  }

  lemma {:induction false} WithoutGrows<T>(s: seq<T>, x: T, i: nat, n: nat)
    requires i <= n <= |s|
    ensures |Without(s[..i], x)| <= |Without(s[..n], x)|
    decreases n
  {
    if i < n {
      WithoutNext(s, x, n - 1);
      WithoutGrows(s, x, i, n - 1);
    }
  }

  lemma {:induction false} NothingToRemove<T>(s: seq<T>, x: T)
    ensures Without(s, x) == s <==> x !in s
  {
    if s != [] {
      NothingToRemove(s[1..], x);
    }
  }
}
