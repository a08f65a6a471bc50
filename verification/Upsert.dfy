/** What a merge means when every element has a complete key: an insert-or-update of a keyed map. */
module Upsert {
  import opened Errors
  import opened DataModel
  import opened Overlay
  import opened Elements
  import opened Partial

  /** The configuration has an identifier field (outside nested lists). */
  predicate Keyed(c: Cfg)
    decreases c
  {
    !c.List? && (IsKeyField(c) || (c.Sequence? && exists i :: 0 <= i < |c.fields| && Keyed(c.fields[i])))
  }

  /** No identifier field is missing. */
  predicate Complete(c: Cfg, t: Tree)
    requires Fits(c, t)
    decreases c
  {
    if c.List? then true
    else if IsKeyField(c) then !t.Null?
    else Keyed(c) ==> t.Node? && forall i :: 0 <= i < |c.fields| ==> Complete(c.fields[i], t.fields[i])
  }

  /** The identifier fields alone. */
  function Key(c: Cfg, t: Tree): (r: Tree)
    requires Fits(c, t)
    decreases c
  {
    if c.List? then Null
    else if IsKeyField(c) then t
    else if Keyed(c) && t.Node? then
      Node(seq(|c.fields|, i requires 0 <= i < |c.fields| => Key(c.fields[i], t.fields[i])))
    else Null
  }

  lemma {:induction false} KeyedMeansIdentifiers(c: Cfg, t: Tree)
    requires IdentifiersListFree(c) && Fits(c, t) && Complete(c, t)
    ensures HasIdentifiers(c, t) <==> Keyed(c)
    decreases c
  {
    if c.Sequence? && t.Node? && !IsKeyField(c) {
      forall i | 0 <= i < |c.fields| && (Keyed(c) || HasIdentifiers(c.fields[i], t.fields[i]))
        ensures HasIdentifiers(c.fields[i], t.fields[i]) <==> Keyed(c.fields[i])
      {
        if Keyed(c) {
          KeyedMeansIdentifiers(c.fields[i], t.fields[i]);
        } else {
          UnkeyedHasNone(c.fields[i], t.fields[i]);
        }
      }
    }
  }

  lemma {:induction false} UnkeyedHasNone(c: Cfg, t: Tree)
    requires Fits(c, t) && !Keyed(c)
    ensures !HasIdentifiers(c, t)
    decreases c
  {
    if t.Node? {
      forall i | 0 <= i < |c.fields|
        ensures !HasIdentifiers(c.fields[i], t.fields[i])
      {
        UnkeyedHasNone(c.fields[i], t.fields[i]);
      }
    }
  }

  /** On complete elements, matching identifiers is having the same key. */
  lemma {:induction false} MatchIsSameKey(c: Cfg, a: Tree, s: Tree)
    requires IdentifiersListFree(c) && Fits(c, a) && Fits(c, s) && Complete(c, a) && Complete(c, s)
    ensures IdentifiersMatch(c, a, s) <==> Key(c, a) == Key(c, s)
    decreases c
  {
    KeyedMeansIdentifiers(c, s);
    if IsKeyField(c) {
      CompareIsEquality(c, a, s);
    } else if c.Sequence? && Keyed(c) {
      forall i | 0 <= i < |c.fields|
        ensures IdentifiersMatch(c.fields[i], a.fields[i], s.fields[i])
                <==> Key(c, a).fields[i] == Key(c, s).fields[i]
      {
        MatchIsSameKey(c.fields[i], a.fields[i], s.fields[i]);
      }
    }
  }

  lemma FlaggedMatchIsEqual(c: Cfg, a: Tree, s: Tree)
    requires IdentifiersListFree(c) && Fits(c, a) && Fits(c, s) && IsKeyField(c)
    requires Complete(c, s) && IdentifiersMatch(c, a, s)
    ensures a == s && WritePartial(c, a, s).tree == a
  {
    KeyedMeansIdentifiers(c, s);
    CompareIsEquality(c, a, s);
    PartialIsOverlay(c, a, s);
    OverlaySelf(c, s);
  }

  /** Updating a complete element with one that it matches keeps its key. */
  lemma {:induction false} PartialKeepsKey(c: Cfg, a: Tree, s: Tree)
    requires IdentifiersListFree(c) && Fits(c, a) && Fits(c, s)
    requires Complete(c, a) && Complete(c, s) && IdentifiersMatch(c, a, s)
    ensures Complete(c, WritePartial(c, a, s).tree)
    ensures Key(c, WritePartial(c, a, s).tree) == Key(c, a)
    decreases c
  {
    if IsKeyField(c) {
      FlaggedMatchIsEqual(c, a, s);
    } else if c.Sequence? && Keyed(c) {
      KeyedMeansIdentifiers(c, s);
      var w := WritePartial(c, a, s).tree;
      forall i | 0 <= i < |c.fields|
        ensures Complete(c.fields[i], w.fields[i]) && Key(c.fields[i], w.fields[i]) == Key(c.fields[i], a.fields[i])
      {
        PartialField(c, a, s, i);
        PartialKeepsKey(c.fields[i], a.fields[i], s.fields[i]);
      }
      assert Key(c, w).fields == Key(c, a).fields;
    }
  }

  // ---------------------------------------------------------------- sequences of keyed elements

  predicate AllComplete(c: Cfg, xs: seq<Tree>) {
    AllFit(c, xs) && forall i :: 0 <= i < |xs| ==> Complete(c, xs[i])
  }

  predicate DistinctKeys(c: Cfg, xs: seq<Tree>)
    requires AllFit(c, xs)
  {
    forall i, j :: 0 <= i < j < |xs| ==> Key(c, xs[i]) != Key(c, xs[j])
  }

  predicate HasKey(c: Cfg, xs: seq<Tree>, k: Tree)
    requires AllFit(c, xs)
  {
    exists i :: 0 <= i < |xs| && Key(c, xs[i]) == k
  }

  /** An old element after all source elements with its key have been written to it, in order. */
  function Updated(c: Cfg, d: Tree, src: seq<Tree>): (r: Tree)
    requires Fits(c, d) && AllFit(c, src)
    ensures Fits(c, r)
    decreases |src|
  {
    if src == [] then d
    else Updated(c, if Key(c, d) == Key(c, src[0]) then WritePartial(c, d, src[0]).tree else d, src[1..])
  }

  function AllUpdated(c: Cfg, xs: seq<Tree>, src: seq<Tree>): (r: seq<Tree>)
    requires AllFit(c, xs) && AllFit(c, src)
    ensures |r| == |xs| && AllFit(c, r)
  {
    seq(|xs|, i requires 0 <= i < |xs| => Updated(c, xs[i], src))
  }

  /** The element that a key leads to, and that no other old element is meant. */
  lemma FindMatchByKey(c: Cfg, ar: seq<Tree>, el: Tree)
    requires IdentifiersListFree(c) && AllComplete(c, ar) && Fits(c, el) && Complete(c, el)
    ensures FindMatch(c, ar, el) == |ar| <==> !HasKey(c, ar, Key(c, el))
    ensures FindMatch(c, ar, el) < |ar| ==> Key(c, ar[FindMatch(c, ar, el)]) == Key(c, el)
  {
    forall i | 0 <= i < |ar|
      ensures IdentifiersMatch(c, ar[i], el) <==> Key(c, ar[i]) == Key(c, el)
    {
      MatchIsSameKey(c, ar[i], el);
    }
  }

  /** One source element, seen from the old element `i`. */
  lemma StepAt(c: Cfg, cur: seq<Tree>, m: nat, el: Tree, i: nat)
    requires IdentifiersListFree(c) && i < m <= |cur| && AllFit(c, cur) && AllComplete(c, cur[..m])
    requires DistinctKeys(c, cur[..m]) && Fits(c, el) && Complete(c, el)
    ensures var x := MergeStep(c, cur, m, el).items[i];
            && x == (if Key(c, cur[i]) == Key(c, el) then WritePartial(c, cur[i], el).tree else cur[i])
            && Fits(c, x) && Complete(c, x) && Key(c, x) == Key(c, cur[i])
  {
    var p := cur[..m];
    var k := FindMatch(c, p, el);
    assert p[i] == cur[i];
    FindMatchByKey(c, p, el);
    if k < m {
      assert p[k] == cur[k];
      if i == k {
        PartialKeepsKey(c, cur[k], el);
      } else {
        assert Key(c, p[i]) != Key(c, p[k]);
      }
    }
  }

  lemma StepByKey(c: Cfg, cur: seq<Tree>, m: nat, el: Tree, rest: seq<Tree>)
    requires IdentifiersListFree(c) && m <= |cur| && AllFit(c, cur) && AllComplete(c, cur[..m])
    requires DistinctKeys(c, cur[..m]) && Fits(c, el) && Complete(c, el)
    requires AllFit(c, rest)
    ensures var r := MergeStep(c, cur, m, el).items;
            && AllComplete(c, r[..m]) && DistinctKeys(c, r[..m])
            && AllUpdated(c, cur[..m], [el] + rest) == AllUpdated(c, r[..m], rest)
  {
    var r := MergeStep(c, cur, m, el).items;
    var a, b := cur[..m], r[..m];
    forall i | 0 <= i < m
      ensures Fits(c, b[i]) && Key(c, b[i]) == Key(c, a[i]) && Complete(c, b[i])
      ensures Updated(c, a[i], [el] + rest) == Updated(c, b[i], rest)
    {
      StepAt(c, cur, m, el, i);
      UpdatedFirst(c, a[i], el, rest);
    }
    SameKeysDistinct(c, a, b);
    AllUpdatedAlike(c, a, [el] + rest, b, rest);
  }

  lemma UpdatedFirst(c: Cfg, d: Tree, el: Tree, rest: seq<Tree>)
    requires Fits(c, d) && Fits(c, el) && AllFit(c, rest)
    ensures Updated(c, d, [el] + rest)
            == Updated(c, if Key(c, d) == Key(c, el) then WritePartial(c, d, el).tree else d, rest)
  {
    assert ([el] + rest)[1..] == rest;
  }

  lemma AllUpdatedAlike(c: Cfg, xs: seq<Tree>, src: seq<Tree>, ys: seq<Tree>, src': seq<Tree>)
    requires AllFit(c, xs) && AllFit(c, ys) && AllFit(c, src) && AllFit(c, src') && |xs| == |ys|
    requires forall i :: 0 <= i < |xs| ==> Updated(c, xs[i], src) == Updated(c, ys[i], src')
    ensures AllUpdated(c, xs, src) == AllUpdated(c, ys, src')
  {
  }

  lemma SameKeysDistinct(c: Cfg, a: seq<Tree>, b: seq<Tree>)
    requires AllFit(c, a) && AllFit(c, b) && |a| == |b| && DistinctKeys(c, a)
    requires forall i :: 0 <= i < |a| ==> Key(c, a[i]) == Key(c, b[i])
    ensures DistinctKeys(c, b)
  {
  }

  /** With complete, distinct old keys a merge updates the old elements in place and appends the others. */
  lemma {:induction false} MergeByKey(c: Cfg, cur: seq<Tree>, m: nat, src: seq<Tree>)
    requires IdentifiersListFree(c) && m <= |cur| && AllFit(c, cur) && AllComplete(c, cur[..m])
    requires DistinctKeys(c, cur[..m]) && AllComplete(c, src)
    requires MergeFrom(c, cur, m, src).err == Ok
    ensures MergeFrom(c, cur, m, src).items[..m] == AllUpdated(c, cur[..m], src)
    decreases |src|
  {
    if src != [] {
      var r := MergeStep(c, cur, m, src[0]);
      assert [src[0]] + src[1..] == src;
      StepByKey(c, cur, m, src[0], src[1..]);
      MergeByKey(c, r.items, m, src[1..]);
    }
  }

  lemma DistinctTail(c: Cfg, xs: seq<Tree>)
    requires AllFit(c, xs) && xs != [] && DistinctKeys(c, xs)
    ensures AllFit(c, xs[1..]) && DistinctKeys(c, xs[1..])
    ensures forall x :: x in xs[1..] ==> Key(c, x) != Key(c, xs[0])
  {
  }

  lemma {:induction false} UpdatedWithoutKey(c: Cfg, d: Tree, src: seq<Tree>)
    requires Fits(c, d) && AllFit(c, src)
    requires forall x :: x in src ==> Key(c, x) != Key(c, d)
    ensures Updated(c, d, src) == d
    decreases |src|
  {
    if src != [] {
      assert src[0] in src;
      UpdatedWithoutKey(c, d, src[1..]);
    }
  }

  /** With distinct source keys an old element is written at most once. */
  lemma {:induction false} UpdatedOnce(c: Cfg, d: Tree, src: seq<Tree>, j: nat)
    requires IdentifiersListFree(c) && Fits(c, d) && Complete(c, d) && AllComplete(c, src)
    requires DistinctKeys(c, src) && j < |src| && Key(c, src[j]) == Key(c, d)
    ensures Updated(c, d, src) == WritePartial(c, d, src[j]).tree
    decreases |src|
  {
    DistinctTail(c, src);
    if j == 0 {
      MatchIsSameKey(c, d, src[0]);
      PartialKeepsKey(c, d, src[0]);
      UpdatedWithoutKey(c, WritePartial(c, d, src[0]).tree, src[1..]);
    } else {
      assert src[j] == src[1..][j - 1];
      UpdatedOnce(c, d, src[1..], j - 1);
    }
  }

  lemma UpdatedKeepsKey(c: Cfg, d: Tree, src: seq<Tree>)
    requires IdentifiersListFree(c) && Fits(c, d) && Complete(c, d) && AllComplete(c, src)
    requires DistinctKeys(c, src)
    ensures Complete(c, Updated(c, d, src)) && Key(c, Updated(c, d, src)) == Key(c, d)
    ensures !HasKey(c, src, Key(c, d)) ==> Updated(c, d, src) == d
  {
    if HasKey(c, src, Key(c, d)) {
      var j :| 0 <= j < |src| && Key(c, src[j]) == Key(c, d);
      UpdatedOnce(c, d, src, j);
      MatchIsSameKey(c, d, src[j]);
      PartialKeepsKey(c, d, src[j]);
    } else {
      UpdatedWithoutKey(c, d, src);
    }
  }

  /** The appended elements are the source elements whose key is new. */
  lemma {:induction false} UnmatchedMembers(c: Cfg, d: seq<Tree>, src: seq<Tree>, x: Tree)
    requires IdentifiersListFree(c) && AllComplete(c, d) && AllComplete(c, src)
    ensures x in Unmatched(c, d, src) <==> x in src && !HasKey(c, d, Key(c, x))
    decreases |src|
  {
    if src != [] {
      UnmatchedMembers(c, d, src[1..], x);
      FindMatchByKey(c, d, src[0]);
      assert x in src <==> x == src[0] || x in src[1..];
    }
  }

  lemma DistinctCons(c: Cfg, x: Tree, xs: seq<Tree>)
    requires Fits(c, x) && AllFit(c, xs) && DistinctKeys(c, xs)
    requires forall y :: y in xs ==> Key(c, y) != Key(c, x)
    ensures AllFit(c, [x] + xs) && DistinctKeys(c, [x] + xs)
  {
  }

  lemma {:induction false} UnmatchedKeysAreDistinct(c: Cfg, d: seq<Tree>, src: seq<Tree>)
    requires IdentifiersListFree(c) && AllComplete(c, d) && AllComplete(c, src) && DistinctKeys(c, src)
    ensures DistinctKeys(c, Unmatched(c, d, src))
    decreases |src|
  {
    if src != [] {
      var u := Unmatched(c, d, src[1..]);
      DistinctTail(c, src);
      UnmatchedKeysAreDistinct(c, d, src[1..]);
      forall y | y in u
        ensures Key(c, y) != Key(c, src[0])
      {
        UnmatchedMembers(c, d, src[1..], y);
      }
      DistinctCons(c, src[0], u);
      assert [] + u == u;
    }
  }

  // ---------------------------------------------------------------- the keyed map

  /** The elements by their keys. */
  ghost function ByKey(c: Cfg, xs: seq<Tree>): (r: map<Tree, Tree>)
    requires AllFit(c, xs) && DistinctKeys(c, xs)
    ensures forall i :: 0 <= i < |xs| ==> Key(c, xs[i]) in r && r[Key(c, xs[i])] == xs[i]
    ensures forall k :: k in r ==> HasKey(c, xs, k)
  {
    map i | 0 <= i < |xs| :: Key(c, xs[i]) := xs[i]
  }

  /** What the merge is called on: keys complete, and distinct within each side. */
  predicate KeyedSides(c: Cfg, d: seq<Tree>, src: seq<Tree>) {
    && IdentifiersListFree(c)
    && AllComplete(c, d) && DistinctKeys(c, d)
    && AllComplete(c, src) && DistinctKeys(c, src)
  }

  /** The merged sequence: old elements in place, each updated by the source element with its key, then the new ones. */
  function Merge(c: Cfg, d: seq<Tree>, src: seq<Tree>): (r: seq<Tree>)
    requires AllFit(c, d) && AllFit(c, src)
    ensures AllFit(c, r)
  {
    AllUpdated(c, d, src) + Unmatched(c, d, src)
  }

  lemma MergeIsMerge(c: Cfg, d: seq<Tree>, src: seq<Tree>)
    requires KeyedSides(c, d, src) && MergeFrom(c, d, |d|, src).err == Ok
    ensures MergeFrom(c, d, |d|, src).items == Merge(c, d, src)
  {
    var r := MergeFrom(c, d, |d|, src).items;
    assert d[..|d|] == d && d[|d|..] == [];
    MergeByKey(c, d, |d|, src);
    PassesAgree(c, d, |d|, src);
    Rejoin(r, |d|, AllUpdated(c, d, src), Unmatched(c, d, src));
  }

  lemma Rejoin<T>(r: seq<T>, n: nat, a: seq<T>, b: seq<T>)
    requires n <= |r| && r[..n] == a && r[n..] == [] + b
    ensures r == a + b
  {
    assert r == r[..n] + r[n..];
  }

  /** The old elements keep their places and keys. */
  lemma UpdatedKeepKeys(c: Cfg, d: seq<Tree>, src: seq<Tree>, i: nat)
    requires KeyedSides(c, d, src) && i < |d|
    ensures var u := AllUpdated(c, d, src)[i]; Fits(c, u) && Complete(c, u) && Key(c, u) == Key(c, d[i])
  {
    UpdatedKeepsKey(c, d[i], src);
  }

  lemma MergeKeepsKeys(c: Cfg, d: seq<Tree>, src: seq<Tree>)
    requires KeyedSides(c, d, src)
    ensures AllComplete(c, Merge(c, d, src)) && DistinctKeys(c, Merge(c, d, src))
  {
    var o, u := AllUpdated(c, d, src), Unmatched(c, d, src);
    forall i | 0 <= i < |d|
      ensures Complete(c, o[i]) && Key(c, o[i]) == Key(c, d[i])
    {
      UpdatedKeepKeys(c, d, src, i);
    }
    UnmatchedKeysAreDistinct(c, d, src);
    forall x | x in u
      ensures Complete(c, x) && !HasKey(c, d, Key(c, x))
    {
      UnmatchedMembers(c, d, src, x);
    }
    DistinctConcat(c, d, o, u);
  }

  lemma DistinctConcat(c: Cfg, d: seq<Tree>, o: seq<Tree>, u: seq<Tree>)
    requires AllFit(c, d) && AllFit(c, o) && AllFit(c, u) && |o| == |d| && DistinctKeys(c, d) && DistinctKeys(c, u)
    requires forall i :: 0 <= i < |d| ==> Key(c, o[i]) == Key(c, d[i])
    requires forall x :: x in u ==> !HasKey(c, d, Key(c, x))
    ensures AllFit(c, o + u) && DistinctKeys(c, o + u)
  {
    forall i, j | 0 <= i < j < |o + u|
      ensures Key(c, (o + u)[i]) != Key(c, (o + u)[j])
    {
      if i < |o| && |o| <= j {
        assert u[j - |o|] in u;
      }
    }
  }

  /** What became of an old element, and of a source element: `i` and `j` are their positions. */
  lemma OldElement(c: Cfg, d: seq<Tree>, src: seq<Tree>, i: nat)
    requires KeyedSides(c, d, src) && i < |d|
    ensures var m := Merge(c, d, src);
            && i < |m| && Key(c, m[i]) == Key(c, d[i])
            && (!HasKey(c, src, Key(c, d[i])) ==> m[i] == d[i])
            && (forall j :: 0 <= j < |src| && Key(c, src[j]) == Key(c, d[i]) ==>
               m[i] == WritePartial(c, d[i], src[j]).tree)
  {
    UpdatedKeepsKey(c, d[i], src);
    assert Merge(c, d, src)[i] == Updated(c, d[i], src);
    forall j | 0 <= j < |src| && Key(c, src[j]) == Key(c, d[i])
      ensures Updated(c, d[i], src) == WritePartial(c, d[i], src[j]).tree
    {
      UpdatedOnce(c, d[i], src, j);
    }
  }

  lemma NewElement(c: Cfg, d: seq<Tree>, src: seq<Tree>, j: nat) returns (l: nat)
    requires KeyedSides(c, d, src) && j < |src| && !HasKey(c, d, Key(c, src[j]))
    ensures |d| <= l < |Merge(c, d, src)| && Merge(c, d, src)[l] == src[j]
  {
    var u := Unmatched(c, d, src);
    UnmatchedMembers(c, d, src, src[j]);
    var n :| 0 <= n < |u| && u[n] == src[j];
    l := |d| + n;
  }

  lemma NoOtherKey(c: Cfg, d: seq<Tree>, src: seq<Tree>, k: Tree)
    requires KeyedSides(c, d, src) && HasKey(c, Merge(c, d, src), k)
    ensures HasKey(c, d, k) || HasKey(c, src, k)
  {
    var m, u := Merge(c, d, src), Unmatched(c, d, src);
    var l :| 0 <= l < |m| && Key(c, m[l]) == k;
    if l < |d| {
      OldElement(c, d, src, l);
    } else {
      assert m[l] == u[l - |d|];
      UnmatchedMembers(c, d, src, m[l]);
    }
  }

  /** The element of a key in the merge, by the positions of the key on both sides. */
  lemma MergeAtPosition(c: Cfg, d: seq<Tree>, src: seq<Tree>, k: Tree)
    requires KeyedSides(c, d, src)
    ensures AllFit(c, Merge(c, d, src)) && DistinctKeys(c, Merge(c, d, src))
    ensures var m := Merge(c, d, src);
            var l, i, j := Position(c, m, k), Position(c, d, k), Position(c, src, k);
            && (l < |m| <==> i < |d| || j < |src|)
            && (i < |d| && j < |src| ==> m[l] == WritePartial(c, d[i], src[j]).tree)
            && (i < |d| && j == |src| ==> m[l] == d[i])
            && (i == |d| && j < |src| ==> m[l] == src[j])
  {
    MergeKeepsKeys(c, d, src);
    var m := Merge(c, d, src);
    var i, j := Position(c, d, k), Position(c, src, k);
    if i < |d| {
      OldElement(c, d, src, i);
      PositionIs(c, m, k, i);
    } else if j < |src| {
      var l := NewElement(c, d, src, j);
      PositionIs(c, m, k, l);
    } else if HasKey(c, m, k) {
      NoOtherKey(c, d, src, k);
    }
  }

  /**
   A merge is an insert-or-update of the keyed map: a key of both sides leads to the old element with
   the source element written to it, any other key to its one element. Keys stay distinct.
   */
  lemma MergeIsUpsert(c: Cfg, d: seq<Tree>, src: seq<Tree>, k: Tree)
    requires KeyedSides(c, d, src)
    ensures DistinctKeys(c, Merge(c, d, src))
    ensures var r, a, b := ByKey(c, Merge(c, d, src)), ByKey(c, d), ByKey(c, src);
            && (k in r <==> k in a || k in b)
            && (k in a && k in b ==> r[k] == WritePartial(c, a[k], b[k]).tree)
            && (k in a && k !in b ==> r[k] == a[k])
            && (k !in a && k in b ==> r[k] == b[k])
  {
    MergeAtPosition(c, d, src, k);
    LookUp(c, Merge(c, d, src), k);
    LookUp(c, d, k);
    LookUp(c, src, k);
  }

  /** Where a key stands, or the length. */
  function Position(c: Cfg, xs: seq<Tree>, k: Tree): (i: nat)
    requires AllFit(c, xs)
    ensures i <= |xs| && (i < |xs| ==> Key(c, xs[i]) == k)
    ensures i < |xs| <==> HasKey(c, xs, k)
  {
    if xs == [] then 0
    else if Key(c, xs[0]) == k then 0
    else
      var n := 1 + Position(c, xs[1..], k);
      assert forall l :: 0 < l < |xs| ==> xs[l] == xs[1..][l - 1];
      n
  }

  lemma PositionIs(c: Cfg, xs: seq<Tree>, k: Tree, i: nat)
    requires AllFit(c, xs) && DistinctKeys(c, xs) && i < |xs| && Key(c, xs[i]) == k
    ensures Position(c, xs, k) == i
  {
  }

  lemma LookUp(c: Cfg, xs: seq<Tree>, k: Tree)
    requires AllFit(c, xs) && DistinctKeys(c, xs)
    ensures var i := Position(c, xs, k); if i < |xs| then k in ByKey(c, xs)
             && ByKey(c, xs)[k] == xs[i] else k !in ByKey(c, xs)
  {
  }

  /** Merging list-free elements a second time changes nothing. */
  lemma MergeAgainChangesNothing(c: Cfg, d: seq<Tree>, src: seq<Tree>)
    requires KeyedSides(c, d, src) && ListFree(c)
    ensures KeyedSides(c, Merge(c, d, src), src)
    ensures Merge(c, Merge(c, d, src), src) == Merge(c, d, src)
  {
    var m := Merge(c, d, src);
    MergeKeepsKeys(c, d, src);
    forall x | x in src
      ensures HasKey(c, m, Key(c, x))
    {
      var j :| 0 <= j < |src| && src[j] == x;
      MergeIsUpsert(c, d, src, Key(c, x));
    }
    NothingUnmatched(c, m, src);
    forall i | 0 <= i < |m|
      ensures Updated(c, m[i], src) == m[i]
    {
      UpdateAgain(c, d, src, i);
    }
    assert AllUpdated(c, m, src) == m;
  }

  lemma {:induction false} NothingUnmatched(c: Cfg, m: seq<Tree>, src: seq<Tree>)
    requires IdentifiersListFree(c) && AllComplete(c, m) && AllComplete(c, src)
    requires forall x :: x in src ==> HasKey(c, m, Key(c, x))
    ensures Unmatched(c, m, src) == []
  {
    var u := Unmatched(c, m, src);
    if u != [] {
      UnmatchedMembers(c, m, src, u[0]);
      assert false;
    }
  }

  lemma UpdateAgain(c: Cfg, d: seq<Tree>, src: seq<Tree>, i: nat)
    requires KeyedSides(c, d, src) && ListFree(c) && i < |Merge(c, d, src)|
    ensures Updated(c, Merge(c, d, src)[i], src) == Merge(c, d, src)[i]
  {
    var m := Merge(c, d, src);
    MergeKeepsKeys(c, d, src);
    UpdatedKeepsKey(c, m[i], src);
    if HasKey(c, src, Key(c, m[i])) {
      var j :| 0 <= j < |src| && Key(c, src[j]) == Key(c, m[i]);
      UpdatedOnce(c, m[i], src, j);
      PartialIsOverlay(c, m[i], src[j]);
      if i < |d| {
        OldElement(c, d, src, i);
        PartialIsOverlay(c, d[i], src[j]);
        OverlayIsIdempotent(c, d[i], src[j]);
      } else {
        assert m[i] == Unmatched(c, d, src)[i - |d|];
        UnmatchedMembers(c, d, src, m[i]);
        var l :| 0 <= l < |src| && src[l] == m[i];
        assert l == j;
        OverlaySelf(c, src[j]);
      }
    }
  }
}
