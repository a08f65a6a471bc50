/** Selecting list items: what a selector asks for, and the positions that every loop over it works on. */
module Selectors {
  import opened DataModel

  /** EebusDataSequenceGetFieldCfg: the first field of that name, or the number of fields. */
  function FieldNamed(fields: seq<Cfg>, name: string): (k: nat)
    ensures k <= |fields| && (k < |fields| ==> fields[k].name == name)
  {
    if fields == [] || fields[0].name == name then 0 else 1 + FieldNamed(fields[1..], name)
  }

  /** A selector field that is set must compare equal to the data field of its name, if there is one. */
  predicate FieldSelected(c: Cfg, t: Tree, sc: Cfg, sel: Tree, k: nat)
    requires c.Sequence? && sc.Sequence? && Fits(c, t) && Fits(sc, sel) && t.Node? && sel.Node? && k < |sc.fields|
  {
    var j := FieldNamed(c.fields, sc.fields[k].name);
    sel.fields[k].Null? || j == |c.fields| || Compare(c.fields[j], t.fields[j], sc.fields[k], sel.fields[k])
  }

  /** Only structures support selectors; every other element type asserts. */
  predicate SelectorsMatch(c: Cfg, t: Tree, sc: Cfg, sel: Tree)
    requires c.Sequence? && Fits(c, t) && Fits(sc, sel)
  {
    && sc.Sequence?
    && (sel.Null? || (!t.Null? && forall k :: 0 <= k < |sc.fields| ==> FieldSelected(c, t, sc, sel, k)))
  }

  /** Field `j` of the data is what field `k` of the selector is about: the first field of its name. */
  predicate IsAbout(c: Cfg, sc: Cfg, j: nat, k: nat)
    requires c.Sequence? && sc.Sequence?
  {
    && j < |c.fields| && k < |sc.fields| && c.fields[j].name == sc.fields[k].name
    && forall i :: 0 <= i < j ==> c.fields[i].name != sc.fields[k].name
  }

  /** What a set selector field asks for: the same tree in the field that it is about, if there is one. */
  ghost predicate MeetsField(c: Cfg, t: Tree, sc: Cfg, sel: Tree, k: nat)
    requires c.Sequence? && sc.Sequence? && Fits(c, t) && Fits(sc, sel) && t.Node? && sel.Node? && k < |sc.fields|
  {
    sel.fields[k].Null?
    || forall j: nat :: IsAbout(c, sc, j, k) ==>
         t.fields[j] == sel.fields[k] && Comparable(c.fields[j], t.fields[j], sc.fields[k])
  }

  /** What a selector asks for: nothing when it is unset, otherwise a set element that meets every field. */
  ghost predicate Meets(c: Cfg, t: Tree, sc: Cfg, sel: Tree)
    requires c.Sequence? && Fits(c, t) && Fits(sc, sel)
  {
    && sc.Sequence?
    && (sel.Null? || (t.Node? && forall k :: 0 <= k < |sc.fields| ==> MeetsField(c, t, sc, sel, k)))
  }

  lemma {:induction false} FirstOfName(fields: seq<Cfg>, name: string)
    ensures forall i :: 0 <= i < FieldNamed(fields, name) ==> fields[i].name != name
  {
    if fields != [] && fields[0].name != name {
      FirstOfName(fields[1..], name);
    }
  }

  lemma AboutIsFound(c: Cfg, sc: Cfg, j: nat, k: nat)
    requires c.Sequence? && sc.Sequence? && k < |sc.fields|
    ensures IsAbout(c, sc, j, k) <==> j == FieldNamed(c.fields, sc.fields[k].name) < |c.fields|
  {
    FirstOfName(c.fields, sc.fields[k].name);
  }

  /** One selector field, decided by `compare` on the field that the search by name finds. */
  lemma FieldSelectedIff(c: Cfg, t: Tree, sc: Cfg, sel: Tree, k: nat)
    requires c.Sequence? && sc.Sequence? && Fits(c, t) && Fits(sc, sel) && t.Node? && sel.Node? && k < |sc.fields|
    ensures FieldSelected(c, t, sc, sel, k) <==> MeetsField(c, t, sc, sel, k)
  {
    forall j: nat
      ensures IsAbout(c, sc, j, k) <==> j == FieldNamed(c.fields, sc.fields[k].name) < |c.fields|
    {
      AboutIsFound(c, sc, j, k);
    }
    var j := FieldNamed(c.fields, sc.fields[k].name);
    if j < |c.fields| {
      CompareIff(c.fields[j], t.fields[j], sc.fields[k], sel.fields[k]);
    }
  }

  /** The matching of selectors finds exactly the elements that meet them, for any two configurations. */
  lemma SelectorsMatchIff(c: Cfg, t: Tree, sc: Cfg, sel: Tree)
    requires c.Sequence? && Fits(c, t) && Fits(sc, sel)
    ensures SelectorsMatch(c, t, sc, sel) <==> Meets(c, t, sc, sel)
  {
    if sc.Sequence? && t.Node? && sel.Node? {
      forall k | 0 <= k < |sc.fields|
        ensures FieldSelected(c, t, sc, sel, k) <==> MeetsField(c, t, sc, sel, k)
      {
        FieldSelectedIff(c, t, sc, sel, k);
      }
    }
  }

  predicate DistinctNames(fields: seq<Cfg>) {
    forall i, j :: 0 <= i < j < |fields| ==> fields[i].name != fields[j].name
  }

  /**
   With a selector of leaves, whatever its flags: an element matches exactly when it is set and every
   set selector field whose name it has equals its field of that name.
   */
  lemma LeafSelectorIff(c: Cfg, t: Tree, sc: Cfg, sel: Tree)
    requires c.Sequence? && Fits(c, t) && sc.Sequence? && Fits(sc, sel) && sel.Node? && DistinctNames(c.fields)
    requires forall k :: 0 <= k < |sc.fields| ==> sc.fields[k].Leaf?
    ensures SelectorsMatch(c, t, sc, sel)
            <==> t.Node? && forall j, k :: 0 <= j < |c.fields| && 0 <= k < |sc.fields| ==>
                   c.fields[j].name == sc.fields[k].name && !sel.fields[k].Null? ==> t.fields[j] == sel.fields[k]
  {
    SelectorsMatchIff(c, t, sc, sel);
    if t.Node? {
      forall k | 0 <= k < |sc.fields|
        ensures MeetsField(c, t, sc, sel, k)
                <==> forall j :: 0 <= j < |c.fields| ==>
                  c.fields[j].name == sc.fields[k].name && !sel.fields[k].Null? ==> t.fields[j] == sel.fields[k]
      {
        LeafFieldIff(c, t, sc, sel, k);
      }
    }
  }

  lemma LeafFieldIff(c: Cfg, t: Tree, sc: Cfg, sel: Tree, k: nat)
    requires c.Sequence? && sc.Sequence? && Fits(c, t) && Fits(sc, sel) && t.Node? && sel.Node?
    requires k < |sc.fields| && sc.fields[k].Leaf? && DistinctNames(c.fields)
    ensures MeetsField(c, t, sc, sel, k)
            <==> forall j :: 0 <= j < |c.fields| ==>
              c.fields[j].name == sc.fields[k].name && !sel.fields[k].Null? ==> t.fields[j] == sel.fields[k]
  {
    forall j: nat | j < |c.fields|
      ensures IsAbout(c, sc, j, k) <==> c.fields[j].name == sc.fields[k].name
    {
    }
  }

  /** Which elements a selector asks for. */
  ghost function Mask(c: Cfg, xs: seq<Tree>, sc: Cfg, sel: Tree): (r: seq<bool>)
    requires c.Sequence? && AllFit(c, xs) && Fits(sc, sel)
    ensures |r| == |xs|
  {
    seq(|xs|, i requires 0 <= i < |xs| => Meets(c, xs[i], sc, sel))
  }

  /** The positions below `n` whose mask bit is `want`, in order. */
  function Pick(mask: seq<bool>, want: bool, n: nat): (r: seq<nat>)
    requires n <= |mask|
    ensures |r| <= n && forall k :: 0 <= k < |r| ==> r[k] < n && mask[r[k]] == want
  {
    if n == 0 then []
    else if mask[n - 1] == want then Pick(mask, want, n - 1) + [n - 1]
    else Pick(mask, want, n - 1)
  }

  /** The elements below `n` whose mask bit is `want`, in order. */
  function Chosen<T>(xs: seq<T>, mask: seq<bool>, want: bool, n: nat): (r: seq<T>)
    requires n <= |mask| == |xs|
    ensures |r| == |Pick(mask, want, n)|
  {
    if n == 0 then []
    else if mask[n - 1] == want then Chosen(xs, mask, want, n - 1) + [xs[n - 1]]
    else Chosen(xs, mask, want, n - 1)
  }

  /** They are the elements at the picked positions. */
  lemma {:induction false} ChosenAtPositions<T>(xs: seq<T>, mask: seq<bool>, want: bool, n: nat)
    requires n <= |mask| == |xs|
    ensures forall k :: 0 <= k < |Pick(mask, want, n)| ==> Chosen(xs, mask, want, n)[k] == xs[Pick(mask, want, n)[k]]
  {
    if n > 0 {
      ChosenAtPositions(xs, mask, want, n - 1);
    }
  }

  /** Pick lists exactly the wanted positions, each once and in increasing order. */
  lemma PickIsOrdered(mask: seq<bool>, want: bool, n: nat)
    requires n <= |mask|
    ensures var r := Pick(mask, want, n);
            && Increasing(r)
            && (forall i :: 0 <= i < n ==> (i in r <==> mask[i] == want))
  {
    PickIncreases(mask, want, n);
    forall i | 0 <= i < n
      ensures i in Pick(mask, want, n) <==> mask[i] == want
    {
      PickCovers(mask, want, n, i);
    }
  }

  predicate Increasing(r: seq<nat>) {
    forall k, l :: 0 <= k < l < |r| ==> r[k] < r[l]
  }

  lemma {:induction false} PickIncreases(mask: seq<bool>, want: bool, n: nat)
    requires n <= |mask|
    ensures Increasing(Pick(mask, want, n))
  {
    if n > 0 {
      PickIncreases(mask, want, n - 1);
      IncreasingAppend(Pick(mask, want, n - 1), n - 1);
    }
  }

  lemma IncreasingAppend(p: seq<nat>, x: nat)
    requires Increasing(p) && forall k :: 0 <= k < |p| ==> p[k] < x
    ensures Increasing(p + [x]) && Increasing(p + [])
  {
  }

  lemma {:induction false} PickCovers(mask: seq<bool>, want: bool, n: nat, i: nat)
    requires i < n <= |mask|
    ensures i in Pick(mask, want, n) <==> mask[i] == want
  {
    var p := Pick(mask, want, n - 1);
    assert i == n - 1 ==> i !in p;
    assert i in Pick(mask, want, n) <==> i in p || (mask[n - 1] == want && i == n - 1);
    if i < n - 1 {
      PickCovers(mask, want, n - 1, i);
    }
  }

  /** The two halves of a selection partition the elements: nothing is lost, nothing is in both. */
  lemma {:induction false} ChosenPartition<T>(xs: seq<T>, mask: seq<bool>, n: nat)
    requires n <= |mask| == |xs|
    ensures multiset(xs[..n]) == multiset(Chosen(xs, mask, true, n)) + multiset(Chosen(xs, mask, false, n))
  {
    if n > 0 {
      ChosenPartition(xs, mask, n - 1);
      assert xs[..n] == xs[..n - 1] + [xs[n - 1]];
      ChosenGrows(xs, mask, n);
      OneMore(xs[..n - 1], Chosen(xs, mask, true, n - 1), Chosen(xs, mask, false, n - 1), xs[n - 1],
              Chosen(xs, mask, true, n), Chosen(xs, mask, false, n));
    }
  }

  lemma ChosenGrows<T>(xs: seq<T>, mask: seq<bool>, n: nat)
    requires 0 < n <= |mask| == |xs|
    ensures var a, b, x := Chosen(xs, mask, true, n - 1), Chosen(xs, mask, false, n - 1), xs[n - 1];
            if mask[n - 1] then Chosen(xs, mask, true, n) == a + [x] && Chosen(xs, mask, false, n) == b
            else Chosen(xs, mask, true, n) == a && Chosen(xs, mask, false, n) == b + [x]
  {
  }

  lemma OneMore<T>(all: seq<T>, a: seq<T>, b: seq<T>, x: T, a': seq<T>, b': seq<T>)
    requires multiset(all) == multiset(a) + multiset(b)
    requires (a' == a + [x] && b' == b) || (a' == a && b' == b + [x])
    ensures multiset(all + [x]) == multiset(a') + multiset(b')
  {
  }

  lemma {:induction false} PickCounts(mask: seq<bool>, n: nat)
    requires n <= |mask|
    ensures |Pick(mask, true, n)| + |Pick(mask, false, n)| == n
  {
    if n > 0 {
      PickCounts(mask, n - 1);
    }
  }

  lemma {:induction false} ChooseAll<T>(xs: seq<T>, mask: seq<bool>, n: nat)
    requires n <= |mask| == |xs| && forall i :: 0 <= i < n ==> !mask[i]
    ensures Chosen(xs, mask, false, n) == xs[..n]
  {
    if n > 0 {
      ChooseAll(xs, mask, n - 1);
      assert xs[..n] == xs[..n - 1] + [xs[n - 1]];
    }
  }

  lemma NonePicked(mask: seq<bool>, n: nat)
    requires n <= |mask| && Pick(mask, true, n) == []
    ensures forall i :: 0 <= i < n ==> !mask[i]
  {
    PickIsOrdered(mask, true, n);
  }

  lemma {:induction false} ChosenFit(c: Cfg, xs: seq<Tree>, mask: seq<bool>, want: bool, n: nat)
    requires n <= |mask| == |xs| && AllFit(c, xs)
    ensures AllFit(c, Chosen(xs, mask, want, n))
  {
    if n > 0 {
      ChosenFit(c, xs, mask, want, n - 1);
    }
  }

  /** The longer the prefix, the more is picked. */
  lemma {:induction false} PickMonotone(mask: seq<bool>, want: bool, i: nat, n: nat)
    requires i <= n <= |mask|
    ensures |Pick(mask, want, i)| <= |Pick(mask, want, n)|
    ensures i < n && mask[i] == want ==> |Pick(mask, want, i)| < |Pick(mask, want, n)|
    decreases n
  {
    if i < n {
      PickMonotone(mask, want, i, n - 1);
    }
  }
}
