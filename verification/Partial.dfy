/** `write_partial`: overlay for structures and leaves, keyed merge for lists of identified items. */
module Partial {
  import opened Errors
  import opened DataModel
  import opened Overlay
  import opened Elements
  import opened Sequences

  /** Either identifier bit; the read-only flag is both, so a read-only field counts as an identifier. */
  predicate HasIdentifierFlags(c: Cfg) {
    c.flags.bit0 || c.flags.bit1
  }

  lemma FlagsAreKeys(c: Cfg)
    ensures HasIdentifierFlags(c) <==> IsKeyField(c)
  {
  }

  predicate HasIdentifiers(c: Cfg, t: Tree)
    requires Fits(c, t)
    decreases c
  {
    if c.List? || t.Null? then false
    else
      || HasIdentifierFlags(c)
      || (c.Sequence? && exists i :: 0 <= i < |c.fields| && HasIdentifiers(c.fields[i], t.fields[i]))
  }

  predicate IdentifiersMatch(c: Cfg, t: Tree, s: Tree)
    requires Fits(c, t) && Fits(c, s)
    decreases c
  {
    if c.Sequence? then
      if HasIdentifierFlags(c) then Compare(c, t, c, s)
      else if !HasIdentifiers(c, s) then true
      else if t.Null? then false
      else forall i :: 0 <= i < |c.fields| ==> IdentifiersMatch(c.fields[i], t.fields[i], s.fields[i])
    else
      !HasIdentifierFlags(c) || s.Null? || Compare(c, t, c, s)
  }

  /** The index of the first element whose identifiers match, or the length. */
  function FindMatch(c: Cfg, ar: seq<Tree>, el: Tree): (k: nat)
    requires AllFit(c, ar) && Fits(c, el)
    ensures k <= |ar|
    ensures forall i :: 0 <= i < k ==> !IdentifiersMatch(c, ar[i], el)
    ensures k < |ar| ==> IdentifiersMatch(c, ar[k], el)
  {
    if ar == [] || IdentifiersMatch(c, ar[0], el) then 0 else 1 + FindMatch(c, ar[1..], el)
  }

  /** The elements of `src` that match nothing in `ar`, in order: what the first pass counts. */
  function Unmatched(c: Cfg, ar: seq<Tree>, src: seq<Tree>): (r: seq<Tree>)
    requires AllFit(c, ar) && AllFit(c, src)
    ensures AllFit(c, r) && |r| <= |src|
  {
    if src == [] then []
    else (if FindMatch(c, ar, src[0]) == |ar| then [src[0]] else []) + Unmatched(c, ar, src[1..])
  }

  datatype Merged = Merged(items: seq<Tree>, err: EebusError)

  /** A source element updates the first of the `m` old elements that it matches, in place, or is appended. */
  function MergeStep(c: Cfg, cur: seq<Tree>, m: nat, el: Tree): (r: Merged)
    requires m <= |cur| && AllFit(c, cur) && Fits(c, el)
    ensures AllFit(c, r.items) && |cur| <= |r.items|
    decreases c, 2, 0
  {
    var k := FindMatch(c, cur[..m], el);
    if k == m then Merged(cur + [el], Ok)
    else
      var o := WritePartial(c, cur[k], el);
      Merged(cur[k := o.tree], o.err)
  }

  /** The second pass, which stops at the first error. */
  function MergeFrom(c: Cfg, cur: seq<Tree>, m: nat, src: seq<Tree>): (r: Merged)
    requires m <= |cur| && AllFit(c, cur) && AllFit(c, src)
    ensures AllFit(c, r.items) && |cur| <= |r.items|
    decreases c, 3, |src|
  {
    if src == [] then Merged(cur, Ok)
    else
      var r := MergeStep(c, cur, m, src[0]);
      if r.err != Ok then r else MergeFrom(c, r.items, m, src[1..])
  }

  /** The buffer of a merge that stopped early still has the size counted first, with NULL slots at the end. */
  function PadTo(xs: seq<Tree>, n: nat): (r: seq<Tree>)
    ensures |xs| <= |r| && (|xs| <= n ==> |r| == n)
    ensures forall i :: 0 <= i < |xs| ==> r[i] == xs[i]
    ensures forall i :: |xs| <= i < |r| ==> r[i] == Null
  {
    if n <= |xs| then xs else xs + seq(n - |xs|, _ => Null)
  }

  function MergedSize(c: Cfg, d: seq<Tree>, src: seq<Tree>): (r: nat)
    requires AllFit(c, d) && AllFit(c, src)
  {
    |d| + |Unmatched(c, d, src)|
  }

  /** A buffer is allocated only to grow, and not beyond the bound. */
  predicate MergeRefused(c: Cfg, d: seq<Tree>, src: seq<Tree>)
    requires AllFit(c, d) && AllFit(c, src)
  {
    |d| < MergedSize(c, d, src) && MergedSize(c, d, src) > MAX_ELEMENTS
  }

  function WritePartial(c: Cfg, d: Tree, s: Tree): (r: Outcome)
    requires Fits(c, d) && Fits(c, s)
    ensures Fits(c, r.tree)
    decreases c, 1, 0
  {
    if s.Null? then Outcome(d, Ok)
    else if c.Sequence? then
      var outs := FieldWrites(c, d, s);
      Outcome(Node(StopAtError(outs, Slots(c, d))), ErrorOf(outs))
    else if !c.List? || c.simple then Outcome(WriteElements(c, d, s), Ok)
    else if s.items == [] then
      // The first source element is read for every destination element, whether or not it is there.
      Outcome(d, if ListItems(c, d) == [] then Ok else Undefined)
    else if !HasIdentifiers(c.elem, s.items[0]) then
      // No identifiers in the first element: it is written over every destination element.
      if d.Null? then Outcome(Null, Ok)
      else
        var outs := ItemWrites(c.elem, d.items, s.items[0]);
        Outcome(Items(StopAtError(outs, d.items)), ErrorOf(outs))
    else if MergeRefused(c.elem, ListItems(c, d), s.items) then Outcome(d, MemoryAllocate)
    else
      var m := MergeFrom(c.elem, ListItems(c, d), |ListItems(c, d)|, s.items);
      Outcome(Items(PadTo(m.items, MergedSize(c.elem, ListItems(c, d), s.items))), m.err)
  }

  /** What each slot of a structure would become on its own. */
  function FieldWrites(c: Cfg, d: Tree, s: Tree): (r: seq<Outcome>)
    requires c.Sequence? && Fits(c, d) && Fits(c, s) && s.Node?
    ensures |r| == |c.fields| && forall i :: 0 <= i < |r| ==> Fits(c.fields[i], r[i].tree)
    decreases c, 0, 0
  {
    seq(|c.fields|, i requires 0 <= i < |c.fields| => WritePartial(c.fields[i], Slot(c, d, i), s.fields[i]))
  }

  /** What each element would become if `s` were written to it. */
  function ItemWrites(c: Cfg, ds: seq<Tree>, s: Tree): (r: seq<Outcome>)
    requires AllFit(c, ds) && Fits(c, s)
    ensures |r| == |ds| && forall i :: 0 <= i < |r| ==> Fits(c, r[i].tree)
    decreases c, 2, 0
  {
    seq(|ds|, i requires 0 <= i < |ds| => WritePartial(c, ds[i], s))
  }

  // ---------------------------------------------------------------- the two passes agree

  predicate ListFree(c: Cfg)
    decreases c
  {
    !c.List? && (c.Sequence? ==> forall i :: 0 <= i < |c.fields| ==> ListFree(c.fields[i]))
  }

  /** Nothing below an identifier flag is a list: identifiers are leaves or structures of leaves. */
  predicate IdentifiersListFree(c: Cfg)
    decreases c
  {
    if HasIdentifierFlags(c) then ListFree(c)
    else c.Sequence? ==> forall i :: 0 <= i < |c.fields| ==> IdentifiersListFree(c.fields[i])
  }

  /** Without lists a partial write is an overlay, and cannot fail. */
  lemma {:induction false} PartialIsOverlay(c: Cfg, d: Tree, s: Tree)
    requires ListFree(c) && Fits(c, d) && Fits(c, s)
    ensures WritePartial(c, d, s) == Outcome(WriteElements(c, d, s), Ok)
    decreases c
  {
    if s.Node? {
      forall i | 0 <= i < |c.fields|
        ensures WritePartial(c.fields[i], Slot(c, d, i), s.fields[i])
                == Outcome(WriteElements(c.fields[i], Slot(c, d, i), s.fields[i]), Ok)
      {
        PartialIsOverlay(c.fields[i], Slot(c, d, i), s.fields[i]);
      }
    }
  }

  /** A field of a structure is written, or kept when an earlier one failed. */
  lemma PartialField(c: Cfg, a: Tree, s: Tree, i: nat)
    requires c.Sequence? && Fits(c, a) && Fits(c, s) && a.Node? && s.Node? && i < |c.fields|
    ensures var w := WritePartial(c, a, s).tree;
            && w.Node? && |w.fields| == |c.fields|
            && (w.fields[i] == a.fields[i] || w.fields[i] == WritePartial(c.fields[i], a.fields[i], s.fields[i]).tree)
  {
    assert Slots(c, a)[i] == a.fields[i];
  }

  /** A source without identifiers leaves a missing destination matching nothing that has some. */
  lemma {:induction false} FreshMatchesNothing(c: Cfg, s: Tree, t: Tree)
    requires IdentifiersListFree(c) && Fits(c, s) && Fits(c, t)
    requires !HasIdentifiers(c, s) && HasIdentifiers(c, t)
    ensures !IdentifiersMatch(c, WritePartial(c, Null, s).tree, t)
    ensures !IdentifiersMatch(c, Null, t)
    decreases c
  {
    if c.Sequence? && !HasIdentifierFlags(c) && s.Node? {
      var i :| 0 <= i < |c.fields| && HasIdentifiers(c.fields[i], t.fields[i]);
      FreshMatchesNothing(c.fields[i], s.fields[i], t.fields[i]);
      assert Slots(c, Null)[i] == Null;
    }
  }

  /** Updating an element with a source element it matches does not change what else it matches. */
  lemma {:induction false} PartialKeepsMatches(c: Cfg, a: Tree, s: Tree, t: Tree)
    requires IdentifiersListFree(c) && Fits(c, a) && Fits(c, s) && Fits(c, t)
    requires IdentifiersMatch(c, a, s) || !HasIdentifiers(c, s)
    ensures IdentifiersMatch(c, WritePartial(c, a, s).tree, t) <==> IdentifiersMatch(c, a, t)
    decreases c
  {
    if s.Null? {
    } else if HasIdentifierFlags(c) {
      CompareIsEquality(c, a, s);
      PartialIsOverlay(c, a, s);
      OverlaySelf(c, s);
    } else if c.Sequence? && HasIdentifiers(c, t) {
      if a.Null? {
        FreshMatchesNothing(c, s, t);
      } else {
        var w := WritePartial(c, a, s).tree;
        forall i | 0 <= i < |c.fields|
          ensures IdentifiersMatch(c.fields[i], w.fields[i], t.fields[i])
                  <==> IdentifiersMatch(c.fields[i], a.fields[i], t.fields[i])
        {
          PartialField(c, a, s, i);
          PartialKeepsMatches(c.fields[i], a.fields[i], s.fields[i], t.fields[i]);
        }
      }
    }
  }

  lemma {:induction false} FirstMatchIs(c: Cfg, ar: seq<Tree>, t: Tree, k: nat)
    requires AllFit(c, ar) && Fits(c, t) && k <= |ar|
    requires forall i :: 0 <= i < k ==> !IdentifiersMatch(c, ar[i], t)
    requires k < |ar| ==> IdentifiersMatch(c, ar[k], t)
    ensures FindMatch(c, ar, t) == k
  {
    if k > 0 {
      FirstMatchIs(c, ar[1..], t, k - 1);
    }
  }

  lemma UpdateKeepsFindMatch(c: Cfg, ar: seq<Tree>, k: nat, w: Tree, t: Tree)
    requires AllFit(c, ar) && Fits(c, w) && Fits(c, t) && k < |ar|
    requires IdentifiersMatch(c, w, t) <==> IdentifiersMatch(c, ar[k], t)
    ensures FindMatch(c, ar[k := w], t) == FindMatch(c, ar, t)
  {
    FirstMatchIs(c, ar[k := w], t, FindMatch(c, ar, t));
  }

  lemma {:induction false} UpdateKeepsUnmatched(c: Cfg, ar: seq<Tree>, k: nat, s: Tree, src: seq<Tree>)
    requires IdentifiersListFree(c) && AllFit(c, ar) && Fits(c, s) && AllFit(c, src)
    requires k < |ar| && IdentifiersMatch(c, ar[k], s)
    ensures Unmatched(c, ar[k := WritePartial(c, ar[k], s).tree], src) == Unmatched(c, ar, src)
  {
    if src != [] {
      PartialKeepsMatches(c, ar[k], s, src[0]);
      UpdateKeepsFindMatch(c, ar, k, WritePartial(c, ar[k], s).tree, src[0]);
      UpdateKeepsUnmatched(c, ar, k, s, src[1..]);
    }
  }

  lemma StepAgrees(c: Cfg, cur: seq<Tree>, m: nat, el: Tree, rest: seq<Tree>)
    requires IdentifiersListFree(c) && m <= |cur| && AllFit(c, cur)
    requires Fits(c, el) && AllFit(c, rest)
    ensures var r := MergeStep(c, cur, m, el);
            && r.items[m..] == cur[m..] + (if FindMatch(c, cur[..m], el) == m then [el] else [])
            && Unmatched(c, r.items[..m], rest) == Unmatched(c, cur[..m], rest)
  {
    var k := FindMatch(c, cur[..m], el);
    if k == m {
      StepAppends(cur, m, el);
    } else {
      assert cur[..m][k] == cur[k];
      UpdateKeepsUnmatched(c, cur[..m], k, el, rest);
      UpdateInPrefix(cur, m, k, WritePartial(c, cur[k], el).tree);
    }
  }

  lemma StepAppends<T>(xs: seq<T>, m: nat, x: T)
    requires m <= |xs|
    ensures (xs + [x])[..m] == xs[..m] && (xs + [x])[m..] == xs[m..] + [x]
  {
  }

  lemma UpdateInPrefix<T>(xs: seq<T>, m: nat, k: nat, x: T)
    requires k < m <= |xs|
    ensures xs[k := x][..m] == xs[..m][k := x] && xs[k := x][m..] == xs[m..] + []
  {
  }

  /**
   The two passes of a merge agree, for any source, duplicates and partial keys included: the second
   pass appends exactly the elements that the first one counted, in source order, and never touches
   them again. When it stops early it has appended no more than that.
   */
  lemma {:induction false} PassesAgree(c: Cfg, cur: seq<Tree>, m: nat, src: seq<Tree>)
    requires IdentifiersListFree(c)
    requires m <= |cur| && AllFit(c, cur) && AllFit(c, src)
    ensures var r := MergeFrom(c, cur, m, src);
            && (r.err == Ok ==> r.items[m..] == cur[m..] + Unmatched(c, cur[..m], src))
            && |r.items| <= |cur| + |Unmatched(c, cur[..m], src)|
    decreases |src|
  {
    if src != [] {
      var r := MergeStep(c, cur, m, src[0]);
      StepAgrees(c, cur, m, src[0], src[1..]);
      if r.err == Ok {
        PassesAgree(c, r.items, m, src[1..]);
        var x := if FindMatch(c, cur[..m], src[0]) == m then [src[0]] else [];
        var u := Unmatched(c, cur[..m], src[1..]);
        assert Unmatched(c, cur[..m], src) == x + u;
        Regroup(cur[m..], x, u);
      }
    }
  }

  /** A merge of list-free items fails exactly when it would have to grow beyond the bound. */
  lemma MergeFailsIffTooLong(c: Cfg, d: Tree, s: Tree)
    requires c.List? && !c.simple && ListFree(c.elem) && Fits(c, d) && Fits(c, s)
    requires s.Items? && s.items != [] && HasIdentifiers(c.elem, s.items[0])
    ensures WritePartial(c, d, s).err == if MergeRefused(c.elem, ListItems(c, d), s.items) then MemoryAllocate else Ok
    ensures WritePartial(c, d, s).err != Ok ==> WritePartial(c, d, s).tree == d
  {
    MergeOfListFreeSucceeds(c.elem, ListItems(c, d), |ListItems(c, d)|, s.items);
  }

  lemma {:induction false} MergeOfListFreeSucceeds(c: Cfg, cur: seq<Tree>, m: nat, src: seq<Tree>)
    requires ListFree(c) && m <= |cur| && AllFit(c, cur) && AllFit(c, src)
    ensures MergeFrom(c, cur, m, src).err == Ok
    decreases |src|
  {
    if src != [] {
      var k := FindMatch(c, cur[..m], src[0]);
      if k < m {
        PartialIsOverlay(c, cur[k], src[0]);
      }
      MergeOfListFreeSucceeds(c, MergeStep(c, cur, m, src[0]).items, m, src[1..]);
    }
  }

  // ---------------------------------------------------------------- where the behaviour is defined

  /** The elements of every merged list are free of lists. */
  predicate FlatLists(c: Cfg)
    decreases c
  {
    match c
    case Sequence(_, _, fs) => forall i :: 0 <= i < |fs| ==> FlatLists(fs[i])
    case List(_, _, simple, e) => simple || ListFree(e)
    case _ => true
  }

  function FirstFault(errs: seq<EebusError>): (r: EebusError)
    ensures r == Ok <==> forall i :: 0 <= i < |errs| ==> errs[i] == Ok
  {
    if errs == [] then Ok else if errs[0] != Ok then errs[0] else FirstFault(errs[1..])
  }

  /**
   What stands in the way of a partial write, from the two trees as they are before it: a source list
   without elements over a list that has some, or a merge that would grow beyond the bound.
   */
  function Obstacle(c: Cfg, d: Tree, s: Tree): (r: EebusError)
    requires Fits(c, d) && Fits(c, s)
    decreases c, 1
  {
    if s.Null? then Ok
    else if c.Sequence? then FirstFault(Obstacles(c, d, s))
    else if !c.List? || c.simple then Ok
    else if s.items == [] then if ListItems(c, d) == [] then Ok else Undefined
    else if !HasIdentifiers(c.elem, s.items[0]) then Ok
    else if MergeRefused(c.elem, ListItems(c, d), s.items) then MemoryAllocate
    else Ok
  }

  function Obstacles(c: Cfg, d: Tree, s: Tree): (r: seq<EebusError>)
    requires c.Sequence? && Fits(c, d) && Fits(c, s) && s.Node?
    ensures |r| == |c.fields|
    decreases c, 0
  {
    seq(|c.fields|, i requires 0 <= i < |c.fields| => Obstacle(c.fields[i], Slot(c, d, i), s.fields[i]))
  }

  lemma {:induction false} FirstFaultIsErrorOf(outs: seq<Outcome>, errs: seq<EebusError>)
    requires |outs| == |errs| && forall i :: 0 <= i < |outs| ==> outs[i].err == errs[i]
    ensures ErrorOf(outs) == FirstFault(errs)
  {
    if outs != [] && outs[0].err == Ok {
      FirstFaultIsErrorOf(outs[1..], errs[1..]);
    }
  }

  /** Elements that hold no lists are all written without error. */
  lemma WritesSucceed(c: Cfg, ds: seq<Tree>, s: Tree)
    requires ListFree(c) && AllFit(c, ds) && Fits(c, s)
    ensures ErrorOf(ItemWrites(c, ds, s)) == Ok
  {
    forall i | 0 <= i < |ds|
      ensures ItemWrites(c, ds, s)[i].err == Ok
    {
      PartialIsOverlay(c, ds[i], s);
    }
  }

  /**
   When no merged list is inside another, the obstacle is exactly the error of the write: the first
   element of an empty source list is read, which is undefined, if and only if that is the obstacle.
   */
  lemma {:induction false} ErrorIsObstacle(c: Cfg, d: Tree, s: Tree)
    requires FlatLists(c) && Fits(c, d) && Fits(c, s)
    ensures WritePartial(c, d, s).err == Obstacle(c, d, s)
    decreases c
  {
    if s.Node? {
      var outs, errs := FieldWrites(c, d, s), Obstacles(c, d, s);
      forall i | 0 <= i < |c.fields|
        ensures outs[i].err == errs[i]
      {
        ErrorIsObstacle(c.fields[i], Slot(c, d, i), s.fields[i]);
      }
      FirstFaultIsErrorOf(outs, errs);
    } else if s.Items? && !c.simple && s.items != [] {
      if HasIdentifiers(c.elem, s.items[0]) {
        MergeFailsIffTooLong(c, d, s);
      } else if d.Items? {
        WritesSucceed(c.elem, d.items, s.items[0]);
      }
    }
  }

  /** On a single list: undefined exactly when the source has no element and the destination has one. */
  lemma ListIsUndefinedIff(c: Cfg, d: Tree, s: Tree)
    requires c.List? && !c.simple && ListFree(c.elem) && Fits(c, d) && Fits(c, s)
    ensures WritePartial(c, d, s).err == Undefined <==> s == Items([]) && ListItems(c, d) != []
  {
    ErrorIsObstacle(c, d, s);
  }

  /** No list that is merged, at whatever depth, is empty in the source. */
  predicate NoEmptyLists(c: Cfg, s: Tree)
    requires Fits(c, s)
    decreases c
  {
    match s
    case Node(fs) => forall i :: 0 <= i < |fs| ==> NoEmptyLists(c.fields[i], fs[i])
    case Items(xs) => c.simple || (xs != [] && forall i :: 0 <= i < |xs| ==> NoEmptyLists(c.elem, xs[i]))
    case _ => true
  }

  /** Then the write is defined for every configuration and every destination. */
  lemma {:induction false} DefinedWithoutEmptyLists(c: Cfg, d: Tree, s: Tree)
    requires Fits(c, d) && Fits(c, s) && NoEmptyLists(c, s)
    ensures WritePartial(c, d, s).err != Undefined
    decreases c, 1, 0
  {
    if s.Node? {
      forall i | 0 <= i < |c.fields|
        ensures FieldWrites(c, d, s)[i].err != Undefined
      {
        DefinedWithoutEmptyLists(c.fields[i], Slot(c, d, i), s.fields[i]);
      }
    } else if s.Items? && !c.simple {
      if HasIdentifiers(c.elem, s.items[0]) {
        MergeIsDefined(c, ListItems(c, d), |ListItems(c, d)|, s.items);
      } else if d.Items? {
        forall i | 0 <= i < |d.items|
          ensures ItemWrites(c.elem, d.items, s.items[0])[i].err != Undefined
        {
          DefinedWithoutEmptyLists(c.elem, d.items[i], s.items[0]);
        }
      }
    }
  }

  lemma {:induction false} MergeIsDefined(c: Cfg, cur: seq<Tree>, m: nat, src: seq<Tree>)
    requires c.List? && m <= |cur| && AllFit(c.elem, cur) && AllFit(c.elem, src)
    requires forall i :: 0 <= i < |src| ==> NoEmptyLists(c.elem, src[i])
    ensures MergeFrom(c.elem, cur, m, src).err != Undefined
    decreases c, 0, |src|
  {
    if src != [] {
      var k := FindMatch(c.elem, cur[..m], src[0]);
      if k < m {
        DefinedWithoutEmptyLists(c.elem, cur[k], src[0]);
      }
      MergeIsDefined(c, MergeStep(c.elem, cur, m, src[0]).items, m, src[1..]);
    }
  }
}
