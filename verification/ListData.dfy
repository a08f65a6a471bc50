/** Walking over the matching elements of a list, and adding and removing pointers in a list buffer. */
module ListData {
  import opened Errors
  import opened DataModel
  import opened Selectors
  import opened Sequences

  /**
   The positions that an iterator with the filter `sel` hands out: those that the filter selects, but
   none at all without a filter, although the selector loops select everything then.
   */
  ghost function Handed(elem: Cfg, ar: seq<Tree>, sel: Tree): (r: seq<bool>)
    requires elem.Sequence? && AllFit(elem, ar) && Fits(elem, sel)
    ensures |r| == |ar|
  {
    if sel.Null? then seq(|ar|, _ => false) else Mask(elem, ar, elem, sel)
  }

  /** The match iterator over the buffer of a list; `current` is -1 when it is done. */
  class MatchIterator {
    const elem: Cfg
    const ar: seq<Tree>
    const sel: Tree
    var current: int

    ghost predicate Valid()
      reads this
    {
      && elem.Sequence? && AllFit(elem, ar) && Fits(elem, sel) && -1 <= current < |ar|
      && (sel.Null? ==> current == -1)
    }

    ghost function Matches(): (r: seq<bool>)
      requires elem.Sequence? && AllFit(elem, ar) && Fits(elem, sel)
      ensures |r| == |ar|
    {
      Handed(elem, ar, sel)
    }

    /** EebusDataListDataFindMatching from position `first` on. */
    method FindMatching(first: nat) returns (p: int)
      requires elem.Sequence? && AllFit(elem, ar) && Fits(elem, sel) && !sel.Null? && first <= |ar|
      ensures -1 <= p < |ar|
      ensures if p == -1 then forall i :: first <= i < |ar| ==> !Matches()[i]
              else first <= p && Matches()[p] && forall i :: first <= i < p ==> !Matches()[i]
    {
      for i := first to |ar|
        invariant forall k :: first <= k < i ==> !Matches()[k]
      {
        SelectorsMatchIff(elem, ar[i], elem, sel);
        if SelectorsMatch(elem, ar[i], elem, sel) {
          assert Matches()[i];
          return i;
        }
      }
      p := -1;
    }

    /** Without a filter the constructor returns before it looks for a first match. */
    constructor (elem: Cfg, ar: seq<Tree>, sel: Tree)
      requires elem.Sequence? && AllFit(elem, ar) && Fits(elem, sel)
      ensures Valid() && this.elem == elem && this.ar == ar && this.sel == sel
      ensures Visited(Matches(), -1, current)
    {
      this.elem, this.ar, this.sel := elem, ar, sel;
      current := -1;
      new;
      if !sel.Null? {
        current := FindMatching(0);
      }
    }

    method Next()
      requires Valid()
      modifies this
      ensures Valid()
      ensures if old(current) == -1 then current == -1 else Visited(Matches(), old(current), current)
    {
      if current != -1 {
        current := FindMatching(current + 1);
      }
    }
  }

  /** `next` is the first match behind `from`, or -1 when there is none. */
  predicate Visited(mask: seq<bool>, from: int, next: int) {
    && -1 <= from && (from < |mask| || from == -1)
    && if next == -1 then forall i :: from < i < |mask| ==> !mask[i]
       else from < next < |mask| && mask[next] && forall i :: from < i < next ==> !mask[i]
  }

  /** Walking with the iterator to its end visits exactly the positions to be handed out, in order. */
  method VisitAll(it: MatchIterator) returns (visits: seq<nat>)
    requires it.Valid() && Visited(it.Matches(), -1, it.current)
    modifies it
    ensures visits == if it.sel.Null? then [] else Pick(Mask(it.elem, it.ar, it.elem, it.sel), true, |it.ar|)
  {
    visits := [];
    PickSkips(it.Matches(), 0, if it.current == -1 then |it.ar| else it.current);
    while it.current != -1
      invariant it.Valid()
      invariant it.current != -1 ==> it.Matches()[it.current] && visits == Pick(it.Matches(), true, it.current)
      invariant it.current == -1 ==> visits == Pick(it.Matches(), true, |it.ar|)
      decreases if it.current == -1 then 0 else |it.ar| - it.current
    {
      ghost var c := it.current;
      visits := visits + [it.current];
      it.Next();
      PickSkips(it.Matches(), c + 1, if it.current == -1 then |it.ar| else it.current);
    }
    if it.sel.Null? {
      PickSkips(it.Matches(), 0, |it.ar|);
    }
  }

  /**
   The iterator visits exactly the positions that the copying and deleting loops select if and only if
   there is a filter or the list is empty: without a filter those loops select every item.
   */
  lemma IteratorAgreesIff(elem: Cfg, ar: seq<Tree>, sel: Tree)
    requires elem.Sequence? && AllFit(elem, ar) && Fits(elem, sel)
    ensures var visits := if sel.Null? then [] else Pick(Mask(elem, ar, elem, sel), true, |ar|);
            visits == Pick(Mask(elem, ar, elem, sel), true, |ar|) <==> !sel.Null? || ar == []
  {
    if sel.Null? && ar != [] {
      PickIsOrdered(Mask(elem, ar, elem, sel), true, |ar|);
      assert 0 in Pick(Mask(elem, ar, elem, sel), true, |ar|);
    }
  }

  /** One item and no filter: the iterator visits nothing, the copying loop takes the item. */
  method NoFilterVisitsNothing(elem: Cfg, item: Tree) returns (visits: seq<nat>)
    requires elem.Sequence? && Fits(elem, item)
    ensures visits == [] && Pick(Mask(elem, [item], elem, Null), true, 1) == [0]
  {
    var it := new MatchIterator(elem, [item], Null);
    visits := VisitAll(it);
    IteratorAgreesIff(elem, [item], Null);
    assert Mask(elem, [item], elem, Null) == [true];
  }

  lemma {:induction false} PickSkips(mask: seq<bool>, from: nat, upto: nat)
    requires from <= upto <= |mask| && forall i :: from <= i < upto ==> !mask[i]
    ensures Pick(mask, true, upto) == Pick(mask, true, from)
    decreases upto
  {
    if from < upto {
      PickSkips(mask, from, upto - 1);
    }
  }

  // ---------------------------------------------------------------- list growth and removal

  const SIZE_MODULUS: int := 0x1_0000_0000_0000_0000

  /** A list buffer with the size its owner records for it. */
  datatype Sized<T> = Sized(buf: seq<T>, size: int)

  /** EebusDataListDataAppend: a buffer one longer, refused above the bound. */
  method Append<T(0)>(ar: array<T>, el: T) returns (err: EebusError, out: array<T>)
    ensures err == if ar.Length + 1 > MAX_ELEMENTS then MemoryAllocate else Ok
    ensures err != Ok ==> out == ar
    ensures err == Ok ==> fresh(out) && out[..] == ar[..] + [el]
  {
    out := ar;
    if ar.Length + 1 > MAX_ELEMENTS {
      return MemoryAllocate, out;
    }
    out := new T[ar.Length + 1];
    for i := 0 to ar.Length
      invariant out[..i] == ar[..i]
    {
      out[i] := ar[i];
    }
    out[ar.Length] := el;
    err := Ok;
  }

  /**
   EebusDataListDataRemove drops every occurrence of the pointer from the buffer but always takes
   one off the size. The size is that of the new buffer exactly when the pointer occurred once.
   */
  method Remove<T(==, 0)>(ar: array<T>, el: T) returns (out: Sized<T>)
    requires ar.Length <= MAX_ELEMENTS
    ensures out.buf == Without(ar[..], el)
    ensures out.size == (ar.Length - 1) % SIZE_MODULUS
    ensures out.size == |out.buf| <==> multiset(ar[..])[el] == 1
  {
    ghost var s := ar[..];
    assert s[..|s|] == s;
    var n := 0;
    for i := 0 to ar.Length
      invariant n == |Without(s[..i], el)|
    {
      WithoutNext(s, el, i);
      if ar[i] != el {
        n := n + 1;
      }
    }
    var buf := new T[n];
    var j := 0;
    for i := 0 to ar.Length
      invariant ar[..] == s && j == |Without(s[..i], el)| <= n && buf[..j] == Without(s[..i], el)
    {
      WithoutNext(s, el, i);
      WithoutGrows(s, el, i + 1, ar.Length);
      if ar[i] != el {
        buf[j] := ar[i];
        j := j + 1;
      }
    }
    assert buf[..] == buf[..n];
    WithoutLength(s, el);
    out := Sized(buf[..], (ar.Length - 1) % SIZE_MODULUS);
  }
}
