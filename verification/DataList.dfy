/**
 The list operations in place: the pair of a buffer pointer and a size inside the owning structure,
 and the counted loops that replace or rewrite the buffer.
 */
module DataList {
  import opened Errors
  import opened DataModel
  import opened Overlay
  import opened Elements
  import opened Partial
  import opened Selectors

  /** CreateListBuffer: all slots NULL, refused above the bound. */
  method CreateListBuffer(n: nat) returns (buf: array?<Tree>)
    ensures buf == null <==> n > MAX_ELEMENTS
    ensures buf != null ==> fresh(buf) && buf.Length == n && forall i :: 0 <= i < n ==> buf[i] == Null
  {
    if n > MAX_ELEMENTS {
      return null;
    }
    buf := new Tree[n](_ => Null);
  }

  /** GetItemMatchingIdentifiers on the first `n` slots. */
  method FindItem(elem: Cfg, ar: array<Tree>, n: nat, el: Tree) returns (k: nat)
    requires n <= ar.Length && AllFit(elem, ar[..n]) && Fits(elem, el)
    ensures k == FindMatch(elem, ar[..n], el)
  {
    k := 0;
    while k < n
      invariant k <= n
      invariant forall i :: 0 <= i < k ==> !IdentifiersMatch(elem, ar[..n][i], el)
    {
      assert ar[..n][k] == ar[k];
      if IdentifiersMatch(elem, ar[k], el) {
        break;
      }
      k := k + 1;
    }
    FirstMatchIs(elem, ar[..n], el, k);
  }

  /** The second pass of DeleteListItems: every element is deleted or moved, never both; `deleted` logs the former. */
  method MoveSurvivors(elem: Cfg, ar: array<Tree>, newAr: array<Tree>, sc: Cfg, sel: Tree, ghost xs: seq<Tree>,
                       ghost mask: seq<bool>)
    returns (ghost deleted: seq<nat>)
    requires newAr != ar && elem.Sequence? && xs == ar[..] && AllFit(elem, xs) && Fits(sc, sel)
    requires mask == Mask(elem, xs, sc, sel) && newAr.Length == |Pick(mask, false, |xs|)|
    modifies newAr
    ensures deleted == Pick(mask, true, |xs|) && newAr[..] == Chosen(xs, mask, false, |xs|)
  {
    var j := 0;
    deleted := [];
    for i := 0 to ar.Length
      invariant ar[..] == xs
      invariant deleted == Pick(mask, true, i)
      invariant j == |Pick(mask, false, i)| <= newAr.Length
      invariant newAr[..j] == Chosen(xs, mask, false, i)
    {
      PickMonotone(mask, false, i, |xs|);
      var selected := IsSelected(elem, ar[i], sc, sel, mask, i);
      if selected {
        deleted := deleted + [i];
      } else {
        PutNext(newAr, j, ar[i]);
        j := j + 1;
      }
    }
    assert newAr[..] == newAr[..j];
  }

  /** SELECTORS_MATCH on one element, which is one bit of the mask. */
  method IsSelected(elem: Cfg, x: Tree, sc: Cfg, sel: Tree, ghost mask: seq<bool>, ghost i: nat)
    returns (selected: bool)
    requires elem.Sequence? && Fits(elem, x) && Fits(sc, sel)
    requires i < |mask| && mask[i] == Meets(elem, x, sc, sel)
    ensures selected == mask[i]
  {
    SelectorsMatchIff(elem, x, sc, sel);
    selected := SelectorsMatch(elem, x, sc, sel);
  }

  /** `buf[j++] = x` */
  method PutNext(buf: array<Tree>, j: nat, x: Tree)
    requires j < buf.Length
    modifies buf
    ensures buf[..j + 1] == old(buf[..j]) + [x]
  {
    buf[j] := x;
  }

  /** The loop of CopyToAllData, which stops at the first error. */
  method CopyToEach(elem: Cfg, ar: array<Tree>, s: Tree) returns (err: EebusError)
    requires AllFit(elem, ar[..]) && Fits(elem, s)
    modifies ar
    ensures var outs := Partial.ItemWrites(elem, old(ar[..]), s);
            ar[..] == StopAtError(outs, old(ar[..])) && err == ErrorOf(outs)
  {
    ghost var d := ar[..];
    ghost var outs := Partial.ItemWrites(elem, d, s);
    for i := 0 to ar.Length
      invariant forall k :: 0 <= k < i ==> ar[k] == outs[k].tree && outs[k].err == Ok
      invariant forall k :: i <= k < ar.Length ==> ar[k] == d[k]
    {
      assert ar[i] == d[i];
      var o := Partial.WritePartial(elem, ar[i], s);
      ar[i] := o.tree;
      if o.err != Ok {
        FirstErrorIs(outs, i);
        assert ar[..] == StopAtError(outs, d);
        return o.err;
      }
    }
    FirstErrorIs(outs, |outs|);
    assert ar[..] == StopAtError(outs, d);
    err := Ok;
  }

  class DataList {
    const elem: Cfg
    var ar: array?<Tree>
    var size: nat

    /** A missing buffer has size zero, a buffer exactly `size` slots. */
    ghost predicate Valid()
      reads this, ar
    {
      if ar == null then size == 0 else ar.Length == size && AllFit(elem, ar[..])
    }

    function Contents(): (r: seq<Tree>)
      reads this, ar
    {
      if ar == null then [] else ar[..]
    }

    /** The tree that the slot stands for. */
    function Value(): (r: Tree)
      reads this, ar
    {
      if ar == null then Null else Items(ar[..])
    }

    constructor (elem: Cfg)
      ensures Valid() && ar == null && this.elem == elem
    {
      this.elem := elem;
      ar, size := null, 0;
    }

    method Delete()
      modifies this
      ensures Valid() && ar == null
    {
      ar, size := null, 0;
    }

    /**
     Deep copy. The buffer is reused when it has the right length, whatever it held; a new one is
     refused above the bound, and the old content is gone by then.
     */
    method Write(src: DataList) returns (err: EebusError)
      requires Valid() && src.Valid() && src != this && (src.ar == null || src.ar != ar) && src.elem == elem
      modifies this, if ar == null then {} else {ar}
      ensures Valid() && src.ar == old(src.ar) && src.Value() == old(src.Value())
      ensures err == (if src.ar != null && src.size > MAX_ELEMENTS && (old(ar) == null || old(size) != src.size)
                      then MemoryAllocate else Ok)
      ensures Value() == if err == Ok then src.Value() else Null
      ensures ar != null ==> ar != src.ar
      ensures err == Ok && old(ar) != null && src.ar != null && old(size) == src.size ==> ar == old(ar)
      ensures ar != null && ar != old(ar) ==> fresh(ar)
    {
      if src.ar == null {
        Delete();
        return Ok;
      }
      if ar != null && size != src.size {
        Delete();
      }
      if ar == null {
        ar := CreateListBuffer(src.size);
        if ar == null {
          return MemoryAllocate;
        }
      }
      size := src.size;
      ghost var source, buf := src.ar, ar;
      for i := 0 to src.size
        invariant ar == buf && src.ar == source && source != buf && size == src.size == buf.Length == source.Length
        invariant source[..] == old(source[..])
        invariant buf[..i] == source[..i]
      {
        ar[i] := src.ar[i];
      }
      assert buf[..] == source[..];
      err := Ok;
    }

    /** EEBUS_DATA_COMPARE on two lists of one configuration. */
    method Compare(other: DataList) returns (same: bool)
      requires Valid() && other.Valid() && other.elem == elem
      ensures same <==> Value() == other.Value()
    {
      if ar == null || other.ar == null {
        return ar == null && other.ar == null;
      }
      if size != other.size {
        return false;
      }
      for i := 0 to size
        invariant ar[..i] == other.ar[..i]
      {
        CompareIsEquality(elem, ar[i], other.ar[i]);
        if !DataModel.Compare(elem, ar[i], elem, other.ar[i]) {
          assert ar[..][i] != other.ar[..][i];
          return false;
        }
      }
      assert ar[..] == other.ar[..];
      same := true;
    }

    /** The first pass of the selecting loops. */
    method CountMatching(sc: Cfg, sel: Tree) returns (n: nat)
      requires Valid() && elem.Sequence? && Fits(sc, sel)
      ensures n == |Pick(Mask(elem, Contents(), sc, sel), true, |Contents()|)|
    {
      n := 0;
      for i := 0 to size
        invariant n == |Pick(Mask(elem, Contents(), sc, sel), true, i)|
      {
        SelectorsMatchIff(elem, ar[i], sc, sel);
        if SelectorsMatch(elem, ar[i], sc, sel) {
          n := n + 1;
        }
      }
    }

    /** The elements of this list that match are copied, in order, over whatever `dst` held. */
    method CopyMatching(dst: DataList, sel: Tree) returns (err: EebusError)
      requires Valid() && dst.Valid() && dst != this && (dst.ar == null || dst.ar != ar) && dst.elem == elem
      requires elem.Sequence? && Fits(elem, sel)
      modifies dst, if dst.ar == null then {} else {dst.ar}
      ensures Valid() && dst.Valid() && unchanged(this) && Value() == old(Value())
      ensures var picked := Chosen(Contents(), Mask(elem, Contents(), elem, sel), true, |Contents()|);
              && err == (if |picked| > MAX_ELEMENTS then MemoryAllocate else Ok)
              && dst.Value() == if picked == [] || err != Ok then Null else Items(picked)
      ensures dst.ar != null ==> fresh(dst.ar)
    {
      dst.Delete();
      if ar == null {
        return Ok;
      }
      ghost var xs, mask := ar[..], Mask(elem, ar[..], elem, sel);
      var n := CountMatching(elem, sel);
      if n == 0 {
        return Ok;
      }
      dst.ar := CreateListBuffer(n);
      if dst.ar == null {
        return MemoryAllocate;
      }
      ChosenFit(elem, xs, mask, true, |xs|);
      dst.size := CopyPicked(dst.ar, sel);
      err := Ok;
    }

    /** The second pass of CopyMatching, into a buffer of exactly the counted length. */
    method CopyPicked(buf: array<Tree>, sel: Tree) returns (n: nat)
      requires Valid() && elem.Sequence? && Fits(elem, sel) && ar != null && buf != ar
      requires buf.Length == |Pick(Mask(elem, Contents(), elem, sel), true, |Contents()|)|
      modifies buf
      ensures n == buf.Length
      ensures buf[..] == Chosen(Contents(), Mask(elem, Contents(), elem, sel), true, |Contents()|)
    {
      ghost var xs, mask := ar[..], Mask(elem, ar[..], elem, sel);
      n := 0;
      for i := 0 to size
        invariant ar[..] == xs
        invariant n == |Pick(mask, true, i)| <= buf.Length
        invariant buf[..n] == Chosen(xs, mask, true, i)
      {
        n := CopyIfPicked(buf, n, i, sel, xs, mask);
      }
      assert buf[..] == buf[..n];
    }

    /** One turn of the loop. */
    method CopyIfPicked(buf: array<Tree>, n: nat, i: nat, sel: Tree, ghost xs: seq<Tree>, ghost mask: seq<bool>)
      returns (n': nat)
      requires elem.Sequence? && Fits(elem, sel) && ar != null && buf != ar && xs == ar[..] && AllFit(elem, xs)
      requires mask == Mask(elem, xs, elem, sel) && buf.Length == |Pick(mask, true, |xs|)| && i < |xs|
      requires n == |Pick(mask, true, i)| <= buf.Length && buf[..n] == Chosen(xs, mask, true, i)
      modifies buf
      ensures n' == |Pick(mask, true, i + 1)| <= buf.Length && buf[..n'] == Chosen(xs, mask, true, i + 1)
    {
      PickMonotone(mask, true, i, |xs|);
      n' := n;
      var selected := IsSelected(elem, ar[i], elem, sel, mask, i);
      if selected {
        PutNext(buf, n, ar[i]);
        n' := n + 1;
      }
    }

    /** CopyToSelectedData: the first source element is laid over every element that matches. */
    method CopyToSelectedData(src: DataList, sc: Cfg, sel: Tree)
      requires Valid() && src.Valid() && src != this && (src.ar == null || src.ar != ar) && src.elem == elem
      requires elem.Sequence? && Fits(sc, sel)
      requires src.ar != null && size > 0 ==> src.size > 0
      modifies if ar == null then {} else {ar}
      ensures Valid() && src.Value() == old(src.Value())
      ensures |Contents()| == old(|Contents()|)
      ensures var mask := Mask(elem, old(Contents()), sc, sel);
              forall i :: 0 <= i < |Contents()| ==>
                Contents()[i] == if src.ar != null && mask[i] then WriteElements(elem, old(Contents())[i], src.ar[0])
                                 else old(Contents())[i]
    {
      if src.ar == null {
        return;
      }
      for i := 0 to size
        invariant ar == old(ar) && size == old(size) && (ar != null ==> ar.Length == size)
        invariant ar != null ==> AllFit(elem, ar[..])
        invariant forall j :: i <= j < size ==> ar[j] == old(ar[j])
        invariant forall j :: 0 <= j < i ==>
                    ar[j] == if Meets(elem, old(ar[j]), sc, sel)
                             then WriteElements(elem, old(ar[j]), src.ar[0]) else old(ar[j])
      {
        assert Fits(elem, ar[..][i]);
        assert Fits(elem, src.ar[..][0]);
        SelectorsMatchIff(elem, ar[i], sc, sel);
        if SelectorsMatch(elem, ar[i], sc, sel) {
          ar[i] := WriteElements(elem, ar[i], src.ar[0]);
        }
      }
    }

    /** DeleteListItems: the elements that match are deleted, the others move to a new buffer in order. */
    method DeleteListItems(sc: Cfg, sel: Tree) returns (ghost deleted: seq<nat>)
      requires Valid() && elem.Sequence? && Fits(sc, sel)
      modifies this
      ensures Valid()
      ensures var mask := Mask(elem, old(Contents()), sc, sel);
              var survivors := Chosen(old(Contents()), mask, false, |mask|);
              var refused := |survivors| > MAX_ELEMENTS && |survivors| < |old(Contents())|;
              if refused then Value() == old(Value()) && deleted == []
              else Contents() == survivors && deleted == Pick(mask, true, |mask|)
      ensures deleted == [] ==> ar == old(ar)
      ensures deleted != [] ==> ar != null && fresh(ar)
    {
      ghost var xs := Contents();
      ghost var mask := Mask(elem, xs, sc, sel);
      deleted := [];
      var n := CountMatching(sc, sel);
      PickCounts(mask, |xs|);
      ChosenFit(elem, xs, mask, false, |xs|);
      var newSize := size - n;
      if newSize == size {
        NonePicked(mask, |xs|);
        ChooseAll(xs, mask, |xs|);
        assert xs[..|xs|] == xs;
        return;
      }
      var newAr := CreateListBuffer(newSize);
      if newAr == null {
        return;
      }
      deleted := MoveSurvivors(elem, ar, newAr, sc, sel, xs, mask);
      ar, size := newAr, newSize;
    }

    /** Pass 1 of a merge: the size of the merged list. */
    method CountMerged(src: DataList) returns (n: nat)
      requires Valid() && src.Valid() && src.elem == elem
      ensures n == MergedSize(elem, Contents(), src.Contents())
    {
      n := size;
      ghost var d, s := Contents(), src.Contents();
      assert s[0..] == s;
      for i := 0 to src.size
        invariant n + |Unmatched(elem, d, s[i..])| == MergedSize(elem, d, s)
      {
        assert s[i..][1..] == s[i + 1..] && s[i..][0] == src.ar[i];
        var k := 0;
        if ar != null {
          assert ar[..size] == d;
          k := FindItem(elem, ar, size, src.ar[i]);
        }
        if k == size {
          n := n + 1;
        }
      }
    }

    /** One source element of pass 3: `j` slots are in use, of which the first `m` hold the old elements. */
    method MergeOne(newAr: array<Tree>, j: nat, m: nat, el: Tree) returns (err: EebusError, next: nat)
      requires m <= j <= newAr.Length && AllFit(elem, newAr[..j]) && Fits(elem, el)
      requires |MergeStep(elem, newAr[..j], m, el).items| <= newAr.Length
      modifies newAr
      ensures j <= next <= newAr.Length
      ensures Merged(newAr[..next], err) == MergeStep(elem, old(newAr[..j]), m, el)
      ensures forall k :: next <= k < newAr.Length ==> newAr[k] == old(newAr[k])
    {
      ghost var cur := newAr[..j];
      assert cur[..m] == newAr[..m];
      var k := FindItem(elem, newAr, m, el);
      next := j;
      if k < m {
        var o := Partial.WritePartial(elem, newAr[k], el);
        newAr[k] := o.tree;
        err := o.err;
        assert newAr[..j] == cur[k := o.tree];
      } else {
        newAr[j] := el;
        next := j + 1;
        err := Ok;
        assert newAr[..next] == cur + [el];
      }
    }

    /** The same for source element `i`, seen from the whole merge. */
    method MergeNext(newAr: array<Tree>, j: nat, m: nat, src: DataList, i: nat, ghost whole: Merged)
      returns (err: EebusError, next: nat)
      requires src.Valid() && src.elem == elem && src.ar != newAr && i < src.size
      requires m <= j <= newAr.Length && AllFit(elem, newAr[..j]) && |whole.items| <= newAr.Length
      requires MergesTo(elem, newAr[..j], m, src.Contents()[i..], Ok, whole)
      modifies newAr
      ensures src.Valid() && src.Contents() == old(src.Contents())
      ensures j <= next <= newAr.Length && AllFit(elem, newAr[..next])
      ensures MergesTo(elem, newAr[..next], m, src.Contents()[i + 1..], err, whole)
      ensures forall k :: next <= k < newAr.Length ==> newAr[k] == old(newAr[k])
    {
      ghost var s := src.Contents();
      assert s[i..] == [s[i]] + s[i + 1..];
      FirstStep(elem, newAr[..j], m, s[i], s[i + 1..]);
      err, next := MergeOne(newAr, j, m, src.ar[i]);
    }

    /**
     Pass 3 of a merge on the buffer `newAr`, whose first `m` slots hold the old elements and whose
     other slots are still NULL. No source element meets a full buffer, because the two passes agree.
     */
    method MergeInto(newAr: array<Tree>, m: nat, src: DataList) returns (err: EebusError)
      requires src.Valid() && src.elem == elem && src.ar != newAr && IdentifiersListFree(elem)
      requires m <= newAr.Length && AllFit(elem, newAr[..m])
      requires newAr.Length == MergedSize(elem, newAr[..m], src.Contents())
      requires forall i :: m <= i < newAr.Length ==> newAr[i] == Null
      modifies newAr
      ensures src.Valid() && src.Contents() == old(src.Contents())
      ensures var r := MergeFrom(elem, old(newAr[..m]), m, src.Contents());
              err == r.err && newAr[..] == PadTo(r.items, newAr.Length)
    {
      ghost var s := src.Contents();
      ghost var whole := MergeFrom(elem, newAr[..m], m, s);
      MergeFitsBuffer(elem, newAr[..m], s);
      assert s[0..] == s;
      err := Ok;
      var i, j := 0, m;
      while i < src.size && err == Ok
        invariant i <= src.size && m <= j <= newAr.Length && AllFit(elem, newAr[..j])
        invariant src.Valid() && src.Contents() == s
        invariant MergesTo(elem, newAr[..j], m, s[i..], err, whole)
        invariant forall k :: j <= k < newAr.Length ==> newAr[k] == Null
      {
        err, j := MergeNext(newAr, j, m, src, i, whole);
        i := i + 1;
      }
      assert newAr[..] == PadTo(newAr[..j], newAr.Length);
    }

    /** The larger buffer of a merge takes the old elements over; NULL above the bound. */
    method Grown(newSize: nat) returns (buf: array?<Tree>)
      requires Valid() && newSize > size
      ensures buf == null <==> newSize > MAX_ELEMENTS
      ensures buf != null ==>
                && fresh(buf) && buf.Length == newSize && buf[..size] == Contents()
                && forall k :: size <= k < newSize ==> buf[k] == Null
    {
      buf := CreateListBuffer(newSize);
      if buf == null {
        return;
      }
      for i := 0 to size
        invariant buf[..i] == Contents()[..i]
        invariant forall k :: i <= k < newSize ==> buf[k] == Null
      {
        buf[i] := ar[i];
      }
    }

    /**
     MergeData: matching elements are updated in place, the others appended to a larger buffer, which
     is refused above the bound. The outcome is the one of the value-level merge.
     */
    method MergeData(src: DataList) returns (err: EebusError)
      requires Valid() && src.Valid() && src != this && (src.ar == null || src.ar != ar) && src.elem == elem
      requires IdentifiersListFree(elem)
      requires src.size > 0
      modifies this, if ar == null then {} else {ar}
      ensures Valid() && src.Valid() && src.Contents() == old(src.Contents())
      ensures var d, s := old(Contents()), src.Contents();
              if MergeRefused(elem, d, s) then err == MemoryAllocate && Value() == old(Value())
              else
                var r := MergeFrom(elem, d, |d|, s);
                err == r.err && Value() == Items(PadTo(r.items, MergedSize(elem, d, s)))
      ensures ar == old(ar) || (ar != null && fresh(ar))
    {
      MergedIsNotEmpty(elem, Contents(), src.Contents());
      var newSize := CountMerged(src);
      var newAr := ar;
      if newSize > size {
        newAr := Grown(newSize);
        if newAr == null {
          return MemoryAllocate;
        }
      }
      assert newAr[..size] == Contents();
      err := MergeInto(newAr, size, src);
      ar, size := newAr, newSize;
    }

    /** CopyToAllData: the first source element is partially written to every element. */
    method CopyToAllData(src: DataList) returns (err: EebusError)
      requires Valid() && src.Valid() && src != this && (src.ar == null || src.ar != ar) && src.elem == elem
      requires src.ar != null && size > 0 ==> src.size > 0
      modifies if ar == null then {} else {ar}
      ensures Valid() && src.Valid() && src.Contents() == old(src.Contents())
      ensures src.ar != null && (src.size > 0 ==> !HasIdentifiers(elem, src.Contents()[0])) ==>
                Outcome(Value(), err) == Partial.WritePartial(ListOf(elem), old(Value()), src.Value())
      ensures src.ar == null ==> Value() == old(Value()) && err == Ok
    {
      if src.ar == null || ar == null || size == 0 {
        return Ok;
      }
      err := CopyToEach(elem, ar, src.ar[0]);
    }

    /** WritePartial without selectors, by whether the first source element carries identifiers. */
    method WritePartial(src: DataList) returns (err: EebusError)
      requires Valid() && src.Valid() && src != this && (src.ar == null || src.ar != ar) && src.elem == elem
      requires IdentifiersListFree(elem) && (src.ar != null && size > 0 ==> src.size > 0)
      modifies this, if ar == null then {} else {ar}
      ensures Valid() && src.Valid() && src.Contents() == old(src.Contents())
      ensures Outcome(Value(), err) == Partial.WritePartial(ListOf(elem), old(Value()), src.Value())
    {
      if src.ar == null || src.size == 0 || !HasIdentifiers(elem, src.ar[0]) {
        err := CopyToAllData(src);
      } else {
        err := MergeData(src);
      }
    }

    /** DeleteListItemsElements: the masked parts of every matching element are deleted. */
    method DeleteListItemsElements(sc: Cfg, sel: Tree, ec: Cfg, e: Tree)
      requires Valid() && elem.Sequence? && Fits(sc, sel) && Fits(ec, e)
      modifies if ar == null then {} else {ar}
      ensures Valid() && |Contents()| == old(|Contents()|)
      ensures var mask := Mask(elem, old(Contents()), sc, sel);
              forall i :: 0 <= i < |Contents()| ==>
                Contents()[i] == if mask[i] then Elements.DeleteElements(elem, old(Contents())[i], ec, e)
                  else old(Contents())[i]
    {
      ghost var d := Contents();
      for i := 0 to size
        invariant ar == old(ar) && size == old(size) && (ar != null ==> ar.Length == size) && |Contents()| == size
        invariant forall k :: i <= k < size ==> ar[k] == d[k]
        invariant forall k :: 0 <= k < i ==>
                    ar[k] == if Meets(elem, d[k], sc, sel)
                      then Elements.DeleteElements(elem, d[k], ec, e) else d[k]
      {
        SelectorsMatchIff(elem, ar[i], sc, sel);
        if SelectorsMatch(elem, ar[i], sc, sel) {
          ar[i] := Elements.DeleteElements(elem, ar[i], ec, e);
        }
      }
    }

    /** DeletePartial: selectors alone delete elements, a mask deletes parts of the selected elements. */
    method DeletePartial(sc: Cfg, sel: Tree, ec: Cfg, e: Tree)
      requires Valid() && elem.Sequence? && Fits(sc, sel) && Fits(ec, e)
      modifies this, if ar == null then {} else {ar}
      ensures Valid()
      ensures var d := old(Contents()); var mask := Mask(elem, d, sc, sel);
              var survivors := Chosen(d, mask, false, |mask|);
              if sel.Null? && e.Null? then Value() == old(Value())
              else if e.Null? then Contents() == if MAX_ELEMENTS < |survivors| < |d| then d else survivors
              else |Contents()| == |d| && forall i :: 0 <= i < |d| ==>
                     Contents()[i] == if mask[i] then Elements.DeleteElements(elem, d[i], ec, e) else d[i]
    {
      if sel.Null? && e.Null? {
        return;
      }
      if !sel.Null? && e.Null? {
        var _ := DeleteListItems(sc, sel);
      } else {
        DeleteListItemsElements(sc, sel, ec, e);
      }
    }
  }

  /** An empty destination takes every source element, so there is always a buffer to merge into. */
  lemma MergedIsNotEmpty(elem: Cfg, d: seq<Tree>, s: seq<Tree>)
    requires AllFit(elem, d) && AllFit(elem, s) && s != []
    ensures MergedSize(elem, d, s) > 0
  {
  }

  /** The configuration record of a list of such elements. */
  function ListOf(elem: Cfg): (r: Cfg) {
    List("", NO_FLAGS, false, elem)
  }

  /**
   Deleting every item leaves a list without items, and no missing one. As the source of a partial
   write such a list is fine exactly over a destination that has no items either.
   */
  method EmptiedListAsSource(list: DataList, sc: Cfg, sel: Tree, d: Tree)
    requires list.Valid() && list.elem.Sequence? && Fits(sc, sel) && Fits(ListOf(list.elem), d)
    requires list.size > 0 && forall i :: 0 <= i < list.size ==> Meets(list.elem, list.Contents()[i], sc, sel)
    modifies list
    ensures list.Valid() && list.Value() == Items([])
    ensures var c := ListOf(list.elem);
            Partial.WritePartial(c, d, list.Value()).err == Undefined <==> ListItems(c, d) != []
  {
    ghost var xs := list.Contents();
    ghost var mask := Mask(list.elem, xs, sc, sel);
    NoneLeft(xs, mask, |mask|);
    assert 0 in Pick(mask, true, |mask|) by {
      PickIsOrdered(mask, true, |mask|);
    }
    var _ := list.DeleteListItems(sc, sel);
  }

  lemma {:induction false} NoneLeft<T>(xs: seq<T>, mask: seq<bool>, n: nat)
    requires n <= |mask| == |xs| && forall i :: 0 <= i < n ==> mask[i]
    ensures Chosen(xs, mask, false, n) == []
  {
    if n > 0 {
      NoneLeft(xs, mask, n - 1);
    }
  }

  /** A merge that has come this far, with these elements to go, ends as the whole one does. */
  ghost predicate MergesTo(c: Cfg, cur: seq<Tree>, m: nat, rest: seq<Tree>, err: EebusError, whole: Merged)
    requires m <= |cur| && AllFit(c, cur) && AllFit(c, rest)
  {
    if err == Ok then MergeFrom(c, cur, m, rest) == whole else Merged(cur, err) == whole
  }

  /** The first pass counts enough room. */
  lemma MergeFitsBuffer(c: Cfg, d: seq<Tree>, s: seq<Tree>)
    requires IdentifiersListFree(c) && AllFit(c, d) && AllFit(c, s)
    ensures |MergeFrom(c, d, |d|, s).items| <= MergedSize(c, d, s)
  {
    PassesAgree(c, d, |d|, s);
    assert d[..|d|] == d;
  }

  lemma FirstStep(c: Cfg, cur: seq<Tree>, m: nat, el: Tree, rest: seq<Tree>)
    requires m <= |cur| && AllFit(c, cur) && Fits(c, el) && AllFit(c, rest)
    ensures var r := MergeStep(c, cur, m, el);
            MergeFrom(c, cur, m, [el] + rest) == if r.err != Ok then r else MergeFrom(c, r.items, m, rest)
  {
    assert ([el] + rest)[1..] == rest;
  }

  lemma {:induction false} FirstErrorIs(outs: seq<Outcome>, k: nat)
    requires k <= |outs| && (forall i :: 0 <= i < k ==> outs[i].err == Ok) && (k < |outs| ==> outs[k].err != Ok)
    ensures FirstError(outs) == k
  {
  }
}
