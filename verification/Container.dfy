/** The root container of a message: a structure around one list, created when missing, to which it forwards. */
module Container {
  import opened Errors
  import opened DataModel
  import opened Overlay
  import opened Elements
  import opened Selectors
  import Partial
  import DataList

  class Container {
    const elem: Cfg
    var list: DataList.DataList?

    ghost predicate Valid()
      reads this, list, if list == null then null else list.ar
    {
      list != null ==> list.elem == elem && list.Valid()
    }

    /** The elements of the list, none while the structure or the list is missing. */
    function Contents(): (r: seq<Tree>)
      reads this, list, if list == null then null else list.ar
    {
      if list == null then [] else list.Contents()
    }

    function Value(): (r: Tree)
      reads this, list, if list == null then null else list.ar
    {
      if list == null then Null else list.Value()
    }

    /** The objects behind this container. */
    ghost function Parts(): (r: set<object>)
      reads this, list
    {
      {this} + (if list == null then {} else {list} + if list.ar == null then {} else {list.ar})
    }

    constructor (elem: Cfg)
      ensures Valid() && list == null && this.elem == elem
    {
      this.elem := elem;
      list := null;
    }

    /** CREATE_EMPTY when the structure is missing. */
    method Create()
      requires Valid()
      modifies this
      ensures Valid() && list != null && Value() == old(Value())
      ensures if old(list) == null then fresh(list) && list.ar == null else list == old(list)
    {
      if list == null {
        list := new DataList.DataList(elem);
      }
    }

    /** A source without data is refused, unlike in every other partial write. */
    method WritePartial(src: Container, selectors: Option<(Cfg, Tree)>) returns (err: EebusError)
      requires Valid() && src.Valid() && src.elem == elem && Parts() !! src.Parts()
      requires selectors.Some? ==> elem.Sequence? && Fits(selectors.value.0, selectors.value.1)
      requires Partial.IdentifiersListFree(elem)
      requires src.Value() == Items([]) ==> Contents() == []
      modifies Parts()
      ensures Valid() && src.Valid() && src.Contents() == old(src.Contents())
      ensures src.list == null ==> err == InputArgument && list == old(list) && Value() == old(Value())
      ensures src.list != null && (selectors.None? || selectors.value.1.Null?) ==>
                Outcome(Value(), err) == Partial.WritePartial(DataList.ListOf(elem), old(Value()), src.Value())
      ensures src.list != null && selectors.Some? && !selectors.value.1.Null? ==>
                var d := old(Contents());
                var mask := Mask(elem, d, selectors.value.0, selectors.value.1);
                && err == Ok && |Contents()| == |d|
                && forall i :: 0 <= i < |d| ==>
                     Contents()[i] == if src.Value().Items?
                       && mask[i] then WriteElements(elem, d[i], src.Contents()[0]) else d[i]
    {
      if src.list == null {
        return InputArgument;
      }
      Create();
      if selectors.Some? && !selectors.value.1.Null? {
        list.CopyToSelectedData(src.list, selectors.value.0, selectors.value.1);
        err := Ok;
      } else {
        err := list.WritePartial(src.list);
      }
    }

    method DeletePartial(sc: Cfg, sel: Tree, ec: Cfg, e: Tree)
      requires Valid() && elem.Sequence? && Fits(sc, sel) && Fits(ec, e)
      modifies Parts()
      ensures Valid() && (list == null <==> old(list) == null)
      ensures var d := old(Contents()); var mask := Mask(elem, d, sc, sel);
              var survivors := Chosen(d, mask, false, |mask|);
              if sel.Null? && e.Null? then Contents() == d
              else if e.Null? then Contents() == if MAX_ELEMENTS < |survivors| < |d| then d else survivors
              else |Contents()| == |d| && forall i :: 0 <= i < |d| ==>
                     Contents()[i] == if mask[i] then Elements.DeleteElements(elem, d[i], ec, e) else d[i]
    {
      if list == null {
        return;
      }
      list.DeletePartial(sc, sel, ec, e);
    }

    method CopyMatching(dst: Container, sel: Tree) returns (err: EebusError)
      requires Valid() && dst.Valid() && dst.elem == elem && Parts() !! dst.Parts()
      requires elem.Sequence? && Fits(elem, sel)
      modifies dst.Parts()
      ensures Valid() && dst.Valid() && Value() == old(Value())
      ensures fresh(dst.Parts() - old(dst.Parts())) && Parts() == old(Parts())
      ensures list == null ==> err == InputArgument && dst.Value() == old(dst.Value())
      ensures list != null ==> dst.list != null
      ensures list != null ==>
                var picked := Chosen(Contents(), Mask(elem, Contents(), elem, sel), true, |Contents()|);
                && err == (if |picked| > MAX_ELEMENTS then MemoryAllocate else Ok)
                && dst.Contents() == if err == Ok then picked else []
    {
      if list == null {
        return InputArgument;
      }
      dst.Create();
      err := list.CopyMatching(dst.list, sel);
    }
  }

  /** Deleting what a selector matches leaves the other elements, and another container as it was. */
  method DeleteChosen(from: Container, other: Container, sel: Tree)
    requires from.Valid() && other.Valid() && from.Parts() !! other.Parts()
    requires from.elem.Sequence? && Fits(from.elem, sel) && !sel.Null?
    requires |from.Contents()| <= MAX_ELEMENTS && from.list != null
    modifies from.Parts()
    ensures var d := old(from.Contents()); var mask := Mask(from.elem, d, from.elem, sel);
            from.Contents() == Chosen(d, mask, false, |mask|)
    ensures other.Contents() == old(other.Contents())
  {
    ghost var mask := Mask(from.elem, from.Contents(), from.elem, sel);
    PickCounts(mask, |mask|);
    from.DeletePartial(from.elem, sel, Tag("", NO_FLAGS), Null);
  }

  lemma SplitInTwo(d: seq<Tree>, mask: seq<bool>)
    requires |mask| == |d|
    ensures multiset(d) == multiset(Chosen(d, mask, true, |mask|)) + multiset(Chosen(d, mask, false, |mask|))
  {
    ChosenPartition(d, mask, |mask|);
    assert d[..|mask|] == d;
  }

  method TakeChosen(from: Container, to: Container, sel: Tree) returns (err: EebusError)
    requires from.Valid() && to.Valid() && to.elem == from.elem && from.Parts() !! to.Parts()
    requires from.elem.Sequence? && Fits(from.elem, sel) && !sel.Null?
    requires |from.Contents()| <= MAX_ELEMENTS && from.list != null
    modifies from.Parts(), to.Parts()
    ensures var d := old(from.Contents()); var mask := Mask(from.elem, d, from.elem, sel);
            && err == Ok
            && to.Contents() == Chosen(d, mask, true, |mask|) && from.Contents() == Chosen(d, mask, false, |mask|)
  {
    PickCounts(Mask(from.elem, from.Contents(), from.elem, sel), |from.Contents()|);
    err := from.CopyMatching(to, sel);
    DeleteChosen(from, to, sel);
  }

  /**
   Reading what a selector matches and then deleting it: every element ends up on exactly one side,
   on each in its old order.
   */
  method TakeOut(from: Container, to: Container, sel: Tree) returns (err: EebusError)
    requires from.Valid() && to.Valid() && to.elem == from.elem && from.Parts() !! to.Parts()
    requires from.elem.Sequence? && Fits(from.elem, sel) && !sel.Null?
    requires |from.Contents()| <= MAX_ELEMENTS && from.list != null
    modifies from.Parts(), to.Parts()
    ensures err == Ok
    ensures var d := old(from.Contents()); var mask := Mask(from.elem, d, from.elem, sel);
            to.Contents() == Chosen(d, mask, true, |mask|) && from.Contents() == Chosen(d, mask, false, |mask|)
    ensures multiset(old(from.Contents())) == multiset(to.Contents()) + multiset(from.Contents())
  {
    ghost var d := from.Contents();
    SplitInTwo(d, Mask(from.elem, d, from.elem, sel));
    err := TakeChosen(from, to, sel);
  }
}
