/** `read_elements` and `delete_elements`: the parts of a tree that an element mask selects. */
module Elements {
  import opened Errors
  import opened DataModel
  import opened Overlay

  /** The tree a mutating operation leaves and the code it returns. */
  datatype Outcome = Outcome(tree: Tree, err: EebusError)

  /** The first entry that failed, or the length. */
  function FirstError(outs: seq<Outcome>): (k: nat)
    ensures k <= |outs|
    ensures forall i :: 0 <= i < k ==> outs[i].err == Ok
    ensures k < |outs| ==> outs[k].err != Ok
  {
    if outs == [] || outs[0].err != Ok then 0 else 1 + FirstError(outs[1..])
  }

  /** Slots worked through in order, stopping at the first error: later slots keep what they held. */
  function StopAtError(outs: seq<Outcome>, held: seq<Tree>): (r: seq<Tree>)
    requires |outs| == |held|
    ensures |r| == |outs|
    ensures forall i :: 0 <= i < |r| ==> r[i] == outs[i].tree || r[i] == held[i]
  {
    var k := FirstError(outs);
    seq(|outs|, i requires 0 <= i < |outs| => if i <= k then outs[i].tree else held[i])
  }

  function ErrorOf(outs: seq<Outcome>): (r: EebusError) {
    var k := FirstError(outs);
    if k < |outs| then outs[k].err else Ok
  }

  function Slots(c: Cfg, t: Tree): (r: seq<Tree>)
    requires c.Sequence? && Fits(c, t)
    ensures |r| == |c.fields|
  {
    seq(|c.fields|, i requires 0 <= i < |c.fields| => Slot(c, t, i))
  }

  /** `ec` and `e` are the configuration and the tree of the mask; `dst` is overwritten with the parts of `t`. */
  function ReadElements(c: Cfg, t: Tree, dst: Tree, ec: Cfg, e: Tree): (r: Outcome)
    requires Fits(c, t) && Fits(c, dst) && Fits(ec, e)
    ensures Fits(c, r.tree)
    decreases c, 1
  {
    if !c.Sequence? then Outcome(if e.Null? then dst else t, Ok)
    else if !ec.Sequence? then Outcome(dst, InputArgument)
    else if t.Null? || e.Null? then Outcome(dst, Ok)
    else if IsEmpty(ec, e) then Outcome(t, Ok)
    else
      var outs := Reads(c, t, dst, ec, e);
      Outcome(Node(StopAtError(outs, Slots(c, dst))), ErrorOf(outs))
  }

  /** What each slot of the destination would become on its own. */
  function Reads(c: Cfg, t: Tree, dst: Tree, ec: Cfg, e: Tree): (r: seq<Outcome>)
    requires c.Sequence? && Fits(c, t) && Fits(c, dst) && Fits(ec, e) && t.Node? && e.Node?
    ensures |r| == |c.fields| && forall i :: 0 <= i < |r| ==> Fits(c.fields[i], r[i].tree)
    decreases c, 0
  {
    seq(|c.fields|, i requires 0 <= i < |c.fields| =>
      if i >= |ec.fields| || e.fields[i].Null? then Outcome(Slot(c, dst, i), Ok)
      else if IsEmpty(ec.fields[i], e.fields[i]) then Outcome(t.fields[i], Ok)
      else ReadElements(c.fields[i], t.fields[i], Slot(c, dst, i), ec.fields[i], e.fields[i]))
  }

  function DeleteElements(c: Cfg, t: Tree, ec: Cfg, e: Tree): (r: Tree)
    requires Fits(c, t) && Fits(ec, e)
    ensures Fits(c, r)
    decreases c
  {
    if !c.Sequence? then if e.Null? then t else Null
    else if !ec.Sequence? || t.Null? || e.Null? then t
    else if IsEmpty(ec, e) then Null
    else
      var n := |c.fields|;
      Node(seq(n, i requires 0 <= i < n =>
        if i >= |ec.fields| || e.fields[i].Null? then t.fields[i]
        else if IsEmpty(ec.fields[i], e.fields[i]) then Null
        else DeleteElements(c.fields[i], t.fields[i], ec.fields[i], e.fields[i])))
  }

  /** The mask record for a structure is a structure, as far as the two records run in parallel. */
  predicate MaskFor(c: Cfg, ec: Cfg)
    decreases c
  {
    c.Sequence? ==>
      && ec.Sequence?
      && forall i :: 0 <= i < |c.fields| && i < |ec.fields| ==> MaskFor(c.fields[i], ec.fields[i])
  }

  lemma {:induction false} ReadWithMaskSucceeds(c: Cfg, t: Tree, dst: Tree, ec: Cfg, e: Tree)
    requires Fits(c, t) && Fits(c, dst) && Fits(ec, e) && MaskFor(c, ec)
    ensures ReadElements(c, t, dst, ec, e).err == Ok
    decreases c
  {
    if c.Sequence? && t.Node? && e.Node? {
      forall i | 0 <= i < |c.fields| && i < |ec.fields|
        ensures ReadElements(c.fields[i], t.fields[i], Slot(c, dst, i), ec.fields[i], e.fields[i]).err == Ok
      {
        ReadWithMaskSucceeds(c.fields[i], t.fields[i], Slot(c, dst, i), ec.fields[i], e.fields[i]);
      }
    }
  }

  /** The mask has a structure wherever the walk through data and mask meets one in the data. */
  ghost predicate MaskIsParallel(c: Cfg, t: Tree, ec: Cfg, e: Tree)
    requires Fits(c, t) && Fits(ec, e)
    decreases c
  {
    c.Sequence? ==>
      && ec.Sequence?
      && (t.Node? && e.Node? ==>
            forall i :: 0 <= i < |c.fields| && i < |ec.fields| && !e.fields[i].Null? ==>
              IsEmpty(ec.fields[i], e.fields[i]) || MaskIsParallel(c.fields[i], t.fields[i], ec.fields[i], e.fields[i]))
  }

  /** A read fails exactly when the mask has something else for a structure, and then with one error only. */
  lemma {:induction false} ReadFailsIff(c: Cfg, t: Tree, dst: Tree, ec: Cfg, e: Tree)
    requires Fits(c, t) && Fits(c, dst) && Fits(ec, e)
    ensures ReadElements(c, t, dst, ec, e).err == if MaskIsParallel(c, t, ec, e) then Ok else InputArgument
    decreases c
  {
    if c.Sequence? && ec.Sequence? && t.Node? && e.Node? {
      var outs := Reads(c, t, dst, ec, e);
      forall i | 0 <= i < |c.fields|
        ensures outs[i].err == if i < |ec.fields| && !e.fields[i].Null? && !IsEmpty(ec.fields[i], e.fields[i])
                                  && !MaskIsParallel(c.fields[i], t.fields[i], ec.fields[i], e.fields[i])
                               then InputArgument else Ok
      {
        if i < |ec.fields| && !e.fields[i].Null? && !IsEmpty(ec.fields[i], e.fields[i]) {
          ReadFailsIff(c.fields[i], t.fields[i], Slot(c, dst, i), ec.fields[i], e.fields[i]);
        }
      }
    }
  }

  /**
   Reading and deleting with one mask are complementary: what was read, laid over what deleting
   leaves, is the tree again, whenever the read succeeds.
   */
  lemma {:induction false} ReadAndDeleteAreComplementary(c: Cfg, t: Tree, ec: Cfg, e: Tree)
    requires Fits(c, t) && Fits(ec, e)
    requires ReadElements(c, t, Null, ec, e).err == Ok
    ensures WriteElements(c, DeleteElements(c, t, ec, e), ReadElements(c, t, Null, ec, e).tree) == t
    decreases c
  {
    OverlayOntoNull(c, t);
    if c.Sequence? && t.Node? && e.Node? && !IsEmpty(ec, e) {
      var r, x := ReadElements(c, t, Null, ec, e).tree, DeleteElements(c, t, ec, e);
      forall i | 0 <= i < |c.fields|
        ensures WriteElements(c.fields[i], x.fields[i], r.fields[i]) == t.fields[i]
      {
        OverlayOntoNull(c.fields[i], t.fields[i]);
        if i < |ec.fields| && !e.fields[i].Null? && !IsEmpty(ec.fields[i], e.fields[i]) {
          ReadAndDeleteAreComplementary(c.fields[i], t.fields[i], ec.fields[i], e.fields[i]);
        }
      }
      assert WriteElements(c, x, r).fields == t.fields;
    }
  }

  /** The mask selects the end of the path: something set there, or a structure above it with nothing set in it. */
  predicate Selects(c: Cfg, ec: Cfg, e: Tree, p: seq<nat>)
    requires Fits(ec, e) && IsPath(c, p)
    decreases c
  {
    if !c.Sequence? then !e.Null?
    else
      && ec.Sequence?
      && e.Node?
      && ((forall i :: 0 <= i < |e.fields| ==> e.fields[i].Null?)
          || (p[0] < |ec.fields| && Selects(c.fields[p[0]], ec.fields[p[0]], e.fields[p[0]], p[1..])))
  }

  /** Path by path: reading keeps exactly the selected leaves, deleting exactly the others. */
  lemma {:induction false} ReadAndDeleteAtPath(c: Cfg, t: Tree, ec: Cfg, e: Tree, p: seq<nat>)
    requires Fits(c, t) && Fits(ec, e) && IsPath(c, p)
    requires MaskFor(c, ec)
    ensures At(c, ReadElements(c, t, Null, ec, e).tree, p) == if Selects(c, ec, e, p) then At(c, t, p) else Null
    ensures At(c, DeleteElements(c, t, ec, e), p) == if Selects(c, ec, e, p) then Null else At(c, t, p)
    decreases c
  {
    ReadWithMaskSucceeds(c, t, Null, ec, e);
    NothingBelowNull(c, p);
    if c.Sequence? {
      var i := p[0];
      NothingBelowNull(c.fields[i], p[1..]);
      if t.Node? && e.Node? && i < |ec.fields| {
        ReadAndDeleteAtPath(c.fields[i], t.fields[i], ec.fields[i], e.fields[i], p[1..]);
      }
    }
  }

  lemma {:induction false} NothingBelowNull(c: Cfg, p: seq<nat>)
    requires IsPath(c, p)
    ensures At(c, Null, p) == Null
    decreases c
  {
    if c.Sequence? {
      NothingBelowNull(c.fields[p[0]], p[1..]);
    }
  }
}
