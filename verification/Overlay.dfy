/** `write_elements`: laying the present parts of a source tree over a destination tree. */
module Overlay {
  import opened DataModel

  /**
   A NULL source changes nothing; a leaf, tag or list is replaced as a whole; a structure is
   overlaid slot by slot, created first when the destination lacks it.
   */
  function WriteElements(c: Cfg, d: Tree, s: Tree): (r: Tree)
    requires Fits(c, d) && Fits(c, s)
    ensures Fits(c, r)
    decreases c
  {
    if s.Null? then d
    else if !c.Sequence? then s
    else Node(seq(|c.fields|, i requires 0 <= i < |c.fields| => WriteElements(c.fields[i], Slot(c, d, i), s.fields[i])))
  }

  lemma OverlaySlot(c: Cfg, d: Tree, s: Tree, i: nat)
    requires c.Sequence? && Fits(c, d) && Fits(c, s) && i < |c.fields|
    ensures Slot(c, WriteElements(c, d, s), i) == WriteElements(c.fields[i], Slot(c, d, i), Slot(c, s, i))
  {
  }

  /** Overlaying onto nothing copies the source. */
  lemma {:induction false} OverlayOntoNull(c: Cfg, s: Tree)
    requires Fits(c, s)
    ensures WriteElements(c, Null, s) == s
    decreases c
  {
    if s.Node? {
      forall i | 0 <= i < |c.fields|
        ensures WriteElements(c.fields[i], Null, s.fields[i]) == s.fields[i]
      {
        OverlayOntoNull(c.fields[i], s.fields[i]);
      }
    }
  }

  /** Overlaying two sources in turn is overlaying their overlay once: a monoid action. */
  lemma {:induction false} OverlayIsAction(c: Cfg, d: Tree, s1: Tree, s2: Tree)
    requires Fits(c, d) && Fits(c, s1) && Fits(c, s2)
    ensures WriteElements(c, WriteElements(c, d, s1), s2) == WriteElements(c, d, WriteElements(c, s1, s2))
    decreases c
  {
    OverlayOntoNull(c, s2);
    if s1.Node? && s2.Node? {
      var l := WriteElements(c, WriteElements(c, d, s1), s2);
      var r := WriteElements(c, d, WriteElements(c, s1, s2));
      forall i | 0 <= i < |c.fields|
        ensures l.fields[i] == r.fields[i]
      {
        OverlayIsAction(c.fields[i], Slot(c, d, i), s1.fields[i], s2.fields[i]);
      }
    }
  }

  /** So overlaying the same source again changes nothing, and a tree overlaid with itself is itself. */
  lemma OverlayIsIdempotent(c: Cfg, d: Tree, s: Tree)
    requires Fits(c, d) && Fits(c, s)
    ensures WriteElements(c, WriteElements(c, d, s), s) == WriteElements(c, d, s)
    ensures WriteElements(c, s, s) == s
  {
    OverlayOntoNull(c, s);
    OverlaySelf(c, s);
    OverlayIsAction(c, d, s, s);
  }

  lemma {:induction false} OverlaySelf(c: Cfg, s: Tree)
    requires Fits(c, s)
    ensures WriteElements(c, s, s) == s
    decreases c
  {
    if s.Node? {
      forall i | 0 <= i < |c.fields|
        ensures WriteElements(c.fields[i], s.fields[i], s.fields[i]) == s.fields[i]
      {
        OverlaySelf(c.fields[i], s.fields[i]);
      }
    }
  }

  // ---------------------------------------------------------------- seen path by path

  /** A path through structures down to something that is not one. */
  predicate IsPath(c: Cfg, p: seq<nat>)
    decreases c
  {
    if c.Sequence? then p != [] && p[0] < |c.fields| && IsPath(c.fields[p[0]], p[1..]) else p == []
  }

  /** What the tree holds at the end of a path; NULL when a structure on the way is missing. */
  function At(c: Cfg, t: Tree, p: seq<nat>): (r: Tree)
    requires Fits(c, t) && IsPath(c, p)
    decreases c
  {
    if c.Sequence? then At(c.fields[p[0]], Slot(c, t, p[0]), p[1..]) else t
  }

  /** The overlay holds the source's leaf wherever the source has one, and the destination's elsewhere. */
  lemma {:induction false} OverlayAtPath(c: Cfg, d: Tree, s: Tree, p: seq<nat>)
    requires Fits(c, d) && Fits(c, s) && IsPath(c, p)
    ensures At(c, WriteElements(c, d, s), p) == if At(c, s, p).Null? then At(c, d, p) else At(c, s, p)
    decreases c
  {
    if c.Sequence? {
      OverlaySlot(c, d, s, p[0]);
      OverlayAtPath(c.fields[p[0]], Slot(c, d, p[0]), Slot(c, s, p[0]), p[1..]);
    }
  }
}
