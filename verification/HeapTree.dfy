/**
 The data tree as it lies in memory: blocks behind pointers, and the operations that rewrite a
 pointer slot of the parent block in place. Each one is tied to the tree its slot stands for, to the
 blocks it owns, and to the rest of memory, which it neither changes nor frees nor leaks into.
 */
module HeapTree {
  import opened Errors
  import opened DataModel
  import opened Overlay
  import opened Elements

  type Addr = nat

  // What a slot of a structure holds; a set tag is a marker, not an allocation.
  datatype Pointer = Nil | Mark | At(addr: Addr)

  // An allocated block: the bytes of a leaf, or the slots of a structure or of a list buffer.
  datatype Cell = Bytes(scalar: Scalar) | Block(slots: seq<Pointer>)

  type Heap = map<Addr, Cell>

  predicate Branches(c: Cfg, n: nat) {
    c.List? || (c.Sequence? && n == |c.fields|)
  }

  function Kid(c: Cfg, i: nat): (k: Cfg)
    requires c.List? || (c.Sequence? && i < |c.fields|)
    ensures k < c
  {
    if c.List? then c.elem else c.fields[i]
  }

  // ---------------------------------------------------------------- trees in memory

  /** The blocks of the tree behind the pointer. */
  ghost function Foot(h: Heap, c: Cfg, p: Pointer): (r: set<Addr>)
    ensures r <= h.Keys
    decreases c
  {
    if !p.At? || p.addr !in h then {}
    else
      match h[p.addr]
      case Bytes(_) => {p.addr}
      case Block(ss) =>
        if !Branches(c, |ss|) then {p.addr}
        else {p.addr} + (set i, x | 0 <= i < |ss| && x in Foot(h, Kid(c, i), ss[i]) :: x)
  }

  /** A tree of the shape that the configuration describes, no block of which is reached twice. */
  ghost predicate Holds(h: Heap, c: Cfg, p: Pointer)
    decreases c
  {
    match p
    case Nil => true
    case Mark => c.Tag?
    case At(a) =>
      && a in h
      && match h[a]
         case Bytes(v) => c.Leaf? && HasKind(v, c.kind)
         case Block(ss) =>
           && Branches(c, |ss|)
           && (forall i :: 0 <= i < |ss| ==> Holds(h, Kid(c, i), ss[i]) && a !in Foot(h, Kid(c, i), ss[i]))
           && (forall i, j :: 0 <= i < j < |ss| ==> Foot(h, Kid(c, i), ss[i]) !! Foot(h, Kid(c, j), ss[j]))
  }

  /** The tree that the pointer stands for. */
  function View(h: Heap, c: Cfg, p: Pointer): (t: Tree)
    requires Holds(h, c, p)
    ensures Fits(c, t)
    decreases c
  {
    match p
    case Nil => Null
    case Mark => Set
    case At(a) =>
      match h[a]
      case Bytes(v) => Value(v)
      case Block(ss) =>
        var ts := seq(|ss|, i requires 0 <= i < |ss| => View(h, Kid(c, i), ss[i]));
        if c.Sequence? then Node(ts) else Items(ts)
  }

  /** A tree means the same in every memory that agrees on its blocks. */
  lemma {:induction false} Frame(h: Heap, g: Heap, c: Cfg, p: Pointer)
    requires Holds(h, c, p)
    requires forall x :: x in Foot(h, c, p) ==> x in g && g[x] == h[x]
    ensures Holds(g, c, p) && Foot(g, c, p) == Foot(h, c, p) && View(g, c, p) == View(h, c, p)
    decreases c
  {
    if p.At? && h[p.addr].Block? {
      var ss := h[p.addr].slots;
      forall i | 0 <= i < |ss|
        ensures Holds(g, Kid(c, i), ss[i])
        ensures Foot(g, Kid(c, i), ss[i]) == Foot(h, Kid(c, i), ss[i])
        ensures View(g, Kid(c, i), ss[i]) == View(h, Kid(c, i), ss[i])
      {
        Frame(h, g, Kid(c, i), ss[i]);
      }
    }
  }

  // ---------------------------------------------------------------- slots of blocks

  predicate Has(h: Heap, base: Addr, k: nat) {
    base in h && h[base].Block? && k < |h[base].slots|
  }

  function Ptr(h: Heap, base: Addr, k: nat): (r: Pointer)
    requires Has(h, base, k)
  {
    h[base].slots[k]
  }

  /** The slot holds a tree that does not contain the block the slot is in. */
  ghost predicate Tracked(h: Heap, base: Addr, k: nat, c: Cfg) {
    Has(h, base, k) && Holds(h, c, Ptr(h, base, k)) && base !in Foot(h, c, Ptr(h, base, k))
  }

  function TreeAt(h: Heap, base: Addr, k: nat, c: Cfg): (t: Tree)
    requires Tracked(h, base, k, c)
    ensures Fits(c, t)
  {
    View(h, c, Ptr(h, base, k))
  }

  ghost function FootAt(h: Heap, base: Addr, k: nat, c: Cfg): (r: set<Addr>)
    requires Has(h, base, k)
  {
    Foot(h, c, Ptr(h, base, k))
  }

  /**
   From `h` to `g` the slot came to hold `t` and nothing else happened: every block outside the old
   tree is still there, unchanged but for the slot itself, and `g` has no other blocks than these
   and the new tree's. So the blocks the old tree lost were freed, once, and none was leaked.
   */
  ghost predicate Updated(h: Heap, g: Heap, base: Addr, k: nat, c: Cfg, t: Tree)
    requires Tracked(h, base, k, c)
  {
    var rest := h.Keys - FootAt(h, base, k, c);
    && Tracked(g, base, k, c)
    && TreeAt(g, base, k, c) == t
    && g[base] == Block(h[base].slots[k := Ptr(g, base, k)])
    && rest !! FootAt(g, base, k, c)
    && g.Keys == rest + FootAt(g, base, k, c)
    && forall x :: x in rest && x != base ==> g[x] == h[x]
  }

  function Kids(t: Tree): (r: seq<Tree>)
    requires t.Node? || t.Items?
  {
    if t.Node? then t.fields else t.items
  }

  function WithKids(c: Cfg, ts: seq<Tree>): (r: Tree) {
    if c.Sequence? then Node(ts) else Items(ts)
  }

  /** The slots of the block in a slot hold trees in turn, within the tree of the slot. */
  lemma Inside(h: Heap, base: Addr, k: nat, c: Cfg, a: Addr, i: nat)
    requires Tracked(h, base, k, c) && Ptr(h, base, k) == At(a) && Has(h, a, i)
    ensures Branches(c, |h[a].slots|) && Tracked(h, a, i, Kid(c, i)) && a != base
    ensures Kids(TreeAt(h, base, k, c))[i] == TreeAt(h, a, i, Kid(c, i))
    ensures |Kids(TreeAt(h, base, k, c))| == |h[a].slots|
    ensures a in FootAt(h, base, k, c) && FootAt(h, a, i, Kid(c, i)) <= FootAt(h, base, k, c)
  {
  }

  /** An update of slot `i` of the block in a slot is an update of that slot. */
  lemma Lift(h: Heap, g: Heap, g': Heap, base: Addr, k: nat, c: Cfg, t: Tree, a: Addr, i: nat, u: Tree)
    requires Tracked(h, base, k, c) && Updated(h, g, base, k, c, t) && Ptr(g, base, k) == At(a) && Has(g, a, i)
    requires Branches(c, |g[a].slots|) && Tracked(g, a, i, Kid(c, i)) && Updated(g, g', a, i, Kid(c, i), u)
    ensures Has(g', base, k) && Ptr(g', base, k) == At(a)
    ensures i < |Kids(t)| && Updated(h, g', base, k, c, WithKids(c, Kids(t)[i := u]))
  {
    LiftHolds(g, g', base, k, c, a, i, u);
  }

  lemma LiftHolds(g: Heap, g': Heap, base: Addr, k: nat, c: Cfg, a: Addr, i: nat, u: Tree)
    requires Tracked(g, base, k, c) && Ptr(g, base, k) == At(a) && Has(g, a, i)
    requires Branches(c, |g[a].slots|) && Tracked(g, a, i, Kid(c, i)) && Updated(g, g', a, i, Kid(c, i), u)
    ensures Updated(g, g', base, k, c, WithKids(c, Kids(TreeAt(g, base, k, c))[i := u]))
  {
    LiftSiblings(g, g', c, a, i, u);
    var t, t' := View(g, c, At(a)), View(g', c, At(a));
    assert Kids(t') == Kids(t)[i := u];
    LiftFoot(g, g', c, At(a), i);
  }

  /** The other slots of the block keep their trees. */
  lemma LiftSiblings(g: Heap, g': Heap, c: Cfg, a: Addr, i: nat, u: Tree)
    requires Holds(g, c, At(a)) && Has(g, a, i)
    requires Branches(c, |g[a].slots|) && Tracked(g, a, i, Kid(c, i)) && Updated(g, g', a, i, Kid(c, i), u)
    ensures Holds(g', c, At(a))
    ensures forall j :: 0 <= j < |g[a].slots| && j != i ==>
              && Foot(g', Kid(c, j), g[a].slots[j]) == Foot(g, Kid(c, j), g[a].slots[j])
              && View(g', Kid(c, j), g[a].slots[j]) == View(g, Kid(c, j), g[a].slots[j])
  {
    var ss, ss' := g[a].slots, g'[a].slots;
    forall j | 0 <= j < |ss| && j != i
      ensures ss'[j] == ss[j] && Holds(g', Kid(c, j), ss[j])
      ensures Foot(g', Kid(c, j), ss[j]) == Foot(g, Kid(c, j), ss[j])
      ensures View(g', Kid(c, j), ss[j]) == View(g, Kid(c, j), ss[j])
      ensures Foot(g', Kid(c, j), ss[j]) !! Foot(g', Kid(c, i), ss'[i])
    {
      assert Foot(g, Kid(c, j), ss[j]) !! Foot(g, Kid(c, i), ss[i]);
      Frame(g, g', Kid(c, j), ss[j]);
    }
  }

  lemma LiftFoot(g: Heap, g': Heap, c: Cfg, p: Pointer, i: nat)
    requires Holds(g, c, p) && Holds(g', c, p) && p.At? && Has(g, p.addr, i) && Has(g', p.addr, i)
    requires |g'[p.addr].slots| == |g[p.addr].slots|
    requires forall j :: 0 <= j < |g[p.addr].slots| && j != i ==>
               && g'[p.addr].slots[j] == g[p.addr].slots[j]
               && Foot(g', Kid(c, j), g[p.addr].slots[j]) == Foot(g, Kid(c, j), g[p.addr].slots[j])
    ensures Foot(g', c, p) == Foot(g, c, p) - FootAt(g, p.addr, i, Kid(c, i)) + FootAt(g', p.addr, i, Kid(c, i))
  {
    var ss, ss' := g[p.addr].slots, g'[p.addr].slots;
    forall j | 0 <= j < |ss| && j != i
      ensures Foot(g, Kid(c, j), ss[j]) !! Foot(g, Kid(c, i), ss[i])
    {
    }
  }

  /** Two updates of a slot in turn are one. */
  lemma Chain(h: Heap, g: Heap, g': Heap, base: Addr, k: nat, c: Cfg, t: Tree, u: Tree)
    requires Tracked(h, base, k, c) && Updated(h, g, base, k, c, t) && Updated(g, g', base, k, c, u)
    ensures Updated(h, g', base, k, c, u)
  {
  }

  /** The source and the destination of a copy share no block. */
  ghost predicate Apart(h: Heap, base: Addr, k: nat, src: Addr, j: nat, c: Cfg) {
    && Tracked(h, base, k, c) && Tracked(h, src, j, c)
    && base != src && src !in FootAt(h, base, k, c) && base !in FootAt(h, src, j, c)
    && FootAt(h, base, k, c) !! FootAt(h, src, j, c)
  }

  /** Updating the destination leaves the source alone, and apart. */
  lemma SourceKept(h: Heap, g: Heap, base: Addr, k: nat, src: Addr, j: nat, c: Cfg, t: Tree)
    requires Apart(h, base, k, src, j, c) && Updated(h, g, base, k, c, t)
    ensures Apart(g, base, k, src, j, c)
    ensures Ptr(g, src, j) == Ptr(h, src, j)
    ensures FootAt(g, src, j, c) == FootAt(h, src, j, c) && TreeAt(g, src, j, c) == TreeAt(h, src, j, c)
  {
    Frame(h, g, c, Ptr(h, src, j));
  }

  /** So are corresponding slots of the two blocks. */
  lemma Descend(h: Heap, base: Addr, k: nat, src: Addr, j: nat, c: Cfg, i: nat)
    requires Apart(h, base, k, src, j, c) && Ptr(h, base, k).At? && Ptr(h, src, j).At?
    requires Has(h, Ptr(h, base, k).addr, i) && Has(h, Ptr(h, src, j).addr, i)
    ensures Apart(h, Ptr(h, base, k).addr, i, Ptr(h, src, j).addr, i, Kid(c, i))
  {
    var a, b := Ptr(h, base, k).addr, Ptr(h, src, j).addr;
    assert FootAt(h, a, i, Kid(c, i)) <= FootAt(h, base, k, c);
    assert FootAt(h, b, i, Kid(c, i)) <= FootAt(h, src, j, c);
  }

  /** The blocks in two slots are apart and have `n` slots each. */
  ghost predicate Parallel(h: Heap, base: Addr, k: nat, a: Addr, src: Addr, j: nat, b: Addr, c: Cfg, n: nat) {
    && Apart(h, base, k, src, j, c) && Ptr(h, base, k) == At(a) && Ptr(h, src, j) == At(b)
    && h[a].Block? && |h[a].slots| == n && h[b].Block? && |h[b].slots| == n
  }

  /** During the loop over the slots, slot `i` of the two blocks are still apart. */
  lemma StillParallel(h: Heap, g: Heap, base: Addr, k: nat, a: Addr, src: Addr, j: nat, b: Addr, c: Cfg,
                      ts: seq<Tree>, i: nat)
    requires Parallel(h, base, k, a, src, j, b, c, |ts|) && i < |ts|
    requires Updated(h, g, base, k, c, WithKids(c, ts)) && Ptr(g, base, k) == At(a)
    ensures Has(g, a, i) && |g[a].slots| == |ts| && Branches(c, |ts|)
    ensures Apart(g, a, i, b, i, Kid(c, i))
    ensures TreeAt(g, a, i, Kid(c, i)) == ts[i] && TreeAt(g, b, i, Kid(c, i)) == Kids(TreeAt(h, src, j, c))[i]
  {
    SourceKept(h, g, base, k, src, j, c, WithKids(c, ts));
    assert |Kids(TreeAt(g, base, k, c))| == |ts|;
    Inside(h, src, j, c, b, i);
    Inside(g, base, k, c, a, i);
    Inside(g, src, j, c, b, i);
    Descend(g, base, k, src, j, c, i);
  }

  // ---------------------------------------------------------------- copies on trees, errors included

  ghost predicate KidsFit(c: Cfg, ts: seq<Tree>) {
    Branches(c, |ts|) && forall i :: 0 <= i < |ts| ==> Fits(Kid(c, i), ts[i])
  }

  function Blank(n: nat): (r: seq<Tree>)
    ensures |r| == n && forall i :: 0 <= i < n ==> r[i] == Null
  {
    seq(n, _ => Null)
  }

  /** The slots that a copy writes into: the destination's own if there are `n` of them, else blank ones. */
  ghost function Held(c: Cfg, d: Tree, n: nat): (r: seq<Tree>)
    requires Fits(c, d) && Branches(c, n)
    ensures |r| == n && KidsFit(c, r)
  {
    if (d.Node? || d.Items?) && |Kids(d)| == n then Kids(d) else Blank(n)
  }

  ghost function Copies(c: Cfg, held: seq<Tree>, ss: seq<Tree>): (r: seq<Outcome>)
    requires KidsFit(c, held) && KidsFit(c, ss) && |held| == |ss|
    ensures |r| == |ss| && forall i :: 0 <= i < |r| ==> Fits(Kid(c, i), r[i].tree)
    decreases c, 0
  {
    seq(|ss|, i requires 0 <= i < |ss| => CopyInto(Kid(c, i), held[i], ss[i]))
  }

  /** `write`, with the error it returns and the tree it leaves then. Only a new list buffer can fail. */
  ghost function CopyInto(c: Cfg, d: Tree, s: Tree): (r: Outcome)
    requires Fits(c, d) && Fits(c, s)
    ensures Fits(c, r.tree)
    decreases c, 1
  {
    if !s.Node? && !s.Items? then Outcome(s, Ok)
    else if s.Items? && |s.items| > MAX_ELEMENTS && !(d.Items?
      && |d.items| == |s.items|) then Outcome(Null, MemoryAllocate)
    else
      var outs := Copies(c, Held(c, d, |Kids(s)|), Kids(s));
      Outcome(WithKids(c, StopAtError(outs, Held(c, d, |Kids(s)|))), ErrorOf(outs))
  }

  ghost function Overlays(c: Cfg, held: seq<Tree>, ss: seq<Tree>): (r: seq<Outcome>)
    requires c.Sequence? && KidsFit(c, held) && KidsFit(c, ss) && |held| == |ss|
    ensures |r| == |ss| && forall i :: 0 <= i < |r| ==> Fits(Kid(c, i), r[i].tree)
    decreases c, 0
  {
    seq(|ss|, i requires 0 <= i < |ss| => OverlayInto(Kid(c, i), held[i], ss[i]))
  }

  /** `write_elements`, likewise. */
  ghost function OverlayInto(c: Cfg, d: Tree, s: Tree): (r: Outcome)
    requires Fits(c, d) && Fits(c, s)
    ensures Fits(c, r.tree)
    decreases c, 1
  {
    if s.Null? then Outcome(d, Ok)
    else if !c.Sequence? then CopyInto(c, d, s)
    else
      var outs := Overlays(c, Held(c, d, |Kids(s)|), Kids(s));
      Outcome(WithKids(c, StopAtError(outs, Held(c, d, |Kids(s)|))), ErrorOf(outs))
  }

  /** No list in the tree is over the bound. */
  ghost predicate Bounded(t: Tree) {
    match t
    case Node(fs) => forall i :: 0 <= i < |fs| ==> Bounded(fs[i])
    case Items(xs) => |xs| <= MAX_ELEMENTS && forall i :: 0 <= i < |xs| ==> Bounded(xs[i])
    case _ => true
  }

  /** Without an error every slot holds its outcome. */
  lemma AllDone(outs: seq<Outcome>, held: seq<Tree>, want: seq<Tree>)
    requires |outs| == |held| == |want| && ErrorOf(outs) == Ok
    requires forall i :: 0 <= i < |outs| ==> outs[i].err == Ok ==> outs[i].tree == want[i]
    ensures StopAtError(outs, held) == want
  {
    assert FirstError(outs) == |outs|;
  }

  /** A copy that succeeds is the source, whatever the destination held before. */
  lemma {:induction false} CopyIsSource(c: Cfg, d: Tree, s: Tree)
    requires Fits(c, d) && Fits(c, s)
    ensures CopyInto(c, d, s).err == Ok ==> CopyInto(c, d, s).tree == s
    ensures Bounded(s) ==> CopyInto(c, d, s).err == Ok
    ensures d.Null? && !Bounded(s) ==> CopyInto(c, d, s).err == MemoryAllocate
    decreases c
  {
    if s.Node? || s.Items? {
      var ss, held := Kids(s), Held(c, d, |Kids(s)|);
      var outs := Copies(c, held, ss);
      forall i | 0 <= i < |ss|
        ensures outs[i].err == Ok ==> outs[i].tree == ss[i]
        ensures Bounded(ss[i]) ==> outs[i].err == Ok
        ensures held[i].Null? && !Bounded(ss[i]) ==> outs[i].err == MemoryAllocate
      {
        CopyIsSource(Kid(c, i), held[i], ss[i]);
      }
      if ErrorOf(outs) == Ok {
        AllDone(outs, held, ss);
      }
    }
  }

  /** An overlay that succeeds is the overlay of the two trees. */
  lemma {:induction false} OverlayIsOverlay(c: Cfg, d: Tree, s: Tree)
    requires Fits(c, d) && Fits(c, s)
    ensures OverlayInto(c, d, s).err == Ok ==> OverlayInto(c, d, s).tree == WriteElements(c, d, s)
    ensures Bounded(s) ==> OverlayInto(c, d, s).err == Ok
    decreases c
  {
    CopyIsSource(c, d, s);
    if s.Node? {
      var held := Held(c, d, |Kids(s)|);
      var outs := Overlays(c, held, s.fields);
      forall i | 0 <= i < |s.fields|
        ensures held[i] == Slot(c, d, i)
        ensures outs[i].err == Ok ==> outs[i].tree == WriteElements(c.fields[i], Slot(c, d, i), s.fields[i])
        ensures Bounded(s.fields[i]) ==> outs[i].err == Ok
      {
        OverlayIsOverlay(c.fields[i], held[i], s.fields[i]);
      }
      if ErrorOf(outs) == Ok {
        AllDone(outs, held, WriteElements(c, d, s).fields);
      }
    }
  }

  /** These leaves and lists are deleted before what was read is copied. */
  predicate DeletesFirst(c: Cfg) {
    c.List? || (c.Leaf? && c.kind.StringLeaf?)
  }

  /** `read_elements`, likewise; `ec` and `e` are the mask. */
  ghost function ReadInto(c: Cfg, t: Tree, d: Tree, ec: Cfg, e: Tree): (r: Outcome)
    requires Fits(c, t) && Fits(c, d) && Fits(ec, e)
    ensures Fits(c, r.tree)
    decreases c, 1
  {
    if !c.Sequence? then if e.Null? then Outcome(d, Ok) else CopyInto(c, if DeletesFirst(c) then Null else d, t)
    else if !ec.Sequence? then Outcome(d, InputArgument)
    else if t.Null? || e.Null? then Outcome(d, Ok)
    else if IsEmpty(ec, e) then CopyInto(c, Null, t)
    else
      var outs := Readings(c, t, d, ec, e);
      Outcome(Node(StopAtError(outs, Elements.Slots(c, d))), ErrorOf(outs))
  }

  /** What each slot of the destination would become on its own. */
  ghost function Readings(c: Cfg, t: Tree, d: Tree, ec: Cfg, e: Tree): (r: seq<Outcome>)
    requires c.Sequence? && Fits(c, t) && Fits(c, d) && Fits(ec, e) && t.Node? && e.Node?
    ensures |r| == |c.fields| && forall i :: 0 <= i < |r| ==> Fits(c.fields[i], r[i].tree)
    decreases c, 0
  {
    seq(|c.fields|, i requires 0 <= i < |c.fields| =>
      if i >= |ec.fields| || e.fields[i].Null? then Outcome(Slot(c, d, i), Ok)
      else if IsEmpty(ec.fields[i], e.fields[i]) then CopyInto(c.fields[i], Null, t.fields[i])
      else ReadInto(c.fields[i], t.fields[i], Slot(c, d, i), ec.fields[i], e.fields[i]))
  }

  /** A read that succeeds, or in which no list is over the bound, is the projection of the trees. */
  lemma {:induction false} ReadIsRead(c: Cfg, t: Tree, d: Tree, ec: Cfg, e: Tree)
    requires Fits(c, t) && Fits(c, d) && Fits(ec, e)
    ensures ReadInto(c, t, d, ec, e).err == Ok || Bounded(t) ==>
              ReadInto(c, t, d, ec, e) == Elements.ReadElements(c, t, d, ec, e)
    decreases c
  {
    if c.Sequence? && ec.Sequence? && t.Node? && e.Node? && !IsEmpty(ec, e) {
      var outs, want := Readings(c, t, d, ec, e), Reads(c, t, d, ec, e);
      forall i | 0 <= i < |c.fields|
        ensures outs[i].err == Ok || Bounded(t.fields[i]) ==> outs[i] == want[i]
      {
        if i < |ec.fields| && !e.fields[i].Null? {
          if IsEmpty(ec.fields[i], e.fields[i]) {
            CopyIsSource(c.fields[i], Null, t.fields[i]);
          } else {
            ReadIsRead(c.fields[i], t.fields[i], Slot(c, d, i), ec.fields[i], e.fields[i]);
          }
        }
      }
      if ErrorOf(outs) == Ok || Bounded(t) {
        AllEqual(outs, want);
      }
    } else {
      CopyIsSource(c, Null, t);
      CopyIsSource(c, d, t);
    }
  }

  lemma AllEqual(outs: seq<Outcome>, want: seq<Outcome>)
    requires |outs| == |want|
    requires forall i :: 0 <= i < |outs| ==> (ErrorOf(outs) == Ok ==> outs[i].err == Ok) ==> outs[i] == want[i]
    ensures outs == want
  {
  }

  /** Creating a missing destination does not change what is read into its slots. */
  lemma ReadsOfHeld(c: Cfg, t: Tree, d: Tree, ec: Cfg, e: Tree)
    requires c.Sequence? && Fits(c, t) && Fits(c, d) && Fits(ec, e) && t.Node? && e.Node?
    ensures var held := Held(c, d, |c.fields|);
            held == Elements.Slots(c, d) && Readings(c, t, Node(held), ec, e) == Readings(c, t, d, ec, e)
  {
  }

  // ---------------------------------------------------------------- what the operations promise

  /** A successful `write` is a deep copy: the two slots compare equal and share no block, the source is untouched. */
  lemma WriteIsDeepCopy(h: Heap, g: Heap, base: Addr, k: nat, src: Addr, j: nat, c: Cfg)
    requires Apart(h, base, k, src, j, c)
    requires var out := CopyInto(c, TreeAt(h, base, k, c), TreeAt(h, src, j, c));
             out.err == Ok && Updated(h, g, base, k, c, out.tree)
    ensures Apart(g, base, k, src, j, c) && TreeAt(g, src, j, c) == TreeAt(h, src, j, c)
    ensures Compare(c, TreeAt(g, base, k, c), c, TreeAt(g, src, j, c))
  {
    CopyIsSource(c, TreeAt(h, base, k, c), TreeAt(h, src, j, c));
    SourceKept(h, g, base, k, src, j, c, TreeAt(g, base, k, c));
    CompareIsEquality(c, TreeAt(g, base, k, c), TreeAt(g, src, j, c));
  }

  /**
   Whatever operations filled an empty slot, and whether or not they failed, deleting it afterwards
   gives back exactly the memory there was: every block allocated on the way was freed.
   */
  lemma NothingLeaks(h: Heap, g: Heap, g': Heap, base: Addr, k: nat, c: Cfg, t: Tree)
    requires Tracked(h, base, k, c) && Ptr(h, base, k).Nil?
    requires Updated(h, g, base, k, c, t)
    requires Updated(g, g', base, k, c, Null) && Ptr(g', base, k).Nil?
    ensures g' == h
  {
    Chain(h, g, g', base, k, c, t, Null);
    assert h[base].slots[k := Nil] == h[base].slots;
    assert g'.Keys == h.Keys;
    forall x | x in h
      ensures g'[x] == h[x]
    {
    }
  }

  // ---------------------------------------------------------------- the operations

  /** The loop over the slots stands before slot `i`, or it has stopped with the error `err`. */
  ghost predicate Reached(outs: seq<Outcome>, held: seq<Tree>, ts: seq<Tree>, i: nat, err: EebusError) {
    && i <= |outs| == |held| == |ts|
    && if err != Ok then err == ErrorOf(outs) && ts == StopAtError(outs, held)
       else
         && (forall j :: 0 <= j < i ==> outs[j].err == Ok && ts[j] == outs[j].tree)
         && (forall j :: i <= j < |outs| ==> ts[j] == held[j])
  }

  lemma ReachedNext(outs: seq<Outcome>, held: seq<Tree>, ts: seq<Tree>, i: nat)
    requires Reached(outs, held, ts, i, Ok) && i < |outs|
    ensures ts[i] == held[i] && Reached(outs, held, ts[i := outs[i].tree], i + 1, outs[i].err)
    ensures outs[i].err == Ok || outs[i].err == ErrorOf(outs)
  {
    if outs[i].err != Ok {
      assert FirstError(outs) == i;
    }
  }

  lemma ReachedAll(outs: seq<Outcome>, held: seq<Tree>, ts: seq<Tree>)
    requires Reached(outs, held, ts, |outs|, Ok)
    ensures ErrorOf(outs) == Ok && ts == StopAtError(outs, held)
  {
    assert FirstError(outs) == |outs|;
  }

  /** Where the mask has no more fields nothing is read. */
  lemma BeyondMask(c: Cfg, t: Tree, d: Tree, ec: Cfg, e: Tree, ts: seq<Tree>, i: nat)
    requires c.Sequence? && Fits(c, t) && Fits(c, d) && Fits(ec, e) && t.Node? && d.Node? && e.Node?
    requires Reached(Readings(c, t, d, ec, e), d.fields, ts, i, Ok) && (i < |ec.fields| ==> i == |c.fields|)
    ensures var outs := Readings(c, t, d, ec, e); ErrorOf(outs) == Ok && ts == StopAtError(outs, d.fields)
  {
    ReachedAll(Readings(c, t, d, ec, e), d.fields, ts);
  }

  lemma FreshAddress(used: set<Addr>) returns (a: Addr)
    ensures forall x :: x in used ==> x < a
  {
    if used == {} {
      a := 0;
    } else {
      var x :| x in used;
      var b := FreshAddress(used - {x});
      a := if x < b then b else x + 1;
      forall y | y in used
        ensures y < a
      {
        assert y == x || y in used - {x};
      }
    }
  }

  /** Nothing changes: the slot holds what it held. */
  lemma Unchanged(h: Heap, base: Addr, k: nat, c: Cfg)
    requires Tracked(h, base, k, c)
    ensures Updated(h, h, base, k, c, TreeAt(h, base, k, c))
  {
    assert h[base].slots[k := h[base].slots[k]] == h[base].slots;
  }

  /** Filling an empty slot with a new block of NULL slots. */
  lemma Created(h: Heap, base: Addr, k: nat, c: Cfg, a: Addr, n: nat)
    requires Tracked(h, base, k, c) && Ptr(h, base, k).Nil? && Branches(c, n) && a !in h
    ensures var g := h[a := Block(seq(n, _ => Nil))];
            Updated(h, g[base := Block(h[base].slots[k := At(a)])], base, k, c, WithKids(c, Blank(n)))
  {
    var g := h[a := Block(seq(n, _ => Nil))][base := Block(h[base].slots[k := At(a)])];
    forall i | 0 <= i < n
      ensures Foot(g, Kid(c, i), g[a].slots[i]) == {}
    {
    }
    assert Holds(g, c, At(a));
    assert Foot(g, c, At(a)) == {a};
    assert Kids(View(g, c, At(a))) == Blank(n);
    assert g.Keys == h.Keys + {a};
  }

  /** Freeing the block in a slot when no block hangs from it. */
  lemma Freed(h: Heap, base: Addr, k: nat, c: Cfg)
    requires Tracked(h, base, k, c) && Ptr(h, base, k).At?
    requires TreeAt(h, base, k, c).Value? || forall i :: 0 <= i < |Kids(TreeAt(h, base, k, c))| ==>
             Kids(TreeAt(h, base, k, c))[i].Null?
    ensures var g := h - {Ptr(h, base, k).addr};
            Updated(h, g[base := Block(h[base].slots[k := Nil])], base, k, c, Null)
  {
    var a := Ptr(h, base, k).addr;
    assert Foot(h, c, At(a)) == {a} by {
      if h[a].Block? {
        forall i | 0 <= i < |h[a].slots|
          ensures Foot(h, Kid(c, i), h[a].slots[i]) == {}
        {
          assert Kids(TreeAt(h, base, k, c))[i] == View(h, Kid(c, i), h[a].slots[i]);
        }
      }
    }
    var g := (h - {a})[base := Block(h[base].slots[k := Nil])];
    assert g.Keys == h.Keys - {a};
  }

  /** Storing a value that owns no block over a pointer that owns none. */
  lemma Stored(h: Heap, base: Addr, k: nat, c: Cfg, p: Pointer)
    requires Tracked(h, base, k, c) && !Ptr(h, base, k).At? && (p.Nil? || (p.Mark? && c.Tag?))
    ensures Updated(h, h[base := Block(h[base].slots[k := p])], base, k, c, if p.Nil? then Null else Set)
  {
    assert h[base := Block(h[base].slots[k := p])].Keys == h.Keys;
  }

  /** A new block with the bytes of a leaf in an empty slot. */
  lemma LeafCreated(h: Heap, base: Addr, k: nat, c: Cfg, a: Addr, v: Scalar)
    requires Tracked(h, base, k, c) && Ptr(h, base, k).Nil? && c.Leaf? && HasKind(v, c.kind) && a !in h
    ensures Updated(h, h[a := Bytes(v)][base := Block(h[base].slots[k := At(a)])], base, k, c, Value(v))
  {
    var g := h[a := Bytes(v)][base := Block(h[base].slots[k := At(a)])];
    assert Foot(g, c, At(a)) == {a};
    assert g.Keys == h.Keys + {a};
  }

  /** Other bytes in the block of a leaf. */
  lemma LeafOverwritten(h: Heap, base: Addr, k: nat, c: Cfg, a: Addr, v: Scalar)
    requires Tracked(h, base, k, c) && Ptr(h, base, k) == At(a) && c.Leaf? && HasKind(v, c.kind)
    ensures Updated(h, h[a := Bytes(v)], base, k, c, Value(v))
  {
    Unchanged(h, base, k, c);
    assert h[a := Bytes(v)].Keys == h.Keys;
  }

  class Memory {
    var cells: Heap

    constructor ()
      ensures cells == map[]
    {
      cells := map[];
    }

    method Malloc(cell: Cell) returns (a: Addr)
      modifies this
      ensures a !in old(cells) && cells == old(cells)[a := cell]
    {
      ghost var spare := FreshAddress(cells.Keys);
      assert spare !in cells;
      a :| a !in cells;
      cells := cells[a := cell];
    }

    /** Only an allocated block may be freed, so nothing is freed twice. */
    method Free(a: Addr)
      requires a in cells
      modifies this
      ensures cells == old(cells) - {a}
    {
      cells := cells - {a};
    }

    /** `*slot = p` inside a block. */
    method Assign(base: Addr, k: nat, p: Pointer)
      requires Has(cells, base, k)
      modifies this
      ensures cells == old(cells)[base := Block(old(cells)[base].slots[k := p])]
    {
      cells := cells[base := Block(cells[base].slots[k := p])];
    }

    /** CREATE_EMPTY and CreateListBuffer: a block of NULL slots in an empty slot. */
    method Create(c: Cfg, base: Addr, k: nat, n: nat)
      requires Tracked(cells, base, k, c) && Ptr(cells, base, k).Nil? && Branches(c, n)
      modifies this
      ensures Updated(old(cells), cells, base, k, c, WithKids(c, Blank(n)))
      ensures Ptr(cells, base, k).At?
    {
      var a := Malloc(Block(seq(n, _ => Nil)));
      Created(old(cells), base, k, c, a, n);
      Assign(base, k, At(a));
    }

    method Delete(c: Cfg, base: Addr, k: nat)
      requires Tracked(cells, base, k, c)
      modifies this
      ensures Updated(old(cells), cells, base, k, c, Null) && Ptr(cells, base, k).Nil?
      decreases c, 2
    {
      var p := Ptr(cells, base, k);
      if !p.At? {
        Stored(cells, base, k, c, Nil);
        Assign(base, k, Nil);
        return;
      }
      Unchanged(cells, base, k, c);
      if cells[p.addr].Block? {
        ClearSlots(c, base, k, p.addr);
      }
      ghost var g := cells;
      ghost var t := TreeAt(g, base, k, c);
      Freed(g, base, k, c);
      Free(p.addr);
      Assign(base, k, Nil);
      Chain(old(cells), g, cells, base, k, c, t, Null);
    }

    /** One turn of the loop: `h` is the memory when the loop began, `ts` what the slots hold now. */
    method ClearSlot(c: Cfg, base: Addr, k: nat, a: Addr, i: nat, ghost h: Heap, ghost ts: seq<Tree>)
      requires Tracked(h, base, k, c) && Updated(h, cells, base, k, c, WithKids(c, ts))
      requires Ptr(cells, base, k) == At(a) && Has(cells, a, i) && |ts| == |cells[a].slots|
      modifies this
      ensures Updated(h, cells, base, k, c, WithKids(c, ts[i := Null]))
      ensures Ptr(cells, base, k) == At(a) && Has(cells, a, i) && |ts| == |cells[a].slots|
      decreases c, 0
    {
      ghost var g := cells;
      Inside(g, base, k, c, a, i);
      Delete(Kid(c, i), a, i);
      Lift(h, g, cells, base, k, c, WithKids(c, ts), a, i, Null);
    }

    method ClearSlots(c: Cfg, base: Addr, k: nat, a: Addr)
      requires Tracked(cells, base, k, c) && Ptr(cells, base, k) == At(a) && cells[a].Block?
      modifies this
      ensures Updated(old(cells), cells, base, k, c, WithKids(c, Blank(|old(cells)[a].slots|)))
      ensures Ptr(cells, base, k) == At(a)
      decreases c, 1
    {
      ghost var h := cells;
      ghost var ts := Kids(TreeAt(h, base, k, c));
      var n := |cells[a].slots|;
      Unchanged(h, base, k, c);
      for i := 0 to n
        invariant |ts| == n && forall j :: 0 <= j < i ==> ts[j] == Null
        invariant Updated(h, cells, base, k, c, WithKids(c, ts))
        invariant Ptr(cells, base, k) == At(a) && a in cells && cells[a].Block? && |cells[a].slots| == n
      {
        ClearSlot(c, base, k, a, i, h, ts);
        ts := ts[i := Null];
      }
      assert ts == Blank(n);
    }

    /** The leaf's `write`: a string of another length needs another block. */
    method WriteLeaf(c: Cfg, base: Addr, k: nat, v: Scalar)
      requires Tracked(cells, base, k, c) && c.Leaf? && HasKind(v, c.kind)
      modifies this
      ensures Updated(old(cells), cells, base, k, c, Value(v))
    {
      var p := Ptr(cells, base, k);
      if p.At? && (v.StringValue? ==> |cells[p.addr].scalar.s| == |v.s|) {
        LeafOverwritten(cells, base, k, c, p.addr, v);
        cells := cells[p.addr := Bytes(v)];
        return;
      }
      Delete(c, base, k);
      ghost var g := cells;
      var a := Malloc(Bytes(v));
      LeafCreated(g, base, k, c, a, v);
      Assign(base, k, At(a));
      Chain(old(cells), g, cells, base, k, c, Null, Value(v));
    }

    /** `write`: the destination becomes a copy of the source that shares nothing with it. */
    method Write(c: Cfg, base: Addr, k: nat, src: Addr, j: nat) returns (err: EebusError)
      requires Apart(cells, base, k, src, j, c)
      modifies this
      ensures var out := CopyInto(c, TreeAt(old(cells), base, k, c), TreeAt(old(cells), src, j, c));
              err == out.err && Updated(old(cells), cells, base, k, c, out.tree)
      decreases c, 2
    {
      var p, q := Ptr(cells, base, k), Ptr(cells, src, j);
      if q.Nil? {
        Delete(c, base, k);
        return Ok;
      }
      if q.Mark? {
        Stored(cells, base, k, c, q);
        Assign(base, k, q);
        return Ok;
      }
      if cells[q.addr].Bytes? {
        WriteLeaf(c, base, k, cells[q.addr].scalar);
        return Ok;
      }
      ghost var h, d, s := cells, TreeAt(cells, base, k, c), TreeAt(cells, src, j, c);
      err := Prepare(c, base, k, |cells[q.addr].slots|);
      if err != Ok {
        return;
      }
      ghost var g := cells;
      SourceKept(h, g, base, k, src, j, c, TreeAt(g, base, k, c));
      err := WriteSlots(c, base, k, Ptr(cells, base, k).addr, src, j, q.addr, |cells[q.addr].slots|);
      Chain(h, g, cells, base, k, c, TreeAt(g, base, k, c), CopyInto(c, d, s).tree);
    }

    /** Makes the slot hold a block of `n` slots, keeping the one it has when that fits. */
    method Prepare(c: Cfg, base: Addr, k: nat, n: nat) returns (err: EebusError)
      requires Tracked(cells, base, k, c) && Branches(c, n)
      modifies this
      ensures var d := TreeAt(old(cells), base, k, c);
              && err == (if c.List? && n > MAX_ELEMENTS && !(d.Items? && |d.items| == n) then MemoryAllocate else Ok)
              && Updated(old(cells), cells, base, k, c, if err == Ok then WithKids(c, Held(c, d, n)) else Null)
      ensures err == Ok ==> Ptr(cells, base, k).At? && cells[Ptr(cells, base, k).addr].Block?
                            && |cells[Ptr(cells, base, k).addr].slots| == n
    {
      var p := Ptr(cells, base, k);
      Unchanged(cells, base, k, c);
      if p.At? && |cells[p.addr].slots| == n {
        return Ok;
      }
      if p.At? {
        Delete(c, base, k);
      }
      if c.List? && n > MAX_ELEMENTS {
        return MemoryAllocate;
      }
      ghost var g := cells;
      Create(c, base, k, n);
      Chain(old(cells), g, cells, base, k, c, Null, WithKids(c, Blank(n)));
      err := Ok;
    }

    method WriteSlots(c: Cfg, base: Addr, k: nat, a: Addr, src: Addr, j: nat, b: Addr, n: nat) returns (err: EebusError)
      requires Parallel(cells, base, k, a, src, j, b, c, n)
      modifies this
      ensures var held := Kids(TreeAt(old(cells), base, k, c));
              var outs := Copies(c, held, Kids(TreeAt(old(cells), src, j, c)));
              && err == ErrorOf(outs)
              && Updated(old(cells), cells, base, k, c, WithKids(c, StopAtError(outs, held)))
      decreases c, 1
    {
      ghost var h := cells;
      ghost var held := Kids(TreeAt(h, base, k, c));
      ghost var outs := Copies(c, held, Kids(TreeAt(h, src, j, c)));
      Unchanged(h, base, k, c);
      ghost var ts := held;
      for i := 0 to n
        invariant Reached(outs, held, ts, i, Ok)
        invariant Updated(h, cells, base, k, c, WithKids(c, ts)) && Ptr(cells, base, k) == At(a)
      {
        ReachedNext(outs, held, ts, i);
        err := WriteSlot(c, base, k, a, src, j, b, n, i, h, ts);
        ts := ts[i := outs[i].tree];
        if err != Ok {
          return;
        }
      }
      ReachedAll(outs, held, ts);
      err := Ok;
    }

    /** One turn of the loop: `h` is the memory when the loop began, `ts` what the slots hold now. */
    method WriteSlot(c: Cfg, base: Addr, k: nat, a: Addr, src: Addr, j: nat, b: Addr, n: nat, i: nat,
                     ghost h: Heap, ghost ts: seq<Tree>) returns (err: EebusError)
      requires Parallel(h, base, k, a, src, j, b, c, n) && i < n == |ts|
      requires Updated(h, cells, base, k, c, WithKids(c, ts)) && Ptr(cells, base, k) == At(a)
      modifies this
      ensures var out := CopyInto(Kid(c, i), ts[i], Kids(TreeAt(h, src, j, c))[i]);
              && err == out.err
              && Updated(h, cells, base, k, c, WithKids(c, ts[i := out.tree]))
      ensures Ptr(cells, base, k) == At(a)
      decreases c, 0
    {
      ghost var g := cells;
      ghost var u := CopyInto(Kid(c, i), ts[i], Kids(TreeAt(h, src, j, c))[i]).tree;
      StillParallel(h, g, base, k, a, src, j, b, c, ts, i);
      err := Write(Kid(c, i), a, i, b, i);
      Lift(h, g, cells, base, k, c, WithKids(c, ts), a, i, u);
    }

    /** `write_elements`: the source laid over the destination. */
    method WriteElements(c: Cfg, base: Addr, k: nat, src: Addr, j: nat) returns (err: EebusError)
      requires Apart(cells, base, k, src, j, c)
      modifies this
      ensures var out := OverlayInto(c, TreeAt(old(cells), base, k, c), TreeAt(old(cells), src, j, c));
              err == out.err && Updated(old(cells), cells, base, k, c, out.tree)
      decreases c, 2
    {
      var q := Ptr(cells, src, j);
      Unchanged(cells, base, k, c);
      if q.Nil? {
        return Ok;
      }
      if !c.Sequence? {
        err := Write(c, base, k, src, j);
        return;
      }
      ghost var h, d, s := cells, TreeAt(cells, base, k, c), TreeAt(cells, src, j, c);
      err := Prepare(c, base, k, |c.fields|);
      ghost var g := cells;
      SourceKept(h, g, base, k, src, j, c, TreeAt(g, base, k, c));
      err := OverlaySlots(c, base, k, Ptr(cells, base, k).addr, src, j, q.addr, |c.fields|);
      Chain(h, g, cells, base, k, c, TreeAt(g, base, k, c), OverlayInto(c, d, s).tree);
    }

    method OverlaySlots(c: Cfg, base: Addr, k: nat, a: Addr, src: Addr, j: nat, b: Addr, n: nat)
      returns (err: EebusError)
      requires c.Sequence? && Parallel(cells, base, k, a, src, j, b, c, n)
      modifies this
      ensures var held := Kids(TreeAt(old(cells), base, k, c));
              var outs := Overlays(c, held, Kids(TreeAt(old(cells), src, j, c)));
              && err == ErrorOf(outs)
              && Updated(old(cells), cells, base, k, c, WithKids(c, StopAtError(outs, held)))
      decreases c, 1
    {
      ghost var h := cells;
      ghost var held := Kids(TreeAt(h, base, k, c));
      ghost var outs := Overlays(c, held, Kids(TreeAt(h, src, j, c)));
      Unchanged(h, base, k, c);
      ghost var ts := held;
      for i := 0 to n
        invariant Reached(outs, held, ts, i, Ok)
        invariant Updated(h, cells, base, k, c, WithKids(c, ts)) && Ptr(cells, base, k) == At(a)
      {
        ReachedNext(outs, held, ts, i);
        err := OverlaySlot(c, base, k, a, src, j, b, n, i, h, ts);
        ts := ts[i := outs[i].tree];
        if err != Ok {
          return;
        }
      }
      ReachedAll(outs, held, ts);
      err := Ok;
    }

    /** One turn of the loop: `h` is the memory when the loop began, `ts` what the slots hold now. */
    method OverlaySlot(c: Cfg, base: Addr, k: nat, a: Addr, src: Addr, j: nat, b: Addr, n: nat, i: nat,
                     ghost h: Heap, ghost ts: seq<Tree>) returns (err: EebusError)
      requires c.Sequence? && Parallel(h, base, k, a, src, j, b, c, n) && i < n == |ts|
      requires Updated(h, cells, base, k, c, WithKids(c, ts)) && Ptr(cells, base, k) == At(a)
      modifies this
      ensures var out := OverlayInto(Kid(c, i), ts[i], Kids(TreeAt(h, src, j, c))[i]);
              && err == out.err
              && Updated(h, cells, base, k, c, WithKids(c, ts[i := out.tree]))
      ensures Ptr(cells, base, k) == At(a)
      decreases c, 0
    {
      ghost var g := cells;
      ghost var u := OverlayInto(Kid(c, i), ts[i], Kids(TreeAt(h, src, j, c))[i]).tree;
      StillParallel(h, g, base, k, a, src, j, b, c, ts, i);
      err := WriteElements(Kid(c, i), a, i, b, i);
      Lift(h, g, cells, base, k, c, WithKids(c, ts), a, i, u);
    }

    /** `delete_elements` with the mask `e`. */
    method DeleteElements(c: Cfg, base: Addr, k: nat, ec: Cfg, e: Tree)
      requires Tracked(cells, base, k, c) && Fits(ec, e)
      modifies this
      ensures Updated(old(cells), cells, base, k, c, Elements.DeleteElements(c, TreeAt(old(cells), base, k, c), ec, e))
      decreases c, 2
    {
      Unchanged(cells, base, k, c);
      if !c.Sequence? {
        if !e.Null? {
          Delete(c, base, k);
        }
        return;
      }
      var p := Ptr(cells, base, k);
      if !ec.Sequence? || p.Nil? || e.Null? {
        return;
      }
      if IsEmpty(ec, e) {
        Delete(c, base, k);
        return;
      }
      ghost var h := cells;
      ghost var held := Kids(TreeAt(h, base, k, c));
      ghost var left := Elements.DeleteElements(c, TreeAt(h, base, k, c), ec, e).fields;
      var i, n := 0, |c.fields|;
      ghost var ts := held;
      while i < n && i < |ec.fields|
        invariant i <= n && |ts| == n
        invariant forall m :: 0 <= m < n ==> ts[m] == if m < i then left[m] else held[m]
        invariant Updated(h, cells, base, k, c, WithKids(c, ts))
        invariant Ptr(cells, base, k) == p && cells[p.addr].Block? && |cells[p.addr].slots| == n
      {
        DeleteSlotElements(c, base, k, p.addr, i, ec, e, h, ts);
        ts := ts[i := left[i]];
        i := i + 1;
      }
      assert ts == left;
    }

    method DeleteSlotElements(c: Cfg, base: Addr, k: nat, a: Addr, i: nat, ec: Cfg, e: Tree, ghost h: Heap,
                        ghost ts: seq<Tree>)
      requires c.Sequence? && Tracked(h, base, k, c) && Updated(h, cells, base, k, c, WithKids(c, ts))
      requires Ptr(cells, base, k) == At(a) && Has(cells, a, i) && |ts| == |cells[a].slots|
      requires ec.Sequence? && Fits(ec, e) && e.Node? && i < |ec.fields|
      modifies this
      ensures var u := if e.fields[i].Null? then ts[i]
                       else if IsEmpty(ec.fields[i], e.fields[i]) then Null
                       else Elements.DeleteElements(Kid(c, i), ts[i], ec.fields[i], e.fields[i]);
              Updated(h, cells, base, k, c, WithKids(c, ts[i := u]))
      ensures Ptr(cells, base, k) == At(a) && Has(cells, a, i) && |ts| == |cells[a].slots|
      decreases c, 1
    {
      ghost var g := cells;
      Inside(g, base, k, c, a, i);
      if e.fields[i].Null? {
        assert ts[i := ts[i]] == ts;
      } else if IsEmpty(ec.fields[i], e.fields[i]) {
        Delete(Kid(c, i), a, i);
        Lift(h, g, cells, base, k, c, WithKids(c, ts), a, i, Null);
      } else {
        DeleteElements(Kid(c, i), a, i, ec.fields[i], e.fields[i]);
        Lift(h, g, cells, base, k, c, WithKids(c, ts), a, i,
             Elements.DeleteElements(Kid(c, i), ts[i], ec.fields[i], e.fields[i]));
      }
    }

    /** `read_elements`: the parts of the source that the mask selects. */
    method ReadElements(c: Cfg, src: Addr, j: nat, base: Addr, k: nat, ec: Cfg, e: Tree) returns (err: EebusError)
      requires Apart(cells, base, k, src, j, c) && Fits(ec, e)
      modifies this
      ensures var out := ReadInto(c, TreeAt(old(cells), src, j, c), TreeAt(old(cells), base, k, c), ec, e);
              err == out.err && Updated(old(cells), cells, base, k, c, out.tree)
      decreases c, 4
    {
      Unchanged(cells, base, k, c);
      if !c.Sequence? {
        if e.Null? {
          return Ok;
        }
        if DeletesFirst(c) {
          err := Replace(c, base, k, src, j);
        } else {
          err := Write(c, base, k, src, j);
        }
        return;
      }
      if !ec.Sequence? {
        return InputArgument;
      }
      if Ptr(cells, src, j).Nil? || e.Null? {
        return Ok;
      }
      if IsEmpty(ec, e) {
        err := Replace(c, base, k, src, j);
        return;
      }
      err := ReadFields(c, src, j, base, k, ec, e);
    }

    method ReadFields(c: Cfg, src: Addr, j: nat, base: Addr, k: nat, ec: Cfg, e: Tree) returns (err: EebusError)
      requires c.Sequence? && Apart(cells, base, k, src, j, c) && Ptr(cells, src, j).At?
      requires ec.Sequence? && Fits(ec, e) && e.Node?
      modifies this
      ensures var t, d := TreeAt(old(cells), src, j, c), TreeAt(old(cells), base, k, c);
              var outs := Readings(c, t, d, ec, e);
              && err == ErrorOf(outs)
              && Updated(old(cells), cells, base, k, c, Node(StopAtError(outs, Elements.Slots(c, d))))
      decreases c, 2
    {
      ghost var h, d, t := cells, TreeAt(cells, base, k, c), TreeAt(cells, src, j, c);
      err := Prepare(c, base, k, |c.fields|);
      ghost var g := cells;
      ghost var held := TreeAt(g, base, k, c);
      SourceKept(h, g, base, k, src, j, c, held);
      ReadsOfHeld(c, t, d, ec, e);
      err := ReadSlots(c, base, k, Ptr(cells, base, k).addr, src, j, Ptr(cells, src, j).addr, ec, e);
      Chain(h, g, cells, base, k, c, held, TreeAt(cells, base, k, c));
    }

    /** DELETE, then COPY. */
    method Replace(c: Cfg, base: Addr, k: nat, src: Addr, j: nat) returns (err: EebusError)
      requires Apart(cells, base, k, src, j, c)
      modifies this
      ensures var out := CopyInto(c, Null, TreeAt(old(cells), src, j, c));
              err == out.err && Updated(old(cells), cells, base, k, c, out.tree)
      decreases c, 3
    {
      ghost var h := cells;
      Delete(c, base, k);
      ghost var g := cells;
      SourceKept(h, g, base, k, src, j, c, Null);
      err := Write(c, base, k, src, j);
      Chain(h, g, cells, base, k, c, Null, TreeAt(cells, base, k, c));
    }

    method ReadSlots(c: Cfg, base: Addr, k: nat, a: Addr, src: Addr, j: nat, b: Addr, ec: Cfg, e: Tree)
      returns (err: EebusError)
      requires c.Sequence? && Parallel(cells, base, k, a, src, j, b, c, |c.fields|)
      requires ec.Sequence? && Fits(ec, e) && e.Node?
      modifies this
      ensures var t, d := TreeAt(old(cells), src, j, c), TreeAt(old(cells), base, k, c);
              var outs := Readings(c, t, d, ec, e);
              err == ErrorOf(outs) && Updated(old(cells), cells, base, k, c, Node(StopAtError(outs, d.fields)))
      decreases c, 1
    {
      var i, n := 0, |c.fields|;
      ghost var h := cells;
      ghost var d, t := TreeAt(h, base, k, c), TreeAt(h, src, j, c);
      ghost var outs := Readings(c, t, d, ec, e);
      Unchanged(h, base, k, c);
      ghost var ts := d.fields;
      while i < n && i < |ec.fields|
        invariant i <= n && Reached(outs, d.fields, ts, i, Ok)
        invariant Updated(h, cells, base, k, c, WithKids(c, ts)) && Ptr(cells, base, k) == At(a)
      {
        ReachedNext(outs, d.fields, ts, i);
        err := ReadSlot(c, base, k, a, src, j, b, i, ec, e, h, ts);
        ts := ts[i := outs[i].tree];
        if err != Ok {
          return;
        }
        i := i + 1;
      }
      BeyondMask(c, t, d, ec, e, ts, i);
      err := Ok;
    }

    method ReadSlot(c: Cfg, base: Addr, k: nat, a: Addr, src: Addr, j: nat, b: Addr, i: nat, ec: Cfg, e: Tree,
                    ghost h: Heap, ghost ts: seq<Tree>) returns (err: EebusError)
      requires c.Sequence? && Parallel(h, base, k, a, src, j, b, c, |ts|) && i < |ts|
      requires Updated(h, cells, base, k, c, WithKids(c, ts)) && Ptr(cells, base, k) == At(a)
      requires ec.Sequence? && Fits(ec, e) && e.Node? && i < |ec.fields|
      modifies this
      ensures var t := TreeAt(h, src, j, c).fields[i];
              var out := if e.fields[i].Null? then Outcome(ts[i], Ok)
                         else if IsEmpty(ec.fields[i], e.fields[i]) then CopyInto(c.fields[i], Null, t)
                         else ReadInto(c.fields[i], t, ts[i], ec.fields[i], e.fields[i]);
              err == out.err && Updated(h, cells, base, k, c, WithKids(c, ts[i := out.tree]))
      ensures Ptr(cells, base, k) == At(a)
      decreases c, 0
    {
      ghost var g := cells;
      StillParallel(h, g, base, k, a, src, j, b, c, ts, i);
      if e.fields[i].Null? {
        assert ts[i := ts[i]] == ts;
        return Ok;
      }
      if IsEmpty(ec.fields[i], e.fields[i]) {
        err := Replace(Kid(c, i), a, i, b, i);
      } else {
        err := ReadElements(Kid(c, i), b, i, a, i, ec.fields[i], e.fields[i]);
      }
      Lift(h, g, cells, base, k, c, WithKids(c, ts), a, i, TreeAt(cells, a, i, Kid(c, i)));
    }
  }
}
