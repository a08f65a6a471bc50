/**
 Partial writes in memory. A merge works on the old items where they are: when the list has to grow,
 the pointers to them are copied to a larger buffer first, and the old buffer is freed at the end.
 */
module HeapMerge {
  import opened Errors
  import opened DataModel
  import opened Elements
  import opened HeapTree
  import opened Partial
  import Upsert

  /** Every list that a merge can reach has elements whose identifiers are free of lists. */
  predicate Mergeable(c: Cfg)
    decreases c
  {
    match c
    case Sequence(_, _, fs) => forall i :: 0 <= i < |fs| ==> Mergeable(fs[i])
    case List(_, _, simple, e) => simple || (IdentifiersListFree(e) && Mergeable(e))
    case _ => true
  }

  /**
   `t` and `err` are the outcome of the partial write, unless a copy of a list over the bound failed
   on the way; a success is always exact.
   */
  ghost predicate Exact(c: Cfg, d: Tree, s: Tree, t: Tree, err: EebusError)
    requires Fits(c, d) && Fits(c, s)
  {
    err == Ok || Bounded(s) ==> Outcome(t, err) == Partial.WritePartial(c, d, s)
  }

  /** The partial write does not run into a source list without the first item that it reads. */
  ghost predicate Defined(c: Cfg, d: Tree, s: Tree)
    requires Fits(c, d) && Fits(c, s)
  {
    Partial.WritePartial(c, d, s).err != Undefined
  }

  // ---------------------------------------------------------------- two lists side by side

  ghost predicate Beside(h: Heap, base: Addr, k: nat, a: Addr, src: Addr, j: nat, b: Addr, c: Cfg) {
    c.List? && Apart(h, base, k, src, j, c) && Ptr(h, base, k) == At(a) && Ptr(h, src, j) == At(b)
  }

  /** While the destination list is rewritten, its item `i` and item `l` of the source are apart. */
  lemma StillBeside(h: Heap, g: Heap, base: Addr, k: nat, a: Addr, src: Addr, j: nat, b: Addr, c: Cfg, ts: seq<Tree>,
                    i: nat, l: nat)
    requires Beside(h, base, k, a, src, j, b, c) && i < |ts| && l < |h[b].slots|
    requires Updated(h, g, base, k, c, Items(ts)) && Ptr(g, base, k) == At(a)
    ensures Has(g, a, i) && |g[a].slots| == |ts| && Has(g, b, l) && g[b] == h[b]
    ensures Apart(g, a, i, b, l, c.elem)
    ensures TreeAt(g, a, i, c.elem) == ts[i]
    ensures l < |TreeAt(h, src, j, c).items| && TreeAt(g, b, l, c.elem) == TreeAt(h, src, j, c).items[l]
  {
    SourceKept(h, g, base, k, src, j, c, Items(ts));
    assert |Kids(TreeAt(g, base, k, c))| == |ts|;
    Inside(h, src, j, c, b, l);
    Inside(g, base, k, c, a, i);
    Inside(g, src, j, c, b, l);
    assert b in FootAt(h, src, j, c) && b !in FootAt(h, base, k, c);
  }

  // ---------------------------------------------------------------- the first pass

  /** IDENTIFIERS_MATCH of item `x` of the list at `a` and item `i` of the list at `b`. */
  method ItemsMatch(mem: Memory, base: Addr, k: nat, a: Addr, src: Addr, j: nat, b: Addr, c: Cfg, x: nat, i: nat)
    returns (matches: bool)
    requires Beside(mem.cells, base, k, a, src, j, b, c) && x < |mem.cells[a].slots| && i < |mem.cells[b].slots|
    ensures var d, s := TreeAt(mem.cells, base, k, c).items, TreeAt(mem.cells, src, j, c).items;
            x < |d| && i < |s| && matches == IdentifiersMatch(c.elem, d[x], s[i])
  {
    var h := mem.cells;
    Inside(h, base, k, c, a, x);
    Inside(h, src, j, c, b, i);
    matches := IdentifiersMatch(c.elem, View(h, c.elem, h[a].slots[x]), View(h, c.elem, h[b].slots[i]));
  }

  /** GetItemMatchingIdentifiers: the first of `m` items of the list at `a` that item `i` of the list at `b` matches. */
  method FindItem(mem: Memory, base: Addr, k: nat, a: Addr, src: Addr, j: nat, b: Addr, c: Cfg, m: nat, i: nat)
    returns (found: nat)
    requires Beside(mem.cells, base, k, a, src, j, b, c) && i < |mem.cells[b].slots| && m <= |mem.cells[a].slots|
    ensures var d, s := TreeAt(mem.cells, base, k, c).items, TreeAt(mem.cells, src, j, c).items;
            |d| == |mem.cells[a].slots| && |s| == |mem.cells[b].slots| && found == FindMatch(c.elem, d[..m], s[i])
  {
    ghost var d, s := TreeAt(mem.cells, base, k, c).items, TreeAt(mem.cells, src, j, c).items;
    found := 0;
    while found < m
      invariant found <= m
      invariant forall x :: 0 <= x < found ==> !IdentifiersMatch(c.elem, d[..m][x], s[i])
    {
      var matches := ItemsMatch(mem, base, k, a, src, j, b, c, found, i);
      if matches {
        break;
      }
      found := found + 1;
    }
    FirstMatchIs(c.elem, d[..m], s[i], found);
  }

  /** The first pass: the size of the merged list. A missing list has no items. */
  method CountMerged(mem: Memory, base: Addr, k: nat, src: Addr, j: nat, b: Addr, c: Cfg) returns (n: nat)
    requires c.List? && Apart(mem.cells, base, k, src, j, c) && Ptr(mem.cells, src, j) == At(b)
    ensures n == MergedSize(c.elem, ListItems(c, TreeAt(mem.cells, base, k, c)), TreeAt(mem.cells, src, j, c).items)
  {
    var h := mem.cells;
    ghost var d, s := ListItems(c, TreeAt(h, base, k, c)), TreeAt(h, src, j, c).items;
    var p := Ptr(h, base, k);
    var size := if p.At? then |h[p.addr].slots| else 0;
    n := size;
    assert s[0..] == s && |d| == size && d[..size] == d;
    for i := 0 to |h[b].slots|
      invariant |s| == |h[b].slots| && n + |Unmatched(c.elem, d, s[i..])| == MergedSize(c.elem, d, s)
    {
      assert s[i..][0] == s[i] && s[i..][1..] == s[i + 1..];
      var found := 0;
      if p.At? {
        found := FindItem(mem, base, k, p.addr, src, j, b, c, size, i);
      }
      if found == size {
        n := n + 1;
      }
    }
  }

  // ---------------------------------------------------------------- growing the list

  /**
   From `h` to `g` a buffer `b` of `n` slots was allocated, with copies of the pointers of the list in
   the slot (whose buffer is `a`), and `f`, the local variable that holds `b`.
   */
  ghost predicate Grown(h: Heap, g: Heap, base: Addr, k: nat, b: Addr, f: Addr, ss: seq<Pointer>, n: nat) {
    && Has(h, base, k) && |ss| <= n && b !in h && f !in h && f != b
    && ss == (if Ptr(h, base, k).At? && Has(h, Ptr(h, base, k).addr, 0) then h[Ptr(h, base, k).addr].slots else [])
    && g == h[b := Block(ss + seq(n - |ss|, _ => Nil))][f := Block([At(b)])]
  }

  /** What the list owned besides its buffer. */
  ghost function ItemBlocks(h: Heap, base: Addr, k: nat, c: Cfg): (r: set<Addr>)
    requires Has(h, base, k)
  {
    match Ptr(h, base, k)
    case At(a) => FootAt(h, base, k, c) - {a}
    case _ => {}
  }

  /** The local variable holds the old items and room for more; the old buffer still points to them as well. */
  lemma GrownHolds(h: Heap, g: Heap, base: Addr, k: nat, c: Cfg, b: Addr, f: Addr, ss: seq<Pointer>, n: nat)
    requires c.List? && Tracked(h, base, k, c) && Grown(h, g, base, k, b, f, ss, n)
    ensures Tracked(g, f, 0, c) && Ptr(g, f, 0) == At(b)
    ensures TreeAt(g, f, 0, c) == Items(PadTo(ListItems(c, TreeAt(h, base, k, c)), n))
    ensures FootAt(g, f, 0, c) == ItemBlocks(h, base, k, c) + {b}
  {
    var t := TreeAt(h, base, k, c);
    var xs := ListItems(c, t);
    assert |xs| == |ss|;
    forall i | 0 <= i < n
      ensures Holds(g, c.elem, g[b].slots[i]) && f !in Foot(g, c.elem, g[b].slots[i])
               && b !in Foot(g, c.elem, g[b].slots[i])
      ensures View(g, c.elem, g[b].slots[i]) == PadTo(xs, n)[i]
      ensures Foot(g, c.elem, g[b].slots[i]) == if i < |ss| then Foot(h, c.elem, ss[i]) else {}
    {
      if i < |ss| {
        Frame(h, g, c.elem, ss[i]);
      }
    }
    assert Holds(g, c, At(b));
    assert View(g, c, At(b)).items == PadTo(xs, n);
  }

  /** The source is apart from the local variable as well. */
  lemma SourceBesideGrown(h: Heap, g: Heap, base: Addr, k: nat, src: Addr, j: nat, c: Cfg, b: Addr, f: Addr,
                        ss: seq<Pointer>, n: nat)
    requires c.List? && Apart(h, base, k, src, j, c) && Grown(h, g, base, k, b, f, ss, n)
    ensures Apart(g, f, 0, src, j, c)
    ensures TreeAt(g, src, j, c) == TreeAt(h, src, j, c) && Ptr(g, src, j) == Ptr(h, src, j)
  {
    GrownHolds(h, g, base, k, c, b, f, ss, n);
    Frame(h, g, c, Ptr(h, src, j));
  }

  /**
   The list was taken to a larger buffer (from `h` to `g1`) and the merge ran on it (from `g1` to `g`),
   while the slot still holds the old buffer.
   */
  ghost predicate MergedAside(h: Heap, g1: Heap, g: Heap, base: Addr, k: nat, c: Cfg, b: Addr, f: Addr,
                              ss: seq<Pointer>, n: nat, t: Tree) {
    && c.List? && Tracked(h, base, k, c) && Grown(h, g1, base, k, b, f, ss, n)
    && Tracked(g1, f, 0, c) && FootAt(g1, f, 0, c) == ItemBlocks(h, base, k, c) + {b}
    && Updated(g1, g, f, 0, c, t)
  }

  /** Freeing the old buffer and storing the new one makes the update of the local variable one of the slot. */
  lemma Adopt(h: Heap, g1: Heap, g: Heap, g': Heap, base: Addr, k: nat, c: Cfg, b: Addr, f: Addr, ss: seq<Pointer>,
              n: nat, t: Tree)
    requires MergedAside(h, g1, g, base, k, c, b, f, ss, n, t)
    requires var freed := if Ptr(h, base, k).At? then g - {Ptr(h, base, k).addr} else g;
             g' == freed[base := Block(h[base].slots[k := Ptr(g, f, 0)])] - {f}
    ensures Updated(h, g', base, k, c, t)
  {
    AdoptKept(h, g1, g, base, k, c, b, f, ss, n, t);
    AdoptStored(g, g', base, Ptr(h, base, k), f, Block(h[base].slots[k := Ptr(g, f, 0)]), FootAt(g, f, 0, c));
    AdoptTree(g, g', base, k, c, f, h[base].slots);
    AdoptKeys(h, g1, g, g', base, k, c, b, f, ss, n, t);
    AdoptRest(h, g1, g, g', base, k, c, b, f, ss, n, t);
    MakesUpdate(h, g', base, k, c, t, FootAt(g, f, 0, c));
  }

  /** What makes an update, fact by fact; `now` are the blocks of the new tree. */
  lemma MakesUpdate(h: Heap, g: Heap, base: Addr, k: nat, c: Cfg, t: Tree, now: set<Addr>)
    requires Tracked(h, base, k, c) && Tracked(g, base, k, c)
    requires TreeAt(g, base, k, c) == t && FootAt(g, base, k, c) == now
    requires g[base] == Block(h[base].slots[k := Ptr(g, base, k)])
    requires g.Keys == h.Keys - FootAt(h, base, k, c) + now && h.Keys - FootAt(h, base, k, c) !! now
    requires forall x :: x in h.Keys - FootAt(h, base, k, c) && x != base ==> g[x] == h[x]
    ensures Updated(h, g, base, k, c, t)
  {
  }

  /** Storing `cell` at `base` without the blocks of `p` and `f` leaves the blocks in `kept` as they are. */
  lemma AdoptStored(g: Heap, g': Heap, base: Addr, p: Pointer, f: Addr, cell: Cell, kept: set<Addr>)
    requires base in g && f in g && base != f && kept <= g.Keys && base !in kept && f !in kept
    requires p.At? ==> p.addr in g && p.addr != base && p.addr != f && p.addr !in kept
    requires g' == (if p.At? then g - {p.addr} else g)[base := cell] - {f}
    ensures base in g' && g'[base] == cell && forall x :: x in kept ==> x in g' && g'[x] == g[x]
    ensures g'.Keys == g.Keys - {f} - (if p.At? then {p.addr} else {})
    ensures forall x :: x in g' && x in g && x != base ==> g'[x] == g[x]
  {
  }

  /** The slot holds the tree that the local variable held. */
  lemma AdoptTree(g: Heap, g': Heap, base: Addr, k: nat, c: Cfg, f: Addr, ss: seq<Pointer>)
    requires Tracked(g, f, 0, c) && base !in FootAt(g, f, 0, c)
    requires base in g' && k < |ss| && g'[base] == Block(ss[k := Ptr(g, f, 0)])
    requires forall x :: x in FootAt(g, f, 0, c) ==> x in g' && g'[x] == g[x]
    ensures Tracked(g', base, k, c) && TreeAt(g', base, k, c) == TreeAt(g, f, 0, c)
    ensures FootAt(g', base, k, c) == FootAt(g, f, 0, c)
  {
    Frame(g, g', c, Ptr(g, f, 0));
  }

  /** The slot and the old buffer were none of the merge's business. */
  lemma AdoptKept(h: Heap, g1: Heap, g: Heap, base: Addr, k: nat, c: Cfg, b: Addr, f: Addr, ss: seq<Pointer>, n: nat,
                  t: Tree)
    requires MergedAside(h, g1, g, base, k, c, b, f, ss, n, t)
    ensures base in g && g[base] == h[base] && base != f && base !in FootAt(g, f, 0, c)
    ensures var p := Ptr(h, base, k);
            p.At? ==> p.addr in g && p.addr != base && p.addr != f && p.addr !in FootAt(g, f, 0, c)
  {
    var p := Ptr(h, base, k);
    assert base in g1.Keys - FootAt(g1, f, 0, c);
    assert p.At? ==> p.addr in FootAt(h, base, k, c) && p.addr in g1.Keys - FootAt(g1, f, 0, c);
  }

  /** The rest of the memory is as it was. */
  lemma AdoptRest(h: Heap, g1: Heap, g: Heap, g': Heap, base: Addr, k: nat, c: Cfg, b: Addr, f: Addr,
                  ss: seq<Pointer>, n: nat, t: Tree)
    requires MergedAside(h, g1, g, base, k, c, b, f, ss, n, t)
    requires h.Keys - FootAt(h, base, k, c) <= g'.Keys
    requires forall x :: x in g' && x in g && x != base ==> g'[x] == g[x]
    ensures forall x :: x in h.Keys - FootAt(h, base, k, c) && x != base ==> g'[x] == h[x]
  {
    forall x | x in h.Keys - FootAt(h, base, k, c) && x != base
      ensures g'[x] == h[x]
    {
      assert x in g1.Keys - FootAt(g1, f, 0, c) && g1[x] == h[x];
    }
  }

  lemma AdoptKeys(h: Heap, g1: Heap, g: Heap, g': Heap, base: Addr, k: nat, c: Cfg, b: Addr, f: Addr,
                  ss: seq<Pointer>, n: nat, t: Tree)
    requires MergedAside(h, g1, g, base, k, c, b, f, ss, n, t) && base in g && base != f
    requires g'.Keys == g.Keys - {f} - (if Ptr(h, base, k).At? then {Ptr(h, base, k).addr} else {})
    ensures g'.Keys == h.Keys - FootAt(h, base, k, c) + FootAt(g, f, 0, c)
    ensures h.Keys - FootAt(h, base, k, c) !! FootAt(g, f, 0, c)
  {
    var p := Ptr(h, base, k);
    var buffer := if p.At? then {p.addr} else {};
    KeysAdopted(h.Keys, FootAt(h, base, k, c), buffer, b, f, FootAt(g, f, 0, c));
  }

  /** The same on the addresses alone: `list` of `all` consists of `buffer` and the items, `now` are the new list's. */
  lemma KeysAdopted(all: set<Addr>, list: set<Addr>, buffer: set<Addr>, b: Addr, f: Addr, now: set<Addr>)
    requires buffer <= list <= all && b !in all && f !in all && b != f
    requires var rest := all + {b} + {f} - (list - buffer + {b}); rest !! now
    ensures all + {b} + {f} - (list - buffer + {b}) + now - {f} - buffer == all - list + now
    ensures all - list !! now
  {
  }

  // ---------------------------------------------------------------- the second pass

  lemma PadUpdate(cur: seq<Tree>, n: nat, i: nat, u: Tree)
    requires |cur| <= n
    ensures i < |cur| ==> PadTo(cur, n)[i := u] == PadTo(cur[i := u], n)
    ensures i == |cur| < n ==> PadTo(cur, n)[i := u] == PadTo(cur + [u], n)
  {
  }

  /**
   One source item: the first `m` slots hold the old items, `next` slots are in use. `h` is the memory
   when the pass began, `cur` what the slots in use hold now.
   */
  method MergeItem(mem: Memory, base: Addr, k: nat, a: Addr, src: Addr, j: nat, b: Addr, c: Cfg, i: nat, m: nat,
                   next: nat,
                   ghost h: Heap, ghost cur: seq<Tree>, ghost n: nat)
    returns (err: EebusError, next': nat, ghost cur': seq<Tree>, ghost ts: seq<Tree>)
    requires Beside(h, base, k, a, src, j, b, c) && Mergeable(c) && !c.simple && i < |h[b].slots|
    requires AllFit(c.elem, cur) && m <= |cur| == next <= n
    requires Updated(h, mem.cells, base, k, c, Items(PadTo(cur, n))) && Ptr(mem.cells, base, k) == At(a)
    requires |TreeAt(h, src, j, c).items| == |h[b].slots|
    requires var r := MergeStep(c.elem, cur, m, TreeAt(h, src, j, c).items[i]); |r.items| <= n && r.err != Undefined
    modifies mem
    ensures Updated(h, mem.cells, base, k, c, Items(ts)) && Ptr(mem.cells, base, k) == At(a)
    ensures var el := TreeAt(h, src, j, c).items[i];
            err == Ok || Bounded(el) ==>
              Merged(cur', err) == MergeStep(c.elem, cur, m, el) && ts == PadTo(cur', n) && next' == |cur'|
    decreases c, 0
  {
    ghost var g, el, old' := mem.cells, TreeAt(h, src, j, c).items[i], PadTo(cur, n);
    SourceKept(h, g, base, k, src, j, c, Items(old'));
    StillBeside(h, g, base, k, a, src, j, b, c, old', 0, i);
    var found := FindItem(mem, base, k, a, src, j, b, c, m, i);
    assert old'[..m] == cur[..m];
    var slot := if found < m then found else next;
    StillBeside(h, g, base, k, a, src, j, b, c, old', slot, i);
    PadUpdate(cur, n, slot, TreeAt(g, b, i, c.elem));
    if found < m {
      err := WritePartial(mem, c.elem, a, found, b, i);
      next' := next;
    } else {
      CopyIsSource(c.elem, Null, el);
      err := mem.Write(c.elem, a, next, b, i);
      next' := next + 1;
    }
    ghost var u := TreeAt(mem.cells, a, slot, c.elem);
    Lift(h, g, mem.cells, base, k, c, Items(old'), a, slot, u);
    PadUpdate(cur, n, slot, u);
    cur' := if found < m then cur[found := u] else cur + [u];
    ts := old'[slot := u];
  }

  /** The same, seen from the whole merge. */
  method MergeNext(mem: Memory, base: Addr, k: nat, a: Addr, src: Addr, j: nat, b: Addr, c: Cfg, i: nat, m: nat,
                   next: nat,
                   ghost h: Heap, ghost cur: seq<Tree>, ghost n: nat, ghost whole: Merged)
    returns (err: EebusError, next': nat, ghost cur': seq<Tree>, ghost ts: seq<Tree>)
    requires Beside(h, base, k, a, src, j, b, c) && Mergeable(c) && !c.simple && i < |h[b].slots|
    requires AllFit(c.elem, cur) && m <= |cur| == next <= n
    requires Updated(h, mem.cells, base, k, c, Items(PadTo(cur, n))) && Ptr(mem.cells, base, k) == At(a)
    requires |TreeAt(h, src, j, c).items| == |h[b].slots|
    requires MergeFrom(c.elem, cur, m, TreeAt(h, src, j, c).items[i..]) == whole && |whole.items| <= n
    requires whole.err != Undefined
    modifies mem
    ensures Updated(h, mem.cells, base, k, c, Items(ts)) && Ptr(mem.cells, base, k) == At(a)
    ensures err == Ok ==>
              && AllFit(c.elem, cur') && m <= |cur'| == next' <= n && ts == PadTo(cur', n)
              && MergeFrom(c.elem, cur', m, TreeAt(h, src, j, c).items[i + 1..]) == whole
    ensures err != Ok && Bounded(TreeAt(h, src, j, c).items[i]) ==> err == whole.err && ts == PadTo(whole.items, n)
    decreases c, 1
  {
    ghost var s := TreeAt(h, src, j, c).items;
    assert s[i..][0] == s[i] && s[i..][1..] == s[i + 1..];
    err, next', cur', ts := MergeItem(mem, base, k, a, src, j, b, c, i, m, next, h, cur, n);
  }

  /** Before the first turn; the buffer is large enough, because the two passes agree. */
  lemma MergeStarts(e: Cfg, d: seq<Tree>, m: nat, s: seq<Tree>)
    requires IdentifiersListFree(e) && AllFit(e, d) && AllFit(e, s) && m <= |d| == MergedSize(e, d[..m], s)
    requires forall i :: m <= i < |d| ==> d[i] == Null
    ensures PadTo(d[..m], |d|) == d && s[0..] == s
    ensures AllFit(e, d[..m]) && |MergeFrom(e, d[..m], m, s).items| <= |d|
  {
    assert d[..m][..m] == d[..m];
    PassesAgree(e, d[..m], m, s);
  }

  /** The second pass of a merge into the buffer `a`, whose first `m` slots hold the old items. */
  method MergeInto(mem: Memory, base: Addr, k: nat, a: Addr, src: Addr, j: nat, b: Addr, c: Cfg, m: nat)
    returns (err: EebusError)
    requires Beside(mem.cells, base, k, a, src, j, b, c) && Mergeable(c) && !c.simple
    requires var d, s := TreeAt(mem.cells, base, k, c).items, TreeAt(mem.cells, src, j, c).items;
             && m <= |d| && |d| == MergedSize(c.elem, d[..m], s) && MergeFrom(c.elem, d[..m], m, s).err != Undefined
             && forall i :: m <= i < |d| ==> d[i] == Null
    modifies mem
    ensures Tracked(mem.cells, base, k, c)
    ensures Updated(old(mem.cells), mem.cells, base, k, c, TreeAt(mem.cells, base, k, c))
             && Ptr(mem.cells, base, k) == At(a)
    ensures var d, s := TreeAt(old(mem.cells), base, k, c).items, TreeAt(old(mem.cells), src, j, c).items;
            var r := MergeFrom(c.elem, d[..m], m, s);
            err == Ok || Bounded(Items(s)) ==>
              err == r.err && TreeAt(mem.cells, base, k, c) == Items(PadTo(r.items, |d|))
    decreases c, 2
  {
    var h := mem.cells;
    ghost var d, s := TreeAt(h, base, k, c).items, TreeAt(h, src, j, c).items;
    MergeStarts(c.elem, d, m, s);
    Unchanged(h, base, k, c);
    err := MergeItems(mem, base, k, a, src, j, b, c, m, h, d[..m], |d|, MergeFrom(c.elem, d[..m], m, s));
  }

  /** The loop over the source items; `cur` is what the slots in use hold at first. */
  method MergeItems(mem: Memory, base: Addr, k: nat, a: Addr, src: Addr, j: nat, b: Addr, c: Cfg, m: nat,
                    ghost h: Heap, ghost first: seq<Tree>, ghost n: nat, ghost whole: Merged)
    returns (err: EebusError)
    requires Beside(h, base, k, a, src, j, b, c) && Mergeable(c) && !c.simple
    requires AllFit(c.elem, first) && m == |first| <= n
    requires Updated(h, mem.cells, base, k, c, Items(PadTo(first, n))) && Ptr(mem.cells, base, k) == At(a)
    requires MergeFrom(c.elem, first, m, TreeAt(h, src, j, c).items) == whole && |whole.items| <= n
    requires whole.err != Undefined
    modifies mem
    ensures Tracked(mem.cells, base, k, c) && Updated(h, mem.cells, base, k, c, TreeAt(mem.cells, base, k, c))
    ensures Ptr(mem.cells, base, k) == At(a)
    ensures err == Ok || Bounded(TreeAt(h, src, j, c)) ==>
              err == whole.err && TreeAt(mem.cells, base, k, c) == Items(PadTo(whole.items, n))
    decreases c, 2, 0
  {
    ghost var s, cur := TreeAt(h, src, j, c).items, first;
    SourceKept(h, mem.cells, base, k, src, j, c, Items(PadTo(first, n)));
    assert s[0..] == s && mem.cells[b] == h[b];
    var next := m;
    for i := 0 to |mem.cells[b].slots|
      invariant AllFit(c.elem, cur) && m <= |cur| == next <= n && |s| == |h[b].slots|
      invariant Updated(h, mem.cells, base, k, c, Items(PadTo(cur, n))) && Ptr(mem.cells, base, k) == At(a)
      invariant MergeFrom(c.elem, cur, m, s[i..]) == whole
    {
      ghost var ts;
      err, next, cur, ts := MergeNext(mem, base, k, a, src, j, b, c, i, m, next, h, cur, n, whole);
      if err != Ok {
        return;
      }
    }
    err := Ok;
  }

  /** MergeData. `new_ar`, the local variable for the larger buffer, is a slot of its own until it is stored. */
  method MergeData(mem: Memory, base: Addr, k: nat, src: Addr, j: nat, b: Addr, c: Cfg) returns (err: EebusError)
    requires c.List? && Mergeable(c) && !c.simple && Apart(mem.cells, base, k, src, j, c)
             && Ptr(mem.cells, src, j) == At(b)
    requires var d := ListItems(c, TreeAt(mem.cells, base, k, c));
             var s := TreeAt(mem.cells, src, j, c).items;
             s != [] && (MergeRefused(c.elem, d, s) || MergeFrom(c.elem, d, |d|, s).err != Undefined)
    modifies mem
    ensures Tracked(mem.cells, base, k, c)
    ensures Updated(old(mem.cells), mem.cells, base, k, c, TreeAt(mem.cells, base, k, c))
    ensures var d, s := ListItems(c, TreeAt(old(mem.cells), base, k, c)), TreeAt(old(mem.cells), src, j, c).items;
            var r := MergeFrom(c.elem, d, |d|, s);
            err == Ok || Bounded(Items(s)) ==>
              if MergeRefused(c.elem, d, s) then err == MemoryAllocate
                && TreeAt(mem.cells, base, k, c) == TreeAt(old(mem.cells), base, k, c)
              else err == r.err && TreeAt(mem.cells, base, k, c) == Items(PadTo(r.items, MergedSize(c.elem, d, s)))
    decreases c, 4
  {
    var h := mem.cells;
    ghost var t := TreeAt(h, base, k, c);
    ghost var d, s := ListItems(c, t), TreeAt(h, src, j, c).items;
    assert d[..|d|] == d;
    var p := Ptr(h, base, k);
    var size := if p.At? then |h[p.addr].slots| else 0;
    var newSize := CountMerged(mem, base, k, src, j, b, c);
    if newSize == size {
      assert p.At?;
      err := MergeInto(mem, base, k, p.addr, src, j, b, c, size);
      return;
    }
    if newSize > MAX_ELEMENTS {
      Unchanged(h, base, k, c);
      return MemoryAllocate;
    }
    err := MergeGrown(mem, base, k, src, j, b, c, size, newSize);
  }

  /** The merge when the list has to grow. */
  method MergeGrown(mem: Memory, base: Addr, k: nat, src: Addr, j: nat, b: Addr, c: Cfg, size: nat, newSize: nat)
    returns (err: EebusError)
    requires c.List? && Mergeable(c) && !c.simple && Apart(mem.cells, base, k, src, j, c)
             && Ptr(mem.cells, src, j) == At(b)
    requires var d := ListItems(c, TreeAt(mem.cells, base, k, c));
             TreeAt(mem.cells, src, j, c).items != []
             && MergeFrom(c.elem, d, |d|, TreeAt(mem.cells, src, j, c).items).err != Undefined
    requires var d := ListItems(c, TreeAt(mem.cells, base, k, c));
             size == |d| < newSize == MergedSize(c.elem, d, TreeAt(mem.cells, src, j, c).items)
    modifies mem
    ensures Tracked(mem.cells, base, k, c)
    ensures Updated(old(mem.cells), mem.cells, base, k, c, TreeAt(mem.cells, base, k, c))
    ensures var d, s := ListItems(c, TreeAt(old(mem.cells), base, k, c)), TreeAt(old(mem.cells), src, j, c).items;
            var r := MergeFrom(c.elem, d, |d|, s);
            err == Ok || Bounded(Items(s)) ==>
              err == r.err && TreeAt(mem.cells, base, k, c) == Items(PadTo(r.items, newSize))
    decreases c, 3
  {
    var h := mem.cells;
    ghost var d := ListItems(c, TreeAt(h, base, k, c));
    var p := Ptr(h, base, k);
    var ss := if p.At? then h[p.addr].slots else [];
    var b1 := mem.Malloc(Block(ss + seq(newSize - |ss|, _ => Nil)));
    var f := mem.Malloc(Block([At(b1)]));
    ghost var g1 := mem.cells;
    assert Grown(h, g1, base, k, b1, f, ss, newSize);
    GrownHolds(h, g1, base, k, c, b1, f, ss, newSize);
    SourceBesideGrown(h, g1, base, k, src, j, c, b1, f, ss, newSize);
    assert PadTo(d, newSize)[..size] == d && d[..|d|] == d;
    err := MergeInto(mem, f, 0, b1, src, j, b, c, size);
    StoreGrown(mem, base, k, p, c, b1, f, ss, newSize, h, g1);
  }

  /** `free(*ar); *ar = new_ar;` once the merge into the local variable `f` is done. */
  method StoreGrown(mem: Memory, base: Addr, k: nat, p: Pointer, c: Cfg, b: Addr, f: Addr, ghost ss: seq<Pointer>,
                    ghost n: nat, ghost h: Heap, ghost g: Heap)
    requires Has(h, base, k) && p == Ptr(h, base, k) && Tracked(mem.cells, f, 0, c)
    requires MergedAside(h, g, mem.cells, base, k, c, b, f, ss, n, TreeAt(mem.cells, f, 0, c))
    modifies mem
    ensures Updated(h, mem.cells, base, k, c, TreeAt(old(mem.cells), f, 0, c))
  {
    ghost var merged := mem.cells;
    ghost var t := TreeAt(merged, f, 0, c);
    AdoptKept(h, g, merged, base, k, c, b, f, ss, n, t);
    if p.At? {
      mem.Free(p.addr);
    }
    mem.Assign(base, k, Ptr(mem.cells, f, 0));
    mem.Free(f);
    Adopt(h, g, merged, mem.cells, base, k, c, b, f, ss, n, t);
  }

  // ---------------------------------------------------------------- structures, and lists without identifiers

  /** CopyToAllData: the first source item is partially written to every item, up to the first error. */
  method CopyToAllData(mem: Memory, base: Addr, k: nat, a: Addr, src: Addr, j: nat, b: Addr, c: Cfg)
    returns (err: EebusError)
    requires Beside(mem.cells, base, k, a, src, j, b, c) && Mergeable(c) && !c.simple
             && Has(mem.cells, b, 0)
    requires var d, s := TreeAt(mem.cells, base, k, c).items, TreeAt(mem.cells, src, j, c).items;
             ErrorOf(ItemWrites(c.elem, d, s[0])) != Undefined
    modifies mem
    ensures Tracked(mem.cells, base, k, c)
    ensures Updated(old(mem.cells), mem.cells, base, k, c, TreeAt(mem.cells, base, k, c))
    ensures var d, s := TreeAt(old(mem.cells), base, k, c).items, TreeAt(old(mem.cells), src, j, c).items;
            var outs := ItemWrites(c.elem, d, s[0]);
            err == Ok || Bounded(s[0]) ==>
              err == ErrorOf(outs) && TreeAt(mem.cells, base, k, c) == Items(StopAtError(outs, d))
    decreases c, 1
  {
    ghost var h := mem.cells;
    ghost var d, s0 := TreeAt(h, base, k, c).items, TreeAt(h, src, j, c).items[0];
    ghost var outs := ItemWrites(c.elem, d, s0);
    Unchanged(h, base, k, c);
    ghost var ts := d;
    for i := 0 to |mem.cells[a].slots|
      invariant |d| == |h[a].slots| && Reached(outs, d, ts, i, Ok)
      invariant Updated(h, mem.cells, base, k, c, Items(ts)) && Ptr(mem.cells, base, k) == At(a)
    {
      ReachedNext(outs, d, ts, i);
      ghost var u;
      err, u := CopyToItem(mem, base, k, a, src, j, b, c, i, h, ts);
      ts := ts[i := u];
      if err != Ok {
        return;
      }
    }
    ReachedAll(outs, d, ts);
    err := Ok;
  }

  method CopyToItem(mem: Memory, base: Addr, k: nat, a: Addr, src: Addr, j: nat, b: Addr, c: Cfg, i: nat,
                    ghost h: Heap, ghost ts: seq<Tree>) returns (err: EebusError, ghost u: Tree)
    requires Beside(h, base, k, a, src, j, b, c) && Mergeable(c) && !c.simple && Has(h, b, 0) && i < |ts|
    requires Updated(h, mem.cells, base, k, c, Items(ts)) && Ptr(mem.cells, base, k) == At(a)
    requires TreeAt(h, src, j, c).items != [] && Defined(c.elem, ts[i], TreeAt(h, src, j, c).items[0])
    modifies mem
    ensures Updated(h, mem.cells, base, k, c, Items(ts[i := u])) && Ptr(mem.cells, base, k) == At(a)
    ensures Exact(c.elem, ts[i], TreeAt(h, src, j, c).items[0], u, err)
    decreases c, 0
  {
    ghost var g := mem.cells;
    StillBeside(h, g, base, k, a, src, j, b, c, ts, i, 0);
    err := WritePartial(mem, c.elem, a, i, b, 0);
    u := TreeAt(mem.cells, a, i, c.elem);
    Lift(h, g, mem.cells, base, k, c, Items(ts), a, i, u);
  }

  /** The loop over the fields of a structure, up to the first error. */
  method WriteFields(mem: Memory, base: Addr, k: nat, a: Addr, src: Addr, j: nat, b: Addr, c: Cfg)
    returns (err: EebusError)
    requires c.Sequence? && Mergeable(c) && Parallel(mem.cells, base, k, a, src, j, b, c, |c.fields|)
    requires ErrorOf(FieldWrites(c, TreeAt(mem.cells, base, k, c), TreeAt(mem.cells, src, j, c))) != Undefined
    modifies mem
    ensures Tracked(mem.cells, base, k, c)
    ensures Updated(old(mem.cells), mem.cells, base, k, c, TreeAt(mem.cells, base, k, c))
    ensures var d, s := TreeAt(old(mem.cells), base, k, c), TreeAt(old(mem.cells), src, j, c);
            var outs := FieldWrites(c, d, s);
            err == Ok || Bounded(s) ==>
              err == ErrorOf(outs) && TreeAt(mem.cells, base, k, c) == Node(StopAtError(outs, d.fields))
    decreases c, 1
  {
    ghost var h := mem.cells;
    ghost var d, s := TreeAt(h, base, k, c), TreeAt(h, src, j, c);
    ghost var outs := FieldWrites(c, d, s);
    Unchanged(h, base, k, c);
    ghost var ts := d.fields;
    for i := 0 to |c.fields|
      invariant Reached(outs, d.fields, ts, i, Ok)
      invariant Updated(h, mem.cells, base, k, c, WithKids(c, ts)) && Ptr(mem.cells, base, k) == At(a)
    {
      ReachedNext(outs, d.fields, ts, i);
      ghost var u;
      err, u := WriteField(mem, base, k, a, src, j, b, c, i, h, ts);
      ts := ts[i := u];
      if err != Ok {
        return;
      }
    }
    ReachedAll(outs, d.fields, ts);
    err := Ok;
  }

  method WriteField(mem: Memory, base: Addr, k: nat, a: Addr, src: Addr, j: nat, b: Addr, c: Cfg, i: nat,
                    ghost h: Heap, ghost ts: seq<Tree>) returns (err: EebusError, ghost u: Tree)
    requires c.Sequence? && Mergeable(c) && Parallel(h, base, k, a, src, j, b, c, |ts|) && i < |ts|
    requires Updated(h, mem.cells, base, k, c, WithKids(c, ts)) && Ptr(mem.cells, base, k) == At(a)
    requires Defined(c.fields[i], ts[i], TreeAt(h, src, j, c).fields[i])
    modifies mem
    ensures Updated(h, mem.cells, base, k, c, WithKids(c, ts[i := u])) && Ptr(mem.cells, base, k) == At(a)
    ensures Exact(c.fields[i], ts[i], TreeAt(h, src, j, c).fields[i], u, err)
    decreases c, 0
  {
    ghost var g := mem.cells;
    StillParallel(h, g, base, k, a, src, j, b, c, ts, i);
    err := WritePartial(mem, Kid(c, i), a, i, b, i);
    u := TreeAt(mem.cells, a, i, Kid(c, i));
    Lift(h, g, mem.cells, base, k, c, WithKids(c, ts), a, i, u);
  }

  /** Creating a missing destination does not change what is written to its slots. */
  lemma WritesOfHeld(c: Cfg, d: Tree, s: Tree)
    requires c.Sequence? && Fits(c, d) && Fits(c, s) && s.Node?
    ensures var held := Held(c, d, |c.fields|);
            held == Slots(c, d) && FieldWrites(c, Node(held), s) == FieldWrites(c, d, s)
  {
  }

  /** `write_partial` on a structure that the source has. */
  method WriteStructure(mem: Memory, c: Cfg, base: Addr, k: nat, src: Addr, j: nat) returns (err: EebusError)
    requires c.Sequence? && Mergeable(c) && Apart(mem.cells, base, k, src, j, c)
    requires Ptr(mem.cells, src, j).At? && Defined(c, TreeAt(mem.cells, base, k, c), TreeAt(mem.cells, src, j, c))
    modifies mem
    ensures Tracked(mem.cells, base, k, c)
    ensures Updated(old(mem.cells), mem.cells, base, k, c, TreeAt(mem.cells, base, k, c))
    ensures Exact(c, TreeAt(old(mem.cells), base, k, c), TreeAt(old(mem.cells), src, j, c), TreeAt(mem.cells, base,
             k, c), err)
    decreases c, 2
  {
    ghost var h, d, s := mem.cells, TreeAt(mem.cells, base, k, c), TreeAt(mem.cells, src, j, c);
    err := mem.Prepare(c, base, k, |c.fields|);
    ghost var g := mem.cells;
    ghost var held := TreeAt(g, base, k, c);
    SourceKept(h, g, base, k, src, j, c, held);
    WritesOfHeld(c, d, s);
    err := WriteFields(mem, base, k, Ptr(mem.cells, base, k).addr, src, j, Ptr(mem.cells, src, j).addr, c);
    Chain(h, g, mem.cells, base, k, c, held, TreeAt(mem.cells, base, k, c));
  }

  /** `write_partial`: a structure field by field, leaves and simple lists overlaid, other lists merged. */
  method WritePartial(mem: Memory, c: Cfg, base: Addr, k: nat, src: Addr, j: nat) returns (err: EebusError)
    requires Mergeable(c) && Apart(mem.cells, base, k, src, j, c)
    requires Defined(c, TreeAt(mem.cells, base, k, c), TreeAt(mem.cells, src, j, c))
    modifies mem
    ensures Tracked(mem.cells, base, k, c)
    ensures Updated(old(mem.cells), mem.cells, base, k, c, TreeAt(mem.cells, base, k, c))
    ensures Exact(c, TreeAt(old(mem.cells), base, k, c), TreeAt(old(mem.cells), src, j, c), TreeAt(mem.cells, base,
             k, c), err)
    decreases c, 6
  {
    var p, q := Ptr(mem.cells, base, k), Ptr(mem.cells, src, j);
    Unchanged(mem.cells, base, k, c);
    if q.Nil? {
      return Ok;
    }
    if c.Sequence? {
      err := WriteStructure(mem, c, base, k, src, j);
      return;
    }
    if !c.List? || c.simple {
      OverlayIsOverlay(c, TreeAt(mem.cells, base, k, c), TreeAt(mem.cells, src, j, c));
      err := mem.WriteElements(c, base, k, src, j);
      return;
    }
    err := WriteList(mem, c, base, k, src, j, q.addr);
  }

  /** WritePartial of a list, by whether its first source item carries identifiers. */
  method WriteList(mem: Memory, c: Cfg, base: Addr, k: nat, src: Addr, j: nat, b: Addr) returns (err: EebusError)
    requires c.List? && Mergeable(c) && !c.simple && Apart(mem.cells, base, k, src, j, c)
             && Ptr(mem.cells, src, j) == At(b)
    requires Defined(c, TreeAt(mem.cells, base, k, c), TreeAt(mem.cells, src, j, c))
    modifies mem
    ensures Tracked(mem.cells, base, k, c)
    ensures Updated(old(mem.cells), mem.cells, base, k, c, TreeAt(mem.cells, base, k, c))
    ensures Exact(c, TreeAt(old(mem.cells), base, k, c), TreeAt(old(mem.cells), src, j, c), TreeAt(mem.cells, base,
             k, c), err)
    decreases c, 5
  {
    var h := mem.cells;
    Unchanged(h, base, k, c);
    var p := Ptr(h, base, k);
    assert |TreeAt(h, src, j, c).items| == |h[b].slots|;
    var merges := false;
    if |h[b].slots| > 0 {
      Inside(h, src, j, c, b, 0);
      merges := HasIdentifiers(c.elem, View(h, c.elem, h[b].slots[0]));
    }
    if merges {
      err := MergeData(mem, base, k, src, j, b, c);
    } else if p.Nil? || |h[p.addr].slots| == 0 {
      err := Ok;
    } else {
      err := CopyToAllData(mem, base, k, p.addr, src, j, b, c);
    }
  }

  // ---------------------------------------------------------------- keyed lists

  /** With complete, distinct keys the merged buffer has no unused slot and holds the upsert of the two lists. */
  lemma MergeFillsBuffer(e: Cfg, d: seq<Tree>, s: seq<Tree>)
    requires Upsert.KeyedSides(e, d, s) && MergeFrom(e, d, |d|, s).err == Ok
    ensures PadTo(MergeFrom(e, d, |d|, s).items, MergedSize(e, d, s)) == Upsert.Merge(e, d, s)
  {
    Upsert.MergeIsMerge(e, d, s);
  }

  /** Merging a keyed list of list-free items into another, twice: the second time nothing changes. */
  method MergeTwice(mem: Memory, base: Addr, k: nat, src: Addr, j: nat, b: Addr, c: Cfg) returns (err: EebusError)
    requires c.List? && !c.simple && ListFree(c.elem) && Mergeable(c)
    requires Apart(mem.cells, base, k, src, j, c) && Ptr(mem.cells, src, j) == At(b)
    requires TreeAt(mem.cells, src, j, c).items != []
    requires Upsert.KeyedSides(c.elem, ListItems(c, TreeAt(mem.cells, base, k, c)), TreeAt(mem.cells, src, j, c).items)
    modifies mem
    ensures Tracked(mem.cells, base, k, c)
    ensures err == Ok ==>
              var d, s := ListItems(c, TreeAt(old(mem.cells), base, k, c)), TreeAt(old(mem.cells), src, j, c).items;
              Updated(old(mem.cells), mem.cells, base, k, c, Items(Upsert.Merge(c.elem, d, s)))
  {
    ghost var h, d, s := mem.cells, ListItems(c, TreeAt(mem.cells, base, k, c)), TreeAt(mem.cells, src, j, c).items;
    MergeOfListFreeSucceeds(c.elem, d, |d|, s);
    err := MergeData(mem, base, k, src, j, b, c);
    if err != Ok {
      return;
    }
    ghost var g := mem.cells;
    ghost var m := Upsert.Merge(c.elem, d, s);
    MergeFillsBuffer(c.elem, d, s);
    SourceKept(h, g, base, k, src, j, c, Items(m));
    Upsert.MergeAgainChangesNothing(c.elem, d, s);
    MergeOfListFreeSucceeds(c.elem, m, |m|, s);
    err := MergeData(mem, base, k, src, j, b, c);
    if err == Ok {
      MergeFillsBuffer(c.elem, m, s);
      Chain(h, g, mem.cells, base, k, c, Items(m), Items(m));
    }
  }
}
