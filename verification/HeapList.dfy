/**
 The list operations in memory: items are blocks behind the pointers of a list buffer, and an
 operation moves pointers to a new buffer, frees or rewrites items, and frees the old buffer.
 */
module HeapList {
  import opened Errors
  import opened DataModel
  import opened Elements
  import opened HeapTree
  import opened Selectors

  // ---------------------------------------------------------------- deleting items

  /** The list in the slot, with its buffer and its items. */
  ghost predicate IsList(h: Heap, base: Addr, k: nat, c: Cfg, a: Addr) {
    c.List? && Tracked(h, base, k, c) && Ptr(h, base, k) == At(a)
  }

  ghost function ItemFoot(h: Heap, c: Cfg, a: Addr, i: nat): (r: set<Addr>)
    requires c.List? && Has(h, a, i)
  {
    Foot(h, c.elem, h[a].slots[i])
  }

  /**
   The buffer `a` is worked through up to item `i`: the slots of selected items are NULL, the pointers
   to the others, at the positions `p`, have also been put into the buffer `b`.
   */
  ghost predicate PointersMoved(h: Heap, g: Heap, a: Addr, b: Addr, mask: seq<bool>, i: nat, p: seq<nat>)
    requires a in h && h[a].Block? && i <= |mask| == |h[a].slots|
  {
    var ss := h[a].slots;
    && p == Pick(mask, false, i)
    && b !in h && b in g && g[b].Block? && |p| <= |g[b].slots| == |Pick(mask, false, |mask|)|
    && (forall l :: 0 <= l < |p| ==> g[b].slots[l] == ss[p[l]])
    && a in g && g[a].Block? && |g[a].slots| == |ss|
    && (forall m :: 0 <= m < |ss| ==> g[a].slots[m] == if m < i && mask[m] then Nil else ss[m])
  }

  /** So far the blocks `dead` were freed, those of the selected items. */
  ghost predicate ItemsFreed(h: Heap, g: Heap, c: Cfg, a: Addr, b: Addr, mask: seq<bool>, i: nat, dead: set<Addr>)
    requires c.List? && a in h && h[a].Block? && i <= |mask| == |h[a].slots|
  {
    && g.Keys == h.Keys - dead + {b}
    && (forall x :: x in h.Keys - dead && x != a ==> g[x] == h[x])
    && dead <= Foot(h, c, At(a)) - {a}
    && (forall m :: 0 <= m < |mask| ==>
          if m < i && mask[m] then ItemFoot(h, c, a, m) <= dead else ItemFoot(h, c, a, m) !! dead)
  }

  ghost predicate Moving(h: Heap, g: Heap, c: Cfg, a: Addr, b: Addr, mask: seq<bool>, i: nat, p: seq<nat>,
                        dead: set<Addr>)
    requires c.List? && a in h && h[a].Block? && i <= |mask| == |h[a].slots|
  {
    PointersMoved(h, g, a, b, mask, i, p) && ItemsFreed(h, g, c, a, b, mask, i, dead)
  }

  lemma StartMoving(h: Heap, g: Heap, base: Addr, k: nat, c: Cfg, a: Addr, b: Addr, mask: seq<bool>)
    requires IsList(h, base, k, c, a) && |mask| == |h[a].slots| && b !in h
    requires g == h[b := Block(seq(|Pick(mask, false, |mask|)|, _ => Nil))]
    ensures Moving(h, g, c, a, b, mask, 0, [], {})
  {
  }

  /** A survivor is moved. */
  lemma MoveOne(h: Heap, g: Heap, g': Heap, base: Addr, k: nat, c: Cfg, a: Addr, b: Addr,
                mask: seq<bool>, i: nat, p: seq<nat>, dead: set<Addr>)
    requires IsList(h, base, k, c, a) && i < |mask| == |h[a].slots| && !mask[i]
    requires Moving(h, g, c, a, b, mask, i, p, dead) && |p| < |g[b].slots|
    requires g' == g[b := Block(g[b].slots[|p| := h[a].slots[i]])]
    ensures Moving(h, g', c, a, b, mask, i + 1, p + [i], dead)
  {
  }

  /** A selected item is freed. */
  lemma FreeOne(h: Heap, g: Heap, g': Heap, base: Addr, k: nat, c: Cfg, a: Addr, b: Addr,
                mask: seq<bool>, i: nat, p: seq<nat>, dead: set<Addr>)
    requires IsList(h, base, k, c, a) && i < |mask| == |h[a].slots| && mask[i]
    requires Moving(h, g, c, a, b, mask, i, p, dead)
    requires Tracked(g, a, i, c.elem) && FootAt(g, a, i, c.elem) == ItemFoot(h, c, a, i)
    requires Updated(g, g', a, i, c.elem, Null) && Ptr(g', a, i).Nil?
    ensures Moving(h, g', c, a, b, mask, i + 1, p, dead + ItemFoot(h, c, a, i))
  {
    assert b in g.Keys - ItemFoot(h, c, a, i) && g'[b] == g[b];
    PointerCleared(h, g, g', a, b, mask, i, p);
    ItemFreed(h, g, g', base, k, c, a, b, mask, i, dead);
  }

  lemma PointerCleared(h: Heap, g: Heap, g': Heap, a: Addr, b: Addr, mask: seq<bool>, i: nat, p: seq<nat>)
    requires a in h && h[a].Block? && i < |mask| == |h[a].slots| && mask[i] && PointersMoved(h, g, a, b, mask, i, p)
    requires a in g' && b in g' && g'[b] == g[b] && g'[a] == Block(g[a].slots[i := Nil])
    ensures PointersMoved(h, g', a, b, mask, i + 1, p)
  {
  }

  lemma ItemFreed(h: Heap, g: Heap, g': Heap, base: Addr, k: nat, c: Cfg, a: Addr, b: Addr, mask: seq<bool>, i: nat,
                  dead: set<Addr>)
    requires IsList(h, base, k, c, a) && i < |mask| == |h[a].slots| && mask[i] && b !in h
    requires ItemsFreed(h, g, c, a, b, mask, i, dead)
    requires Tracked(g, a, i, c.elem) && FootAt(g, a, i, c.elem) == ItemFoot(h, c, a, i)
    requires Updated(g, g', a, i, c.elem, Null) && Ptr(g', a, i).Nil?
    ensures ItemsFreed(h, g', c, a, b, mask, i + 1, dead + ItemFoot(h, c, a, i))
  {
    ItemsApart(h, base, k, c, a, i);
  }

  lemma ItemsApart(h: Heap, base: Addr, k: nat, c: Cfg, a: Addr, i: nat)
    requires IsList(h, base, k, c, a) && Has(h, a, i)
    ensures ItemFoot(h, c, a, i) <= Foot(h, c, At(a)) - {a}
    ensures forall m :: 0 <= m < |h[a].slots| && m != i ==> ItemFoot(h, c, a, m) !! ItemFoot(h, c, a, i)
  {
  }

  /** What is known of the memory after the move, without the old buffer. */
  ghost predicate AfterMove(h: Heap, g: Heap, base: Addr, c: Cfg, a: Addr, b: Addr, mask: seq<bool>, p: seq<nat>,
                        dead: set<Addr>)
    requires c.List? && a in h && h[a].Block? && |mask| == |h[a].slots|
  {
    var ss := h[a].slots;
    && p == Pick(mask, false, |mask|)
    && b !in h && b in g && g[b].Block? && |g[b].slots| == |p|
    && (forall l :: 0 <= l < |p| ==> g[b].slots[l] == ss[p[l]])
    && g.Keys == h.Keys - dead - {a} + {b}
    && (forall x :: x in h.Keys - dead && x != a && x != base ==> g[x] == h[x])
    && dead <= Foot(h, c, At(a)) - {a}
    && (forall m :: 0 <= m < |ss| ==> if mask[m] then ItemFoot(h, c, a, m) <= dead else ItemFoot(h, c, a, m) !! dead)
  }

  /** A survivor's blocks are all still there. */
  lemma SurvivorHolds(h: Heap, g: Heap, base: Addr, k: nat, c: Cfg, a: Addr, b: Addr, mask: seq<bool>, p: seq<nat>,
                      dead: set<Addr>, l: nat)
    requires IsList(h, base, k, c, a) && |mask| == |h[a].slots| && AfterMove(h, g, base, c, a, b, mask, p, dead)
             && l < |p|
    ensures p[l] < |mask| && !mask[p[l]] && b !in ItemFoot(h, c, a, p[l])
    ensures ItemFoot(h, c, a, p[l]) <= Foot(h, c, At(a)) - dead - {a}
    ensures Holds(g, c.elem, g[b].slots[l]) && Foot(g, c.elem, g[b].slots[l]) == ItemFoot(h, c, a, p[l])
    ensures View(g, c.elem, g[b].slots[l]) == TreeAt(h, base, k, c).items[p[l]]
  {
    PickIsOrdered(mask, false, |mask|);
    assert p[l] in p && !mask[p[l]];
    assert ItemFoot(h, c, a, p[l]) <= Foot(h, c, At(a)) - {a};
    Frame(h, g, c.elem, h[a].slots[p[l]]);
  }

  lemma SurvivorsHold(h: Heap, g: Heap, base: Addr, k: nat, c: Cfg, a: Addr, b: Addr, mask: seq<bool>, p: seq<nat>,
                      dead: set<Addr>)
    requires IsList(h, base, k, c, a) && |mask| == |h[a].slots| && AfterMove(h, g, base, c, a, b, mask, p, dead)
    ensures Holds(g, c, At(b))
    ensures forall l :: 0 <= l < |p| ==> View(g, c.elem, g[b].slots[l]) == TreeAt(h, base, k, c).items[p[l]]
  {
    PickIncreases(mask, false, |mask|);
    forall l | 0 <= l < |p|
      ensures Holds(g, c.elem, g[b].slots[l]) && b !in Foot(g, c.elem, g[b].slots[l])
      ensures View(g, c.elem, g[b].slots[l]) == TreeAt(h, base, k, c).items[p[l]]
      ensures p[l] < |mask| && Foot(g, c.elem, g[b].slots[l]) == ItemFoot(h, c, a, p[l])
    {
      SurvivorHolds(h, g, base, k, c, a, b, mask, p, dead, l);
    }
    forall l, m | 0 <= l < m < |p|
      ensures Foot(g, c.elem, g[b].slots[l]) !! Foot(g, c.elem, g[b].slots[m])
    {
      assert p[l] < p[m];
    }
  }

  /** A block of the list other than its buffer belongs to an item. */
  lemma InItem(h: Heap, c: Cfg, a: Addr, x: Addr) returns (m: nat)
    requires c.List? && a in h && h[a].Block? && x in Foot(h, c, At(a)) && x != a
    ensures m < |h[a].slots| && x in ItemFoot(h, c, a, m)
  {
    var ss := h[a].slots;
    var i :| 0 <= i < |ss| && x in Foot(h, Kid(c, i), ss[i]);
    m := i;
  }

  lemma SurvivorsFoot(h: Heap, g: Heap, base: Addr, k: nat, c: Cfg, a: Addr, b: Addr, mask: seq<bool>, p: seq<nat>,
                      dead: set<Addr>)
    requires IsList(h, base, k, c, a) && |mask| == |h[a].slots| && AfterMove(h, g, base, c, a, b, mask, p, dead)
    ensures Foot(g, c, At(b)) == Foot(h, c, At(a)) - dead - {a} + {b}
  {
    forall x | x in Foot(h, c, At(a)) - dead - {a}
      ensures x in Foot(g, c, At(b))
    {
      StaysInFoot(h, g, base, k, c, a, b, mask, p, dead, x);
    }
    forall x | x in Foot(g, c, At(b)) && x != b
      ensures x in Foot(h, c, At(a)) - dead - {a}
    {
      var l := InItem(g, c, b, x);
      SurvivorHolds(h, g, base, k, c, a, b, mask, p, dead, l);
    }
  }

  lemma StaysInFoot(h: Heap, g: Heap, base: Addr, k: nat, c: Cfg, a: Addr, b: Addr, mask: seq<bool>, p: seq<nat>,
                    dead: set<Addr>, x: Addr)
    requires IsList(h, base, k, c, a) && |mask| == |h[a].slots| && AfterMove(h, g, base, c, a, b, mask, p, dead)
    requires x in Foot(h, c, At(a)) - dead - {a}
    ensures x in Foot(g, c, At(b))
  {
    var m := InItem(h, c, a, x);
    PickIsOrdered(mask, false, |mask|);
    assert m in p;
    var l: nat :| l < |p| && p[l] == m;
    SurvivorHolds(h, g, base, k, c, a, b, mask, p, dead, l);
    assert x in Foot(g, Kid(c, l), g[b].slots[l]);
  }

  /** In the end the new buffer takes the place of the old one. */
  lemma Moved(h: Heap, g: Heap, base: Addr, k: nat, c: Cfg, a: Addr, b: Addr, mask: seq<bool>, p: seq<nat>,
              dead: set<Addr>)
    requires IsList(h, base, k, c, a) && |mask| == |h[a].slots|
    requires Moving(h, g, c, a, b, mask, |mask|, p, dead)
    ensures a != base && Has(g, base, k)
    ensures var g' := (g - {a})[base := Block(g[base].slots[k := At(b)])];
            Updated(h, g', base, k, c, Items(Chosen(TreeAt(h, base, k, c).items, mask, false, |mask|)))
  {
    assert g[base] == h[base];
    var g' := (g - {a})[base := Block(g[base].slots[k := At(b)])];
    assert AfterMove(h, g', base, c, a, b, mask, p, dead);
    MovedTree(h, g', base, k, c, a, b, mask, p, dead);
  }

  lemma MovedTree(h: Heap, g: Heap, base: Addr, k: nat, c: Cfg, a: Addr, b: Addr, mask: seq<bool>, p: seq<nat>,
                  dead: set<Addr>)
    requires IsList(h, base, k, c, a) && |mask| == |h[a].slots| && AfterMove(h, g, base, c, a, b, mask, p, dead)
    requires base in g && g[base] == Block(h[base].slots[k := At(b)])
    ensures Updated(h, g, base, k, c, Items(Chosen(TreeAt(h, base, k, c).items, mask, false, |mask|)))
  {
    SurvivorsHold(h, g, base, k, c, a, b, mask, p, dead);
    SurvivorsFoot(h, g, base, k, c, a, b, mask, p, dead);
    var xs := TreeAt(h, base, k, c).items;
    ChosenAtPositions(xs, mask, false, |mask|);
    assert View(g, c, At(b)).items == Chosen(xs, mask, false, |mask|);
  }

  /** SELECTORS_MATCH on item `i` of the buffer. */
  method IsSelected(mem: Memory, c: Cfg, a: Addr, i: nat, sc: Cfg, sel: Tree) returns (selected: bool)
    requires c.List? && c.elem.Sequence? && Tracked(mem.cells, a, i, c.elem) && Fits(sc, sel)
    ensures selected == Meets(c.elem, TreeAt(mem.cells, a, i, c.elem), sc, sel)
  {
    SelectorsMatchIff(c.elem, TreeAt(mem.cells, a, i, c.elem), sc, sel);
    selected := SelectorsMatch(c.elem, TreeAt(mem.cells, a, i, c.elem), sc, sel);
  }

  /** The first pass: how many items stay. */
  method CountStaying(mem: Memory, c: Cfg, base: Addr, k: nat, a: Addr, sc: Cfg, sel: Tree) returns (count: nat)
    requires IsList(mem.cells, base, k, c, a) && c.elem.Sequence? && Fits(sc, sel)
    ensures var mask := Mask(c.elem, TreeAt(mem.cells, base, k, c).items, sc, sel);
            count == |Pick(mask, false, |mask|)|
  {
    var h := mem.cells;
    ghost var mask := Mask(c.elem, TreeAt(h, base, k, c).items, sc, sel);
    count := |h[a].slots|;
    for i := 0 to |h[a].slots|
      invariant count == |Pick(mask, false, i)| + |mask| - i
    {
      Inside(h, base, k, c, a, i);
      var selected := IsSelected(mem, c, a, i, sc, sel);
      if selected {
        count := count - 1;
      }
    }
  }

  /** The second pass: an item is freed or its pointer is moved, never both. */
  method MoveAndFree(mem: Memory, c: Cfg, base: Addr, k: nat, a: Addr, b: Addr, sc: Cfg, sel: Tree, ghost h: Heap)
    returns (ghost p: seq<nat>, ghost dead: set<Addr>)
    requires IsList(h, base, k, c, a) && c.elem.Sequence? && Fits(sc, sel)
    requires var mask := Mask(c.elem, TreeAt(h, base, k, c).items, sc, sel);
             |mask| == |h[a].slots| && Moving(h, mem.cells, c, a, b, mask, 0, [], {})
    modifies mem
    ensures var mask := Mask(c.elem, TreeAt(h, base, k, c).items, sc, sel);
            |mask| == |h[a].slots| && Moving(h, mem.cells, c, a, b, mask, |mask|, p, dead)
  {
    ghost var mask := Mask(c.elem, TreeAt(h, base, k, c).items, sc, sel);
    var j := 0;
    p, dead := [], {};
    for i := 0 to |mem.cells[a].slots|
      invariant Moving(h, mem.cells, c, a, b, mask, i, p, dead) && j == |p|
    {
      j, p, dead := MoveOrFree(mem, c, base, k, a, b, sc, sel, i, j, h, mask, p, dead);
    }
  }

  /** One turn of the loop. */
  method MoveOrFree(mem: Memory, c: Cfg, base: Addr, k: nat, a: Addr, b: Addr, sc: Cfg, sel: Tree, i: nat, j: nat,
                    ghost h: Heap, ghost mask: seq<bool>, ghost p: seq<nat>, ghost dead: set<Addr>)
    returns (j': nat, ghost p': seq<nat>, ghost dead': set<Addr>)
    requires IsList(h, base, k, c, a) && c.elem.Sequence? && Fits(sc, sel)
    requires mask == Mask(c.elem, TreeAt(h, base, k, c).items, sc, sel) && i < |mask| == |h[a].slots|
    requires Moving(h, mem.cells, c, a, b, mask, i, p, dead) && j == |p|
    modifies mem
    ensures Moving(h, mem.cells, c, a, b, mask, i + 1, p', dead') && j' == |p'|
  {
    ghost var g := mem.cells;
    StillTracked(h, g, base, k, c, a, b, mask, i, p, dead);
    PickMonotone(mask, false, i, |mask|);
    j', p', dead' := j, p, dead;
    var selected := IsSelected(mem, c, a, i, sc, sel);
    if selected {
      mem.Delete(c.elem, a, i);
      FreeOne(h, g, mem.cells, base, k, c, a, b, mask, i, p, dead);
      dead' := dead + ItemFoot(h, c, a, i);
    } else {
      mem.Assign(b, j, Ptr(mem.cells, a, i));
      MoveOne(h, g, mem.cells, base, k, c, a, b, mask, i, p, dead);
      p', j' := p + [i], j + 1;
    }
  }

  /** An item not yet looked at is as it was. */
  lemma StillTracked(h: Heap, g: Heap, base: Addr, k: nat, c: Cfg, a: Addr, b: Addr, mask: seq<bool>, i: nat,
                     p: seq<nat>, dead: set<Addr>)
    requires IsList(h, base, k, c, a) && i < |mask| == |h[a].slots| && Moving(h, g, c, a, b, mask, i, p, dead)
    ensures Tracked(g, a, i, c.elem) && FootAt(g, a, i, c.elem) == ItemFoot(h, c, a, i)
    ensures TreeAt(g, a, i, c.elem) == TreeAt(h, base, k, c).items[i] && Ptr(g, a, i) == h[a].slots[i]
  {
    assert ItemFoot(h, c, a, i) <= Foot(h, c, At(a)) - {a};
    Frame(h, g, c.elem, h[a].slots[i]);
  }

  /**
   DeleteListItems: the selected items are freed, the pointers to the others move to a new buffer, and
   the old buffer is freed. A new buffer over the bound is refused and nothing happens.
   */
  method DeleteListItems(mem: Memory, c: Cfg, base: Addr, k: nat, sc: Cfg, sel: Tree)
    requires c.List? && c.elem.Sequence? && Tracked(mem.cells, base, k, c) && Fits(sc, sel)
    modifies mem
    ensures var d := ListItems(c, TreeAt(old(mem.cells), base, k, c));
            var mask := Mask(c.elem, d, sc, sel);
            var survivors := Chosen(d, mask, false, |mask|);
            Updated(old(mem.cells), mem.cells, base, k, c,
                    if |survivors| == |d| || |survivors| > MAX_ELEMENTS then TreeAt(old(mem.cells), base, k, c)
                    else Items(survivors))
  {
    var h := mem.cells;
    Unchanged(h, base, k, c);
    var p := Ptr(h, base, k);
    if p.Nil? {
      return;
    }
    var a := p.addr;
    var count := CountStaying(mem, c, base, k, a, sc, sel);
    if count == |h[a].slots| || count > MAX_ELEMENTS {
      return;
    }
    var b := mem.Malloc(Block(seq(count, _ => Nil)));
    ghost var mask := Mask(c.elem, TreeAt(h, base, k, c).items, sc, sel);
    StartMoving(h, mem.cells, base, k, c, a, b, mask);
    ghost var moved, dead := MoveAndFree(mem, c, base, k, a, b, sc, sel, h);
    Moved(h, mem.cells, base, k, c, a, b, mask, moved, dead);
    mem.Free(a);
    mem.Assign(base, k, At(b));
  }
}
