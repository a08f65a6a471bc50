/** What a merge does, said in terms of the flags and the leaves that carry them. */
module Identifiers {
  import opened Errors
  import opened DataModel
  import opened Overlay
  import opened Elements
  import opened Partial

  /** The record at the end of a path. */
  function RecordAt(c: Cfg, p: seq<nat>): (r: Cfg)
    requires IsPath(c, p)
    decreases c
  {
    if c.Sequence? then RecordAt(c.fields[p[0]], p[1..]) else c
  }

  /** The path leads to a leaf or tag with one of the identifier flags. */
  predicate IsKeyPath(c: Cfg, p: seq<nat>) {
    IsPath(c, p) && !RecordAt(c, p).List? && IsKeyField(RecordAt(c, p))
  }

  /** The source item has this identifier. */
  predicate HasKeyAt(c: Cfg, s: Tree, p: seq<nat>)
    requires Fits(c, s)
  {
    IsKeyPath(c, p) && !At(c, s, p).Null?
  }

  /** The source item has an identifier in which the other item differs from it. */
  ghost predicate Differs(c: Cfg, t: Tree, s: Tree)
    requires Fits(c, t) && Fits(c, s)
  {
    exists p :: HasKeyAt(c, s, p) && At(c, t, p) != At(c, s, p)
  }

  /** The flags are on leaves and tags, not on structures or lists: so it is in all configuration tables. */
  predicate KeysAreLeaves(c: Cfg)
    decreases c
  {
    match c
    case Sequence(_, _, fs) => !IsKeyField(c) && forall i :: 0 <= i < |fs| ==> KeysAreLeaves(fs[i])
    case List(_, _, _, _) => !IsKeyField(c)
    case _ => true
  }

  lemma {:induction false} LeafKeysAreListFree(c: Cfg)
    requires KeysAreLeaves(c)
    ensures IdentifiersListFree(c)
    decreases c
  {
    FlagsAreKeys(c);
    if c.Sequence? {
      forall i | 0 <= i < |c.fields|
        ensures IdentifiersListFree(c.fields[i])
      {
        LeafKeysAreListFree(c.fields[i]);
      }
    }
  }

  // ---------------------------------------------------------------- which items match

  lemma {:induction false} KeyIsIdentifier(c: Cfg, s: Tree, p: seq<nat>)
    requires Fits(c, s) && HasKeyAt(c, s, p)
    ensures HasIdentifiers(c, s)
    decreases c
  {
    FlagsAreKeys(c);
    if c.Sequence? {
      NothingBelowNull(c, p);
      KeyIsIdentifier(c.fields[p[0]], s.fields[p[0]], p[1..]);
    }
  }

  lemma {:induction false} IdentifierIsKey(c: Cfg, s: Tree) returns (p: seq<nat>)
    requires Fits(c, s) && KeysAreLeaves(c) && HasIdentifiers(c, s)
    ensures HasKeyAt(c, s, p)
    decreases c
  {
    FlagsAreKeys(c);
    p := [];
    if c.Sequence? {
      var i: nat :| i < |c.fields| && HasIdentifiers(c.fields[i], s.fields[i]);
      var q := IdentifierIsKey(c.fields[i], s.fields[i]);
      PathInField(c, s, i, q);
      p := [i] + q;
    }
  }

  /** An item has identifiers exactly when one of its flagged leaves is set. */
  lemma HasIdentifiersIff(c: Cfg, s: Tree)
    requires Fits(c, s) && KeysAreLeaves(c)
    ensures HasIdentifiers(c, s) <==> exists p :: HasKeyAt(c, s, p)
  {
    if HasIdentifiers(c, s) {
      var p := IdentifierIsKey(c, s);
    } else if p :| HasKeyAt(c, s, p) {
      KeyIsIdentifier(c, s, p);
    }
  }

  /** A set identifier that the old item does not share keeps the two apart, wherever else flags are. */
  lemma {:induction false} OtherKeyKeepsApart(c: Cfg, t: Tree, s: Tree, p: seq<nat>)
    requires Fits(c, t) && Fits(c, s) && HasKeyAt(c, s, p) && At(c, t, p) != At(c, s, p)
    ensures !IdentifiersMatch(c, t, s)
    decreases c
  {
    FlagsAreKeys(c);
    CompareIsEquality(c, t, s);
    if c.Sequence? && !HasIdentifierFlags(c) {
      KeyIsIdentifier(c, s, p);
      if t.Node? {
        OtherKeyKeepsApart(c.fields[p[0]], t.fields[p[0]], s.fields[p[0]], p[1..]);
      }
    }
  }

  lemma PathInField(c: Cfg, t: Tree, i: nat, q: seq<nat>)
    requires c.Sequence? && Fits(c, t) && t.Node? && i < |c.fields| && IsPath(c.fields[i], q)
    ensures IsPath(c, [i] + q) && RecordAt(c, [i] + q) == RecordAt(c.fields[i], q)
    ensures At(c, t, [i] + q) == At(c.fields[i], t.fields[i], q)
  {
    assert ([i] + q)[1..] == q;
  }

  lemma DiffersInField(c: Cfg, t: Tree, s: Tree, i: nat)
    requires Fits(c, t) && Fits(c, s) && t.Node? && s.Node? && i < |c.fields|
    requires Differs(c.fields[i], t.fields[i], s.fields[i])
    ensures Differs(c, t, s)
  {
    var q :| HasKeyAt(c.fields[i], s.fields[i], q)
             && At(c.fields[i], t.fields[i], q) != At(c.fields[i], s.fields[i], q);
    PathInField(c, t, i, q);
    PathInField(c, s, i, q);
    assert HasKeyAt(c, s, [i] + q);
  }

  /** Items that share every set identifier match, whatever their other fields hold. */
  lemma {:induction false} SameKeysMatch(c: Cfg, t: Tree, s: Tree)
    requires Fits(c, t) && Fits(c, s) && KeysAreLeaves(c) && !Differs(c, t, s)
    ensures IdentifiersMatch(c, t, s)
    decreases c
  {
    FlagsAreKeys(c);
    if c.Sequence? {
      if HasIdentifiers(c, s) {
        var p := IdentifierIsKey(c, s);
        NothingBelowNull(c, p);
        forall i | 0 <= i < |c.fields|
          ensures IdentifiersMatch(c.fields[i], t.fields[i], s.fields[i])
        {
          if Differs(c.fields[i], t.fields[i], s.fields[i]) {
            DiffersInField(c, t, s, i);
          }
          SameKeysMatch(c.fields[i], t.fields[i], s.fields[i]);
        }
      }
    } else if HasIdentifierFlags(c) && !s.Null? {
      assert HasKeyAt(c, s, []);
      CompareIsEquality(c, t, s);
    }
  }

  /** A source item matches an old item exactly when they differ in no identifier that the source item has. */
  lemma IdentifiersMatchIff(c: Cfg, t: Tree, s: Tree)
    requires Fits(c, t) && Fits(c, s) && KeysAreLeaves(c)
    ensures IdentifiersMatch(c, t, s) <==> !Differs(c, t, s)
  {
    if Differs(c, t, s) {
      var p :| HasKeyAt(c, s, p) && At(c, t, p) != At(c, s, p);
      OtherKeyKeepsApart(c, t, s, p);
    } else {
      SameKeysMatch(c, t, s);
    }
  }

  // ---------------------------------------------------------------- what a merge does with them

  ghost predicate DiffersFromAll(c: Cfg, ar: seq<Tree>, s: Tree)
    requires AllFit(c, ar) && Fits(c, s)
  {
    forall i :: 0 <= i < |ar| ==> Differs(c, ar[i], s)
  }

  lemma DifferingDoNotMatch(c: Cfg, ar: seq<Tree>, s: Tree)
    requires AllFit(c, ar) && Fits(c, s)
    ensures forall i :: 0 <= i < |ar| && Differs(c, ar[i], s) ==> !IdentifiersMatch(c, ar[i], s)
  {
    forall i | 0 <= i < |ar| && Differs(c, ar[i], s)
      ensures !IdentifiersMatch(c, ar[i], s)
    {
      var p :| HasKeyAt(c, s, p) && At(c, ar[i], p) != At(c, s, p);
      OtherKeyKeepsApart(c, ar[i], s, p);
    }
  }

  /** The old item that a source item is written to is the first that does not differ, if there is one. */
  lemma FindMatchIsFirstAlike(c: Cfg, ar: seq<Tree>, s: Tree)
    requires AllFit(c, ar) && Fits(c, s) && KeysAreLeaves(c)
    ensures var k := FindMatch(c, ar, s);
            && (forall i :: 0 <= i < k ==> Differs(c, ar[i], s))
            && (k < |ar| ==> !Differs(c, ar[k], s))
  {
    forall i | 0 <= i < |ar|
      ensures IdentifiersMatch(c, ar[i], s) <==> !Differs(c, ar[i], s)
    {
      IdentifiersMatchIff(c, ar[i], s);
    }
  }

  /** One source item leaves every old item that differs from it alone; differing from all, it is appended. */
  lemma StepLeavesOthers(c: Cfg, cur: seq<Tree>, m: nat, s: Tree)
    requires m <= |cur| && AllFit(c, cur) && Fits(c, s)
    ensures forall i :: 0 <= i < m && Differs(c, cur[i], s) ==> MergeStep(c, cur, m, s).items[i] == cur[i]
    ensures DiffersFromAll(c, cur[..m], s) ==> MergeStep(c, cur, m, s) == Merged(cur + [s], Ok)
  {
    DifferingDoNotMatch(c, cur[..m], s);
    forall i | 0 <= i < m && Differs(c, cur[i], s)
      ensures FindMatch(c, cur[..m], s) != i
    {
      assert cur[..m][i] == cur[i];
    }
  }

  /** Through a whole merge an old item that differs from every source item stays as it was. */
  lemma {:induction false} OthersAreUntouched(c: Cfg, cur: seq<Tree>, m: nat, src: seq<Tree>, i: nat)
    requires i < m <= |cur| && AllFit(c, cur) && AllFit(c, src)
    requires forall k :: 0 <= k < |src| ==> Differs(c, cur[i], src[k])
    ensures MergeFrom(c, cur, m, src).items[i] == cur[i]
    decreases |src|
  {
    if src != [] {
      StepLeavesOthers(c, cur, m, src[0]);
      OthersAreUntouched(c, MergeStep(c, cur, m, src[0]).items, m, src[1..], i);
    }
  }

  /** The source items that differ from every old item, in source order. */
  ghost function NewItems(c: Cfg, d: seq<Tree>, src: seq<Tree>): (r: seq<Tree>)
    requires AllFit(c, d) && AllFit(c, src)
  {
    if src == [] then []
    else if DiffersFromAll(c, d, src[0]) then [src[0]] + NewItems(c, d, src[1..])
    else NewItems(c, d, src[1..])
  }

  lemma {:induction false} UnmatchedAreNew(c: Cfg, d: seq<Tree>, src: seq<Tree>)
    requires AllFit(c, d) && AllFit(c, src) && KeysAreLeaves(c)
    ensures Unmatched(c, d, src) == NewItems(c, d, src)
  {
    if src != [] {
      FindMatchIsFirstAlike(c, d, src[0]);
      UnmatchedAreNew(c, d, src[1..]);
    }
  }

  /**
   A merge, by the flags: the old items stay in their places, those that differ from every source item
   in an identifier untouched, and the source items that differ from every old one follow, in order.
   */
  lemma MergeByIdentifiers(c: Cfg, d: Tree, s: Tree)
    requires c.List? && !c.simple && KeysAreLeaves(c.elem) && Fits(c, d) && Fits(c, s)
    requires s.Items? && s.items != [] && exists p :: HasKeyAt(c.elem, s.items[0], p)
    requires WritePartial(c, d, s).err == Ok
    ensures var xs := ListItems(c, d);
            var r := ListItems(c, WritePartial(c, d, s).tree);
            && |xs| <= |r| && r[|xs|..] == NewItems(c.elem, xs, s.items)
            && forall i :: 0 <= i < |xs| && (forall k :: 0 <= k < |s.items| ==> Differs(c.elem, xs[i], s.items[k]))
                 ==> r[i] == xs[i]
  {
    var xs := ListItems(c, d);
    HasIdentifiersIff(c.elem, s.items[0]);
    LeafKeysAreListFree(c.elem);
    PassesAgree(c.elem, xs, |xs|, s.items);
    assert xs[..|xs|] == xs;
    UnmatchedAreNew(c.elem, xs, s.items);
    forall i | 0 <= i < |xs| && forall k :: 0 <= k < |s.items| ==> Differs(c.elem, xs[i], s.items[k])
      ensures MergeFrom(c.elem, xs, |xs|, s.items).items[i] == xs[i]
    {
      OthersAreUntouched(c.elem, xs, |xs|, s.items, i);
    }
  }
}
