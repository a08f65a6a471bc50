/**
 The data tree: a configuration describes a tree of C structures, and every generic operation walks
 the two together.

 A `Cfg` is a record of the configuration table, a `Tree` what a pointer slot of a structure holds:
 `Null` for a NULL pointer (or a reset tag), otherwise the leaf value, the structure with one slot
 per field, or the list buffer.
 */
module DataModel {
  import opened Errors
  import Durations
  import Calendar
  import DateTimeText

  // Which text parser a date or time leaf uses; they share one interface table.
  datatype TimeKind = DurationTime | DateOnly | ClockTime | DateAndTime | AbsoluteOrRelativeTime

  datatype LeafKind =
    | BoolLeaf
    | NumericLeaf
    | EnumLeaf(table: seq<(string, int)>)
    | StringLeaf
    | TimeLeaf(kind: TimeKind)

  datatype Scalar =
    | BoolValue(b: bool)
    | NumberValue(n: int)
    | EnumValue(e: int)
    | StringValue(s: string)
    | DurationValue(duration: Durations.Duration)
    | DateValue(date: DateTimeText.Date)
    | ClockValue(time: DateTimeText.TimeOfDay)
    | MomentValue(moment: Calendar.Moment)
    | EitherValue(either: DateTimeText.AbsoluteOrRelative)

  // The two bits of `flags` that anything looks at.
  datatype Flags = Flags(bit0: bool, bit1: bool)

  const NO_FLAGS := Flags(false, false)
  const IS_IDENTIFIER := Flags(true, false)
  const IS_SUB_IDENTIFIER := Flags(false, true)
  // The value is 3, so it carries both identifier bits.
  const IS_READ_ONLY := Flags(true, true)

  datatype Cfg =
    | Leaf(name: string, flags: Flags, kind: LeafKind)
    | Tag(name: string, flags: Flags)
    | Sequence(name: string, flags: Flags, fields: seq<Cfg>)
    | List(name: string, flags: Flags, simple: bool, elem: Cfg)

  /** One of the three flags makes a field an identifier. */
  predicate IsKeyField(c: Cfg) {
    c.flags == IS_IDENTIFIER || c.flags == IS_SUB_IDENTIFIER || c.flags == IS_READ_ONLY
  }

  datatype Tree =
    | Null
    | Set                       // a tag that is set
    | Value(scalar: Scalar)
    | Node(fields: seq<Tree>)   // a structure
    | Items(items: seq<Tree>)   // a list buffer, possibly of length zero

  // Upper bound for the length of a list buffer.
  const MAX_ELEMENTS := 10000

  predicate HasKind(v: Scalar, k: LeafKind) {
    match k
    case BoolLeaf => v.BoolValue?
    case NumericLeaf => v.NumberValue?
    case EnumLeaf(_) => v.EnumValue?
    case StringLeaf => v.StringValue?
    case TimeLeaf(DurationTime) => v.DurationValue?
    case TimeLeaf(DateOnly) => v.DateValue?
    case TimeLeaf(ClockTime) => v.ClockValue?
    case TimeLeaf(DateAndTime) => v.MomentValue?
    case TimeLeaf(AbsoluteOrRelativeTime) => v.EitherValue?
  }

  /** The tree has the shape that the configuration describes. */
  predicate Fits(c: Cfg, t: Tree)
    decreases c
  {
    match t
    case Null => true
    case Set => c.Tag?
    case Value(v) => c.Leaf? && HasKind(v, c.kind)
    case Node(fs) => c.Sequence? && |fs| == |c.fields| && forall i :: 0 <= i < |fs| ==> Fits(c.fields[i], fs[i])
    case Items(xs) => c.List? && forall i :: 0 <= i < |xs| ==> Fits(c.elem, xs[i])
  }

  predicate AllFit(c: Cfg, xs: seq<Tree>) {
    forall i :: 0 <= i < |xs| ==> Fits(c, xs[i])
  }

  /** Slot `i` of a structure; creating a missing structure leaves all its slots NULL. */
  function Slot(c: Cfg, t: Tree, i: nat): (r: Tree)
    requires c.Sequence? && Fits(c, t) && i < |c.fields|
    ensures Fits(c.fields[i], r)
  {
    if t.Null? then Null else t.fields[i]
  }

  /** The elements of a list slot; the size field of a NULL list is zero. */
  function ListItems(c: Cfg, t: Tree): (xs: seq<Tree>)
    requires c.List? && Fits(c, t)
    ensures AllFit(c.elem, xs)
  {
    if t.Null? then [] else t.items
  }

  /** EEBUS_DATA_TYPE_EQ: both records point to the same interface table. */
  predicate SameInterface(a: Cfg, b: Cfg) {
    match (a, b)
    case (Leaf(_, _, k), Leaf(_, _, l)) =>
      (k.BoolLeaf? && l.BoolLeaf?) || (k.NumericLeaf? && l.NumericLeaf?) || (k.EnumLeaf? && l.EnumLeaf?)
      || (k.StringLeaf? && l.StringLeaf?) || (k.TimeLeaf? && l.TimeLeaf?)
    case (Tag(_, _), Tag(_, _)) => true
    case (Sequence(_, _, _), Sequence(_, _, _)) => true
    case (List(_, _, s, _), List(_, _, t, _)) => s == t
    case _ => false
  }

  /** Only a structure can be empty: it exists and every slot is NULL. */
  predicate IsEmpty(c: Cfg, t: Tree)
    requires Fits(c, t)
  {
    t.Node? && forall i :: 0 <= i < |t.fields| ==> t.fields[i].Null?
  }

  /**
   `compare` over two configurations. Lists do not compare the interface tables, only that both are
   lists is taken for granted by the callers.
   */
  predicate Compare(ca: Cfg, a: Tree, cb: Cfg, b: Tree)
    requires Fits(ca, a) && Fits(cb, b)
    decreases ca
  {
    match ca
    case Leaf(_, _, _) => SameInterface(ca, cb) && a == b
    case Tag(_, _) => SameInterface(ca, cb) && a.Null? == b.Null?
    case Sequence(_, _, fs) =>
      && cb.Sequence?
      && if a.Null? || b.Null? then a == b
         else |fs| == |cb.fields|
              && forall i :: 0 <= i < |fs| ==> Compare(fs[i], a.fields[i], cb.fields[i], b.fields[i])
    case List(_, _, _, e) =>
      && cb.List?
      && if a.Null? || b.Null? then a == b
         else |a.items| == |b.items|
              && forall i :: 0 <= i < |a.items| ==> Compare(e, a.items[i], cb.elem, b.items[i])
  }

  /** Everything that the tree holds under `ca` has its counterpart in `cb`; names and flags may differ. */
  ghost predicate Comparable(ca: Cfg, a: Tree, cb: Cfg)
    requires Fits(ca, a)
    decreases ca
  {
    match ca
    case Sequence(_, _, fs) =>
      && cb.Sequence?
      && (a.Node? ==>
            && |fs| == |cb.fields|
            && forall i :: 0 <= i < |fs| ==> Comparable(fs[i], a.fields[i], cb.fields[i]))
    case List(_, _, _, e) =>
      cb.List? && (a.Items? ==> forall i :: 0 <= i < |a.items| ==> Comparable(e, a.items[i], cb.elem))
    case _ => SameInterface(ca, cb)
  }

  /** Over two configurations `compare` is equality of trees where the configurations correspond. */
  lemma {:induction false} CompareIff(ca: Cfg, a: Tree, cb: Cfg, b: Tree)
    requires Fits(ca, a) && Fits(cb, b)
    ensures Compare(ca, a, cb, b) <==> Comparable(ca, a, cb) && a == b
    decreases ca
  {
    if ca.Sequence? && cb.Sequence? && a.Node? && b.Node? && |ca.fields| == |cb.fields| {
      forall i | 0 <= i < |ca.fields|
        ensures Compare(ca.fields[i], a.fields[i], cb.fields[i], b.fields[i])
                <==> Comparable(ca.fields[i], a.fields[i], cb.fields[i]) && a.fields[i] == b.fields[i]
      {
        CompareIff(ca.fields[i], a.fields[i], cb.fields[i], b.fields[i]);
      }
    }
    if ca.List? && cb.List? && a.Items? && b.Items? && |a.items| == |b.items| {
      forall i | 0 <= i < |a.items|
        ensures Compare(ca.elem, a.items[i], cb.elem, b.items[i])
                <==> Comparable(ca.elem, a.items[i], cb.elem) && a.items[i] == b.items[i]
      {
        CompareIff(ca.elem, a.items[i], cb.elem, b.items[i]);
      }
    }
  }

  /** For one configuration `compare` is equality of trees, so an equivalence relation. */
  lemma {:induction false} CompareIsEquality(c: Cfg, a: Tree, b: Tree)
    requires Fits(c, a) && Fits(c, b)
    ensures Compare(c, a, c, b) <==> a == b
    decreases c
  {
    if c.Sequence? && a.Node? && b.Node? {
      forall i | 0 <= i < |c.fields|
        ensures Compare(c.fields[i], a.fields[i], c.fields[i], b.fields[i]) <==> a.fields[i] == b.fields[i]
      {
        CompareIsEquality(c.fields[i], a.fields[i], b.fields[i]);
      }
    }
    if c.List? && a.Items? && b.Items? && |a.items| == |b.items| {
      forall i | 0 <= i < |a.items|
        ensures Compare(c.elem, a.items[i], c.elem, b.items[i]) <==> a.items[i] == b.items[i]
      {
        CompareIsEquality(c.elem, a.items[i], b.items[i]);
      }
    }
  }
}
