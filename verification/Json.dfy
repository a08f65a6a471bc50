/**
 JSON encoding of the data tree. A structure becomes an array of one-member objects, one for each
 slot that is set; a list becomes an array of its items; a set tag becomes an empty array.
 */
module Json {
  import opened Errors
  import opened CInt
  import opened DataModel
  import Durations
  import DurationText
  import DateTimeText

  datatype Json =
    | JNull
    | JBool(b: bool)
    | JNumber(n: real)
    | JString(s: string)
    | JArray(items: seq<Json>)
    | JObject(members: seq<(string, Json)>)

  /** What to_json_object_item yields: no JSON item for an unset slot, an item, or an error. */
  datatype Encoded = Absent | Item(json: Json) | EncodeError(err: EebusError)

  // ---------------------------------------------------------------- object members

  function Lower(c: char): (r: char) {
    if 'A' <= c <= 'Z' then (c as int - 'A' as int + 'a' as int) as char else c
  }

  predicate EqualIgnoringCase(a: string, b: string) {
    |a| == |b| && forall i :: 0 <= i < |a| ==> Lower(a[i]) == Lower(b[i])
  }

  /** cJSON_GetObjectItem: the first member of that name, whatever its case. */
  function GetMember(members: seq<(string, Json)>, name: string): (r: Option<Json>) {
    if members == [] then None
    else if EqualIgnoringCase(members[0].0, name) then Some(members[0].1)
    else GetMember(members[1..], name)
  }

  function GetObjectItem(j: Json, name: string): (r: Option<Json>) {
    if j.JObject? then GetMember(j.members, name) else None
  }

  /** JsonGetItem inside a structure: the first array element that has such a member. */
  function GetItem(items: seq<Json>, name: string): (r: Option<Json>) {
    if items == [] then None
    else
      var m := GetObjectItem(items[0], name);
      if m.Some? then m else GetItem(items[1..], name)
  }

  /** JsonGetItem as the search loop it is. */
  method FindJsonItem(items: seq<Json>, name: string) returns (r: Option<Json>)
    ensures r == GetItem(items, name)
  {
    var j := 0;
    while j < |items|
      invariant j <= |items| && GetItem(items[j..], name) == GetItem(items, name)
    {
      r := GetObjectItem(items[j], name);
      if r.Some? {
        return;
      }
      j := j + 1;
    }
    r := None;
  }

  // ---------------------------------------------------------------- numbers

  const TWO_TO_53: int := 0x20_0000_0000_0000

  /** The spacing of doubles around `m`, as a power of two times `q`. */
  function Quantum(m: nat, q: nat): (r: nat)
    requires q > 0
    ensures r > 0
    decreases m - q
  {
    if m <= TWO_TO_53 * q then q else Quantum(m, 2 * q)
  }

  /** The multiple of `q` nearest to `m`, ties to the even one. */
  function RoundTo(m: nat, q: nat): (r: nat)
    requires q > 0
  {
    var k, r := m / q, m % q;
    if 2 * r < q || (2 * r == q && k % 2 == 0) then k * q else (k + 1) * q
  }

  /** The conversion of an integer to double. */
  function ToDouble(n: int): (r: real) {
    var m: int := RoundTo(Abs(n), Quantum(Abs(n), 1));
    (if n < 0 then -m else m) as real
  }

  /** The conversion of a double to an integer type that can hold it truncates toward zero. */
  function FromDouble(r: real): (result: int) {
    if r >= 0.0 then r.Floor else -((-r).Floor)
  }

  /** The integer part, whose sign is that of the number. */
  predicate IsTruncation(n: int, r: real) {
    if r >= 0.0 then 0.0 <= n as real <= r < (n + 1) as real else (n - 1) as real < r <= n as real <= 0.0
  }

  lemma FromDoubleTruncates(r: real, n: int)
    ensures FromDouble(r) == n <==> IsTruncation(n, r)
  {
  }

  /** The integer is a double. */
  predicate Representable(n: int) {
    Abs(n) % Quantum(Abs(n), 1) == 0
  }

  /** An integer survives the conversions exactly when it is a double. */
  lemma NumberRoundTripIff(n: int)
    ensures FromDouble(ToDouble(n)) == n <==> Representable(n)
  {
    var m, q := Abs(n), Quantum(Abs(n), 1);
    assert m == m / q * q + m % q;
    assert RoundTo(m, q) == m / q * q || RoundTo(m, q) == m / q * q + q;
    assert RoundTo(m, q) == m <==> m % q == 0;
    var r: int := RoundTo(m, q);
    assert FromDouble(ToDouble(n)) == if n < 0 then -r else r;
  }

  lemma SmallIsRepresentable(n: int)
    requires Abs(n) <= TWO_TO_53
    ensures Representable(n)
  {
  }

  /** The first integer that is lost. */
  lemma FirstLostInteger()
    ensures FromDouble(ToDouble(TWO_TO_53 + 1)) == TWO_TO_53
  {
    assert Quantum(TWO_TO_53 + 1, 1) == 2 by {
      assert Quantum(TWO_TO_53 + 1, 2) == 2;
    }
  }

  // ---------------------------------------------------------------- enumerations

  function NameOf(table: seq<(string, int)>, v: int): (r: Option<string>) {
    if table == [] then None else if table[0].1 == v then Some(table[0].0) else NameOf(table[1..], v)
  }

  function ValueOf(table: seq<(string, int)>, name: string): (r: Option<int>) {
    if table == [] then None else if table[0].0 == name then Some(table[0].1) else ValueOf(table[1..], name)
  }

  /** The table scans of the enum leaf, in both directions. */
  method ScanForValue(table: seq<(string, int)>, name: string) returns (r: Option<int>)
    ensures r == ValueOf(table, name)
  {
    var i := 0;
    while i < |table|
      invariant i <= |table| && ValueOf(table[i..], name) == ValueOf(table, name)
    {
      if table[i].0 == name {
        return Some(table[i].1);
      }
      i := i + 1;
    }
    r := None;
  }

  method ScanForName(table: seq<(string, int)>, v: int) returns (r: Option<string>)
    ensures r == NameOf(table, v)
  {
    var i := 0;
    while i < |table|
      invariant i <= |table| && NameOf(table[i..], v) == NameOf(table, v)
    {
      if table[i].1 == v {
        return Some(table[i].0);
      }
      i := i + 1;
    }
    r := None;
  }

  /** The first entry of the value is also the first of its name. */
  predicate NameIsFirst(table: seq<(string, int)>, v: int)
    ensures NameIsFirst(table, v) ==> NameOf(table, v).Some?
  {
    table != [] && if table[0].1 == v then true
                   else NameIsFirst(table[1..], v) && table[0].0 != NameOf(table[1..], v).value
  }

  /** A value comes back from its name exactly when no entry before its own has that name. */
  lemma {:induction false} EnumRoundTripIff(table: seq<(string, int)>, v: int)
    ensures NameOf(table, v).Some? && ValueOf(table, NameOf(table, v).value) == Some(v) <==> NameIsFirst(table, v)
  {
    if table != [] && table[0].1 != v {
      EnumRoundTripIff(table[1..], v);
    }
  }

  // ---------------------------------------------------------------- leaves

  function TextItem(valid: bool, text: string): (r: Encoded) {
    if valid then Item(JString(text)) else EncodeError(MemoryAllocate)
  }

  /** Text is only produced for valid dates and times; without text no JSON string can be created. */
  function EncodeLeaf(k: LeafKind, v: Scalar): (r: Encoded)
    requires HasKind(v, k)
  {
    match v
    case BoolValue(b) => Item(JBool(b))
    case NumberValue(n) => Item(JNumber(ToDouble(n)))
    case EnumValue(e) =>
      var name := NameOf(k.table, e);
      if name.Some? then Item(JString(name.value)) else EncodeError(InputArgumentOutOfRange)
    case StringValue(s) => Item(JString(s))
    case DurationValue(d) => TextItem(d.IsValid(), DurationText.Print(d))
    case DateValue(d) => if d.IsValid() then Item(JString(DateTimeText.PrintDate(d))) else EncodeError(MemoryAllocate)
    case ClockValue(t) => if t.IsValid() then Item(JString(DateTimeText.PrintTime(t))) else EncodeError(MemoryAllocate)
    case MomentValue(m) => if m.IsValid() then Item(JString(DateTimeText.PrintDateTime(m)))
      else EncodeError(MemoryAllocate)
    case EitherValue(e) =>
      if e.IsValid() then Item(JString(DateTimeText.PrintAbsoluteOrRelative(e))) else EncodeError(MemoryAllocate)
  }

  function DecodeTime(k: TimeKind, s: string): (r: Result<Tree>) {
    match k
    case DurationTime =>
      var d := DurationText.ParseText(s);
      if d.err == Ok then Done(Value(DurationValue(d.value))) else Failed(Parse)
    case DateOnly =>
      var d := DateTimeText.ParseDate(s);
      if d.Done? then Done(Value(DateValue(d.value))) else Failed(Parse)
    case ClockTime =>
      var t := DateTimeText.ParseTime(s);
      if t.Done? then Done(Value(ClockValue(t.value))) else Failed(Parse)
    case DateAndTime =>
      var m := DateTimeText.ParseDateTime(s);
      if m.Done? then Done(Value(MomentValue(m.value))) else Failed(Parse)
    case AbsoluteOrRelativeTime =>
      var e := DateTimeText.ParseAbsoluteOrRelative(s);
      if e.Done? then Done(Value(EitherValue(e.value))) else Failed(Parse)
  }

  /** An unknown enumeration name is accepted and leaves the slot unset. */
  function DecodeLeaf(k: LeafKind, j: Json): (r: Result<Tree>) {
    match k
    case BoolLeaf => if j.JBool? then Done(Value(BoolValue(j.b))) else Failed(Parse)
    case NumericLeaf => if j.JNumber? then Done(Value(NumberValue(FromDouble(j.n)))) else Failed(Parse)
    case EnumLeaf(table) =>
      if !j.JString? then Failed(Parse)
      else
        var v := ValueOf(table, j.s);
        Done(if v.Some? then Value(EnumValue(v.value)) else Null)
    case StringLeaf => if j.JString? then Done(Value(StringValue(j.s))) else Failed(Parse)
    case TimeLeaf(kind) => if j.JString? then DecodeTime(kind, j.s) else Failed(Parse)
  }

  /** An enumeration name leaves the slot unset exactly when the table has no entry of that name. */
  lemma {:induction false} UnknownNameIsUnset(table: seq<(string, int)>, name: string)
    ensures DecodeLeaf(EnumLeaf(table), JString(name)) == Done(Null)
            <==> forall i :: 0 <= i < |table| ==> table[i].0 != name
    ensures forall i :: 0 <= i < |table| && table[i].0 == name && (forall j :: 0 <= j < i ==> table[j].0 != name) ==>
              DecodeLeaf(EnumLeaf(table), JString(name)) == Done(Value(EnumValue(table[i].1)))
  {
    if table != [] && table[0].0 != name {
      UnknownNameIsUnset(table[1..], name);
      assert forall i :: 0 < i < |table| ==> table[i] == table[1..][i - 1];
    }
  }

  /** The leaf's JSON can be read back; for texts this is what the text round trips prove. */
  predicate LeafReadable(k: LeafKind, v: Scalar)
    requires HasKind(v, k)
  {
    match v
    case NumberValue(n) => Representable(n)
    case EnumValue(e) => NameIsFirst(k.table, e)
    case DurationValue(d) => d.IsValid() && DurationText.SecondsReadable(d)
    case DateValue(d) => d.IsValid()
    case ClockValue(t) => t.IsValid()
    case MomentValue(m) => m.IsValid()
    case EitherValue(e) => e.IsValid() && (e.Relative? ==> DurationText.SecondsReadable(e.duration))
    case _ => true
  }

  /** No component of a duration leaf is INT32_MIN, whose printing is undefined in C. */
  predicate LeafNegatable(v: Scalar) {
    (v.DurationValue? ==> v.duration.Negatable()) && (v.EitherValue? && v.either.Relative? ==>
      v.either.duration.Negatable())
  }

  /** A leaf encodes and decodes to itself exactly when it is readable. */
  lemma LeafRoundTripIff(k: LeafKind, v: Scalar)
    requires HasKind(v, k) && LeafNegatable(v)
    ensures EncodeLeaf(k, v).Item? && DecodeLeaf(k, EncodeLeaf(k, v).json) == Done(Value(v)) <==> LeafReadable(k, v)
  {
    match v
    case NumberValue(n) => NumberRoundTripIff(n);
    case EnumValue(e) => EnumRoundTripIff(k.table, e);
    case DurationValue(d) =>
      if d.IsValid() {
        DurationText.PrintThenParseIff(d);
      }
    case DateValue(d) =>
      if d.IsValid() {
        DateTimeText.DateRoundTrip(d);
      }
    case ClockValue(t) =>
      if t.IsValid() {
        DateTimeText.TimeRoundTrip(t, "");
        assert DateTimeText.PrintTime(t) + "" == DateTimeText.PrintTime(t);
      }
    case MomentValue(m) =>
      if m.IsValid() {
        DateTimeText.DateTimeRoundTrip(m, "");
        assert DateTimeText.PrintDateTime(m) + "" == DateTimeText.PrintDateTime(m);
      }
    case EitherValue(e) =>
      if e.IsValid() {
        DateTimeText.AbsoluteOrRelativeRoundTripIff(e);
      }
    case _ =>
  }

  // ---------------------------------------------------------------- trees

  function Encode(c: Cfg, t: Tree): (r: Encoded)
    requires Fits(c, t)
    decreases c, 1, 0
  {
    match t
    case Null => Absent
    case Set => Item(JArray([]))
    case Value(v) => EncodeLeaf(c.kind, v)
    case Node(_) =>
      var r := EncodeFields(c, t, 0);
      if r.Done? then Item(JArray(r.value)) else EncodeError(r.err)
    case Items(_) =>
      var r := EncodeItems(c, t, 0);
      if r.Done? then Item(JArray(r.value)) else EncodeError(r.err)
  }

  /** The one-member objects for the slots from `i` on; the first error ends it. */
  function EncodeFields(c: Cfg, t: Tree, i: nat): (r: Result<seq<Json>>)
    requires Fits(c, t) && t.Node? && i <= |c.fields|
    decreases c, 0, |c.fields| - i
  {
    if i == |c.fields| then Done([])
    else
      match Encode(c.fields[i], t.fields[i])
      case EncodeError(e) => Failed(e)
      case Absent => EncodeFields(c, t, i + 1)
      case Item(j) =>
        var rest := EncodeFields(c, t, i + 1);
        if rest.Done? then Done([JObject([(c.fields[i].name, j)])] + rest.value) else rest
  }

  /** The items from `i` on; an unset item has no JSON and cannot be added to an array. */
  function EncodeItems(c: Cfg, t: Tree, i: nat): (r: Result<seq<Json>>)
    requires Fits(c, t) && t.Items? && i <= |t.items|
    decreases c, 0, |t.items| - i
  {
    if i == |t.items| then Done([])
    else
      match Encode(c.elem, t.items[i])
      case EncodeError(e) => Failed(e)
      case Absent => Failed(MemoryAllocate)
      case Item(j) =>
        var rest := EncodeItems(c, t, i + 1);
        if rest.Done? then Done([j] + rest.value) else rest
  }

  function Decode(c: Cfg, j: Json): (r: Result<Tree>)
    decreases c, 1, 0
  {
    match c
    case Leaf(_, _, k) => DecodeLeaf(k, j)
    case Tag(_, _) => if j == JArray([]) then Done(Set) else Failed(Parse)
    case Sequence(_, _, _) =>
      if !j.JArray? then Failed(Parse)
      else
        var r := DecodeFields(c, j.items, 0);
        if r.Done? then Done(Node(r.value)) else Failed(r.err)
    case List(_, _, _, _) =>
      if !j.JArray? then Failed(Parse)
      else if j.items == [] then Done(Null)
      else if |j.items| > MAX_ELEMENTS then Failed(MemoryAllocate)
      else
        var r := DecodeItems(c, j.items, 0);
        if r.Done? then Done(Items(r.value)) else Failed(r.err)
  }

  function DecodeFields(c: Cfg, js: seq<Json>, i: nat): (r: Result<seq<Tree>>)
    requires c.Sequence? && i <= |c.fields|
    decreases c, 0, |c.fields| - i
  {
    if i == |c.fields| then Done([])
    else
      var item := GetItem(js, c.fields[i].name);
      var first := if item.Some? then Decode(c.fields[i], item.value) else Done(Null);
      if first.Failed? then Failed(first.err)
      else
        var rest := DecodeFields(c, js, i + 1);
        if rest.Done? then Done([first.value] + rest.value) else rest
  }

  function DecodeItems(c: Cfg, js: seq<Json>, i: nat): (r: Result<seq<Tree>>)
    requires c.List? && i <= |js|
    decreases c, 0, |js| - i
  {
    if i == |js| then Done([])
    else
      var first := Decode(c.elem, js[i]);
      if first.Failed? then Failed(first.err)
      else
        var rest := DecodeItems(c, js, i + 1);
        if rest.Done? then Done([first.value] + rest.value) else rest
  }

  // ---------------------------------------------------------------- round trip

  /** Sibling names differ by more than case, all the way down. */
  predicate DistinctFields(c: Cfg)
    decreases c
  {
    match c
    case Sequence(_, _, fs) =>
      && (forall i, j :: 0 <= i < j < |fs| ==> !EqualIgnoringCase(fs[i].name, fs[j].name))
      && (forall i :: 0 <= i < |fs| ==> DistinctFields(fs[i]))
    case List(_, _, _, e) => DistinctFields(e)
    case _ => true
  }

  /** Leaves are readable; lists are not empty, not over the bound, and have no unset items. */
  predicate Readable(c: Cfg, t: Tree)
    requires Fits(c, t)
    decreases c
  {
    match t
    case Value(v) => LeafReadable(c.kind, v)
    case Node(fs) => forall i :: 0 <= i < |fs| ==> Readable(c.fields[i], fs[i])
    case Items(xs) =>
      0 < |xs| <= MAX_ELEMENTS && forall i :: 0 <= i < |xs| ==> !xs[i].Null? && Readable(c.elem, xs[i])
    case _ => true
  }

  predicate Negatable(t: Tree) {
    match t
    case Value(v) => LeafNegatable(v)
    case Node(fs) => forall i :: 0 <= i < |fs| ==> Negatable(fs[i])
    case Items(xs) => forall i :: 0 <= i < |xs| ==> Negatable(xs[i])
    case _ => true
  }

  /** The tree has an encoding, unless it is unset, and decoding that gives exactly the tree. */
  predicate ComesBack(c: Cfg, t: Tree)
    requires Fits(c, t)
  {
    if t.Null? then Encode(c, t) == Absent
    else Encode(c, t).Item? && Decode(c, Encode(c, t).json) == Done(t)
  }

  /** A tree comes back from its encoding exactly when it is readable. */
  lemma {:induction false} RoundTripIff(c: Cfg, t: Tree)
    requires DistinctFields(c) && Fits(c, t) && Negatable(t)
    ensures ComesBack(c, t) <==> Readable(c, t)
    decreases c, 1
  {
    match t
    case Null =>
    case Set =>
    case Value(v) => LeafRoundTripIff(c.kind, v);
    case Node(fs) =>
      FieldsComeBackIff(c, t);
      forall i | 0 <= i < |fs|
        ensures ComesBack(c.fields[i], fs[i]) <==> Readable(c.fields[i], fs[i])
      {
        RoundTripIff(c.fields[i], fs[i]);
      }
    case Items(xs) =>
      ItemsComeBackIff(c, t);
      forall i | 0 <= i < |xs|
        ensures ComesBack(c.elem, xs[i]) <==> Readable(c.elem, xs[i])
      {
        RoundTripIff(c.elem, xs[i]);
      }
  }

  function JsonOf(c: Cfg, t: Tree): (r: Option<Json>)
    requires Fits(c, t)
  {
    var e := Encode(c, t);
    if e.Item? then Some(e.json) else None
  }

  /** The objects from slot `i` on hold exactly the encodings of those slots, found under their names. */
  lemma {:induction false} FieldsEncode(c: Cfg, t: Tree, i: nat)
    requires DistinctFields(c) && Fits(c, t) && t.Node? && i <= |c.fields|
    ensures EncodeFields(c, t, i).Done? <==> forall k :: i <= k < |c.fields| ==>
             !Encode(c.fields[k], t.fields[k]).EncodeError?
    ensures EncodeFields(c, t, i).Done? ==>
              && (forall k :: 0 <= k < i ==> GetItem(EncodeFields(c, t, i).value, c.fields[k].name) == None)
              && forall k :: i <= k < |c.fields| ==>
                   GetItem(EncodeFields(c, t, i).value, c.fields[k].name) == JsonOf(c.fields[k], t.fields[k])
    decreases |c.fields| - i
  {
    FieldsDoneIff(c, t, i);
    if i < |c.fields| && EncodeFields(c, t, i).Done? {
      FieldsEncode(c, t, i + 1);
      if Encode(c.fields[i], t.fields[i]).Item? {
        FieldFound(c, i, Encode(c.fields[i], t.fields[i]).json, EncodeFields(c, t, i + 1).value);
      }
    }
  }

  lemma {:induction false} FieldsDoneIff(c: Cfg, t: Tree, i: nat)
    requires DistinctFields(c) && Fits(c, t) && t.Node? && i <= |c.fields|
    ensures EncodeFields(c, t, i).Done? <==> forall k :: i <= k < |c.fields| ==>
             !Encode(c.fields[k], t.fields[k]).EncodeError?
    decreases |c.fields| - i
  {
    if i < |c.fields| {
      FieldsDoneIff(c, t, i + 1);
    }
  }

  /** The set slots from `i` on. */
  function SetSlots(t: Tree, i: nat): (ix: seq<nat>)
    requires t.Node? && i <= |t.fields|
    decreases |t.fields| - i
  {
    if i == |t.fields| then []
    else if t.fields[i].Null? then SetSlots(t, i + 1)
    else [i] + SetSlots(t, i + 1)
  }

  /** There is one object for each set slot, in the order of the fields, with the field's name. */
  lemma {:induction false} FieldsInOrder(c: Cfg, t: Tree, i: nat)
    requires c.Sequence? && Fits(c, t) && t.Node? && i <= |c.fields| && EncodeFields(c, t, i).Done?
    ensures var js, ix := EncodeFields(c, t, i).value, SetSlots(t, i);
            && |js| == |ix|
            && (forall k :: 0 <= k < |ix| ==> i <= ix[k] < |c.fields|)
            && forall k :: 0 <= k < |ix| ==>
                 var f, e := c.fields[ix[k]], Encode(c.fields[ix[k]], t.fields[ix[k]]);
                 e.Item? && js[k] == JObject([(f.name, e.json)])
    decreases |c.fields| - i
  {
    if i < |c.fields| {
      FieldsInOrder(c, t, i + 1);
      UnsetIsAbsent(c.fields[i], t.fields[i]);
    }
  }

  /** An object in front is found under its own field's name and no other. */
  lemma FieldFound(c: Cfg, i: nat, j: Json, rest: seq<Json>)
    requires c.Sequence? && DistinctFields(c) && i < |c.fields|
    ensures forall k :: 0 <= k < |c.fields| ==>
              GetItem([JObject([(c.fields[i].name, j)])] + rest, c.fields[k].name)
              == if k == i then Some(j) else GetItem(rest, c.fields[k].name)
  {
    var head := JObject([(c.fields[i].name, j)]);
    forall k | 0 <= k < |c.fields|
      ensures GetItem([head] + rest, c.fields[k].name) == if k == i then Some(j) else GetItem(rest, c.fields[k].name)
    {
      OneMember(head, rest, c.fields[k].name);
      SameNameOnly(c, i, k);
    }
  }

  lemma OneMember(head: Json, rest: seq<Json>, name: string)
    requires head.JObject? && |head.members| == 1
    ensures GetItem([head] + rest, name)
            == if EqualIgnoringCase(head.members[0].0, name) then Some(head.members[0].1) else GetItem(rest, name)
  {
    var all := [head] + rest;
    assert all[0] == head && all[1..] == rest;
    assert head.members[1..] == [];
    assert GetMember(head.members[1..], name) == None;
  }

  lemma SameNameOnly(c: Cfg, i: nat, k: nat)
    requires c.Sequence? && DistinctFields(c) && i < |c.fields| && k < |c.fields|
    ensures EqualIgnoringCase(c.fields[i].name, c.fields[k].name) <==> i == k
  {
    assert EqualIgnoringCase(c.fields[i].name, c.fields[k].name)
           <==> EqualIgnoringCase(c.fields[k].name, c.fields[i].name);
  }

  /** Decoding the fields from `i` on gives them back exactly when each of them comes back. */
  lemma {:induction false} FieldsDecodeIff(c: Cfg, t: Tree, i: nat)
    requires DistinctFields(c) && Fits(c, t) && t.Node? && i <= |c.fields| && EncodeFields(c, t, 0).Done?
    ensures DecodeFields(c, EncodeFields(c, t, 0).value, i) == Done(t.fields[i..])
            <==> forall k :: i <= k < |c.fields| ==> ComesBack(c.fields[k], t.fields[k])
    decreases |c.fields| - i
  {
    FieldsEncode(c, t, 0);
    var js := EncodeFields(c, t, 0).value;
    if i == |c.fields| {
      assert t.fields[i..] == [];
    } else {
      FieldsDecodeIff(c, t, i + 1);
      assert GetItem(js, c.fields[i].name) == JsonOf(c.fields[i], t.fields[i]);
      assert !Encode(c.fields[i], t.fields[i]).EncodeError?;
      UnsetIsAbsent(c.fields[i], t.fields[i]);
      HeadTail(DecodeFields(c, js, i), t.fields, i);
    }
  }

  /** Only an unset slot has no encoding, and it always has none. */
  lemma UnsetIsAbsent(c: Cfg, t: Tree)
    requires Fits(c, t)
    ensures Encode(c, t) == Absent <==> t.Null?
  {
  }

  lemma HeadTail(r: Result<seq<Tree>>, ts: seq<Tree>, i: nat)
    requires i < |ts|
    ensures r == Done(ts[i..]) <==> r.Done? && r.value != [] && r.value[0] == ts[i] && r.value[1..] == ts[i + 1..]
  {
    if r.Done? && r.value != [] {
      assert r.value == [r.value[0]] + r.value[1..];
      assert ts[i..] == [ts[i]] + ts[i + 1..];
    }
  }

  lemma FieldsComeBackIff(c: Cfg, t: Tree)
    requires DistinctFields(c) && Fits(c, t) && t.Node?
    ensures ComesBack(c, t) <==> forall k :: 0 <= k < |c.fields| ==> ComesBack(c.fields[k], t.fields[k])
  {
    FieldsEncode(c, t, 0);
    if EncodeFields(c, t, 0).Done? {
      FieldsDecodeIff(c, t, 0);
      assert t.fields[0..] == t.fields;
    }
  }

  /** The items from `i` on come back exactly when none is unset and each comes back. */
  lemma {:induction false} ItemsDecodeIff(c: Cfg, t: Tree, i: nat)
    requires Fits(c, t) && t.Items? && i <= |t.items|
    ensures var r := EncodeItems(c, t, i);
            && (r.Done? ==> |r.value| == |t.items| - i)
            && (r.Done? && DecodeItems(c, r.value, 0) == Done(t.items[i..])
                <==> forall k :: i <= k < |t.items| ==> !t.items[k].Null? && ComesBack(c.elem, t.items[k]))
    decreases |t.items| - i
  {
    if i == |t.items| {
      assert t.items[i..] == [];
    } else {
      ItemsDecodeIff(c, t, i + 1);
      UnsetIsAbsent(c.elem, t.items[i]);
      var e, rest := Encode(c.elem, t.items[i]), EncodeItems(c, t, i + 1);
      if e.Item? && rest.Done? {
        var all := [e.json] + rest.value;
        DecodeShifts(c, e.json, rest.value, 0);
        assert EncodeItems(c, t, i).value == all && all[0] == e.json;
        HeadTail(DecodeItems(c, all, 0), t.items, i);
      }
    }
  }

  lemma ItemsComeBackIff(c: Cfg, t: Tree)
    requires Fits(c, t) && t.Items?
    ensures ComesBack(c, t) <==>
              0 < |t.items| <= MAX_ELEMENTS && forall k :: 0 <= k < |t.items| ==>
                !t.items[k].Null? && ComesBack(c.elem, t.items[k])
  {
    ItemsDecodeIff(c, t, 0);
    assert t.items[0..] == t.items;
  }

  lemma {:induction false} DecodeShifts(c: Cfg, j: Json, js: seq<Json>, i: nat)
    requires c.List? && i <= |js|
    ensures DecodeItems(c, [j] + js, i + 1) == DecodeItems(c, js, i)
    decreases |js| - i
  {
    if i < |js| {
      DecodeShifts(c, j, js, i + 1);
    }
  }

  // ---------------------------------------------------------------- the root

  /** print_unformatted and parse, up to JSON text: the root object has the one member. */
  function EncodeRoot(c: Cfg, t: Tree): (r: Result<Json>)
    requires Fits(c, t)
  {
    match Encode(c, t)
    case EncodeError(e) => Failed(e)
    case Absent => Done(JObject([]))
    case Item(j) => Done(JObject([(c.name, j)]))
  }

  function DecodeRoot(c: Cfg, j: Json): (r: Result<Tree>) {
    var item := GetObjectItem(j, c.name);
    if item.None? then Done(Null) else Decode(c, item.value)
  }

  /** A whole message comes back exactly when it is readable, also when there is nothing in it. */
  lemma MessageRoundTripIff(c: Cfg, t: Tree)
    requires DistinctFields(c) && Fits(c, t) && Negatable(t)
    ensures EncodeRoot(c, t).Done? && DecodeRoot(c, EncodeRoot(c, t).value) == Done(t) <==> Readable(c, t)
  {
    RoundTripIff(c, t);
    UnsetIsAbsent(c, t);
  }

  /** An empty list is encoded as an empty array, which is read back as an unset list. */
  lemma EmptyListIsLost(name: string, flags: Flags, simple: bool, elem: Cfg)
    ensures var c := List(name, flags, simple, elem);
            && Encode(c, Items([])) == Item(JArray([]))
            && Decode(c, JArray([])) == Done(Null)
  {
  }
}
