/** What the decoder makes of any JSON value, not only of what the encoder writes. */
module JsonReading {
  import opened Errors
  import opened DataModel
  import opened Json
  import Durations
  import DateTimeText
  import DurationText
  import DurationGrammar

  // ---------------------------------------------------------------- finding a member

  predicate SameLetter(c: char, d: char) {
    c == d || ('A' <= c <= 'Z' && d as int == c as int + 32) || ('A' <= d <= 'Z' && c as int == d as int + 32)
  }

  /** Names are compared without regard to the case of the letters A to Z. */
  lemma NamesIgnoreCase(a: string, b: string)
    ensures EqualIgnoringCase(a, b) <==> |a| == |b| && forall i :: 0 <= i < |a| ==> SameLetter(a[i], b[i])
  {
    forall i | 0 <= i < |a| && i < |b|
      ensures Lower(a[i]) == Lower(b[i]) <==> SameLetter(a[i], b[i])
    {
      LowerIff(a[i], b[i]);
    }
  }

  lemma LowerIff(c: char, d: char)
    ensures Lower(c) == Lower(d) <==> SameLetter(c, d)
  {
  }

  /** Item `i` of the array is an object whose member `k` has the name. */
  predicate IsMember(js: seq<Json>, name: string, i: nat, k: nat) {
    i < |js| && js[i].JObject? && k < |js[i].members| && EqualIgnoringCase(js[i].members[k].0, name)
  }

  /** It is the first one, item by item. */
  ghost predicate IsFirst(js: seq<Json>, name: string, i: nat, k: nat) {
    IsMember(js, name, i, k) && forall x: nat, y: nat :: IsMember(js, name, x, y) ==> i < x || (i == x && k <= y)
  }

  lemma {:induction false} MemberFound(members: seq<(string, Json)>, name: string) returns (k: nat)
    ensures k <= |members|
    ensures forall y :: 0 <= y < k ==> !EqualIgnoringCase(members[y].0, name)
    ensures if k == |members| then GetMember(members, name) == None
            else EqualIgnoringCase(members[k].0, name) && GetMember(members, name) == Some(members[k].1)
  {
    if members == [] || EqualIgnoringCase(members[0].0, name) {
      k := 0;
    } else {
      var l := MemberFound(members[1..], name);
      k := l + 1;
    }
  }

  /** The search in a structure finds the first member of the name, or there is none. */
  lemma {:induction false} ItemFound(js: seq<Json>, name: string) returns (i: nat, k: nat)
    ensures if GetItem(js, name).None? then forall x: nat, y: nat :: !IsMember(js, name, x, y)
            else IsFirst(js, name, i, k) && GetItem(js, name) == Some(js[i].members[k].1)
    decreases |js|
  {
    i, k := 0, 0;
    if js != [] {
      if js[0].JObject? {
        k := MemberFound(js[0].members, name);
      }
      if GetObjectItem(js[0], name).None? {
        i, k := ItemFound(js[1..], name);
        i := i + 1;
        forall x: nat, y: nat
          ensures IsMember(js, name, x, y) <==> x > 0 && IsMember(js[1..], name, x - 1, y)
        {
        }
      }
    }
  }

  // ---------------------------------------------------------------- what a value means

  /** What a text means for a date or time leaf. */
  ghost predicate TextMeans(k: TimeKind, s: string, v: Scalar) {
    match k
    case DurationTime => v.DurationValue? && IsDurationText(s, v.duration)
    case DateOnly => v.DateValue? && DateTimeText.IsDateText(s, v.date)
    case ClockTime => v.ClockValue? && DateTimeText.IsTimeText(s, v.time)
    case DateAndTime => v.MomentValue? && IsMomentText(s, v.moment)
    case AbsoluteOrRelativeTime =>
      && v.EitherValue?
      && if v.either.Relative? then IsDurationText(s, v.either.duration)
         else IsMomentText(s, v.either.moment) && forall d :: !IsDurationText(s, d)
  }

  ghost predicate IsDurationText(s: string, d: Durations.Duration) {
    exists sign, ps :: DurationGrammar.SpellsText(s, d, sign, ps)
  }

  ghost predicate IsMomentText(s: string, m: DateTimeText.Moment) {
    exists d, t :: DateTimeText.SpellsDateTime(s, m, d, t)
  }

  ghost predicate LeafMeans(k: LeafKind, j: Json, t: Tree) {
    match k
    case BoolLeaf => j.JBool? && t == Value(BoolValue(j.b))
    case NumericLeaf => j.JNumber? && t.Value? && t.scalar.NumberValue? && IsTruncation(t.scalar.n, j.n)
    case StringLeaf => j.JString? && t == Value(StringValue(j.s))
    case TimeLeaf(kind) => j.JString? && t.Value? && TextMeans(kind, j.s, t.scalar)
    case EnumLeaf(table) =>
      && j.JString?
      && if forall i :: 0 <= i < |table| ==> table[i].0 != j.s then t == Null
         else exists i: nat :: IsFirstEntry(table, j.s, i) && t == Value(EnumValue(table[i].1))
  }

  predicate IsFirstEntry(table: seq<(string, int)>, name: string, i: nat) {
    i < |table| && table[i].0 == name && forall x :: 0 <= x < i ==> table[x].0 != name
  }

  /**
   What a JSON value means: a structure is an array of objects in any order, with members that are not
   its fields and later members of one name left aside; an empty array is an unset list.
   */
  ghost predicate Means(c: Cfg, j: Json, t: Tree)
    decreases c, 0
  {
    match c
    case Leaf(_, _, k) => LeafMeans(k, j, t)
    case Tag(_, _) => j == JArray([]) && t == Set
    case Sequence(_, _, fs) =>
      && j.JArray? && t.Node? && |t.fields| == |fs|
      && forall i :: 0 <= i < |fs| ==> FieldMeans(fs[i], j.items, t.fields[i])
    case List(_, _, _, e) =>
      && j.JArray? && |j.items| <= MAX_ELEMENTS
      && if j.items == [] then t == Null
         else t.Items? && |t.items| == |j.items| && forall i :: 0 <= i < |j.items| ==> Means(e, j.items[i], t.items[i])
  }

  ghost predicate FieldMeans(c: Cfg, js: seq<Json>, t: Tree)
    decreases c, 1
  {
    if forall i: nat, k: nat :: !IsMember(js, c.name, i, k) then t == Null
    else exists i: nat, k: nat :: IsFirst(js, c.name, i, k) && Means(c, js[i].members[k].1, t)
  }

  // ---------------------------------------------------------------- the decoder computes it

  lemma DurationTextMeans(s: string, d: Durations.Duration)
    ensures DurationText.ParseText(s) == DurationText.Parsed(Ok, d) <==> IsDurationText(s, d)
  {
    DurationGrammar.DurationTextIff(s, d);
  }

  lemma MomentTextMeans(s: string, m: DateTimeText.Moment)
    ensures DateTimeText.ParseDateTime(s) == Done(m) <==> IsMomentText(s, m)
  {
    DateTimeText.DateTimeTextIff(s, m);
  }

  lemma NoDurationText(s: string)
    ensures DurationText.ParseText(s).err != Ok <==> forall d :: !IsDurationText(s, d)
  {
    forall d
      ensures DurationText.ParseText(s) == DurationText.Parsed(Ok, d) <==> IsDurationText(s, d)
    {
      DurationTextMeans(s, d);
    }
    var r := DurationText.ParseText(s);
    assert r.err == Ok ==> r == DurationText.Parsed(Ok, r.value);
  }

  lemma EitherMeans(s: string, v: DateTimeText.AbsoluteOrRelative)
    ensures DateTimeText.ParseAbsoluteOrRelative(s) == Done(v)
            <==> if v.Relative? then IsDurationText(s, v.duration)
                 else IsMomentText(s, v.moment) && forall d :: !IsDurationText(s, d)
  {
    NoDurationText(s);
    if v.Relative? {
      DurationTextMeans(s, v.duration);
    } else {
      MomentTextMeans(s, v.moment);
    }
  }

  lemma TimeMeans(k: TimeKind, s: string, v: Scalar)
    ensures DecodeTime(k, s) == Done(Value(v)) <==> TextMeans(k, s, v)
  {
    match v
    case DurationValue(d) => DurationTextMeans(s, d);
    case DateValue(d) => DateTimeText.DateTextIff(s, d);
    case ClockValue(t) => DateTimeText.TimeTextIff(s, t);
    case MomentValue(m) => MomentTextMeans(s, m);
    case EitherValue(e) => EitherMeans(s, e);
    case _ =>
  }

  lemma LeafMeansIff(k: LeafKind, j: Json, t: Tree)
    ensures DecodeLeaf(k, j) == Done(t) <==> LeafMeans(k, j, t)
  {
    match k
    case NumericLeaf =>
      if j.JNumber? {
        FromDoubleTruncates(j.n, FromDouble(j.n));
        if t.Value? && t.scalar.NumberValue? {
          FromDoubleTruncates(j.n, t.scalar.n);
        }
      }
    case TimeLeaf(kind) =>
      if j.JString? && t.Value? {
        TimeMeans(kind, j.s, t.scalar);
      }
    case EnumLeaf(table) =>
      if j.JString? {
        UnknownNameIsUnset(table, j.s);
        var i := FirstEntry(table, j.s);
      }
    case _ =>
  }

  lemma {:induction false} FirstEntry(table: seq<(string, int)>, name: string) returns (i: nat)
    ensures i <= |table| && (forall x :: 0 <= x < i ==> table[x].0 != name)
    ensures i < |table| ==> IsFirstEntry(table, name, i)
  {
    i := 0;
    if table != [] && table[0].0 != name {
      var n := FirstEntry(table[1..], name);
      i := n + 1;
      assert forall x :: 0 < x < |table| ==> table[x] == table[1..][x - 1];
    }
  }

  /** The decoder accepts exactly the JSON values that mean something, and yields what they mean. */
  lemma {:induction false} DecodeIff(c: Cfg, j: Json, t: Tree)
    ensures Decode(c, j) == Done(t) <==> Means(c, j, t)
    decreases c, 0
  {
    match c
    case Leaf(_, _, k) => LeafMeansIff(k, j, t);
    case Tag(_, _) =>
    case Sequence(_, _, fs) =>
      if j.JArray? {
        FieldCount(c, j.items, 0);
        if t.Node? && |t.fields| == |fs| {
          FieldsIff(c, j.items, 0, t.fields);
          assert t.fields[0..] == t.fields;
        }
      }
    case List(_, _, _, e) =>
      if j.JArray? {
        ItemCount(c, j.items, 0);
        if t.Items? && |t.items| == |j.items| {
          ItemsIff(c, j.items, 0, t.items);
          assert t.items[0..] == t.items;
        }
      }
  }

  lemma {:induction false} FieldCount(c: Cfg, js: seq<Json>, i: nat)
    requires c.Sequence? && i <= |c.fields|
    ensures DecodeFields(c, js, i).Done? ==> |DecodeFields(c, js, i).value| == |c.fields| - i
    decreases c, 0, |c.fields| - i
  {
    if i < |c.fields| {
      FieldCount(c, js, i + 1);
    }
  }

  lemma {:induction false} ItemCount(c: Cfg, js: seq<Json>, i: nat)
    requires c.List? && i <= |js|
    ensures DecodeItems(c, js, i).Done? ==> |DecodeItems(c, js, i).value| == |js| - i
    decreases c, 0, |js| - i
  {
    if i < |js| {
      ItemCount(c, js, i + 1);
    }
  }

  lemma OneMore(first: Tree, rest: seq<Tree>, ts: seq<Tree>, i: nat)
    requires i < |ts|
    ensures [first] + rest == ts[i..] <==> first == ts[i] && rest == ts[i + 1..]
  {
    assert ts[i..] == [ts[i]] + ts[i + 1..];
    assert ([first] + rest)[1..] == rest;
  }

  function DecodeField(c: Cfg, js: seq<Json>): (r: Result<Tree>) {
    var item := GetItem(js, c.name);
    if item.Some? then Decode(c, item.value) else Done(Null)
  }

  lemma {:induction false} FieldIff(c: Cfg, js: seq<Json>, t: Tree)
    ensures DecodeField(c, js) == Done(t) <==> FieldMeans(c, js, t)
    decreases c, 1
  {
    var i, k := ItemFound(js, c.name);
    if GetItem(js, c.name).Some? {
      DecodeIff(c, js[i].members[k].1, t);
      assert IsMember(js, c.name, i, k);
      assert forall x: nat, y: nat :: IsFirst(js, c.name, x, y) ==> x == i && y == k;
    }
  }

  lemma {:induction false} FieldsIff(c: Cfg, js: seq<Json>, i: nat, ts: seq<Tree>)
    requires c.Sequence? && i <= |c.fields| == |ts|
    ensures DecodeFields(c, js, i) == Done(ts[i..])
            <==> forall x :: i <= x < |ts| ==> FieldMeans(c.fields[x], js, ts[x])
    decreases c, 0, |c.fields| - i
  {
    if i < |c.fields| {
      FieldIff(c.fields[i], js, ts[i]);
      FieldsIff(c, js, i + 1, ts);
      var first, rest := DecodeField(c.fields[i], js), DecodeFields(c, js, i + 1);
      if first.Done? && rest.Done? {
        OneMore(first.value, rest.value, ts, i);
      }
    } else {
      assert ts[i..] == [];
    }
  }

  lemma {:induction false} ItemsIff(c: Cfg, js: seq<Json>, i: nat, ts: seq<Tree>)
    requires c.List? && i <= |js| == |ts|
    ensures DecodeItems(c, js, i) == Done(ts[i..]) <==> forall x :: i <= x < |ts| ==> Means(c.elem, js[x], ts[x])
    decreases c, 0, |js| - i
  {
    if i < |js| {
      DecodeIff(c.elem, js[i], ts[i]);
      ItemsIff(c, js, i + 1, ts);
      var first, rest := Decode(c.elem, js[i]), DecodeItems(c, js, i + 1);
      if first.Done? && rest.Done? {
        OneMore(first.value, rest.value, ts, i);
      }
    } else {
      assert ts[i..] == [];
    }
  }

  /** What a message means: the first member of the root's name, or nothing is set. */
  lemma MessageIff(c: Cfg, members: seq<(string, Json)>, t: Tree)
    ensures DecodeRoot(c, JObject(members)) == Done(t) <==> FieldMeans(c, [JObject(members)], t)
  {
    var js := [JObject(members)];
    assert js[1..] == [];
    assert GetItem(js, c.name) == GetObjectItem(js[0], c.name);
    FieldIff(c, js, t);
  }
}
