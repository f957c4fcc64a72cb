/** Decoding inverts encoding. */
module RoundTrip {
  import opened Basics
  import opened Descriptor
  import opened Leaf
  import opened DecodeSpec
  import opened EncodeSpec
  import opened Merge
  import opened Message
  import opened Records
  import opened Required

  // ----- Sizes

  lemma {:induction false} FlattenPart(rs: seq<seq<byte>>, j: nat)
    requires j < |rs|
    ensures |rs[j]| <= |Flatten(rs)|
  {
    if j > 0 {
      FlattenPart(rs[1..], j - 1);
    }
  }

  // ----- Single records

  /** A record of field f, written with the field's own wire type, is a complete record that
      carries what its value's decoder sees. */
  lemma RecordParses(fields: seq<Field>, i: nat, b: seq<byte>, prior: Value, v: Value)
    requires WellFormed(fields) && i < |fields|
    requires DecodeValue(fields[i], b, prior) == Ok(v, [])
    ensures var f := fields[i];
            var r := EncTag(f.tag, WireType(f.ltype)) + b;
            Framed(fields, r) && ReadTag(r) == Tag(f.tag, WireType(f.ltype), b) && Find(fields, f.tag) == Some(i)
  {
    var f := fields[i];
    assert WellFormedField(f);
    TagRoundTrip(f.tag, WireType(f.ltype), b);
    FindsItself(fields, i);
    ValueSkips(f, b, prior);
  }

  lemma PackedRecordParses(fields: seq<Field>, i: nat, b: seq<byte>)
    requires WellFormed(fields) && i < |fields|
    requires fields[i].htype.Repeated? && Packable(fields[i].ltype) && |b| < TWO_32
    ensures var r := EncTag(fields[i].tag, WT_STRING) + EncBlock(b);
            && Framed(fields, r) && ReadTag(r) == Tag(fields[i].tag, WT_STRING, EncBlock(b))
            && Find(fields, fields[i].tag) == Some(i) && ReadBlock(EncBlock(b)) == Ok(b, [])
  {
    assert WellFormedField(fields[i]);
    TagRoundTrip(fields[i].tag, WT_STRING, EncBlock(b));
    FindsItself(fields, i);
    BlockRoundTrip(b, []);
    assert EncBlock(b) + [] == EncBlock(b);
  }

  // ----- Packed contents

  lemma HoldsTail(f: Field, items: seq<Value>)
    requires HoldsItems(f, items) && items != []
    ensures HoldsValue(f, items[0]) && HoldsItems(f, items[1..])
  {
    forall j | 0 <= j < |items[1..]| ensures HoldsValue(f, items[1..][j]) {
      assert items[1..][j] == items[j + 1];
    }
  }

  lemma PackableHolds(f: Field, items: seq<Value>)
    requires Packable(f.ltype) && HoldsItems(f, items) && items != []
    ensures HoldsLeaf(f, items[0]) && HoldsItems(f, items[1..])
    ensures CanonItems(f, items) == [CanonLeaf(f, items[0])] + CanonItems(f, items[1..])
  {
    HoldsTail(f, items);
  }

  predicate LeavesAs(f: Field, items: seq<Value>, vs: seq<Value>) {
    |vs| == |items| && forall j :: 0 <= j < |items| ==> HoldsLeaf(f, items[j]) && vs[j] == CanonLeaf(f, items[j])
  }

  lemma LeavesTail(f: Field, items: seq<Value>, vs: seq<Value>)
    requires LeavesAs(f, items, vs) && items != []
    ensures LeavesAs(f, items[1..], vs[1..])
    ensures HoldsLeaf(f, items[0]) && vs[0] == CanonLeaf(f, items[0]) && [vs[0]] + vs[1..] == vs
  {
  }

  lemma PackedNothing(f: Field, room: nat)
    ensures EncodePacked(f, []) == Some([]) && DecodePacked(f, [], room) == Some([])
  {
  }

  lemma PackedStep(f: Field, items: seq<Value>, vs: seq<Value>, room: nat)
    requires LeavesAs(f, items, vs) && items != [] && room > 0
    requires EncodePacked(f, items[1..]).Some?
    requires DecodePacked(f, EncodePacked(f, items[1..]).value, room - 1) == Some(vs[1..])
    ensures EncodePacked(f, items).Some?
    ensures DecodePacked(f, EncodePacked(f, items).value, room) == Some(vs)
  {
    var more := EncodePacked(f, items[1..]).value;
    LeavesTail(f, items, vs);
    LeafRoundTrip(f, items[0], more);
    assert EncodePacked(f, items) == Some(EncodeLeaf(f, items[0]).value + more);
  }

  lemma {:induction false} PackedItems(f: Field, items: seq<Value>, vs: seq<Value>, room: nat)
    requires Packable(f.ltype) && LeavesAs(f, items, vs) && |items| <= room
    ensures EncodePacked(f, items).Some?
    ensures DecodePacked(f, EncodePacked(f, items).value, room) == Some(vs)
    decreases |items|
  {
    if items == [] {
      PackedNothing(f, room);
    } else {
      LeavesTail(f, items, vs);
      PackedItems(f, items[1..], vs[1..], room - 1);
      PackedStep(f, items, vs, room);
    }
  }

  /** The contents of a packed array come back item by item. */
  lemma PackedRoundTrip(f: Field, items: seq<Value>, room: nat)
    requires Packable(f.ltype) && HoldsItems(f, items) && |items| <= room
    ensures EncodePacked(f, items).Some?
    ensures DecodePacked(f, EncodePacked(f, items).value, room) == Some(CanonItems(f, items))
  {
    forall j | 0 <= j < |items| ensures HoldsLeaf(f, items[j]) && CanonItems(f, items)[j] == CanonLeaf(f, items[j]) {
      assert HoldsValue(f, items[j]);
    }
    PackedItems(f, items, CanonItems(f, items), room);
  }

  /** Packed contents with more items than there is room for are refused. */
  lemma {:induction false} PackedOverflow(f: Field, items: seq<Value>, room: nat)
    requires Packable(f.ltype) && HoldsItems(f, items) && |items| > room && EncodePacked(f, items).Some?
    ensures DecodePacked(f, EncodePacked(f, items).value, room).None?
    decreases |items|
  {
    PackableHolds(f, items);
    var b, more := EncodeLeaf(f, items[0]), EncodePacked(f, items[1..]).value;
    LeafRoundTrip(f, items[0], more);
    assert EncodePacked(f, items) == Some(b.value + more);
    if room > 0 {
      PackedOverflow(f, items[1..], room - 1);
    }
  }

  // ----- Encoding succeeds on every struct that holds a message

  lemma {:induction false} ValueEncodes(f: Field, v: Value)
    requires WellFormedField(f) && HoldsValue(f, v)
    ensures EncodeValue(f, v).Some?
    decreases f, 1
  {
    if f.ltype.Submessage? {
      FromEncodes(f.ptr.fields, v.slots, 0);
    } else {
      LeafRoundTrip(f, v, []);
    }
  }

  lemma {:induction false} EachEncodes(f: Field, items: seq<Value>)
    requires WellFormedField(f) && HoldsItems(f, items)
    ensures EncodeEach(f, items).Some?
    decreases f, 2, |items|
  {
    if items != [] {
      assert HoldsValue(f, items[0]);
      ValueEncodes(f, items[0]);
      HoldsTail(f, items);
      EachEncodes(f, items[1..]);
    }
  }

  lemma {:induction false} FieldEncodes(fields: seq<Field>, i: nat, msg: seq<Slot>)
    requires WellFormed(fields) && Holds(fields, msg) && i < |fields|
    ensures EncodeField(fields, i, Get(msg, Leader(fields, i))).Some?
    decreases fields, 0
  {
    var f := fields[i];
    var k := Leader(fields, i);
    LeaderLeads(fields, i);
    assert WellFormedField(f) && HoldsSlot(fields, k, msg[k]);
    match f.htype
    case Required => SingleEncodes(f, msg[k].val);
    case Optional =>
      if msg[k].has {
        SingleEncodes(f, msg[k].val);
      }
    case Repeated =>
      if Packable(f.ltype) {
        PackedRoundTrip(f, msg[k].items, |msg[k].items|);
      } else {
        EachEncodes(f, msg[k].items);
      }
    case Oneof =>
      FindsItself(fields, i);
      if msg[k].which == f.tag {
        SingleEncodes(f, msg[k].val);
      }
  }

  lemma {:induction false} SingleEncodes(f: Field, v: Value)
    requires WellFormedField(f) && HoldsValue(f, v)
    ensures EncodeEach(f, [v]).Some?
    decreases f, 3
  {
    EachEncodes(f, [v]);
  }

  lemma {:induction false} FromEncodes(fields: seq<Field>, msg: seq<Slot>, i: nat)
    requires WellFormed(fields) && Holds(fields, msg) && i <= |fields|
    ensures EncodeFrom(fields, msg, i).Some?
    decreases fields, 1, |fields| - i
  {
    if i < |fields| {
      FieldEncodes(fields, i, msg);
      FromEncodes(fields, msg, i + 1);
    }
  }

  // ----- Receiving array items

  /** The state after items vs have been added to array i. */
  function ArrayStep(fields: seq<Field>, i: nat, vs: seq<Value>, st: State): State
    requires i < |fields|
  {
    var items := ItemsOf(Get(st.msg, i));
    if FixedCount(fields[i]) then
      match EnterFixed(fields, i, st)
      case None => st
      case Some(st1) =>
        st1.(msg := Put(st.msg, i, Array(Splice(items, st1.count, vs))), count := st1.count + |vs|)
    else st.(msg := Put(st.msg, i, Array(items + vs)))
  }

  /** The number of items array i already has, for what follows. */
  function Used(fields: seq<Field>, i: nat, st: State): nat
    requires i < |fields|
  {
    if FixedCount(fields[i]) then
      match EnterFixed(fields, i, st) { case None => 0 case Some(st1) => st1.count }
    else |ItemsOf(Get(st.msg, i))|
  }

  /** Array i can be received: its slot is an array, and no other fixed-count array is unfinished. */
  predicate Receiving(fields: seq<Field>, i: nat, st: State) {
    && i < |fields| == |st.msg|
    && fields[i].htype.Repeated? && fields[i].atype.Static?
    && st.msg[i].Array?
    && (FixedCount(fields[i]) ==> |st.msg[i].items| == fields[i].arraySize && EnterFixed(fields, i, st).Some?)
  }

  lemma SpliceTwice(items: seq<Value>, k: nat, vs: seq<Value>, ws: seq<Value>)
    requires k + |vs| + |ws| <= |items|
    ensures Splice(Splice(items, k, vs), k + |vs|, ws) == Splice(items, k, vs + ws)
  {
  }

  lemma ArrayStepsCompose(fields: seq<Field>, i: nat, vs: seq<Value>, ws: seq<Value>, st: State)
    requires Receiving(fields, i, st) && Used(fields, i, st) + |vs| + |ws| <= fields[i].arraySize
    ensures var st1 := ArrayStep(fields, i, vs, st);
            && Receiving(fields, i, st1) && Used(fields, i, st1) == Used(fields, i, st) + |vs|
            && ArrayStep(fields, i, ws, st1) == ArrayStep(fields, i, vs + ws, st)
  {
    var items := st.msg[i].items;
    if FixedCount(fields[i]) {
      SpliceTwice(items, Used(fields, i, st), vs, ws);
    } else {
      assert items + vs + ws == items + (vs + ws);
    }
  }

  /** A complete record of array i adds what its items decode to. */
  lemma ArrayRecord(fields: seq<Field>, i: nat, r: seq<byte>, vs: seq<Value>, st: State)
    requires Receiving(fields, i, st) && Framed(fields, r) && Find(fields, ReadTag(r).tag) == Some(i)
    requires DecodeItems(fields[i], ReadTag(r).wt, ReadTag(r).left, Room(fields[i], Used(fields, i, st))) == Ok(vs, [])
    ensures StepRecord(fields, r, st) == Some(ArrayStep(fields, i, vs, st))
  {
    var t := ReadTag(r);
    assert Leader(fields, i) == i;
    assert Step(fields, t.tag, t.wt, t.left, st) == StepField(fields, i, t.wt, t.left, st);
  }

  /** What a singular field's decoder starts from: the old contents, or nothing in a oneof. */
  function PriorOf(f: Field, slot: Slot): Value {
    if f.htype.Oneof? then Garbage else ItemOf(slot)
  }

  /** A complete record of a field that is not an array has the effect of its value's decoder. */
  lemma SingleRecord(fields: seq<Field>, i: nat, r: seq<byte>, b: seq<byte>, st: State)
    requires WellFormed(fields) && i < |fields| == |st.msg| && !fields[i].htype.Repeated?
    requires Framed(fields, r) && ReadTag(r) == Tag(fields[i].tag, WireType(fields[i].ltype), b)
    requires Find(fields, fields[i].tag) == Some(i)
    ensures var f := fields[i];
            var v := DecodeValue(f, b, PriorOf(f, Get(st.msg, i)));
            StepRecord(fields, r, st) ==
            if v.Fail? then None
            else Some(st.(msg := Put(st.msg, Leader(fields, i),
                                     if f.htype.Oneof? then Union(f.tag, v.value) else Single(true, v.value)),
                          seen := st.seen + Marks(fields, i)))
  {
    var f := fields[i];
    assert WellFormedField(f);
    var wt := WireType(f.ltype);
    assert Step(fields, f.tag, wt, b, st) == StepField(fields, i, wt, b, st);
    if f.htype.Oneof? {
      assert st.seen + Marks(fields, i) == st.seen;
    }
  }

  lemma ArrayRecordFails(fields: seq<Field>, i: nat, r: seq<byte>, st: State)
    requires Receiving(fields, i, st) && Framed(fields, r) && Find(fields, ReadTag(r).tag) == Some(i)
    requires DecodeItems(fields[i], ReadTag(r).wt, ReadTag(r).left, Room(fields[i], Used(fields, i, st))).Fail?
    ensures StepRecord(fields, r, st).None?
  {
    var t := ReadTag(r);
    assert Leader(fields, i) == i;
    assert Step(fields, t.tag, t.wt, t.left, st) == StepField(fields, i, t.wt, t.left, st);
  }

  // ----- Where the struct stands after the fields before i

  /** Whether slot k has its final contents once the fields before i have been decoded: a oneof
      waits for its chosen member. */
  predicate Settled(fields: seq<Field>, msg: seq<Slot>, k: nat, i: nat)
    requires k < |fields| == |msg|
  {
    if fields[k].htype.Oneof? && Leader(fields, k) == k && msg[k].Union? then
      match Chosen(fields, k, msg[k].which) { case None => true case Some(j) => j < i }
    else k < i
  }

  /** A fixed-count array that has records of its own. */
  predicate HasItems(f: Field) {
    FixedCount(f) && f.arraySize > 0
  }

  /** The last run of a fixed-count array was that of the last one among the fields before i, or of
      one behind them when it comes from an earlier message. */
  predicate RunsEnded(fields: seq<Field>, i: nat, st: State)
    requires i <= |fields|
  {
    && FixedComplete(fields, st)
    && (st.fixed.Some? ==> st.fixed.value < |fields| && HasItems(fields[st.fixed.value]))
    && (forall j :: 0 <= j < i && HasItems(fields[j]) ==> st.fixed.Some? && j <= st.fixed.value)
  }

  /** The array of that run begins a new run only behind another fixed-count array. */
  predicate Separated(fields: seq<Field>, i: nat, st: State) {
    st.fixed.Some? && i <= st.fixed.value < |fields| ==>
      exists k :: i <= k < st.fixed.value && HasItems(fields[k])
  }

  /** The fields before i have been decoded onto a struct that held `prior`. */
  ghost predicate At(fields: seq<Field>, prior: seq<Slot>, msg: seq<Slot>, i: nat, st: State)
    requires i <= |fields| == |msg| == |prior|
  {
    && |st.msg| == |fields|
    && (forall k {:trigger st.msg[k]} :: 0 <= k < |fields| ==>
          st.msg[k] == if Settled(fields, msg, k, i) then MergedSlot(fields, k, prior[k], msg[k]) else prior[k])
    && RunsEnded(fields, i, st)
    && (forall j :: 0 <= j < i ==> Marks(fields, j) <= st.seen)
  }

  /** A struct to decode onto, and a message to be decoded. */
  predicate Ready(fields: seq<Field>, prior: seq<Slot>, msg: seq<Slot>) {
    WellFormed(fields) && Bounded(fields, prior, Whole) && Holds(fields, msg)
  }

  /** The state after the records of field i. */
  function FieldDone(fields: seq<Field>, i: nat, prior: seq<Slot>, msg: seq<Slot>, st: State): State
    requires i < |fields|
  {
    var k := Leader(fields, i);
    var f := fields[i];
    if EncodeField(fields, i, Get(msg, k)) == Some([]) then st
    else State(Put(st.msg, k, MergedSlot(fields, k, Get(prior, k), Get(msg, k))), st.seen + Marks(fields, i),
               if FixedCount(f) then Some(i) else st.fixed, if FixedCount(f) then f.arraySize else st.count)
  }

  lemma MergedAbsent(fields: seq<Field>, i: nat, prior: seq<Slot>, msg: seq<Slot>)
    requires Ready(fields, prior, msg) && i < |fields|
    requires !fields[i].htype.Oneof?
    requires EncodeField(fields, i, msg[i]) == Some([])
    ensures MergedSlot(fields, i, prior[i], msg[i]) == prior[i] && FitsSlot(fields, i, prior[i], msg[i])
    ensures !fields[i].htype.Required?
  {
    var f := fields[i];
    assert WellFormedField(f) && HoldsSlot(fields, i, msg[i]) && BoundedSlot(fields, i, prior[i], Whole);
    if f.htype.Repeated? {
      assert CanonItems(f, []) == [];
      assert prior[i].items + [] == prior[i].items;
    }
  }

  lemma OneofEmits(fields: seq<Field>, i: nat, msg: seq<Slot>)
    requires WellFormed(fields) && Holds(fields, msg) && i < |fields| && fields[i].htype.Oneof?
    ensures var k := Leader(fields, i);
            && HoldsSlot(fields, k, msg[k]) && msg[k].Union?
            && (Chosen(fields, k, msg[k].which) == Some(i) <==> msg[k].which == fields[i].tag)
            && (EncodeField(fields, i, msg[k]) == Some([]) <==> msg[k].which != fields[i].tag)
  {
    LeaderLeads(fields, i);
    var k := Leader(fields, i);
    assert HoldsSlot(fields, k, msg[k]) && WellFormedField(fields[i]);
    FindsItself(fields, i);
  }

  /** Field i settles its own slot, and no other. */
  lemma SettledNext(fields: seq<Field>, i: nat, msg: seq<Slot>, l: nat)
    requires WellFormed(fields) && Holds(fields, msg) && i < |fields| && l < |fields|
    requires fields[i].htype.Oneof? ==> msg[Leader(fields, i)].Union?
    ensures Settled(fields, msg, l, i + 1) == Settled(fields, msg, l, i)
            || (!fields[i].htype.Oneof? && l == i)
            || (fields[i].htype.Oneof? && l == i && Leader(fields, i) != i)
            || (fields[i].htype.Oneof? && l == Leader(fields, i) && Chosen(fields, l, msg[l].which) == Some(i))
    ensures fields[i].htype.Oneof? && l == Leader(fields, i) && Chosen(fields, l, msg[l].which) == Some(i) ==>
              Settled(fields, msg, l, i + 1)
    ensures !fields[i].htype.Oneof? && l == i ==> Settled(fields, msg, l, i + 1)
  {
    LeaderLeads(fields, i);
  }

  lemma AtNextSlot(fields: seq<Field>, i: nat, prior: seq<Slot>, msg: seq<Slot>, st: State, l: nat)
    requires Ready(fields, prior, msg) && i < |fields| && At(fields, prior, msg, i, st) && l < |fields|
    ensures FieldDone(fields, i, prior, msg, st).msg[l] ==
            if Settled(fields, msg, l, i + 1) then MergedSlot(fields, l, prior[l], msg[l]) else prior[l]
  {
    var done := FieldDone(fields, i, prior, msg, st);
    if fields[i].htype.Oneof? {
      OneofEmits(fields, i, msg);
    } else if EncodeField(fields, i, msg[i]) == Some([]) {
      MergedAbsent(fields, i, prior, msg);
    }
    SettledNext(fields, i, msg, l);
    assert done.msg[l] == Get(done.msg, l) && st.msg[l] == Get(st.msg, l);
  }

  lemma FixedArraySends(fields: seq<Field>, i: nat, msg: seq<Slot>)
    requires WellFormed(fields) && Holds(fields, msg) && i < |fields|
    ensures FixedCount(fields[i]) ==> (EncodeField(fields, i, msg[i]) == Some([]) <==> !HasItems(fields[i]))
  {
    assert HoldsSlot(fields, i, msg[i]) && WellFormedField(fields[i]);
  }

  lemma AtNext(fields: seq<Field>, i: nat, prior: seq<Slot>, msg: seq<Slot>, st: State)
    requires Ready(fields, prior, msg) && i < |fields| && At(fields, prior, msg, i, st)
    ensures At(fields, prior, msg, i + 1, FieldDone(fields, i, prior, msg, st))
    ensures HasItems(fields[i]) ==> FieldDone(fields, i, prior, msg, st).fixed == Some(i)
    ensures !HasItems(fields[i]) ==> FieldDone(fields, i, prior, msg, st).fixed == st.fixed
  {
    var k := Leader(fields, i);
    var done := FieldDone(fields, i, prior, msg, st);
    FixedArraySends(fields, i, msg);
    if fields[i].htype.Oneof? {
      OneofEmits(fields, i, msg);
    } else if EncodeField(fields, i, msg[i]) == Some([]) {
      MergedAbsent(fields, i, prior, msg);
    }
    forall l | 0 <= l < |fields|
      ensures done.msg[l] ==
              if Settled(fields, msg, l, i + 1) then MergedSlot(fields, l, prior[l], msg[l]) else prior[l]
    {
      AtNextSlot(fields, i, prior, msg, st, l);
    }
  }

  // ----- The mutual induction over values, arrays, fields and messages

  predicate PriorBounded(f: Field, prior: Value) {
    f.ltype.Submessage? && f.ptr.SubFields? ==> Bounded(f.ptr.fields, PriorSlots(prior, f.ptr.fields), Whole)
  }

  /** An encoded item is merged into what was there, if that has room for it, whatever follows. */
  lemma {:induction false} ValueMerges(f: Field, v: Value, rest: seq<byte>, prior: Value)
    requires WellFormedField(f) && HoldsValue(f, v) && PriorBounded(f, prior)
    requires EncodeValue(f, v).Some? && |EncodeValue(f, v).value| < TWO_32
    ensures DecodeValue(f, EncodeValue(f, v).value + rest, prior)
            == if FitsValue(f, prior, v) then Ok(MergedValue(f, prior, v), rest) else Fail
    decreases f, 1
  {
    if f.ltype.Submessage? {
      var records := EncodeFrom(f.ptr.fields, v.slots, 0).value;
      MessageMerges(f.ptr.fields, PriorSlots(prior, f.ptr.fields), v.slots);
      BlockRoundTrip(Flatten(records), rest);
    } else {
      LeafRoundTrip(f, v, rest);
    }
  }

  /** An encoded item decodes to its observable part where there is nothing to merge with. */
  lemma {:induction false} ValueRoundTrip(f: Field, v: Value, rest: seq<byte>)
    requires WellFormedField(f) && HoldsValue(f, v)
    requires EncodeValue(f, v).Some? && |EncodeValue(f, v).value| < TWO_32
    ensures DecodeValue(f, EncodeValue(f, v).value + rest, Garbage) == Ok(CanonValue(f, v), rest)
    decreases f, 2
  {
    if f.ltype.Submessage? {
      DefaultsBounded(f.ptr.fields);
    }
    NewMergedValue(f, v, Garbage);
    ValueMerges(f, v, rest, Garbage);
  }

  /** The record of an item of field i. */
  lemma {:induction false} RecordOfValue(fields: seq<Field>, i: nat, v: Value)
    requires WellFormed(fields) && i < |fields| && HoldsValue(fields[i], v)
    requires EncodeRecord(fields[i], v).Some? && |EncodeRecord(fields[i], v).value| < TWO_32
    ensures var f := fields[i];
            var r := EncodeRecord(f, v).value;
            && EncodeValue(f, v).Some? && |EncodeValue(f, v).value| < TWO_32
            && Framed(fields, r) && ReadTag(r) == Tag(f.tag, WireType(f.ltype), EncodeValue(f, v).value)
            && Find(fields, f.tag) == Some(i)
            && DecodeValue(f, EncodeValue(f, v).value, Garbage) == Ok(CanonValue(f, v), [])
    decreases fields, 0
  {
    var f := fields[i];
    var b := EncodeValue(f, v).value;
    assert WellFormedField(f) && b + [] == b;
    ValueRoundTrip(f, v, []);
    RecordParses(fields, i, b, Garbage, CanonValue(f, v));
  }

  lemma EachCons(f: Field, items: seq<Value>)
    requires items != [] && EncodeEach(f, items).Some?
    ensures EncodeRecord(f, items[0]).Some? && EncodeEach(f, items[1..]).Some?
    ensures EncodeEach(f, items).value == [EncodeRecord(f, items[0]).value] + EncodeEach(f, items[1..]).value
    ensures |Flatten(EncodeEach(f, items).value)|
            == |EncodeRecord(f, items[0]).value| + |Flatten(EncodeEach(f, items[1..]).value)|
  {
  }

  lemma FoldCons(fields: seq<Field>, r: seq<byte>, more: seq<seq<byte>>, st: State)
    requires Framed(fields, r) && AllFramed(fields, more)
    ensures AllFramed(fields, [r] + more)
    ensures Fold(fields, [r] + more, st) ==
            match StepRecord(fields, r, st) { case None => None case Some(st1) => Fold(fields, more, st1) }
  {
    assert ([r] + more)[1..] == more;
  }

  /** The unpacked records of an array add its items in order. */
  lemma {:induction false} EachRoundTrip(fields: seq<Field>, i: nat, items: seq<Value>, st: State)
    requires WellFormed(fields) && Receiving(fields, i, st) && !Packable(fields[i].ltype)
    requires HoldsItems(fields[i], items) && Used(fields, i, st) + |items| <= fields[i].arraySize
    requires EncodeEach(fields[i], items).Some? && |Flatten(EncodeEach(fields[i], items).value)| < TWO_32
    ensures AllFramed(fields, EncodeEach(fields[i], items).value)
    ensures Fold(fields, EncodeEach(fields[i], items).value, st)
            == Some(if items == [] then st else ArrayStep(fields, i, CanonItems(fields[i], items), st))
    decreases fields, 1, |items|
  {
    var f := fields[i];
    if items != [] {
      EachCons(f, items);
      var r, more := EncodeRecord(f, items[0]).value, EncodeEach(f, items[1..]).value;
      HoldsTail(f, items);
      RecordOfValue(fields, i, items[0]);
      var c := CanonValue(f, items[0]);
      ArrayRecord(fields, i, r, [c], st);
      var st1 := ArrayStep(fields, i, [c], st);
      var others := CanonItems(f, items[1..]);
      assert CanonItems(f, items) == [c] + others;
      ArrayStepsCompose(fields, i, [c], others, st);
      EachRoundTrip(fields, i, items[1..], st1);
      FoldCons(fields, r, more, st);
      if items[1..] == [] {
        assert CanonItems(f, items) == [c];
      }
    }
  }

  /** One of them too many is refused. */
  lemma {:induction false} EachOverflows(fields: seq<Field>, i: nat, items: seq<Value>, st: State)
    requires WellFormed(fields) && Receiving(fields, i, st) && !Packable(fields[i].ltype)
    requires HoldsItems(fields[i], items) && Used(fields, i, st) <= fields[i].arraySize < Used(fields, i, st) + |items|
    requires EncodeEach(fields[i], items).Some? && |Flatten(EncodeEach(fields[i], items).value)| < TWO_32
    ensures AllFramed(fields, EncodeEach(fields[i], items).value)
    ensures Fold(fields, EncodeEach(fields[i], items).value, st).None?
    decreases fields, 1, |items|
  {
    var f := fields[i];
    EachCons(f, items);
    var r, more := EncodeRecord(f, items[0]).value, EncodeEach(f, items[1..]).value;
    HoldsTail(f, items);
    RecordOfValue(fields, i, items[0]);
    var c := CanonValue(f, items[0]);
    if Used(fields, i, st) < f.arraySize {
      ArrayRecord(fields, i, r, [c], st);
      ArrayStepsCompose(fields, i, [c], [], st);
      EachOverflows(fields, i, items[1..], ArrayStep(fields, i, [c], st));
    } else {
      ArrayRecordFails(fields, i, r, st);
      EachFramed(fields, i, items[1..]);
    }
    FoldCons(fields, r, more, st);
  }

  lemma {:induction false} EachFramed(fields: seq<Field>, i: nat, items: seq<Value>)
    requires WellFormed(fields) && i < |fields| && HoldsItems(fields[i], items)
    requires EncodeEach(fields[i], items).Some? && |Flatten(EncodeEach(fields[i], items).value)| < TWO_32
    ensures AllFramed(fields, EncodeEach(fields[i], items).value)
    decreases fields, 1, |items|
  {
    if items != [] {
      EachCons(fields[i], items);
      HoldsTail(fields[i], items);
      RecordOfValue(fields, i, items[0]);
      EachFramed(fields, i, items[1..]);
    }
  }

  /** Field i's slot is as the struct had it, unless the field overwrites it anyway. */
  predicate Awaiting(fields: seq<Field>, i: nat, prior: seq<Slot>, st: State)
    requires i < |fields| == |prior|
  {
    && |st.msg| == |fields| && FixedComplete(fields, st) && st.fixed != Some(i)
    && (!fields[i].htype.Oneof? ==> st.msg[i] == prior[i])
  }

  /** The record of a singular field merges its value. */
  lemma {:induction false} SingleMerges(fields: seq<Field>, i: nat, v: Value, st: State)
    requires WellFormed(fields) && i < |fields| == |st.msg| && !fields[i].htype.Repeated?
    requires HoldsValue(fields[i], v) && PriorBounded(fields[i], PriorOf(fields[i], Get(st.msg, i)))
    requires EncodeEach(fields[i], [v]).Some? && |Flatten(EncodeEach(fields[i], [v]).value)| < TWO_32
    ensures AllFramed(fields, EncodeEach(fields[i], [v]).value)
    ensures var f := fields[i];
            var prior := PriorOf(f, Get(st.msg, i));
            var m := MergedValue(f, prior, v);
            Fold(fields, EncodeEach(f, [v]).value, st) ==
            if FitsValue(f, prior, v) then
              Some(st.(msg := Put(st.msg, Leader(fields, i),
                                  if f.htype.Oneof? then Union(f.tag, m) else Single(true, m)),
                       seen := st.seen + Marks(fields, i)))
            else None
    decreases fields, 1, 0
  {
    var f := fields[i];
    EachCons(f, [v]);
    var r, b := EncodeRecord(f, v).value, EncodeValue(f, v).value;
    assert [v][1..] == [] && EncodeEach(f, [v]).value == [r] + [];
    RecordOfValue(fields, i, v);
    assert WellFormedField(f) && b + [] == b;
    ValueMerges(f, v, [], PriorOf(f, Get(st.msg, i)));
    SingleRecord(fields, i, r, b, st);
    FoldCons(fields, r, [], st);
  }

  lemma PackedArrayRoundTrip(fields: seq<Field>, i: nat, items: seq<Value>, st: State)
    requires WellFormed(fields) && Receiving(fields, i, st) && Used(fields, i, st) <= fields[i].arraySize
    requires HoldsItems(fields[i], items) && items != [] && Packable(fields[i].ltype)
    requires EncodeArray(fields[i], items).Some? && |Flatten(EncodeArray(fields[i], items).value)| < TWO_32
    ensures AllFramed(fields, EncodeArray(fields[i], items).value)
    ensures Fold(fields, EncodeArray(fields[i], items).value, st) ==
            if Used(fields, i, st) + |items| <= fields[i].arraySize
            then Some(ArrayStep(fields, i, CanonItems(fields[i], items), st)) else None
  {
    var f := fields[i];
    var b := EncodePacked(f, items).value;
    var r := EncTag(f.tag, WT_STRING) + EncBlock(b);
    var room := Room(f, Used(fields, i, st));
    assert [r] + [] == [r] && Flatten([r]) == r + [];
    PackedRecordParses(fields, i, b);
    if |items| <= room {
      PackedRoundTrip(f, items, room);
      ArrayRecord(fields, i, r, CanonItems(f, items), st);
    } else {
      PackedOverflow(f, items, room);
      ArrayRecordFails(fields, i, r, st);
    }
    FoldCons(fields, r, [], st);
  }

  /** The records of an array add its items, or are refused when there is no room for them. */
  lemma {:induction false} ArrayRoundTrip(fields: seq<Field>, i: nat, items: seq<Value>, st: State)
    requires WellFormed(fields) && Receiving(fields, i, st) && Used(fields, i, st) <= fields[i].arraySize
    requires HoldsItems(fields[i], items)
    requires EncodeArray(fields[i], items).Some? && |Flatten(EncodeArray(fields[i], items).value)| < TWO_32
    ensures AllFramed(fields, EncodeArray(fields[i], items).value)
    ensures Fold(fields, EncodeArray(fields[i], items).value, st) ==
            if items == [] then Some(st)
            else if Used(fields, i, st) + |items| <= fields[i].arraySize
            then Some(ArrayStep(fields, i, CanonItems(fields[i], items), st)) else None
    decreases fields, 2
  {
    if items == [] {
    } else if Packable(fields[i].ltype) {
      PackedArrayRoundTrip(fields, i, items, st);
    } else if Used(fields, i, st) + |items| <= fields[i].arraySize {
      EachRoundTrip(fields, i, items, st);
    } else {
      EachOverflows(fields, i, items, st);
    }
  }

  lemma PriorIsBounded(fields: seq<Field>, i: nat, slot: Slot)
    requires i < |fields| && WellFormedField(fields[i]) && BoundedSlot(fields, i, slot, Whole)
    requires fields[i].htype.Required? || fields[i].htype.Optional?
    ensures PriorBounded(fields[i], ItemOf(slot))
  {
    var f := fields[i];
    if f.ltype.Submessage? {
      assert BoundedValue(f, slot.val, Whole);
      assert Bounded(f.ptr.fields, slot.val.slots, Whole);
    }
  }

  /** The records of one field merge the field's slot, or are refused when it has no room. */
  lemma {:induction false} FieldMerges(fields: seq<Field>, i: nat, prior: seq<Slot>, msg: seq<Slot>, st: State)
    requires Ready(fields, prior, msg) && i < |fields| && Awaiting(fields, i, prior, st)
    requires EncodeField(fields, i, Get(msg, Leader(fields, i))).Some?
    requires |Flatten(EncodeField(fields, i, Get(msg, Leader(fields, i))).value)| < TWO_32
    ensures AllFramed(fields, EncodeField(fields, i, Get(msg, Leader(fields, i))).value)
    ensures Fold(fields, EncodeField(fields, i, Get(msg, Leader(fields, i))).value, st)
            == if FitsSlot(fields, i, prior[i], msg[i]) then Some(FieldDone(fields, i, prior, msg, st)) else None
    decreases fields, 3
  {
    var f := fields[i];
    var k := Leader(fields, i);
    LeaderLeads(fields, i);
    var slot := msg[k];
    assert HoldsSlot(fields, k, slot) && WellFormedField(f) && BoundedSlot(fields, k, prior[k], Whole);
    if f.htype.Oneof? {
      OneofEmits(fields, i, msg);
      assert HoldsSlot(fields, i, msg[i]);
      if slot.which == f.tag {
        NewMergedValue(f, slot.val, Garbage);
        if f.ltype.Submessage? {
          DefaultsBounded(f.ptr.fields);
        }
        SingleMerges(fields, i, slot.val, st);
      }
    } else if EncodeField(fields, i, slot) == Some([]) {
      MergedAbsent(fields, i, prior, msg);
    } else if f.htype.Repeated? {
      ArrayFieldMerges(fields, i, prior, msg, st);
    } else {
      PriorIsBounded(fields, i, prior[i]);
      SingleMerges(fields, i, slot.val, st);
    }
  }

  lemma {:induction false} ArrayFieldMerges(fields: seq<Field>, i: nat, prior: seq<Slot>, msg: seq<Slot>, st: State)
    requires Ready(fields, prior, msg) && i < |fields| && Awaiting(fields, i, prior, st) && fields[i].htype.Repeated?
    requires EncodeField(fields, i, msg[i]).Some? && EncodeField(fields, i, msg[i]) != Some([])
    requires |Flatten(EncodeField(fields, i, msg[i]).value)| < TWO_32
    ensures AllFramed(fields, EncodeField(fields, i, msg[i]).value)
    ensures Fold(fields, EncodeField(fields, i, msg[i]).value, st)
            == if FitsSlot(fields, i, prior[i], msg[i]) then Some(FieldDone(fields, i, prior, msg, st)) else None
    decreases fields, 3, 0
  {
    var f := fields[i];
    assert HoldsSlot(fields, i, msg[i]) && WellFormedField(f) && BoundedSlot(fields, i, prior[i], Whole);
    var items := msg[i].items;
    ArrayRoundTrip(fields, i, items, st);
    assert st.seen + Marks(fields, i) == st.seen;
    if FixedCount(f) {
      assert Splice(prior[i].items, 0, CanonItems(f, items)) == CanonItems(f, items);
    }
  }

  lemma AwaitingAt(fields: seq<Field>, prior: seq<Slot>, msg: seq<Slot>, i: nat, st: State)
    requires i < |fields| == |msg| == |prior| && At(fields, prior, msg, i, st) && st.fixed != Some(i)
    ensures Awaiting(fields, i, prior, st)
  {
    if !fields[i].htype.Oneof? {
      assert !Settled(fields, msg, i, i);
    }
  }

  /** Field i's records come first, and leave the rest of the fields to be decoded. */
  lemma {:induction false} FieldThenRest(fields: seq<Field>, prior: seq<Slot>, msg: seq<Slot>, i: nat, st: State)
    requires Ready(fields, prior, msg) && i < |fields| && At(fields, prior, msg, i, st) && st.fixed != Some(i)
    requires EncodeFrom(fields, msg, i).Some? && |Flatten(EncodeFrom(fields, msg, i).value)| < TWO_32
    ensures EncodeFrom(fields, msg, i + 1).Some? && |Flatten(EncodeFrom(fields, msg, i + 1).value)| < TWO_32
    ensures AllFramed(fields, EncodeFrom(fields, msg, i).value)
    ensures AllFramed(fields, EncodeFrom(fields, msg, i + 1).value)
    ensures var st1 := FieldDone(fields, i, prior, msg, st);
            var end := Fold(fields, EncodeFrom(fields, msg, i).value, st);
            if FitsSlot(fields, i, prior[i], msg[i]) then
              At(fields, prior, msg, i + 1, st1) && end == Fold(fields, EncodeFrom(fields, msg, i + 1).value, st1)
            else end.None?
    ensures FieldDone(fields, i, prior, msg, st).fixed == if HasItems(fields[i]) then Some(i) else st.fixed
    decreases fields, 4
  {
    var rs := EncodeField(fields, i, Get(msg, Leader(fields, i))).value;
    var more := EncodeFrom(fields, msg, i + 1).value;
    FlattenConcat(rs, more);
    AwaitingAt(fields, prior, msg, i, st);
    FieldMerges(fields, i, prior, msg, st);
    FromFramed(fields, msg, i + 1);
    FoldConcat(fields, rs, more, st);
    AtNext(fields, i, prior, msg, st);
  }

  lemma FitsNext(fields: seq<Field>, prior: seq<Slot>, msg: seq<Slot>, i: nat)
    requires i < |fields| == |prior| == |msg|
    ensures FitsFrom(fields, prior, msg, i)
            <==> FitsSlot(fields, i, prior[i], msg[i]) && FitsFrom(fields, prior, msg, i + 1)
  {
    assert Get(prior, i) == prior[i] && Get(msg, i) == msg[i];
  }

  lemma {:induction false} FromMerges(fields: seq<Field>, prior: seq<Slot>, msg: seq<Slot>, i: nat, st: State)
    requires Ready(fields, prior, msg) && i <= |fields| && At(fields, prior, msg, i, st) && Separated(fields, i, st)
    requires EncodeFrom(fields, msg, i).Some? && |Flatten(EncodeFrom(fields, msg, i).value)| < TWO_32
    ensures AllFramed(fields, EncodeFrom(fields, msg, i).value)
    ensures Fold(fields, EncodeFrom(fields, msg, i).value, st).Some? <==> FitsFrom(fields, prior, msg, i)
    ensures FitsFrom(fields, prior, msg, i) ==>
              At(fields, prior, msg, |fields|, Fold(fields, EncodeFrom(fields, msg, i).value, st).value)
    decreases fields, 5, |fields| - i
  {
    if i < |fields| {
      FieldThenRest(fields, prior, msg, i, st);
      FitsNext(fields, prior, msg, i);
      if FitsSlot(fields, i, prior[i], msg[i]) {
        FromMerges(fields, prior, msg, i + 1, FieldDone(fields, i, prior, msg, st));
      }
    }
  }

  /** The records of a message are complete records, whatever they are decoded onto. */
  lemma {:induction false} FromFramed(fields: seq<Field>, msg: seq<Slot>, i: nat)
    requires WellFormed(fields) && Holds(fields, msg) && i <= |fields|
    requires EncodeFrom(fields, msg, i).Some? && |Flatten(EncodeFrom(fields, msg, i).value)| < TWO_32
    ensures AllFramed(fields, EncodeFrom(fields, msg, i).value)
    decreases fields, 3, |fields| - i
  {
    if i < |fields| {
      var rs := EncodeField(fields, i, Get(msg, Leader(fields, i))).value;
      var more := EncodeFrom(fields, msg, i + 1).value;
      FlattenConcat(rs, more);
      FieldFramed(fields, i, msg);
      FromFramed(fields, msg, i + 1);
    }
  }

  lemma {:induction false} FieldFramed(fields: seq<Field>, i: nat, msg: seq<Slot>)
    requires WellFormed(fields) && Holds(fields, msg) && i < |fields|
    requires EncodeField(fields, i, Get(msg, Leader(fields, i))).Some?
    requires |Flatten(EncodeField(fields, i, Get(msg, Leader(fields, i))).value)| < TWO_32
    ensures AllFramed(fields, EncodeField(fields, i, Get(msg, Leader(fields, i))).value)
    decreases fields, 2
  {
    var f := fields[i];
    var k := Leader(fields, i);
    LeaderLeads(fields, i);
    var slot := msg[k];
    assert HoldsSlot(fields, k, slot) && WellFormedField(f);
    if EncodeField(fields, i, slot) == Some([]) {
    } else if f.htype.Repeated? && Packable(f.ltype) {
      var b := EncodePacked(f, slot.items).value;
      assert Flatten([EncTag(f.tag, WT_STRING) + EncBlock(b)]) == EncTag(f.tag, WT_STRING) + EncBlock(b) + [];
      PackedRecordParses(fields, i, b);
    } else if f.htype.Repeated? {
      EachFramed(fields, i, slot.items);
    } else {
      if f.htype.Oneof? {
        OneofEmits(fields, i, msg);
      }
      EachFramed(fields, i, [slot.val]);
    }
  }

  lemma RunGoesOn(fields: seq<Field>, prior: seq<Slot>, msg: seq<Slot>, i: nat, st: State)
    requires Ready(fields, prior, msg) && i < |fields| && At(fields, prior, msg, i, st) && st.fixed == Some(i)
    requires EncodeFrom(fields, msg, i).Some? && |Flatten(EncodeFrom(fields, msg, i).value)| < TWO_32
    ensures AllFramed(fields, EncodeFrom(fields, msg, i).value)
    ensures Fold(fields, EncodeFrom(fields, msg, i).value, st).None?
  {
    var rs := EncodeField(fields, i, msg[i]).value;
    var more := EncodeFrom(fields, msg, i + 1).value;
    assert !Settled(fields, msg, i, i);
    assert HoldsSlot(fields, i, msg[i]) && WellFormedField(fields[i]) && BoundedSlot(fields, i, prior[i], Whole);
    FlattenConcat(rs, more);
    ArrayRoundTrip(fields, i, msg[i].items, st);
    FromFramed(fields, msg, i + 1);
    FoldConcat(fields, rs, more, st);
  }

  /** Where the run of the only fixed-count array would go on, the message is refused. */
  lemma {:induction false} FromFails(fields: seq<Field>, prior: seq<Slot>, msg: seq<Slot>, i: nat, st: State)
    requires Ready(fields, prior, msg) && i <= |fields| && At(fields, prior, msg, i, st)
    requires st.fixed.Some? && i <= st.fixed.value && !Separated(fields, i, st)
    requires EncodeFrom(fields, msg, i).Some? && |Flatten(EncodeFrom(fields, msg, i).value)| < TWO_32
    ensures AllFramed(fields, EncodeFrom(fields, msg, i).value)
    ensures Fold(fields, EncodeFrom(fields, msg, i).value, st).None?
    decreases fields, 5, |fields| - i
  {
    if i < st.fixed.value {
      FieldThenRest(fields, prior, msg, i, st);
      assert !HasItems(fields[i]);
      if FitsSlot(fields, i, prior[i], msg[i]) {
        FromFails(fields, prior, msg, i + 1, FieldDone(fields, i, prior, msg, st));
      }
    } else {
      RunGoesOn(fields, prior, msg, i, st);
    }
  }

  lemma AtStart(fields: seq<Field>, prior: seq<Slot>, msg: seq<Slot>, st: State)
    requires Ready(fields, prior, msg) && st.msg == prior && RunsEnded(fields, 0, st)
    ensures At(fields, prior, msg, 0, st)
  {
    forall k | 0 <= k < |fields| && Settled(fields, msg, k, 0)
      ensures MergedSlot(fields, k, prior[k], msg[k]) == prior[k]
    {
      assert HoldsSlot(fields, k, msg[k]);
    }
  }

  lemma AtEnd(fields: seq<Field>, prior: seq<Slot>, msg: seq<Slot>, st: State)
    requires Ready(fields, prior, msg) && At(fields, prior, msg, |fields|, st)
    ensures st.msg == Merged(fields, prior, msg) && Complete(fields, st)
  {
    forall k | 0 <= k < |fields| ensures st.msg[k] == Merged(fields, prior, msg)[k] {
      assert Settled(fields, msg, k, |fields|);
    }
    forall k: nat | k < Tracked(fields) ensures k in st.seen {
      var j := RequiredAt(fields, |fields|, k);
      assert Marks(fields, j) <= st.seen && k in Marks(fields, j);
    }
  }

  /** The records that pb_encode writes for a message merge it into any struct, and then satisfy
      every check at the end; they are refused exactly when some array has no room. */
  lemma {:induction false} RecordsMerge(fields: seq<Field>, prior: seq<Slot>, msg: seq<Slot>, st: State)
    requires Ready(fields, prior, msg) && st.msg == prior && RunsEnded(fields, 0, st) && Separated(fields, 0, st)
    requires EncodeRecords(fields, msg).Some? && |Flatten(EncodeRecords(fields, msg).value)| < TWO_32
    ensures AllFramed(fields, EncodeRecords(fields, msg).value)
    ensures var end := Fold(fields, EncodeRecords(fields, msg).value, st);
            && (end.Some? <==> Fits(fields, prior, msg))
            && (end.Some? ==> end.value.msg == Merged(fields, prior, msg) && Complete(fields, end.value)
                              && RunsEnded(fields, |fields|, end.value))
    decreases fields, 6
  {
    AtStart(fields, prior, msg, st);
    FromMerges(fields, prior, msg, 0, st);
    var end := Fold(fields, EncodeRecords(fields, msg).value, st);
    if end.Some? {
      AtEnd(fields, prior, msg, end.value);
    }
  }

  /** Merging: pb_decode_noinit of what pb_encode wrote merges the message into the struct, at every
      nesting depth, and fails exactly when some array of the struct has no room for its items. */
  lemma {:induction false} MessageMerges(fields: seq<Field>, prior: seq<Slot>, msg: seq<Slot>)
    requires Ready(fields, prior, msg)
    requires Encode(fields, msg).Some? && |Encode(fields, msg).value| < TWO_32
    ensures DecodeNoinit(fields, Encode(fields, msg).value, prior)
            == if Fits(fields, prior, msg) then Ok(Merged(fields, prior, msg), []) else Fail
    decreases fields, 7
  {
    RecordsMerge(fields, prior, msg, Start(prior));
    LoopRecords(fields, EncodeRecords(fields, msg).value, Start(prior));
  }

  /** Round trip: pb_decode of what pb_encode wrote succeeds, consumes everything and restores the
      observable message, at every nesting depth. */
  lemma MessageRoundTrip(fields: seq<Field>, msg: seq<Slot>)
    requires WellFormed(fields) && Holds(fields, msg)
    requires Encode(fields, msg).Some? && |Encode(fields, msg).value| < TWO_32
    ensures Decode(fields, Encode(fields, msg).value) == Ok(Canon(fields, msg), [])
  {
    DefaultsBounded(fields);
    MergedIntoDefaults(fields, msg);
    MessageMerges(fields, Defaults(fields), msg);
  }

  /** Its records, decoded one by one. */
  lemma RecordsRoundTrip(fields: seq<Field>, msg: seq<Slot>) returns (st: State)
    requires WellFormed(fields) && Holds(fields, msg)
    requires EncodeRecords(fields, msg).Some? && |Flatten(EncodeRecords(fields, msg).value)| < TWO_32
    ensures AllFramed(fields, EncodeRecords(fields, msg).value)
    ensures Fold(fields, EncodeRecords(fields, msg).value, Start(Defaults(fields))) == Some(st)
    ensures st.msg == Canon(fields, msg) && Complete(fields, st) && RunsEnded(fields, |fields|, st)
  {
    DefaultsBounded(fields);
    MergedIntoDefaults(fields, msg);
    RecordsMerge(fields, Defaults(fields), msg, Start(Defaults(fields)));
    st := Fold(fields, EncodeRecords(fields, msg).value, Start(Defaults(fields))).value;
  }
}
