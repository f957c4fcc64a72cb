/** Decoding stays inside the struct's memory, whatever the bytes are. */
module Bounds {
  import opened Basics
  import opened Descriptor
  import opened Leaf
  import opened DecodeSpec
  import opened EncodeSpec
  import opened Merge
  import opened Message
  import opened RoundTrip

  lemma {:induction false} PackedBounded(f: Field, s: seq<byte>, room: nat)
    requires WellFormedField(f) && Packable(f.ltype) && DecodePacked(f, s, room).Some?
    ensures forall j :: 0 <= j < |DecodePacked(f, s, room).value| ==> HoldsLeaf(f, DecodePacked(f, s, room).value[j])
    decreases |s|
  {
    if s != [] {
      DecodedLeafHolds(f, s);
      PackedBounded(f, DecodeLeaf(f, s).rest, room - 1);
    }
  }

  lemma {:induction false} ValueBounded(f: Field, s: seq<byte>, prior: Value)
    requires WellFormedField(f) && DecodeValue(f, s, prior).Ok?
    requires f.ltype.Submessage? ==> Bounded(f.ptr.fields, PriorSlots(prior, f.ptr.fields), Whole)
    ensures BoundedValue(f, DecodeValue(f, s, prior).value, Whole)
    decreases |s|, 0
  {
    if f.ltype.Submessage? {
      ReadBlockShrinks(s);
      LoopBounded(f.ptr.fields, ReadBlock(s).value, Start(PriorSlots(prior, f.ptr.fields)));
    } else {
      DecodedLeafHolds(f, s);
    }
  }

  lemma {:induction false} NewValueBounded(f: Field, s: seq<byte>)
    requires WellFormedField(f) && DecodeValue(f, s, Garbage).Ok?
    ensures BoundedValue(f, DecodeValue(f, s, Garbage).value, Whole)
    decreases |s|, 1
  {
    if f.ltype.Submessage? {
      DefaultsBounded(f.ptr.fields);
    }
    ValueBounded(f, s, Garbage);
  }

  lemma {:induction false} ItemsBounded(f: Field, wt: nat, s: seq<byte>, room: nat)
    requires WellFormedField(f) && DecodeItems(f, wt, s, room).Ok?
    ensures BoundedItems(f, DecodeItems(f, wt, s, room).value, Whole)
    decreases |s|, 2
  {
    if PackedRecord(f, wt) {
      PackedBounded(f, ReadBlock(s).value, room);
    } else {
      NewValueBounded(f, s);
    }
  }

  lemma ArrayBounded(f: Field, items: seq<Value>, k: nat, vs: seq<Value>)
    requires BoundedItems(f, items, Whole) && BoundedItems(f, vs, Whole)
    ensures BoundedItems(f, Splice(items, k, vs), Whole)
    ensures BoundedItems(f, items + vs, Whole)
  {
    forall j | 0 <= j < |items + vs|
      ensures BoundedValue(f, (items + vs)[j], Whole) || (FixedCount(f) && (items + vs)[j].Garbage?)
    {
      assert (items + vs)[j] == if j < |items| then items[j] else vs[j - |items|];
    }
  }

  lemma {:induction false} StepFieldBounded(fields: seq<Field>, i: nat, wt: nat, s: seq<byte>, st: State)
    requires WellFormed(fields) && i < |fields|
    requires Bounded(fields, st.msg, Whole) && StepField(fields, i, wt, s, st).Ok?
    ensures Bounded(fields, StepField(fields, i, wt, s, st).value.msg, Whole)
    decreases |s|, 3
  {
    var f := fields[i];
    var k := Leader(fields, i);
    LeaderLeads(fields, i);
    var slot := st.msg[k];
    var done := StepField(fields, i, wt, s, st).value.msg;
    assert WellFormedField(f) && BoundedSlot(fields, k, slot, Whole);
    if f.htype.Repeated? {
      var room := Room(f, Used(fields, i, st));
      ItemsBounded(f, wt, s, room);
    } else if f.htype.Oneof? {
      NewValueBounded(f, s);
      FindsItself(fields, i);
    } else {
      SingleBounded(fields, i, s, st);
    }
    if f.htype.Repeated? {
      ArrayBounded(f, slot.items, Used(fields, i, st), DecodeItems(f, wt, s, Room(f, Used(fields, i, st))).value);
    }
    assert BoundedSlot(fields, k, done[k], Whole);
    assert forall j :: 0 <= j < |fields| && j != k ==> done[j] == st.msg[j];
  }

  lemma {:induction false} SingleBounded(fields: seq<Field>, i: nat, s: seq<byte>, st: State)
    requires WellFormed(fields) && i < |fields|
    requires fields[i].htype.Required? || fields[i].htype.Optional?
    requires Bounded(fields, st.msg, Whole) && DecodeValue(fields[i], s, ItemOf(st.msg[i])).Ok?
    ensures BoundedValue(fields[i], DecodeValue(fields[i], s, ItemOf(st.msg[i])).value, Whole)
    decreases |s|, 2
  {
    var f := fields[i];
    var v := ItemOf(st.msg[i]);
    assert WellFormedField(f) && BoundedSlot(fields, i, st.msg[i], Whole);
    if f.ltype.Submessage? {
      assert BoundedValue(f, v, Whole);
      assert Bounded(f.ptr.fields, v.slots, Whole);
    }
    ValueBounded(f, s, v);
  }

  lemma {:induction false} LoopBounded(fields: seq<Field>, s: seq<byte>, st: State)
    requires WellFormed(fields) && Bounded(fields, st.msg, Whole)
    ensures !Loop(fields, s, st).Broken? ==> Bounded(fields, Loop(fields, s, st).st.msg, Whole)
    decreases |s|, 4
  {
    if s != [] && ReadTag(s).Tag? {
      var t := ReadTag(s);
      ReadTagShrinks(s);
      var r := Step(fields, t.tag, t.wt, t.left, st);
      if r.Ok? {
        match Find(fields, t.tag) {
          case None =>
          case Some(i) => StepFieldBounded(fields, i, t.wt, t.left, st);
        }
        LoopBounded(fields, r.rest, r.value);
      }
    }
  }

  /** Merging any bytes into a struct within its bounds leaves it within its bounds. */
  lemma MergeStaysInBounds(fields: seq<Field>, s: seq<byte>, msg: seq<Slot>)
    requires WellFormed(fields) && Bounded(fields, msg, Whole) && DecodeNoinit(fields, s, msg).Ok?
    ensures Bounded(fields, DecodeNoinit(fields, s, msg).value, Whole)
  {
    LoopBounded(fields, s, Start(msg));
  }

  /** Whatever bytes pb_decode accepts, the struct it leaves is within its bounds. */
  lemma DecodeStaysInBounds(fields: seq<Field>, s: seq<byte>)
    requires WellFormed(fields) && Decode(fields, s).Ok?
    ensures Bounded(fields, Decode(fields, s).value, Whole)
  {
    DefaultsBounded(fields);
    MergeStaysInBounds(fields, s, Defaults(fields));
  }

  // ----- Messages that can be encoded again

  /** What is present has been written, the items of fixed-count arrays included. */
  predicate Written(fields: seq<Field>, msg: seq<Slot>)
    decreases fields, 1
  {
    forall i | 0 <= i < |fields| :: WrittenSlot(fields, i, Get(msg, i))
  }

  predicate WrittenSlot(fields: seq<Field>, i: nat, slot: Slot)
    requires i < |fields|
    decreases fields, 0
  {
    match slot
    case Single(has, v) => has ==> WrittenValue(fields[i], v)
    case Array(items) => ItemsWritten(fields[i], items)
    case Union(which, v) =>
      (match Chosen(fields, i, which) { case None => true case Some(j) => WrittenValue(fields[j], v) })
    case Shared => true
  }

  predicate ItemsWritten(f: Field, items: seq<Value>)
    decreases f, 1
  {
    forall j | 0 <= j < |items| :: WrittenValue(f, items[j])
  }

  predicate WrittenValue(f: Field, v: Value)
    decreases f, 0
  {
    !v.Garbage? && (f.ltype.Submessage? && f.ptr.SubFields? && v.Msg? ==> Written(f.ptr.fields, v.slots))
  }

  /** A struct within its bounds holds a message exactly when that is so. */
  lemma {:induction false} HoldsExactly(fields: seq<Field>, msg: seq<Slot>)
    requires Bounded(fields, msg, Whole)
    ensures Holds(fields, msg) <==> Written(fields, msg)
    decreases fields, 1
  {
    forall i | 0 <= i < |fields| ensures HoldsSlot(fields, i, msg[i]) <==> WrittenSlot(fields, i, msg[i]) {
      HoldsSlotExactly(fields, i, msg[i]);
    }
    assert forall i :: 0 <= i < |fields| ==> Get(msg, i) == msg[i];
  }

  lemma {:induction false} HoldsSlotExactly(fields: seq<Field>, i: nat, slot: Slot)
    requires i < |fields| && BoundedSlot(fields, i, slot, Whole)
    ensures HoldsSlot(fields, i, slot) <==> WrittenSlot(fields, i, slot)
    decreases fields, 0
  {
    var f := fields[i];
    match slot
    case Single(_, v) =>
      if BoundedValue(f, v, Whole) {
        HoldsValueExactly(f, v);
      }
    case Array(items) =>
      forall j | 0 <= j < |items| ensures HoldsValue(f, items[j]) <==> WrittenValue(f, items[j]) {
        if !items[j].Garbage? {
          HoldsValueExactly(f, items[j]);
        }
      }
      assert HoldsItems(f, items) <==> ItemsWritten(f, items);
    case Union(which, v) =>
      var chosen := Chosen(fields, i, which);
      if chosen.Some? {
        HoldsValueExactly(fields[chosen.value], v);
      }
    case Shared =>
  }

  lemma {:induction false} HoldsValueExactly(f: Field, v: Value)
    requires BoundedValue(f, v, Whole)
    ensures HoldsValue(f, v) <==> WrittenValue(f, v)
    decreases f, 0
  {
    if f.ltype.Submessage? {
      HoldsExactly(f.ptr.fields, v.slots);
    }
  }

  /** No fixed-count array at any depth. */
  predicate NoFixedDeep(fields: seq<Field>)
    decreases fields, 1
  {
    forall i | 0 <= i < |fields| :: NoFixedField(fields[i])
  }

  predicate NoFixedField(f: Field)
    decreases f, 0
  {
    !FixedCount(f) && (f.ltype.Submessage? && f.ptr.SubFields? ==> NoFixedDeep(f.ptr.fields))
  }

  /** Without fixed-count arrays, nothing within bounds is unwritten. */
  lemma {:induction false} AllWritten(fields: seq<Field>, msg: seq<Slot>)
    requires NoFixedDeep(fields) && Bounded(fields, msg, Whole)
    ensures Written(fields, msg)
    decreases fields, 1
  {
    forall i | 0 <= i < |fields| ensures WrittenSlot(fields, i, Get(msg, i)) {
      SlotWritten(fields, i, msg[i]);
    }
  }

  lemma {:induction false} SlotWritten(fields: seq<Field>, i: nat, slot: Slot)
    requires NoFixedDeep(fields) && i < |fields| && BoundedSlot(fields, i, slot, Whole)
    ensures WrittenSlot(fields, i, slot)
    decreases fields, 0
  {
    var f := fields[i];
    assert NoFixedField(f);
    match slot
    case Single(has, v) =>
      if has {
        ValueWritten(f, v);
      }
    case Array(items) =>
      forall j | 0 <= j < |items| ensures WrittenValue(f, items[j]) {
        ValueWritten(f, items[j]);
      }
    case Union(which, v) =>
      var chosen := Chosen(fields, i, which);
      if chosen.Some? {
        assert NoFixedField(fields[chosen.value]);
        ValueWritten(fields[chosen.value], v);
      }
    case Shared =>
  }

  lemma {:induction false} ValueWritten(f: Field, v: Value)
    requires NoFixedField(f) && BoundedValue(f, v, Whole)
    ensures WrittenValue(f, v)
    decreases f, 0
  {
    if f.ltype.Submessage? {
      AllWritten(f.ptr.fields, v.slots);
    }
  }

  /** Every message that pb_decode accepts can be encoded again, and decoding that gives the
      observable message: one more pass changes nothing a reader can see. The one exception are
      structs with unwritten items of fixed-count arrays. */
  lemma DecodedMessagesReencode(fields: seq<Field>, s: seq<byte>)
    requires WellFormed(fields) && Decode(fields, s).Ok?
    ensures var m := Decode(fields, s).value;
            && (Holds(fields, m) <==> Written(fields, m))
            && (NoFixedDeep(fields) ==> Written(fields, m))
            && (Written(fields, m) ==> Encode(fields, m).Some?)
            && (Written(fields, m) && |Encode(fields, m).value| < TWO_32 ==>
                  Decode(fields, Encode(fields, m).value) == Ok(Canon(fields, m), []))
  {
    var m := Decode(fields, s).value;
    DecodeStaysInBounds(fields, s);
    HoldsExactly(fields, m);
    if NoFixedDeep(fields) {
      AllWritten(fields, m);
    }
    if Written(fields, m) {
      FromEncodes(fields, m, 0);
      if |Encode(fields, m).value| < TWO_32 {
        MessageRoundTrip(fields, m);
      }
    }
  }
}
