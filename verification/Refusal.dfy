/** Which structs pb_encode refuses. */
module Refusal {
  import opened Descriptor
  import opened EncodeSpec

  // ----- What can be sent

  /** The item's memory has been written, and a size in it does not exceed it. The encoder asks for no
      terminator and looks at no bits. */
  predicate SendableLeaf(f: Field, v: Value) {
    match f.ltype
    case Bool | Fixed32 | Fixed64 => v.Num?
    case Varint | UVarint | SVarint => v.Num? && f.dataSize in {1, 2, 4, 8}
    case Bytes => v.Blob? && |v.data| + BYTES_OFFSET <= f.dataSize
    case String => v.Blob? && |v.data| <= f.dataSize
    case FixedLengthBytes => v.Blob? && |v.data| == f.dataSize
    case Submessage | Extension => false
  }

  predicate SendableItem(f: Field, v: Value)
    decreases f, 0
  {
    if f.ltype.Submessage? then f.ptr.SubFields? && v.Msg? && Sendable(f.ptr.fields, v.slots)
    else SendableLeaf(f, v)
  }

  /** What is present can be sent, counts do not exceed their arrays, and those of fixed-count arrays are
      full. */
  predicate SendableField(f: Field, slot: Slot)
    decreases f, 1
  {
    f.atype.Static?
    && match f.htype
       case Required => slot.Single? && SendableItem(f, slot.val)
       case Optional =>
         slot.Single?
         && ((if f.sizeOffset == 0 then !ZeroItem(f, slot.val) else slot.has) ==> SendableItem(f, slot.val))
       case Repeated =>
         slot.Array? && |slot.items| <= f.arraySize && (f.sizeOffset == 0 ==> |slot.items| == f.arraySize)
         && forall j | 0 <= j < |slot.items| :: SendableItem(f, slot.items[j])
       case Oneof => slot.Union? && (slot.which == f.tag ==> SendableItem(f, slot.val))
  }

  predicate SendableFrom(fields: seq<Field>, msg: seq<Slot>, i: nat)
    requires i <= |fields|
    decreases fields, 2
  {
    forall l | i <= l < |fields| :: SendableField(fields[l], Get(msg, Leader(fields, l)))
  }

  predicate Sendable(fields: seq<Field>, msg: seq<Slot>)
    decreases fields, 3
  {
    SendableFrom(fields, msg, 0)
  }

  // ----- Nothing else is refused, and nothing else is sent

  lemma {:induction false} ItemSendable(f: Field, v: Value)
    ensures EncodeRecord(f, v).Some? <==> SendableItem(f, v)
    decreases f, 0
  {
    if f.ltype.Submessage? && f.ptr.SubFields? && v.Msg? {
      FromSendable(f.ptr.fields, v.slots, 0);
    }
  }

  lemma {:induction false} EachSendable(f: Field, items: seq<Value>)
    ensures EncodeEach(f, items).Some? <==> forall j :: 0 <= j < |items| ==> SendableItem(f, items[j])
    decreases f, 1, |items|
  {
    if items != [] {
      ItemSendable(f, items[0]);
      EachSendable(f, items[1..]);
      assert forall j :: 0 < j < |items| ==> items[j] == items[1..][j - 1];
    }
  }

  lemma {:induction false} PackedSendable(f: Field, items: seq<Value>)
    requires Packable(f.ltype)
    ensures EncodePacked(f, items).Some? <==> forall j :: 0 <= j < |items| ==> SendableItem(f, items[j])
    decreases |items|
  {
    if items != [] {
      PackedSendable(f, items[1..]);
      assert forall j :: 0 < j < |items| ==> items[j] == items[1..][j - 1];
    }
  }

  lemma {:induction false} FieldSendable(fields: seq<Field>, i: nat, slot: Slot)
    requires i < |fields|
    ensures EncodeField(fields, i, slot).Some? <==> SendableField(fields[i], slot)
    decreases fields, 2
  {
    var f := fields[i];
    match slot
    case Single(_, v) => EachSendable(f, [v]);
    case Array(items) =>
      if Packable(f.ltype) {
        PackedSendable(f, items);
      } else {
        EachSendable(f, items);
      }
    case Union(_, v) => EachSendable(f, [v]);
    case Shared =>
  }

  lemma {:induction false} FromSendable(fields: seq<Field>, msg: seq<Slot>, i: nat)
    requires i <= |fields|
    ensures EncodeFrom(fields, msg, i).Some? <==> SendableFrom(fields, msg, i)
    decreases fields, 3, |fields| - i
  {
    if i < |fields| {
      FieldSendable(fields, i, Get(msg, Leader(fields, i)));
      FromSendable(fields, msg, i + 1);
      assert SendableFrom(fields, msg, i)
             <==> SendableField(fields[i], Get(msg, Leader(fields, i))) && SendableFrom(fields, msg, i + 1);
    }
  }

  /** pb_encode refuses a struct exactly when something present in it, at some depth, cannot be sent:
      a size or count beyond its memory, a fixed-count array that is not full, memory nobody has written,
      a callback or pointer field. */
  lemma RefusedExactly(fields: seq<Field>, msg: seq<Slot>)
    ensures Encode(fields, msg).None? <==> !Sendable(fields, msg)
  {
    FromSendable(fields, msg, 0);
  }
}
