/** What a struct holds before anything has been received, spelled out. */
module Initial {
  import opened Descriptor

  /** Zero, nothing, or as many zero bytes as there is room for. */
  predicate Blank(f: Field, v: Value) {
    match f.ltype
    case Bool | Varint | UVarint | SVarint | Fixed32 | Fixed64 => v == Num(0)
    case Bytes | String => v == Blob([])
    case FixedLengthBytes => v.Blob? && |v.data| == f.dataSize && forall k :: 0 <= k < |v.data| ==> v.data[k] == 0
    case Submessage | Extension => true
  }

  /** The declared default where there is one. */
  predicate InitialValue(f: Field, v: Value)
    decreases f, 0
  {
    if f.ltype.Submessage? then f.ptr.SubFields? ==> v.Msg? && InitialStruct(f.ptr.fields, v.slots)
    else if f.ptr.Default? then v == f.ptr.value
    else Blank(f, v)
  }

  /** Absent fields say so: the has-flag is false, the count or which-field is 0. Fixed-count arrays have
      all their items, though nobody has written them. */
  predicate InitialSlot(f: Field, slot: Slot)
    decreases f, 1
  {
    match f.htype
    case Required => slot.Single? && slot.has && InitialValue(f, slot.val)
    case Optional => slot.Single? && slot.has == (f.sizeOffset == 0) && InitialValue(f, slot.val)
    case Repeated => slot.Array? && (if f.sizeOffset == 0 then |slot.items| == f.arraySize else slot.items == [])
    case Oneof => slot.Union? && slot.which == 0
  }

  /** Every field on its own memory is at its initial contents; the later members of a oneof have none. */
  predicate InitialStruct(fields: seq<Field>, msg: seq<Slot>)
    decreases fields, 2
  {
    |msg| == |fields|
    && forall i | 0 <= i < |fields| && Leader(fields, i) == i :: InitialSlot(fields[i], msg[i])
  }

  lemma {:induction false} DefaultIsInitial(f: Field)
    ensures InitialValue(f, DefaultValue(f))
    decreases f, 0
  {
    if f.ltype.Submessage? && f.ptr.SubFields? {
      DefaultsAreInitial(f.ptr.fields);
    }
  }

  /** That is what pb_message_set_to_defaults leaves. */
  lemma {:induction false} DefaultsAreInitial(fields: seq<Field>)
    ensures InitialStruct(fields, Defaults(fields))
    decreases fields, 1
  {
    forall i | 0 <= i < |fields| && Leader(fields, i) == i ensures InitialSlot(fields[i], Defaults(fields)[i]) {
      DefaultIsInitial(fields[i]);
    }
  }
}
