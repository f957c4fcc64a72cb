/** Implicit presence: which items pb_check_proto3_default_value leaves out. */
module Presence {
  import opened Basics
  import opened Descriptor
  import opened EncodeSpec
  import opened Leaf
  import opened Message

  // ----- Structs whose which-fields name members

  /** Every which-field of what is present is 0 or the tag of a member. */
  predicate Known(fields: seq<Field>, msg: seq<Slot>)
    decreases fields, 1
  {
    forall i | 0 <= i < |fields| :: KnownSlot(fields, i, Get(msg, i))
  }

  predicate KnownSlot(fields: seq<Field>, i: nat, slot: Slot)
    requires i < |fields|
    decreases fields, 0
  {
    match slot
    case Single(has, v) => has ==> KnownValue(fields[i], v)
    case Array(items) => KnownItems(fields[i], items)
    case Union(which, v) =>
      which == 0
      || (Chosen(fields, i, which).Some? && KnownValue(fields[Chosen(fields, i, which).value], v))
    case Shared => true
  }

  predicate KnownItems(f: Field, items: seq<Value>)
    decreases f, 1
  {
    forall j | 0 <= j < |items| :: KnownValue(f, items[j])
  }

  predicate KnownValue(f: Field, v: Value)
    decreases f, 0
  {
    f.ltype.Submessage? && f.ptr.SubFields? && v.Msg? ==> Known(f.ptr.fields, v.slots)
  }

  // ----- What goes without saying

  /** An item with implicit presence that goes without saying: zero, empty, or a submessage in which
      nothing needs to be said. */
  predicate Silent(f: Field, v: Value)
    decreases f, 0
  {
    match f.ltype
    case Bool | Varint | UVarint | SVarint | Fixed32 | Fixed64 => v == Num(0)
    case Bytes => v == Blob([])
    case String => v.Blob? && (v.data == [] || v.data[0] == 0)
    case FixedLengthBytes => f.dataSize == 0
    case Submessage => f.ptr.SubFields? && v.Msg? && AllSilent(f.ptr.fields, v.slots)
    case Extension => false
  }

  predicate AllSilent(fields: seq<Field>, msg: seq<Slot>)
    decreases fields, 1
  {
    forall i | 0 <= i < |fields| :: SilentField(fields, i, Get(msg, Leader(fields, i)))
  }

  predicate SilentField(fields: seq<Field>, i: nat, slot: Slot)
    requires i < |fields|
    decreases fields, 0
  {
    var f := fields[i];
    match slot
    case Single(has, v) => f.htype.Optional? && (if f.sizeOffset == 0 then Silent(f, v) else !has)
    case Array(items) => f.htype.Repeated? && f.sizeOffset != 0 && items == []
    case Union(which, _) => f.htype.Oneof? && which == 0
    case Shared => false
  }

  // ----- The encoder's check, which looks at bytes

  lemma {:induction false} SilentExactly(f: Field, v: Value)
    requires WellFormedField(f) && HoldsValue(f, v)
    ensures ZeroItem(f, v) <==> Silent(f, v)
    decreases f, 0
  {
    if f.ltype.Submessage? {
      AllSilentExactly(f.ptr.fields, v.slots);
    } else if v.Num? {
      ZeroBytesExactly(f.dataSize, v.n);
    }
  }

  lemma {:induction false} AllSilentExactly(fields: seq<Field>, msg: seq<Slot>)
    requires WellFormed(fields) && Holds(fields, msg)
    ensures AllZero(fields, msg) <==> AllSilent(fields, msg)
    decreases fields, 1
  {
    forall i | 0 <= i < |fields|
      ensures ZeroField(fields, i, Get(msg, Leader(fields, i)))
              <==> SilentField(fields, i, Get(msg, Leader(fields, i)))
    {
      SilentFieldExactly(fields, msg, i);
    }
  }

  lemma {:induction false} SilentFieldExactly(fields: seq<Field>, msg: seq<Slot>, i: nat)
    requires WellFormed(fields) && Holds(fields, msg) && i < |fields|
    ensures var slot := Get(msg, Leader(fields, i)); ZeroField(fields, i, slot) <==> SilentField(fields, i, slot)
    decreases fields, 0
  {
    var f, k := fields[i], Leader(fields, i);
    assert WellFormedField(f) && WellFormedField(fields[k]);
    LeaderLeads(fields, i);
    assert HoldsSlot(fields, k, msg[k]);
    if Implicit(f) {
      SilentExactly(f, msg[k].val);
    }
  }

  // ----- Left out exactly when the decoder's defaults say the same

  /** Nothing in the item has to be sent whatever it holds: no required field, no fixed-count array,
      and no byte string of fixed length that has to be there. */
  predicate MayBeSilent(f: Field)
    decreases f, 0
  {
    (f.ltype.FixedLengthBytes? ==> f.dataSize == 0)
    && (f.ltype.Submessage? ==> f.ptr.SubFields? && AllMayBeSilent(f.ptr.fields))
  }

  predicate AllMayBeSilent(fields: seq<Field>)
    decreases fields, 1
  {
    forall i | 0 <= i < |fields| :: MayBeSilentField(fields[i])
  }

  predicate MayBeSilentField(f: Field)
    decreases f, 1
  {
    !f.htype.Required? && !FixedCount(f) && (Implicit(f) ==> MayBeSilent(f))
  }

  lemma LeafSilentExactly(f: Field, v: Value)
    requires WellFormedField(f) && Implicit(f) && HoldsValue(f, v) && !f.ltype.Submessage?
    ensures Silent(f, v) <==> MayBeSilent(f) && CanonValue(f, v) == DefaultValue(f)
  {
    if f.ltype.String? && v.data != [] {
      assert CString(v.data) == [] <==> v.data[0] == 0;
    }
  }

  /** An item is left out exactly when it may be, and what of it can be observed is what the decoder's
      defaults put there. */
  lemma {:induction false} OmittedExactly(f: Field, v: Value)
    requires WellFormedField(f) && Implicit(f) && HoldsValue(f, v) && KnownValue(f, v)
    ensures Silent(f, v) <==> MayBeSilent(f) && CanonValue(f, v) == DefaultValue(f)
    decreases f, 0
  {
    if f.ltype.Submessage? {
      AllOmittedExactly(f.ptr.fields, v.slots);
    } else {
      LeafSilentExactly(f, v);
    }
  }

  lemma {:induction false} SlotOmittedExactly(fields: seq<Field>, msg: seq<Slot>, i: nat)
    requires WellFormed(fields) && Holds(fields, msg) && Known(fields, msg) && i < |fields| && Leader(fields, i) == i
    ensures SilentField(fields, i, msg[i])
            <==> && MayBeSilentField(fields[i])
                 && CanonSlot(fields, i, msg[i]) == DefaultSlot(fields, i)
    decreases fields, 1
  {
    assert WellFormedField(fields[i]) && HoldsSlot(fields, i, msg[i]) && KnownSlot(fields, i, Get(msg, i));
    if Implicit(fields[i]) {
      OmittedExactly(fields[i], msg[i].val);
    } else if fields[i].htype.Oneof? {
      NoTagZero(fields, i);
    }
  }

  lemma SilentTogether(fields: seq<Field>, msg: seq<Slot>, i: nat)
    requires WellFormed(fields) && Holds(fields, msg) && i < |fields| && Leader(fields, i) != i
    ensures var k := Leader(fields, i);
            && Leader(fields, k) == k && MayBeSilentField(fields[i])
            && (SilentField(fields, i, Get(msg, k)) <==> SilentField(fields, k, msg[k]))
  {
    LeaderLeads(fields, i);
    assert WellFormedField(fields[i]);
    assert HoldsSlot(fields, Leader(fields, i), msg[Leader(fields, i)]);
  }

  lemma {:induction false} AllOmittedExactly(fields: seq<Field>, msg: seq<Slot>)
    requires WellFormed(fields) && Holds(fields, msg) && Known(fields, msg)
    ensures AllSilent(fields, msg) <==> AllMayBeSilent(fields) && Canon(fields, msg) == Defaults(fields)
    decreases fields, 2
  {
    forall i | 0 <= i < |fields| && Leader(fields, i) == i
      ensures SilentField(fields, i, Get(msg, Leader(fields, i)))
              <==> MayBeSilentField(fields[i]) && Canon(fields, msg)[i] == Defaults(fields)[i]
    {
      SlotOmittedExactly(fields, msg, i);
    }
    forall i | 0 <= i < |fields| && Leader(fields, i) != i
      ensures var k := Leader(fields, i);
              && Leader(fields, k) == k && MayBeSilentField(fields[i]) && Canon(fields, msg)[i] == Defaults(fields)[i]
              && (SilentField(fields, i, Get(msg, k)) <==> SilentField(fields, k, msg[k]))
    {
      SilentTogether(fields, msg, i);
    }
    assert Canon(fields, msg) == Defaults(fields)
           <==> forall i :: 0 <= i < |fields| ==> Canon(fields, msg)[i] == Defaults(fields)[i];
  }

  /** So pb_encode sends an implicit field exactly when it has to, or when leaving it out would lose
      something that can be observed. */
  lemma FieldOmittedExactly(fields: seq<Field>, i: nat, v: Value)
    requires WellFormed(fields) && i < |fields| && Implicit(fields[i])
    requires HoldsValue(fields[i], v) && KnownValue(fields[i], v)
    ensures var f := fields[i];
            EncodeField(fields, i, Single(true, v)) == Some([])
            <==> MayBeSilent(f) && CanonValue(f, v) == DefaultValue(f)
  {
    assert WellFormedField(fields[i]);
    SilentExactly(fields[i], v);
    OmittedExactly(fields[i], v);
  }
}
