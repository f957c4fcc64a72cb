/** Which descriptors and structs belong together, and what of a struct can be observed. */
module Message {
  import opened Basics
  import opened Descriptor
  import opened Leaf
  import opened EncodeSpec

  // ----- Descriptors as the generator writes them, for static allocation

  predicate WellFormedField(f: Field)
    decreases f, 0
  {
    && 1 <= f.tag < 0x2000_0000 && f.tag <= PB_SIZE_MAX
    && f.atype.Static? && !f.ltype.Extension?
    && f.dataSize <= PB_SIZE_MAX && f.arraySize <= PB_SIZE_MAX
    && (f.ltype.Varint? || f.ltype.UVarint? || f.ltype.SVarint? ==> IntegerSize(f.dataSize))
    && (f.ltype.Bool? ==> f.dataSize == 1)
    && (f.ltype.Fixed32? ==> f.dataSize == 4) && (f.ltype.Fixed64? ==> f.dataSize == 8)
    && (f.htype.Oneof? ==> f.sizeOffset != 0)
    && (f.ltype.String? || f.ltype.Bytes? ==> HoldsLeaf(f, Blob([])))
    && (if f.ltype.Submessage? then f.ptr.SubFields? && WellFormed(f.ptr.fields)
        else HoldsLeaf(f, DefaultValue(f)))
    && (Implicit(f) && !f.ltype.Submessage? ==> DefaultValue(f) == ZeroValue(f))
  }

  predicate WellFormed(fields: seq<Field>)
    decreases fields, 1
  {
    DistinctTags(fields) && forall i | 0 <= i < |fields| :: WellFormedField(fields[i])
  }

  // ----- Structs that fit their descriptors

  /** The member of the oneof led by field k that `which` names. */
  function Chosen(fields: seq<Field>, k: nat, which: nat): (r: Option<nat>)
    ensures r.Some? ==> r.value < |fields| && fields[r.value].tag == which && Leader(fields, r.value) == k
  {
    match Find(fields, which)
    case None => None
    case Some(j) => if Leader(fields, j) == k then Some(j) else None
  }

  /** How much of a struct's memory has to be within bounds: what is present, as the encoder asks,
      or the whole struct, absent submessages too, since decoding may merge into them. Then only
      items of fixed-count arrays may still be memory that nobody wrote. */
  datatype Extent = Present | Whole

  /** An item within its memory. */
  predicate BoundedValue(f: Field, v: Value, extent: Extent)
    decreases f, 0
  {
    if f.ltype.Submessage? then f.ptr.SubFields? && v.Msg? && Bounded(f.ptr.fields, v.slots, extent)
    else HoldsLeaf(f, v)
  }

  predicate BoundedItems(f: Field, items: seq<Value>, extent: Extent)
    decreases f, 1
  {
    forall j | 0 <= j < |items| ::
      BoundedValue(f, items[j], extent) || (extent.Whole? && FixedCount(f) && items[j].Garbage?)
  }

  predicate BoundedSlot(fields: seq<Field>, i: nat, slot: Slot, extent: Extent)
    requires i < |fields|
    decreases fields, 0
  {
    var f := fields[i];
    if Leader(fields, i) != i then slot.Shared?
    else match f.htype
      case Required => slot.Single? && slot.has && BoundedValue(f, slot.val, extent)
      case Optional =>
        slot.Single? && (Implicit(f) ==> slot.has)
        && (slot.has || (f.ltype.Submessage? && !extent.Present?) ==> BoundedValue(f, slot.val, extent))
      case Repeated =>
        slot.Array? && |slot.items| <= f.arraySize && BoundedItems(f, slot.items, extent)
        && (FixedCount(f) ==> |slot.items| == f.arraySize)
      case Oneof =>
        slot.Union?
        && (Chosen(fields, i, slot.which).Some? ==>
              BoundedValue(fields[Chosen(fields, i, slot.which).value], slot.val, extent))
  }

  /** The struct's memory is within its bounds: counts within their arrays, strings terminated,
      sizes within their buffers, and a value wherever one is said to be present. */
  predicate Bounded(fields: seq<Field>, msg: seq<Slot>, extent: Extent)
    decreases fields, 1
  {
    |msg| == |fields| && forall i | 0 <= i < |fields| :: BoundedSlot(fields, i, msg[i], extent)
  }

  predicate HoldsValue(f: Field, v: Value) {
    BoundedValue(f, v, Present)
  }

  predicate HoldsItems(f: Field, items: seq<Value>) {
    BoundedItems(f, items, Present)
  }

  predicate HoldsSlot(fields: seq<Field>, i: nat, slot: Slot)
    requires i < |fields|
  {
    BoundedSlot(fields, i, slot, Present)
  }

  /** The struct holds a message that pb_encode can be given. */
  predicate Holds(fields: seq<Field>, msg: seq<Slot>) {
    Bounded(fields, msg, Present)
  }

  // ----- The observable part of a message

  function CanonValue(f: Field, v: Value): Value
    decreases f, 0
  {
    if f.ltype.Submessage? && f.ptr.SubFields? && v.Msg? then Msg(Canon(f.ptr.fields, v.slots))
    else CanonLeaf(f, v)
  }

  function CanonItems(f: Field, items: seq<Value>): (r: seq<Value>)
    ensures |r| == |items|
    decreases f, 1
  {
    seq(|items|, j requires 0 <= j < |items| => CanonValue(f, items[j]))
  }

  function CanonSlot(fields: seq<Field>, i: nat, slot: Slot): Slot
    requires i < |fields|
    decreases fields, 0
  {
    var f := fields[i];
    if Leader(fields, i) != i then Shared
    else match slot
      case Single(has, v) => if has then Single(true, CanonValue(f, v)) else DefaultSlot(fields, i)
      case Array(items) => Array(CanonItems(f, items))
      case Union(which, v) =>
        (match Chosen(fields, i, which)
         case None => Union(0, Garbage)
         case Some(j) => Union(which, CanonValue(fields[j], v)))
      case Shared => Shared
  }

  /** What a reader of the struct can tell: has-flags, the first count items of arrays, the chosen
      member of oneofs, strings up to their NUL. Everything else is put to its default. */
  function Canon(fields: seq<Field>, msg: seq<Slot>): (m: seq<Slot>)
    ensures |m| == |fields|
    decreases fields, 1
  {
    seq(|fields|, i requires 0 <= i < |fields| => CanonSlot(fields, i, Get(msg, i)))
  }

  // ----- Implicit presence agrees with defaults

  lemma NoTagZero(fields: seq<Field>, k: nat)
    requires WellFormed(fields)
    ensures Chosen(fields, k, 0).None?
  {
    forall j | 0 <= j < |fields| ensures fields[j].tag != 0 {
      assert WellFormedField(fields[j]);
    }
  }

  /** An item that implicit presence leaves out is the one that defaults restore. */
  lemma {:induction false} ZeroIsDefault(f: Field, v: Value)
    requires WellFormedField(f) && Implicit(f) && HoldsValue(f, v) && ZeroItem(f, v)
    ensures CanonValue(f, v) == DefaultValue(f)
    decreases f
  {
    if f.ltype.Submessage? {
      var sub := f.ptr.fields;
      assert Holds(sub, v.slots);
      forall i | 0 <= i < |sub|
        ensures Canon(sub, v.slots)[i] == Defaults(sub)[i]
      {
        assert ZeroField(sub, i, Get(v.slots, Leader(sub, i)));
        assert HoldsSlot(sub, i, v.slots[i]) && WellFormedField(sub[i]);
        if Leader(sub, i) == i && Implicit(sub[i]) {
          ZeroIsDefault(sub[i], v.slots[i].val);
        }
        if sub[i].htype.Oneof? && Leader(sub, i) == i {
          NoTagZero(sub, i);
        }
      }
      assert Canon(sub, v.slots) == Defaults(sub);
    } else if v.Num? {
      ZeroBytesExactly(f.dataSize, v.n);
    }
  }

  lemma FindsItself(fields: seq<Field>, i: nat)
    requires WellFormed(fields) && i < |fields|
    ensures Find(fields, fields[i].tag) == Some(i)
  {
    assert WellFormedField(fields[i]);
    assert Matches(fields[i], fields[i].tag);
  }
}
