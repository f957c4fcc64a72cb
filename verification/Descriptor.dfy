/** Field descriptors (pb.h) and the memory of the struct that they describe. */
module Descriptor {
  import opened Basics

  datatype LType =
    | Bool | Varint | UVarint | SVarint | Fixed32 | Fixed64
    | Bytes | String | Submessage | Extension | FixedLengthBytes

  datatype HType = Required | Optional | Repeated | Oneof

  datatype AType = Static | Pointer | Callback

  /** One entry of a pb_field_t array. */
  datatype Field = Field(
    tag: nat, ltype: LType, htype: HType, atype: AType,
    dataOffset: nat, sizeOffset: int, dataSize: nat, arraySize: nat, ptr: Ptr)

  /** What the memory of one item holds. Garbage stands for memory that nobody initialised. */
  datatype Value = Num(n: int) | Blob(data: seq<byte>) | Msg(slots: seq<Slot>) | Garbage

  /** The ptr member: descriptors of a submessage, a default value, or null. */
  datatype Ptr = Null | SubFields(fields: seq<Field>) | Default(value: Value)

  /** The memory of one field: an item with its has-flag, an array with its count, or the
      union of a oneof. The members of a oneof after the first share the first one's slot. */
  datatype Slot = Single(has: bool, val: Value) | Array(items: seq<Value>) | Union(which: nat, val: Value) | Shared

  /** pb_size_t is 8, 16 or 32 bits wide, as the build chooses. */
  type SizeMax = x: nat | x == 0xFF || x == 0xFFFF || x == 0xFFFF_FFFF witness 0xFF
  const PB_SIZE_MAX: SizeMax

  /** offsetof(pb_bytes_array_t, bytes): the size member comes first. */
  const BYTES_OFFSET: nat := if PB_SIZE_MAX == 0xFF then 1 else if PB_SIZE_MAX == 0xFFFF then 2 else 4

  /** The number of required fields that the decoder keeps track of. */
  const PB_MAX_REQUIRED_FIELDS: nat := 64

  // ----- Wire types

  const WT_VARINT: nat := 0
  const WT_64BIT: nat := 1
  const WT_STRING: nat := 2
  const WT_32BIT: nat := 5

  function WireType(l: LType): nat {
    match l
    case Bool | Varint | UVarint | SVarint => WT_VARINT
    case Fixed32 => WT_32BIT
    case Fixed64 => WT_64BIT
    case _ => WT_STRING
  }

  predicate Packable(l: LType) {
    l.Bool? || l.Varint? || l.UVarint? || l.SVarint? || l.Fixed32? || l.Fixed64?
  }

  // ----- Positions in a descriptor array

  predicate FixedCount(f: Field) {
    f.htype.Repeated? && f.sizeOffset == 0
  }

  /** An optional field without a has-flag of its own: present when it is not zero. */
  predicate Implicit(f: Field) {
    f.htype.Optional? && f.sizeOffset == 0
  }

  predicate Matches(f: Field, tag: nat) {
    f.tag == tag && !f.ltype.Extension?
  }

  function FindFrom(fields: seq<Field>, tag: nat, i: nat): (r: Option<nat>)
    ensures r.Some? ==> i <= r.value < |fields| && Matches(fields[r.value], tag)
    ensures r.None? ==> forall j :: i <= j < |fields| ==> !Matches(fields[j], tag)
    decreases |fields| - i
  {
    if i >= |fields| then None
    else if Matches(fields[i], tag) then Some(i)
    else FindFrom(fields, tag, i + 1)
  }

  function Find(fields: seq<Field>, tag: nat): (r: Option<nat>)
    ensures r.Some? ==> r.value < |fields| && Matches(fields[r.value], tag)
    ensures r.None? ==> forall j :: 0 <= j < |fields| ==> !Matches(fields[j], tag)
  {
    FindFrom(fields, tag, 0)
  }

  /** Whether field i continues the oneof of the field before it. */
  predicate JoinsUnion(fields: seq<Field>, i: nat)
    requires i < |fields|
  {
    i > 0 && fields[i - 1].htype.Oneof? && fields[i].htype.Oneof? && fields[i].dataOffset == PB_SIZE_MAX
  }

  /** The field whose memory field i uses: itself, or the first member of its oneof. */
  function Leader(fields: seq<Field>, i: nat): (k: nat)
    requires i < |fields|
    ensures k <= i
    ensures k < i ==> fields[k].htype.Oneof? && fields[i].htype.Oneof?
  {
    if JoinsUnion(fields, i) then Leader(fields, i - 1) else i
  }

  lemma {:induction false} LeaderLeads(fields: seq<Field>, i: nat)
    requires i < |fields|
    ensures Leader(fields, Leader(fields, i)) == Leader(fields, i)
  {
    if JoinsUnion(fields, i) {
      LeaderLeads(fields, i - 1);
    }
  }

  /** The number of required fields before field i. */
  function RequiredBefore(fields: seq<Field>, i: nat): (n: nat)
    requires i <= |fields|
    ensures n <= i
  {
    if i == 0 then 0
    else RequiredBefore(fields, i - 1) + (if fields[i - 1].htype.Required? then 1 else 0)
  }

  predicate DistinctTags(fields: seq<Field>) {
    forall i, j :: 0 <= i < j < |fields| ==> fields[i].tag != fields[j].tag
  }

  // ----- Initial contents (pb_field_set_to_default, pb_message_set_to_defaults)

  function ZeroValue(f: Field): Value {
    match f.ltype
    case Bytes | String => Blob([])
    case FixedLengthBytes => Blob(Zeros(f.dataSize))
    case Submessage | Extension => Garbage
    case _ => Num(0)
  }

  function DefaultValue(f: Field): Value
    decreases f, 0
  {
    if f.ltype.Submessage? then
      if f.ptr.SubFields? then Msg(Defaults(f.ptr.fields)) else Garbage
    else if f.ptr.Default? then f.ptr.value
    else ZeroValue(f)
  }

  function DefaultSlot(fields: seq<Field>, i: nat): Slot
    requires i < |fields|
    decreases fields, 0
  {
    var f := fields[i];
    if Leader(fields, i) != i then Shared
    else match f.htype
      case Oneof => Union(0, Garbage)
      case Repeated => if FixedCount(f) then Array(seq(f.arraySize, _ => Garbage)) else Array([])
      case Optional => Single(Implicit(f), DefaultValue(f))
      case Required => Single(true, DefaultValue(f))
  }

  function Defaults(fields: seq<Field>): (m: seq<Slot>)
    ensures |m| == |fields|
    decreases fields, 1
  {
    seq(|fields|, i requires 0 <= i < |fields| => DefaultSlot(fields, i))
  }

  // ----- Reading and writing slots

  function Get(msg: seq<Slot>, k: nat): Slot {
    if k < |msg| then msg[k] else Shared
  }

  function Put(msg: seq<Slot>, k: nat, slot: Slot): (m: seq<Slot>)
    ensures |m| == |msg|
    ensures forall j: nat :: Get(m, j) == if j == k && k < |msg| then slot else Get(msg, j)
  {
    if k < |msg| then msg[k := slot] else msg
  }

  function ItemOf(slot: Slot): Value {
    match slot
    case Single(_, v) => v
    case Union(_, v) => v
    case _ => Garbage
  }

  function ItemsOf(slot: Slot): seq<Value> {
    if slot.Array? then slot.items else []
  }
}
