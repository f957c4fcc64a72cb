/** What pb_encode writes, as functions of the descriptors and the struct. */
module EncodeSpec {
  import opened Basics
  import opened Descriptor
  import opened Leaf

  // ----- Implicit presence

  /** pb_check_proto3_default_value on the value of a singular field. */
  predicate ZeroItem(f: Field, v: Value)
    decreases f, 0
  {
    match f.ltype
    case Bytes => v.Blob? && v.data == []
    case String => v.Blob? && (v.data == [] || v.data[0] == 0)
    case FixedLengthBytes => f.dataSize == 0
    case Submessage =>
      f.ptr.SubFields? && v.Msg? && AllZero(f.ptr.fields, v.slots)
    case _ => v.Num? && ZeroBytes(NumberBytes(f.dataSize, v.n))
  }

  predicate AllZero(fields: seq<Field>, msg: seq<Slot>)
    decreases fields, 1
  {
    forall i | 0 <= i < |fields| :: ZeroField(fields, i, Get(msg, Leader(fields, i)))
  }

  /** pb_check_proto3_default_value on a field of any kind. */
  predicate ZeroField(fields: seq<Field>, i: nat, slot: Slot)
    requires i < |fields|
    decreases fields, 0
  {
    var f := fields[i];
    match f.htype
    case Required => false
    case Repeated => !FixedCount(f) && ItemsOf(slot) == []
    case Oneof => slot.Union? && slot.which == 0
    case Optional =>
      if Implicit(f) then slot.Single? && ZeroItem(f, slot.val)
      else slot.Single? && !slot.has
  }

  // ----- Values, records and messages

  function EncodeValue(f: Field, v: Value): Option<seq<byte>>
    decreases f, 1
  {
    if !f.ltype.Submessage? then EncodeLeaf(f, v)
    else if !(f.ptr.SubFields? && v.Msg?) then None
    else match EncodeFrom(f.ptr.fields, v.slots, 0)
      case None => None
      case Some(records) => Some(EncBlock(Flatten(records)))
  }

  /** One record: the tag with the field's own wire type, and the value. */
  function EncodeRecord(f: Field, v: Value): Option<seq<byte>>
    decreases f, 2
  {
    match EncodeValue(f, v)
    case None => None
    case Some(b) => Some(EncTag(f.tag, WireType(f.ltype)) + b)
  }

  function EncodeEach(f: Field, items: seq<Value>): (r: Option<seq<seq<byte>>>)
    ensures r.Some? ==> |r.value| == |items|
    decreases f, 3, |items|
  {
    if items == [] then Some([])
    else match EncodeRecord(f, items[0])
      case None => None
      case Some(r) =>
        match EncodeEach(f, items[1..]) { case None => None case Some(rs) => Some([r] + rs) }
  }

  /** The contents of a packed array. */
  function EncodePacked(f: Field, items: seq<Value>): Option<seq<byte>> {
    if items == [] then Some([])
    else match EncodeLeaf(f, items[0])
      case None => None
      case Some(b) =>
        match EncodePacked(f, items[1..]) { case None => None case Some(bs) => Some(b + bs) }
  }

  /** encode_array: the records of an array, a single packed one when the type allows it. */
  function EncodeArray(f: Field, items: seq<Value>): Option<seq<seq<byte>>>
    decreases f, 4
  {
    if items == [] then Some([])
    else if |items| > f.arraySize then None
    else if Packable(f.ltype) then
      match EncodePacked(f, items)
      case None => None
      case Some(b) => Some([EncTag(f.tag, WT_STRING) + EncBlock(b)])
    else EncodeEach(f, items)
  }

  /** encode_basic_field: the records of one field. */
  function EncodeField(fields: seq<Field>, i: nat, slot: Slot): Option<seq<seq<byte>>>
    requires i < |fields|
    decreases fields, 0
  {
    var f := fields[i];
    if !f.atype.Static? then None
    else match f.htype
      case Required => if slot.Single? then EncodeEach(f, [slot.val]) else None
      case Optional =>
        if !slot.Single? then None
        else if (if Implicit(f) then ZeroItem(f, slot.val) else !slot.has) then Some([])
        else EncodeEach(f, [slot.val])
      case Repeated =>
        if !slot.Array? || (FixedCount(f) && |slot.items| != f.arraySize) then None
        else EncodeArray(f, slot.items)
      case Oneof =>
        if !slot.Union? then None
        else if slot.which != f.tag then Some([])
        else EncodeEach(f, [slot.val])
  }

  /** The records of the fields from i on. */
  function EncodeFrom(fields: seq<Field>, msg: seq<Slot>, i: nat): Option<seq<seq<byte>>>
    requires i <= |fields|
    decreases fields, 1, |fields| - i
  {
    if i == |fields| then Some([])
    else match EncodeField(fields, i, Get(msg, Leader(fields, i)))
      case None => None
      case Some(rs) =>
        match EncodeFrom(fields, msg, i + 1) { case None => None case Some(more) => Some(rs + more) }
  }

  /** pb_encode: the top-level records in order, or None for a message that it refuses. */
  function EncodeRecords(fields: seq<Field>, msg: seq<Slot>): Option<seq<seq<byte>>> {
    EncodeFrom(fields, msg, 0)
  }

  function Encode(fields: seq<Field>, msg: seq<Slot>): Option<seq<byte>> {
    match EncodeRecords(fields, msg)
    case None => None
    case Some(rs) => Some(Flatten(rs))
  }

  /** pb_encode_delimited. */
  function EncodeDelimited(fields: seq<Field>, msg: seq<Slot>): Option<seq<byte>> {
    match Encode(fields, msg) { case None => None case Some(b) => Some(EncBlock(b)) }
  }

  /** pb_encode_nullterminated. */
  function EncodeNullTerminated(fields: seq<Field>, msg: seq<Slot>): Option<seq<byte>> {
    match Encode(fields, msg) { case None => None case Some(b) => Some(b + [0]) }
  }
}
