/** What pb_decode computes, as functions of the bytes, the descriptors and the old contents. */
module DecodeSpec {
  import opened Basics
  import opened Varint
  import opened Descriptor
  import opened Leaf

  /** The state of the decoding loop: the struct, the required fields seen so far by their index
      among the required fields, and the fixed-count array being received with its progress. */
  datatype State = State(msg: seq<Slot>, seen: set<nat>, fixed: Option<nat>, count: nat)

  /** How the loop ends: with an error, at the end of the bytes, or at a zero tag. */
  datatype Run = Broken | Done(st: State) | Stopped(st: State, left: seq<byte>)

  function Start(msg: seq<Slot>): State {
    State(msg, {}, None, 0)
  }

  // ----- Arrays

  /** The items of a packed array, as long as there is room. */
  function DecodePacked(f: Field, s: seq<byte>, room: nat): (r: Option<seq<Value>>)
    ensures r.Some? ==> |r.value| <= room
    decreases |s|
  {
    if s == [] then Some([])
    else if room == 0 then None
    else match DecodeLeaf(f, s)
      case Fail => None
      case Ok(v, rest) =>
        match DecodePacked(f, rest, room - 1)
        case None => None
        case Some(vs) => Some([v] + vs)
  }

  function Room(f: Field, used: nat): nat {
    if used <= f.arraySize then f.arraySize - used else 0
  }

  /** The items with those from position k on replaced by vs. */
  function Splice(items: seq<Value>, k: nat, vs: seq<Value>): (r: seq<Value>)
    ensures |r| == |items|
  {
    if k + |vs| <= |items| then items[..k] + vs + items[k + |vs|..] else items
  }

  predicate FixedComplete(fields: seq<Field>, st: State) {
    st.fixed.Some? && st.fixed.value < |fields| ==> st.count == fields[st.fixed.value].arraySize
  }

  /** Beginning or continuing to receive fixed-count array i: a previous one must be complete. */
  function EnterFixed(fields: seq<Field>, i: nat, st: State): Option<State> {
    if st.fixed == Some(i) then Some(st)
    else if FixedComplete(fields, st) then Some(st.(fixed := Some(i), count := 0))
    else None
  }

  predicate PackedRecord(f: Field, wt: nat) {
    wt == WT_STRING && Packable(f.ltype)
  }

  // ----- Items, records and messages

  /** The old contents of a submessage, or the defaults when there are none to merge with. */
  function PriorSlots(prior: Value, fields: seq<Field>): (m: seq<Slot>) {
    if prior.Msg? && |prior.slots| == |fields| then prior.slots else Defaults(fields)
  }

  /** One item of field f, decoded onto its old contents. */
  function DecodeValue(f: Field, s: seq<byte>, prior: Value): (r: Read<Value>)
    ensures r.Ok? ==> |r.rest| < |s|
    decreases |s|, 0
  {
    if !f.ltype.Submessage? then DecodeLeaf(f, s)
    else match ReadBlock(s)
      case Fail => Fail
      case Ok(b, rest) =>
        ReadBlockShrinks(s);
        if !f.ptr.SubFields? then Fail
        else match DecodeNoinit(f.ptr.fields, b, PriorSlots(prior, f.ptr.fields))
          case Fail => Fail
          case Ok(m, _) => Ok(Msg(m), rest)
  }

  /** The items that one record adds to an array with the given room. */
  function DecodeItems(f: Field, wt: nat, s: seq<byte>, room: nat): (r: Read<seq<Value>>)
    ensures r.Ok? ==> |r.rest| < |s| && |r.value| <= room
    decreases |s|, 1
  {
    if PackedRecord(f, wt) then
      match ReadBlock(s)
      case Fail => Fail
      case Ok(b, rest) =>
        ReadBlockShrinks(s);
        match DecodePacked(f, b, room) { case None => Fail case Some(vs) => Ok(vs, rest) }
    else if room == 0 then Fail
    else match DecodeValue(f, s, Garbage)
      case Fail => Fail
      case Ok(v, rest) => Ok([v], rest)
  }

  /** The required field that a record of field i marks as seen. */
  function Marks(fields: seq<Field>, i: nat): set<nat>
    requires i < |fields|
  {
    if fields[i].htype.Required? && RequiredBefore(fields, i) < PB_MAX_REQUIRED_FIELDS
    then {RequiredBefore(fields, i)} else {}
  }

  /** decode_static_field with the bookkeeping of the loop around it. */
  function StepField(fields: seq<Field>, i: nat, wt: nat, s: seq<byte>, st: State): (r: Read<State>)
    requires i < |fields|
    ensures r.Ok? ==> |r.rest| < |s|
    decreases |s|, 2
  {
    var f := fields[i];
    var k := Leader(fields, i);
    if !f.atype.Static? then Fail
    else if FixedCount(f) then
      match EnterFixed(fields, i, st)
      case None => Fail
      case Some(st1) =>
        match DecodeItems(f, wt, s, Room(f, st1.count))
        case Fail => Fail
        case Ok(vs, rest) =>
          Ok(st1.(msg := Put(st.msg, k, Array(Splice(ItemsOf(Get(st.msg, k)), st1.count, vs))),
                  count := st1.count + |vs|), rest)
    else if f.htype.Repeated? then
      var items := ItemsOf(Get(st.msg, k));
      match DecodeItems(f, wt, s, Room(f, |items|))
      case Fail => Fail
      case Ok(vs, rest) => Ok(st.(msg := Put(st.msg, k, Array(items + vs))), rest)
    else if f.htype.Oneof? then
      match DecodeValue(f, s, Garbage)
      case Fail => Fail
      case Ok(v, rest) => Ok(st.(msg := Put(st.msg, k, Union(f.tag, v))), rest)
    else
      match DecodeValue(f, s, ItemOf(Get(st.msg, k)))
      case Fail => Fail
      case Ok(v, rest) =>
        Ok(st.(msg := Put(st.msg, k, Single(true, v)), seen := st.seen + Marks(fields, i)), rest)
  }

  /** One record after its tag. A message without fields lends its terminator to tag 0, which
      therefore decodes as a bool instead of being skipped. */
  function Step(fields: seq<Field>, tag: nat, wt: nat, s: seq<byte>, st: State): (r: Read<State>)
    ensures r.Ok? ==> |r.rest| < |s|
    decreases |s|, 3
  {
    match Find(fields, tag)
    case Some(i) => StepField(fields, i, wt, s, st)
    case None =>
      if fields == [] && tag == 0 then
        match ReadVarint32(s)
        case Fail => Fail
        case Ok(_, rest) => ReadVarint32Span(s); Ok(st.(seen := st.seen + {0}), rest)
      else
        match SkipField(wt, s)
        case Fail => Fail
        case Ok(_, rest) => SkipShrinks(wt, s); Ok(st, rest)
  }

  function Loop(fields: seq<Field>, s: seq<byte>, st: State): Run
    decreases |s|, 4
  {
    if s == [] then Done(st)
    else match ReadTag(s)
      case Bad => Broken
      case End(left) => Stopped(st, left)
      case Tag(tag, wt, left) =>
        ReadTagShrinks(s);
        match Step(fields, tag, wt, left, st)
        case Fail => Broken
        case Ok(st', rest) => Loop(fields, rest, st')
  }

  /** The required fields whose presence is checked: the first 64. */
  function Tracked(fields: seq<Field>): nat {
    var n := RequiredBefore(fields, |fields|);
    if n > PB_MAX_REQUIRED_FIELDS then PB_MAX_REQUIRED_FIELDS else n
  }

  predicate Complete(fields: seq<Field>, st: State) {
    FixedComplete(fields, st) && forall k: nat :: k < Tracked(fields) ==> k in st.seen
  }

  function Finish(fields: seq<Field>, run: Run): Read<seq<Slot>> {
    match run
    case Broken => Fail
    case Done(st) => if Complete(fields, st) then Ok(st.msg, []) else Fail
    case Stopped(st, left) => if Complete(fields, st) then Ok(st.msg, left) else Fail
  }

  /** pb_decode_noinit: the new contents and the bytes behind a terminating zero. */
  function DecodeNoinit(fields: seq<Field>, s: seq<byte>, msg: seq<Slot>): Read<seq<Slot>>
    decreases |s|, 5
  {
    Finish(fields, Loop(fields, s, Start(msg)))
  }

  /** pb_decode, and pb_decode_nullterminated. */
  function Decode(fields: seq<Field>, s: seq<byte>): Read<seq<Slot>> {
    DecodeNoinit(fields, s, Defaults(fields))
  }

  /** pb_decode_delimited. */
  function DecodeDelimited(fields: seq<Field>, s: seq<byte>): Read<seq<Slot>> {
    match ReadBlock(s)
    case Fail => Fail
    case Ok(b, rest) => match Decode(fields, b) { case Fail => Fail case Ok(m, _) => Ok(m, rest) }
  }

  // ----- Framing: where the decoder sees a record end

  /** The wire type by which field f frames a record of wire type wt. */
  function FieldFrame(f: Field, wt: nat): nat {
    if f.htype.Repeated? && PackedRecord(f, wt) then WT_STRING else WireType(f.ltype)
  }

  /** The wire type by which the decoder frames the record of a tag: decode_static_field looks at
      the field's type and not at the wire type, except for packed arrays. */
  function Frame(fields: seq<Field>, tag: nat, wt: nat): nat {
    match Find(fields, tag)
    case None => if fields == [] && tag == 0 then WT_VARINT else wt
    case Some(i) => FieldFrame(fields[i], wt)
  }

  /** A complete record: a tag varint other than zero, and exactly the bytes that it frames. */
  predicate Framed(fields: seq<Field>, r: seq<byte>) {
    match ReadTag(r)
    case Tag(tag, wt, left) => SkipField(Frame(fields, tag, wt), left) == Ok((), [])
    case _ => false
  }

  predicate AllFramed(fields: seq<Field>, rs: seq<seq<byte>>) {
    forall j :: 0 <= j < |rs| ==> Framed(fields, rs[j])
  }
}
