/** What a field holds after decoding, whoever sent the bytes. */
module Outcome {
  import opened Basics
  import opened Varint
  import opened Descriptor
  import opened Leaf
  import opened DecodeSpec
  import opened Framing
  import opened Initial
  import opened Order
  import opened Records
  import opened Required
  import opened WireFormat
  import opened Conformance

  // ----- Single items, from the payloads of the wire format

  /** The value of the low `size` bytes with their sign. */
  function Signed(size: nat, n: nat): int {
    var u := n % Span256(size);
    if 2 * u < Span256(size) then u else u - Span256(size)
  }

  function Fitting(size: nat, signed: bool, n: int): Option<Value> {
    if (if signed then FitsSigned(size, n) else FitsUnsigned(size, n)) then Some(Num(n)) else None
  }

  /** What a field stores of a payload of its kind, if anything. Signed fields of up to four bytes see
      the low half only; ZigZag numbers count 0, -1, 1, -2. */
  function Stored(f: Field, p: Payload): Option<Value>
    requires WireTypeOf(p) == Kind(f.ltype)
  {
    match f.ltype
    case Bool => Some(Num(if p.n == 0 then 0 else 1))
    case Varint => Fitting(f.dataSize, true, Signed(if f.dataSize == 8 then 8 else 4, p.n))
    case UVarint => Fitting(f.dataSize, false, p.n)
    case SVarint => Fitting(f.dataSize, true, if p.n % 2 == 0 then p.n / 2 else -(p.n / 2) - 1)
    case Fixed32 | Fixed64 => Some(Num(p.n))
    case Bytes => if |p.b| <= PB_SIZE_MAX && |p.b| + BYTES_OFFSET <= f.dataSize then Some(Blob(p.b)) else None
    case String => if |p.b| + 1 <= f.dataSize && |p.b| + 1 < 0x1_0000_0000 then Some(Blob(p.b)) else None
    case FixedLengthBytes =>
      if |p.b| > PB_SIZE_MAX then None
      else if |p.b| == f.dataSize then Some(Blob(p.b))
      else if p.b == [] then Some(Blob(seq(f.dataSize, _ => 0)))
      else None
    case Submessage | Extension => None
  }

  lemma SixtyFourRead(s: seq<byte>)
    requires ReadNumber(s).Ok? && ReadNumber(s).value < TWO_64
    ensures ReadVarint64(s) == ReadNumber(s)
  {
    NumberSpelled(s);
    VarintRoundTrip(ReadNumber(s).value, ReadNumber(s).rest);
  }

  lemma ThirtyTwoRead(s: seq<byte>)
    requires ReadNumber(s).Ok? && ReadNumber(s).value < TWO_32
    ensures ReadVarint32(s) == ReadNumber(s)
  {
    NumberSpelled(s);
    Varint32RoundTrip(ReadNumber(s).value, ReadNumber(s).rest);
  }

  lemma BlockIsRead(s: seq<byte>)
    requires ReadPayload(2, s).Ok? && |ReadPayload(2, s).value.b| < TWO_32
    ensures ReadBlock(s) == Ok(ReadPayload(2, s).value.b, ReadPayload(2, s).rest)
  {
    ThirtyTwoRead(s);
  }

  lemma ZigZagMeans(n: nat)
    requires n < TWO_64
    ensures UnZigZag(n) == if n % 2 == 0 then n / 2 else -(n / 2) - 1
  {
    if n % 2 == 1 {
      assert TWO_64 - 1 - n / 2 >= TWO_63;
    }
  }

  lemma FourSum(s: seq<byte>)
    requires |s| >= 4
    ensures LittleEndian(s[..4]) == FourBytesOf(s)
  {
    LowFour(s[..4]);
    assert s[..4][4..] == [];
  }

  lemma EightSum(s: seq<byte>)
    requires |s| >= 8
    ensures LittleEndian(s[..8]) == EightBytesOf(s)
  {
    LowFour(s[..8]);
    LowFour(s[..8][4..]);
    assert s[..8][4..][4..] == [];
  }

  /** A payload within the limits of the standard: numbers of 64 bits, for bools of 32, and blocks below
      2^32 bytes. */
  predicate WithinLimits(f: Field, p: Payload) {
    match p
    case Number(n) => n < (if f.ltype.Bool? then TWO_32 else TWO_64)
    case Block(b) => |b| < TWO_32
    case _ => true
  }

  /** The decoder of an item reads what the wire format says. */
  lemma ItemsAreStored(f: Field, s: seq<byte>)
    requires ReadPayload(Kind(f.ltype), s).Ok? && WithinLimits(f, ReadPayload(Kind(f.ltype), s).value)
    requires f.ltype.Varint? || f.ltype.UVarint? || f.ltype.SVarint? ==> IntegerSize(f.dataSize)
    ensures var r := ReadPayload(Kind(f.ltype), s);
            && WireTypeOf(r.value) == Kind(f.ltype)
            && DecodeLeaf(f, s) == match Stored(f, r.value) { case None => Fail case Some(v) => Ok(v, r.rest) }
  {
    WireTypeRead(Kind(f.ltype), s);
    match f.ltype
    case Bool => ThirtyTwoRead(s);
    case Varint =>
      SixtyFourRead(s);
      VarintExact(f, s);
    case UVarint =>
      SixtyFourRead(s);
      UVarintExact(f, s);
    case SVarint =>
      SixtyFourRead(s);
      SVarintExact(f, s);
      ZigZagMeans(ReadNumber(s).value);
    case Fixed32 => FourSum(s);
    case Fixed64 => EightSum(s);
    case Bytes | String | FixedLengthBytes =>
      BlockIsRead(s);
      BlobExact(f, s);
    case _ =>
  }

  // ----- Tags and unknown fields, from the keys of the wire format

  lemma KeysAreTags(s: seq<byte>)
    requires ReadNumber(s).Ok? && 0 < ReadNumber(s).value < TWO_32
    ensures ReadTag(s) == Tag(ReadNumber(s).value / 8, ReadNumber(s).value % 8, ReadNumber(s).rest)
  {
    ThirtyTwoRead(s);
  }

  /** Skipping an unknown field ends where the wire format ends its payload. */
  lemma PayloadsAreSkipped(wireType: nat, s: seq<byte>)
    requires ReadPayload(wireType, s).Ok?
    requires ReadPayload(wireType, s).value.Block? ==> |ReadPayload(wireType, s).value.b| < TWO_32
    ensures SkipField(wireType, s) == Ok((), ReadPayload(wireType, s).rest)
  {
    SkipExactly(s);
    match wireType
    case 0 =>
      NumberSpelled(s);
      EncVarintSpan(ReadNumber(s).value, ReadNumber(s).rest);
      var n := |EncVarint(ReadNumber(s).value)|;
      assert s[n..] == ReadNumber(s).rest;
    case 2 => BlockIsRead(s);
    case _ =>
  }

  // ----- Fields without records

  /** The record works on slot k. */
  predicate RecordFor(fields: seq<Field>, r: seq<byte>, k: nat) {
    ReadTag(r).Tag? && Find(fields, ReadTag(r).tag).Some? && Leader(fields, Find(fields, ReadTag(r).tag).value) == k
  }

  lemma OtherRecord(fields: seq<Field>, r: seq<byte>, k: nat, st: State)
    requires Framed(fields, r) && |st.msg| == |fields| && StepRecord(fields, r, st).Some? && !RecordFor(fields, r, k)
    ensures var st' := StepRecord(fields, r, st).value;
            |st'.msg| == |fields| && Get(st'.msg, k) == Get(st.msg, k)
  {
    var t := ReadTag(r);
    match Find(fields, t.tag)
    case None =>
    case Some(i) => StepFieldLocal(fields, i, t.wt, t.left, st, st);
  }

  lemma {:induction false} OtherRecords(fields: seq<Field>, rs: seq<seq<byte>>, k: nat, st: State)
    requires AllFramed(fields, rs) && |st.msg| == |fields| && Fold(fields, rs, st).Some?
    requires forall j :: 0 <= j < |rs| ==> !RecordFor(fields, rs[j], k)
    ensures Get(Fold(fields, rs, st).value.msg, k) == Get(st.msg, k)
    decreases |rs|
  {
    if rs != [] {
      OtherRecord(fields, rs[0], k, st);
      OtherRecords(fields, rs[1..], k, StepRecord(fields, rs[0], st).value);
    }
  }

  /** A field none of whose records has arrived, or oneof none of whose members has, holds its initial
      contents: the declared default or zero, an empty array, no member. */
  lemma AbsentFields(fields: seq<Field>, rs: seq<seq<byte>>, k: nat)
    requires AllFramed(fields, rs) && Decode(fields, Flatten(rs)).Ok? && k < |fields| && Leader(fields, k) == k
    requires forall j :: 0 <= j < |rs| ==> !RecordFor(fields, rs[j], k)
    ensures var msg := Decode(fields, Flatten(rs)).value;
            k < |msg| && InitialSlot(fields[k], msg[k])
  {
    var st := Start(Defaults(fields));
    LoopRecords(fields, rs, st);
    OtherRecords(fields, rs, k, st);
    FoldKeepsLength(fields, rs, st);
    DefaultsAreInitial(fields);
  }

  // ----- The last record of a scalar field or oneof

  lemma OwnRecord(fields: seq<Field>, r: seq<byte>, i: nat, st: State)
    requires Framed(fields, r) && RecordOf(fields, r, i) && |st.msg| == |fields| && StepRecord(fields, r, st).Some?
    requires !fields[i].htype.Repeated? && !fields[i].ltype.Submessage?
    ensures var f, v := fields[i], DecodeLeaf(fields[i], ReadTag(r).left);
            var msg := StepRecord(fields, r, st).value.msg;
            && v.Ok? && |msg| == |fields|
            && Get(msg, Leader(fields, i)) == if f.htype.Oneof? then Union(f.tag, v.value) else Single(true, v.value)
  {
    var t := ReadTag(r);
    assert Step(fields, t.tag, t.wt, t.left, st) == StepField(fields, i, t.wt, t.left, st);
  }

  /** After any run a scalar field holds what its last record says, and so does a oneof, whatever the
      records before it, between them and behind it, and whatever their wire types. */
  lemma LastRecordDecides(fields: seq<Field>, before: seq<seq<byte>>, r: seq<byte>, after: seq<seq<byte>>, i: nat,
                          st: State)
    requires |st.msg| == |fields| && AllFramed(fields, before) && Framed(fields, r) && AllFramed(fields, after)
    requires AllFramed(fields, before + [r] + after) && Fold(fields, before + [r] + after, st).Some?
    requires RecordOf(fields, r, i) && !fields[i].htype.Repeated? && !fields[i].ltype.Submessage?
    requires forall j :: 0 <= j < |after| ==> !RecordFor(fields, after[j], Leader(fields, i))
    ensures var f, v := fields[i], DecodeLeaf(fields[i], ReadTag(r).left);
            var msg := Fold(fields, before + [r] + after, st).value.msg;
            && v.Ok?
            && Get(msg, Leader(fields, i)) == if f.htype.Oneof? then Union(f.tag, v.value) else Single(true, v.value)
  {
    assert before + [r] + after == before + ([r] + after);
    FoldConcat(fields, [r], after, st);
    FoldConcat(fields, before, [r] + after, st);
    FoldKeepsLength(fields, before, st);
    var st1 := Fold(fields, before, st).value;
    FoldConcat(fields, [r], after, st1);
    FoldOne(fields, r, st1);
    OwnRecord(fields, r, i, st1);
    OtherRecords(fields, after, Leader(fields, i), StepRecord(fields, r, st1).value);
  }

  // ----- Arrays

  /** The items in a packed block. */
  function AllItems(f: Field, b: seq<byte>): Option<seq<Value>>
    decreases |b|
  {
    if b == [] then Some([])
    else match DecodeLeaf(f, b)
      case Fail => None
      case Ok(v, rest) => match AllItems(f, rest) { case None => None case Some(vs) => Some([v] + vs) }
  }

  /** What a record brings to an array: wire type 2 means packed for numbers, every other record is one
      item. */
  function Brought(f: Field, r: seq<byte>): Option<seq<Value>> {
    match ReadTag(r)
    case Tag(_, wt, left) =>
      if wt == 2 && Kind(f.ltype) != 2 then
        match ReadBlock(left) { case Fail => None case Ok(b, _) => AllItems(f, b) }
      else
        (match DecodeLeaf(f, left) { case Fail => None case Ok(v, _) => Some([v]) })
    case _ => None
  }

  /** What all records of field i bring, in their order. */
  function Collected(fields: seq<Field>, rs: seq<seq<byte>>, i: nat): Option<seq<Value>>
    requires i < |fields|
  {
    if rs == [] then Some([])
    else
      var more := Collected(fields, rs[1..], i);
      if !RecordOf(fields, rs[0], i) then more
      else match Brought(fields[i], rs[0])
        case None => None
        case Some(vs) => match more { case None => None case Some(ws) => Some(vs + ws) }
  }

  /** An array of items other than submessages that has a count. */
  predicate Growable(fields: seq<Field>, i: nat) {
    i < |fields| && fields[i].htype.Repeated? && fields[i].sizeOffset != 0 && fields[i].atype.Static?
    && !fields[i].ltype.Submessage?
  }

  lemma {:induction false} PackedWithRoom(f: Field, b: seq<byte>, room: nat)
    ensures var all := AllItems(f, b);
            DecodePacked(f, b, room) == if all.Some? && |all.value| <= room then all else None
    decreases |b|
  {
    if b != [] && room > 0 && DecodeLeaf(f, b).Ok? {
      PackedWithRoom(f, DecodeLeaf(f, b).rest, room - 1);
    }
  }

  lemma BroughtWithRoom(f: Field, r: seq<byte>, room: nat)
    requires ReadTag(r).Tag? && !f.ltype.Submessage?
    ensures var items := DecodeItems(f, ReadTag(r).wt, ReadTag(r).left, room);
            var all := Brought(f, r);
            if all.Some? && |all.value| <= room then items.Ok? && items.value == all.value else items.Fail?
  {
    var t := ReadTag(r);
    if PackedRecord(f, t.wt) && ReadBlock(t.left).Ok? {
      PackedWithRoom(f, ReadBlock(t.left).value, room);
    }
  }

  /** One record appends what it brings, if it fits. */
  lemma ArrayRecordExactly(fields: seq<Field>, r: seq<byte>, i: nat, st: State)
    requires Growable(fields, i) && Framed(fields, r) && RecordOf(fields, r, i)
    requires |st.msg| == |fields| && |ItemsOf(st.msg[i])| <= fields[i].arraySize
    ensures var items, all := ItemsOf(st.msg[i]), Brought(fields[i], r);
            StepRecord(fields, r, st) ==
            if all.Some? && |items| + |all.value| <= fields[i].arraySize
            then Some(st.(msg := st.msg[i := Array(items + all.value)])) else None
  {
    var t := ReadTag(r);
    BroughtWithRoom(fields[i], r, Room(fields[i], |ItemsOf(st.msg[i])|));
    assert Step(fields, t.tag, t.wt, t.left, st) == StepField(fields, i, t.wt, t.left, st);
  }

  /** The array has been filled up with all that the records brought. */
  predicate Filled(fields: seq<Field>, rs: seq<seq<byte>>, i: nat, before: Slot, after: Slot)
    requires i < |fields|
  {
    var all := Collected(fields, rs, i);
    all.Some? && ItemsOf(after) == ItemsOf(before) + all.value && |ItemsOf(after)| <= fields[i].arraySize
  }

  lemma FilledFirst(fields: seq<Field>, rs: seq<seq<byte>>, i: nat, before: Slot, mid: Slot, after: Slot)
    requires i < |fields| && rs != [] && Filled(fields, rs[1..], i, mid, after)
    requires if RecordOf(fields, rs[0], i) then
               Brought(fields[i], rs[0]).Some?
               && ItemsOf(mid) == ItemsOf(before) + Brought(fields[i], rs[0]).value
             else mid == before
    ensures Filled(fields, rs, i, before, after)
  {
    if RecordOf(fields, rs[0], i) {
      var vs, more := Brought(fields[i], rs[0]).value, Collected(fields, rs[1..], i).value;
      assert Collected(fields, rs, i) == Some(vs + more);
      Associative(ItemsOf(before), vs, more);
    }
  }

  lemma OtherSlot(fields: seq<Field>, r: seq<byte>, i: nat, st: State)
    requires Growable(fields, i) && Framed(fields, r) && !RecordOf(fields, r, i)
    requires |st.msg| == |fields| && StepRecord(fields, r, st).Some?
    ensures var msg := StepRecord(fields, r, st).value.msg; |msg| == |fields| && msg[i] == st.msg[i]
  {
    assert !RecordFor(fields, r, i);
    OtherRecord(fields, r, i, st);
    assert Get(StepRecord(fields, r, st).value.msg, i) == Get(st.msg, i);
  }

  /** After any run an array holds what it held before, and behind that all that its records brought,
      packed or not, in their order. */
  lemma {:induction false} ArraysCollect(fields: seq<Field>, rs: seq<seq<byte>>, i: nat, st: State)
    requires Growable(fields, i) && AllFramed(fields, rs) && Fold(fields, rs, st).Some?
    requires |st.msg| == |fields| && |ItemsOf(st.msg[i])| <= fields[i].arraySize
    ensures var msg := Fold(fields, rs, st).value.msg;
            |msg| == |fields| && Filled(fields, rs, i, st.msg[i], msg[i])
    decreases |rs|
  {
    if rs == [] {
      assert ItemsOf(st.msg[i]) + [] == ItemsOf(st.msg[i]);
    } else {
      var st1 := StepRecord(fields, rs[0], st).value;
      if RecordOf(fields, rs[0], i) {
        ArrayRecordExactly(fields, rs[0], i, st);
      } else {
        OtherSlot(fields, rs[0], i, st);
      }
      ArraysCollect(fields, rs[1..], i, st1);
      FilledFirst(fields, rs, i, st.msg[i], st1.msg[i], Fold(fields, rs, st).value.msg[i]);
    }
  }

  /** And records of one array alone are refused exactly when one of them does not decode, or all of them
      together bring more than there is room for. */
  lemma {:induction false} ArraysAreFilledExactly(fields: seq<Field>, rs: seq<seq<byte>>, i: nat, st: State)
    requires Growable(fields, i) && AllFramed(fields, rs) && forall j :: 0 <= j < |rs| ==> RecordOf(fields, rs[j], i)
    requires |st.msg| == |fields| && |ItemsOf(st.msg[i])| <= fields[i].arraySize
    ensures var all := Collected(fields, rs, i);
            Fold(fields, rs, st).Some? <==>
              all.Some? && |ItemsOf(st.msg[i])| + |all.value| <= fields[i].arraySize
    decreases |rs|
  {
    if rs != [] {
      ArrayRecordExactly(fields, rs[0], i, st);
      if StepRecord(fields, rs[0], st).Some? {
        ArraysAreFilledExactly(fields, rs[1..], i, StepRecord(fields, rs[0], st).value);
      }
    }
  }

  // ----- A zero tag inside a block

  lemma RunStopsAtZero(fields: seq<Field>, b: seq<byte>, junk: seq<byte>, msg: seq<Slot>)
    requires Loop(fields, b, Start(msg)).Done?
    ensures var r := DecodeNoinit(fields, b, msg);
            DecodeNoinit(fields, b + [0] + junk, msg) == if r.Ok? then Ok(r.value, junk) else Fail
  {
    LoopAppend(fields, b, [0] + junk, Start(msg));
    assert b + [0] + junk == b + ([0] + junk);
    ZeroStops(fields, junk, Loop(fields, b, Start(msg)).st);
  }

  /** A zero tag ends a submessage, and the rest of its block is skipped. */
  lemma ZeroTagEndsSubmessage(f: Field, b: seq<byte>, junk: seq<byte>, rest: seq<byte>, prior: Value)
    requires f.ltype.Submessage? && f.ptr.SubFields? && |b| + 1 + |junk| < TWO_32
    requires Loop(f.ptr.fields, b, Start(PriorSlots(prior, f.ptr.fields))).Done?
    ensures DecodeValue(f, EncBlock(b + [0] + junk) + rest, prior) == DecodeValue(f, EncBlock(b) + rest, prior)
  {
    BlockRoundTrip(b + [0] + junk, rest);
    BlockRoundTrip(b, rest);
    RunStopsAtZero(f.ptr.fields, b, junk, PriorSlots(prior, f.ptr.fields));
  }

  /** And a delimited message. */
  lemma ZeroTagEndsDelimited(fields: seq<Field>, b: seq<byte>, junk: seq<byte>, rest: seq<byte>)
    requires |b| + 1 + |junk| < TWO_32 && Loop(fields, b, Start(Defaults(fields))).Done?
    ensures DecodeDelimited(fields, EncBlock(b + [0] + junk) + rest) == DecodeDelimited(fields, EncBlock(b) + rest)
  {
    BlockRoundTrip(b + [0] + junk, rest);
    BlockRoundTrip(b, rest);
    RunStopsAtZero(fields, b, junk, Defaults(fields));
  }

  // ----- Fields that are not in the struct

  /** One record of a pointer field makes decoding fail, wherever it stands. */
  lemma {:induction false} PointersAreRefused(fields: seq<Field>, rs: seq<seq<byte>>, j: nat, i: nat, st: State)
    requires AllFramed(fields, rs) && j < |rs| && RecordOf(fields, rs[j], i) && !fields[i].atype.Static?
    ensures Fold(fields, rs, st).None?
    decreases |rs|
  {
    if j == 0 {
      var t := ReadTag(rs[0]);
      assert Step(fields, t.tag, t.wt, t.left, st) == StepField(fields, i, t.wt, t.left, st);
    } else if StepRecord(fields, rs[0], st).Some? {
      PointersAreRefused(fields, rs[1..], j - 1, i, StepRecord(fields, rs[0], st).value);
    }
  }

  // ----- Wire types of known fields

  lemma SameItems(f: Field, wt: nat, other: nat, s: seq<byte>, room: nat)
    requires Kind(f.ltype) != 2 ==> (wt == 2 <==> other == 2)
    ensures DecodeItems(f, wt, s, room) == DecodeItems(f, other, s, room)
  {
  }

  /** The wire type of a known field's record is not looked at, but for packed arrays of numbers. */
  lemma WireTypesAreIgnored(fields: seq<Field>, tag: nat, wt: nat, other: nat, s: seq<byte>, st: State)
    requires Find(fields, tag).Some?
    requires var f := fields[Find(fields, tag).value];
             f.htype.Repeated? && Kind(f.ltype) != 2 ==> (wt == 2 <==> other == 2)
    ensures Step(fields, tag, wt, s, st) == Step(fields, tag, other, s, st)
  {
    var i := Find(fields, tag).value;
    var f := fields[i];
    if FixedCount(f) {
      if f.atype.Static? && EnterFixed(fields, i, st).Some? {
        var e := EnterFixed(fields, i, st).value;
        FixedStep(fields, i, wt, s, st, e);
        FixedStep(fields, i, other, s, st, e);
        SameItems(f, wt, other, s, Room(f, e.count));
      }
    } else if f.htype.Repeated? {
      SameItems(f, wt, other, s, Room(f, |ItemsOf(Get(st.msg, Leader(fields, i)))|));
    }
    assert Step(fields, tag, wt, s, st) == StepField(fields, i, wt, s, st);
    assert Step(fields, tag, other, s, st) == StepField(fields, i, other, s, st);
  }
}
