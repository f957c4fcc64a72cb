/** What the encoder writes is exactly what the "Encoding" specification of Protocol Buffers prescribes
    for the struct, read from the descriptors and written out without the encoder's own functions. */
module Conformance {
  import opened Basics
  import opened Varint
  import opened Descriptor
  import opened Leaf
  import opened EncodeSpec
  import opened Message
  import opened Presence
  import opened RoundTrip
  import opened Framing
  import opened WireFormat

  // ----- What is prescribed

  /** Varints are 0, eight bytes 1, blocks 2 and four bytes 5. */
  function Kind(l: LType): nat {
    match l
    case Bool | Varint | UVarint | SVarint => 0
    case Fixed64 => 1
    case Fixed32 => 5
    case Bytes | String | FixedLengthBytes | Submessage | Extension => 2
  }

  /** The number of records that a field has. */
  function Count(f: Field, slot: Slot): nat {
    match slot
    case Single(has, v) => if f.htype.Optional? && (if f.sizeOffset == 0 then Silent(f, v) else !has) then 0 else 1
    case Array(items) => if Kind(f.ltype) == 2 || items == [] then |items| else 1
    case Union(which, _) => if which == f.tag then 1 else 0
    case Shared => 0
  }

  predicate UpToNul(data: seq<byte>, b: seq<byte>) {
    b <= data && 0 !in b && (|b| < |data| ==> data[|b|] == 0)
  }

  /** The payload of an item of the field. */
  predicate Says(f: Field, v: Value, p: Payload)
    decreases f, 0
  {
    match f.ltype
    case Bool => v.Num? && p == Number(if v.n == 0 then 0 else 1)
    case Varint => v.Num? && p.Number? && p.n == if v.n < 0 then v.n + 0x1_0000_0000_0000_0000 else v.n
    case UVarint => v.Num? && p.Number? && p.n == v.n
    case SVarint => v.Num? && p.Number? && p.n == if v.n < 0 then -2 * v.n - 1 else 2 * v.n
    case Fixed32 => v.Num? && p.FourBytes? && p.n == v.n
    case Fixed64 => v.Num? && p.EightBytes? && p.n == v.n
    case Bytes | FixedLengthBytes => v.Blob? && p == Block(v.data)
    case String => v.Blob? && p.Block? && UpToNul(v.data, p.b)
    case Submessage => f.ptr.SubFields? && v.Msg? && p.Block? && Conforms(f.ptr.fields, v.slots, p.b)
    case Extension => false
  }

  /** The payloads of a packed array, one behind the other. */
  predicate SaysAll(f: Field, items: seq<Value>, b: seq<byte>)
    decreases f, 1, |items|
  {
    if items == [] then b == []
    else match ReadPayload(Kind(f.ltype), b)
      case Fail => false
      case Ok(p, rest) => Says(f, items[0], p) && SaysAll(f, items[1..], rest)
  }

  /** Record j of a field: its item, or all of the array in one block. */
  predicate SaysRecord(f: Field, slot: Slot, j: nat, r: Record)
    decreases f, 2
  {
    r.number == f.tag
    && match slot
       case Single(_, v) => Says(f, v, r.payload)
       case Array(items) =>
         if Kind(f.ltype) == 2 then j < |items| && Says(f, items[j], r.payload)
         else r.payload.Block? && SaysAll(f, items, r.payload.b)
       case Union(_, v) => Says(f, v, r.payload)
       case Shared => false
  }

  /** The records of the fields from i on, in the order of the descriptors. */
  predicate SaysFrom(fields: seq<Field>, msg: seq<Slot>, i: nat, rs: seq<Record>)
    requires i <= |fields|
    decreases fields, 3, |fields| - i
  {
    if i == |fields| then rs == []
    else
      var slot := Get(msg, Leader(fields, i));
      var n := Count(fields[i], slot);
      && n <= |rs|
      && (forall j | 0 <= j < n :: SaysRecord(fields[i], slot, j, rs[j]))
      && SaysFrom(fields, msg, i + 1, rs[n..])
  }

  /** The bytes say what the struct holds, and nothing else, in as few bytes as possible. */
  predicate Conforms(fields: seq<Field>, msg: seq<Slot>, b: seq<byte>)
    decreases fields, 4
  {
    match ReadMessage(b) { case None => false case Some(rs) => SaysFrom(fields, msg, 0, rs) }
  }

  // ----- Only one byte sequence says it

  lemma OnlyPrefix(data: seq<byte>, a: seq<byte>, b: seq<byte>)
    requires UpToNul(data, a) && UpToNul(data, b)
    ensures a == b
  {
    assert forall k :: 0 <= k < |a| ==> data[k] == a[k] && a[k] != 0;
    assert forall k :: 0 <= k < |b| ==> data[k] == b[k] && b[k] != 0;
  }

  lemma {:induction false} OnlyPayload(f: Field, v: Value, p: Payload, q: Payload)
    requires Says(f, v, p) && Says(f, v, q)
    ensures p == q
    decreases f, 0
  {
    match f.ltype
    case String => OnlyPrefix(v.data, p.b, q.b);
    case Submessage => OnlyBytes(f.ptr.fields, v.slots, p.b, q.b);
    case _ =>
  }

  lemma {:induction false} OnlyContents(f: Field, items: seq<Value>, a: seq<byte>, b: seq<byte>)
    requires SaysAll(f, items, a) && SaysAll(f, items, b)
    ensures a == b
    decreases f, 1, |items|
  {
    if items != [] {
      var x, y := ReadPayload(Kind(f.ltype), a), ReadPayload(Kind(f.ltype), b);
      OnlyPayload(f, items[0], x.value, y.value);
      OnlyContents(f, items[1..], x.rest, y.rest);
      SamePayload(Kind(f.ltype), a, b);
    }
  }

  lemma {:induction false} OnlyRecord(f: Field, slot: Slot, j: nat, r: Record, r': Record)
    requires SaysRecord(f, slot, j, r) && SaysRecord(f, slot, j, r')
    ensures r == r'
    decreases f, 2
  {
    match slot
    case Single(_, v) => OnlyPayload(f, v, r.payload, r'.payload);
    case Array(items) =>
      if Kind(f.ltype) == 2 {
        OnlyPayload(f, items[j], r.payload, r'.payload);
      } else {
        OnlyContents(f, items, r.payload.b, r'.payload.b);
      }
    case Union(_, v) => OnlyPayload(f, v, r.payload, r'.payload);
  }

  lemma {:induction false} OnlyRecords(fields: seq<Field>, msg: seq<Slot>, i: nat, rs: seq<Record>, rs': seq<Record>)
    requires i <= |fields| && SaysFrom(fields, msg, i, rs) && SaysFrom(fields, msg, i, rs')
    ensures rs == rs'
    decreases fields, 3, |fields| - i
  {
    if i < |fields| {
      var slot := Get(msg, Leader(fields, i));
      var n := Count(fields[i], slot);
      forall j | 0 <= j < n ensures rs[j] == rs'[j] {
        OnlyRecord(fields[i], slot, j, rs[j], rs'[j]);
      }
      OnlyRecords(fields, msg, i + 1, rs[n..], rs'[n..]);
      assert rs == rs[..n] + rs[n..] && rs' == rs'[..n] + rs'[n..];
    }
  }

  lemma {:induction false} OnlyBytes(fields: seq<Field>, msg: seq<Slot>, a: seq<byte>, b: seq<byte>)
    requires Conforms(fields, msg, a) && Conforms(fields, msg, b)
    ensures a == b
    decreases fields, 4
  {
    OnlyRecords(fields, msg, 0, ReadMessage(a).value, ReadMessage(b).value);
    SameMessage(a, b);
  }

  // ----- The encoder says it

  lemma LowFour(s: seq<byte>)
    requires |s| >= 4
    ensures LittleEndian(s) == FourBytesOf(s) + 0x1_0000_0000 * LittleEndian(s[4..])
  {
    assert s[1..][1..] == s[2..] && s[2..][1..] == s[3..] && s[3..][1..] == s[4..];
    assert LittleEndian(s[3..]) == s[3] + 256 * LittleEndian(s[4..]);
    assert LittleEndian(s[2..]) == s[2] + 256 * LittleEndian(s[3..]);
    assert LittleEndian(s[1..]) == s[1] + 256 * LittleEndian(s[2..]);
  }

  lemma FourRead(v: nat, rest: seq<byte>)
    requires v < 0x1_0000_0000
    ensures FourBytesOf(ToLittleEndian(v, 4) + rest) == v
  {
    var s := ToLittleEndian(v, 4);
    Pow256Sizes(4);
    LittleEndianRoundTrip(v, 4);
    LowFour(s);
    assert s[4..] == [];
  }

  lemma EightRead(v: nat, rest: seq<byte>)
    requires v < 0x1_0000_0000_0000_0000
    ensures EightBytesOf(ToLittleEndian(v, 8) + rest) == v
  {
    var s := ToLittleEndian(v, 8);
    Pow256Sizes(8);
    LittleEndianRoundTrip(v, 8);
    LowFour(s);
    LowFour(s[4..]);
    assert s[4..][4..] == [] && (s + rest)[4..] == s[4..] + rest;
  }

  lemma BlockRead(b: seq<byte>, rest: seq<byte>)
    ensures ReadPayload(2, EncBlock(b) + rest) == Ok(Block(b), rest)
  {
    NumberReads(|b|, b + rest);
    assert EncBlock(b) + rest == EncVarint(|b|) + (b + rest);
    assert (b + rest)[..|b|] == b && (b + rest)[|b|..] == rest;
  }

  lemma NegativeWraps(n: int)
    requires FitsSigned(8, n)
    ensures ToUnsigned(8, n) == if n < 0 then n + 0x1_0000_0000_0000_0000 else n
  {
  }

  lemma LeafSays(f: Field, v: Value, rest: seq<byte>) returns (p: Payload)
    requires HoldsLeaf(f, v)
    ensures EncodeLeaf(f, v).Some?
    ensures ReadPayload(Kind(f.ltype), EncodeLeaf(f, v).value + rest) == Ok(p, rest) && Says(f, v, p)
  {
    LeafRoundTrip(f, v, rest);
    match f.ltype
    case Bool =>
      p := Number(if v.n == 0 then 0 else 1);
      NumberReads(p.n, rest);
    case Varint =>
      p := Number(ToUnsigned(8, v.n));
      NegativeWraps(v.n);
      NumberReads(p.n, rest);
    case UVarint =>
      p := Number(v.n);
      UnsignedCastKeeps(8, v.n);
      NumberReads(p.n, rest);
    case SVarint =>
      ZigZagRoundTrip(v.n);
      p := Number(ZigZag(v.n));
      NumberReads(p.n, rest);
    case Fixed32 =>
      UnsignedCastKeeps(4, v.n);
      p := FourBytes(v.n);
      FourRead(v.n, rest);
      assert (ToLittleEndian(v.n, 4) + rest)[4..] == rest;
    case Fixed64 =>
      UnsignedCastKeeps(8, v.n);
      p := EightBytes(v.n);
      EightRead(v.n, rest);
      assert (ToLittleEndian(v.n, 8) + rest)[8..] == rest;
    case Bytes | FixedLengthBytes =>
      p := Block(v.data);
      BlockRead(v.data, rest);
    case String =>
      p := Block(CString(v.data));
      BlockRead(CString(v.data), rest);
  }

  lemma {:induction false} PackedSays(f: Field, items: seq<Value>)
    requires Packable(f.ltype) && HoldsItems(f, items)
    ensures EncodePacked(f, items).Some? && SaysAll(f, items, EncodePacked(f, items).value)
    decreases |items|
  {
    if items != [] {
      PackableHolds(f, items);
      PackedSays(f, items[1..]);
      var _ := LeafSays(f, items[0], EncodePacked(f, items[1..]).value);
    }
  }

  lemma KeyRead(f: Field, b: seq<byte>, p: Payload)
    requires ReadPayload(Kind(f.ltype), b) == Ok(p, [])
    ensures ReadRecord(EncTag(f.tag, WireType(f.ltype)) + b) == Ok(Record(f.tag, p), [])
  {
    var key := 8 * f.tag + Kind(f.ltype);
    NumberReads(key, b);
    assert key / 8 == f.tag && key % 8 == Kind(f.ltype);
  }

  lemma {:induction false} ItemSays(f: Field, v: Value) returns (p: Payload)
    requires WellFormedField(f) && HoldsValue(f, v)
    ensures EncodeRecord(f, v).Some? && ReadRecord(EncodeRecord(f, v).value) == Ok(Record(f.tag, p), [])
    ensures Says(f, v, p)
    decreases f, 0
  {
    var b: seq<byte>;
    if f.ltype.Submessage? {
      var rs := FromSays(f.ptr.fields, v.slots, 0);
      var parts := EncodeFrom(f.ptr.fields, v.slots, 0).value;
      MessageReads(parts, rs);
      b := EncBlock(Flatten(parts));
      p := Block(Flatten(parts));
      BlockRead(p.b, []);
    } else {
      p := LeafSays(f, v, []);
      b := EncodeLeaf(f, v).value;
    }
    assert b + [] == b;
    KeyRead(f, b, p);
  }

  lemma {:induction false} EachSays(f: Field, items: seq<Value>) returns (rs: seq<Record>)
    requires WellFormedField(f) && HoldsItems(f, items)
    ensures EncodeEach(f, items).Some? && Reads(EncodeEach(f, items).value, rs)
    ensures forall j :: 0 <= j < |items| ==> rs[j].number == f.tag && Says(f, items[j], rs[j].payload)
    decreases f, 1, |items|
  {
    rs := [];
    if items != [] {
      HoldsTail(f, items);
      var p := ItemSays(f, items[0]);
      var more := EachSays(f, items[1..]);
      rs := [Record(f.tag, p)] + more;
      EachCons(f, items);
    }
  }

  lemma PackedArraySays(f: Field, items: seq<Value>) returns (rs: seq<Record>)
    requires Packable(f.ltype) && HoldsItems(f, items) && 0 < |items| <= f.arraySize
    ensures EncodeArray(f, items).Some? && Reads(EncodeArray(f, items).value, rs)
    ensures |rs| == 1 && SaysRecord(f, Array(items), 0, rs[0])
  {
    PackedSays(f, items);
    var b := EncodePacked(f, items).value;
    var key := 8 * f.tag + 2;
    NumberReads(key, EncBlock(b));
    BlockRead(b, []);
    assert EncBlock(b) + [] == EncBlock(b);
    assert key / 8 == f.tag && key % 8 == 2;
    rs := [Record(f.tag, Block(b))];
  }

  /** What the records of one field say. */
  predicate SaysField(f: Field, slot: Slot, rs: seq<Record>) {
    |rs| == Count(f, slot) && forall j :: 0 <= j < |rs| ==> SaysRecord(f, slot, j, rs[j])
  }

  lemma {:induction false} FieldSays(fields: seq<Field>, msg: seq<Slot>, i: nat) returns (rs: seq<Record>)
    requires WellFormed(fields) && Holds(fields, msg) && i < |fields|
    ensures var slot := Get(msg, Leader(fields, i));
            && EncodeField(fields, i, slot).Some? && Reads(EncodeField(fields, i, slot).value, rs)
            && SaysField(fields[i], slot, rs)
    decreases fields, 2
  {
    var f, k := fields[i], Leader(fields, i);
    var slot := msg[k];
    LeaderLeads(fields, i);
    assert WellFormedField(f) && HoldsSlot(fields, k, slot);
    rs := [];
    if f.htype.Repeated? {
      if Packable(f.ltype) && slot.items != [] {
        rs := PackedArraySays(f, slot.items);
      } else {
        rs := EachSays(f, slot.items);
      }
    } else {
      FindsItself(fields, i);
      if Implicit(f) {
        SilentExactly(f, slot.val);
      }
      if Count(f, slot) == 1 {
        rs := EachSays(f, [slot.val]);
      }
    }
  }

  lemma ReadsBoth(a: seq<seq<byte>>, b: seq<seq<byte>>, rs: seq<Record>, more: seq<Record>)
    requires Reads(a, rs) && Reads(b, more)
    ensures Reads(a + b, rs + more)
  {
  }

  lemma SaysNext(fields: seq<Field>, msg: seq<Slot>, i: nat, here: seq<Record>, more: seq<Record>)
    requires i < |fields| && SaysField(fields[i], Get(msg, Leader(fields, i)), here)
    requires SaysFrom(fields, msg, i + 1, more)
    ensures SaysFrom(fields, msg, i, here + more)
  {
    assert (here + more)[|here|..] == more;
  }

  lemma {:induction false} FromSays(fields: seq<Field>, msg: seq<Slot>, i: nat) returns (rs: seq<Record>)
    requires WellFormed(fields) && Holds(fields, msg) && i <= |fields|
    ensures EncodeFrom(fields, msg, i).Some? && Reads(EncodeFrom(fields, msg, i).value, rs)
    ensures SaysFrom(fields, msg, i, rs)
    decreases fields, 3, |fields| - i
  {
    rs := [];
    if i < |fields| {
      var here := FieldSays(fields, msg, i);
      var more := FromSays(fields, msg, i + 1);
      rs := here + more;
      SaysNext(fields, msg, i, here, more);
      ReadsBoth(EncodeField(fields, i, Get(msg, Leader(fields, i))).value, EncodeFrom(fields, msg, i + 1).value,
                here, more);
    }
  }

  /** pb_encode writes the one byte sequence that says what the struct holds. */
  lemma EncodesExactly(fields: seq<Field>, msg: seq<Slot>, b: seq<byte>)
    requires WellFormed(fields) && Holds(fields, msg)
    ensures Encode(fields, msg) == Some(b) <==> Conforms(fields, msg, b)
  {
    var rs := FromSays(fields, msg, 0);
    var parts := EncodeFrom(fields, msg, 0).value;
    MessageReads(parts, rs);
    if Conforms(fields, msg, b) {
      OnlyBytes(fields, msg, b, Flatten(parts));
    }
  }

  /** pb_encode_delimited: the length as a number, and the message. */
  lemma DelimitedExactly(fields: seq<Field>, msg: seq<Slot>, d: seq<byte>)
    requires WellFormed(fields) && Holds(fields, msg)
    ensures EncodeDelimited(fields, msg) == Some(d)
            <==> && ReadPayload(2, d).Ok? && ReadPayload(2, d).rest == []
                 && Conforms(fields, msg, ReadPayload(2, d).value.b)
  {
    EncodeSucceeds(fields, msg);
    var b := Encode(fields, msg).value;
    EncodesExactly(fields, msg, b);
    BlockRead(b, []);
    assert EncBlock(b) + [] == EncBlock(b);
    if ReadPayload(2, d).Ok? && ReadPayload(2, d).rest == [] && Conforms(fields, msg, ReadPayload(2, d).value.b) {
      OnlyBytes(fields, msg, ReadPayload(2, d).value.b, b);
      SamePayload(2, d, EncBlock(b));
    }
  }

  /** pb_encode_nullterminated: the message and one zero. */
  lemma NullTerminatedExactly(fields: seq<Field>, msg: seq<Slot>, d: seq<byte>)
    requires WellFormed(fields) && Holds(fields, msg)
    ensures EncodeNullTerminated(fields, msg) == Some(d)
            <==> d != [] && d[|d| - 1] == 0 && Conforms(fields, msg, d[..|d| - 1])
  {
    EncodeSucceeds(fields, msg);
    var b := Encode(fields, msg).value;
    EncodesExactly(fields, msg, b);
    assert (b + [0])[..|b|] == b;
    if d != [] && d[|d| - 1] == 0 && Conforms(fields, msg, d[..|d| - 1]) {
      OnlyBytes(fields, msg, d[..|d| - 1], b);
      assert d == d[..|d| - 1] + [0];
    }
  }
}
