/** pb_encode.c: the two-pass encoder over mutable streams, proved against EncodeSpec. */
module PbEncode {
  import opened Basics
  import opened Varint
  import opened Descriptor
  import opened Leaf
  import opened EncodeSpec
  import opened FieldIter
  import opened Message
  import opened OutputStream
  import opened Presence

  /** What the iterator and the recursion need of a descriptor array: terminators, tags of 32 bits,
      and no extension placeholders. */
  predicate Walkable(fields: seq<Field>)
    decreases fields, 1
  {
    Terminated(fields) && forall i | 0 <= i < |fields| :: !fields[i].ltype.Extension? && WalkableField(fields[i])
  }

  predicate WalkableField(f: Field)
    decreases f, 0
  {
    f.tag < TWO_32 && (f.ltype.Submessage? && f.ptr.SubFields? ==> Walkable(f.ptr.fields))
  }

  // ----- pb_check_proto3_default_value

  /** The byte-per-byte comparison for numbers. */
  method CheckZeroBytes(p: seq<byte>) returns (zero: bool)
    ensures zero == ZeroBytes(p)
  {
    var i := 0;
    while i < |p|
      invariant 0 <= i <= |p| && forall k :: 0 <= k < i ==> p[k] == 0
    {
      if p[i] != 0 {
        return false;
      }
      i := i + 1;
    }
    return true;
  }

  method CheckProto3Default(f: Field, v: Value) returns (zero: bool)
    requires WalkableField(f)
    ensures zero == ZeroItem(f, v)
    ensures WellFormedField(f) && HoldsValue(f, v) ==> zero == Silent(f, v)
    decreases f, 0
  {
    if WellFormedField(f) && HoldsValue(f, v) {
      SilentExactly(f, v);
    }
    match f.ltype {
      case Bytes => return v.Blob? && |v.data| == 0;
      case String => return v.Blob? && (|v.data| == 0 || v.data[0] == 0);
      case FixedLengthBytes => return f.dataSize == 0;
      case Submessage =>
        if !f.ptr.SubFields? || !v.Msg? {
          return false;
        }
        zero := CheckAllDefault(f.ptr.fields, v.slots);
      case _ =>
        if !v.Num? {
          return false;
        }
        zero := CheckZeroBytes(NumberBytes(f.dataSize, v.n));
    }
  }

  method CheckFieldDefault(fields: seq<Field>, i: nat, slot: Slot) returns (zero: bool)
    requires Walkable(fields) && i < |fields|
    ensures zero == ZeroField(fields, i, slot)
    decreases fields, 0
  {
    var f := fields[i];
    match f.htype {
      case Required => return false;
      case Repeated => return f.sizeOffset != 0 && |ItemsOf(slot)| == 0;
      case Oneof => return slot.Union? && slot.which == 0;
      case Optional =>
        if f.sizeOffset != 0 || !slot.Single? {
          return slot.Single? && !slot.has;
        }
        zero := CheckProto3Default(f, slot.val);
    }
  }

  /** The loop over the fields of a submessage. */
  method CheckAllDefault(fields: seq<Field>, msg: seq<Slot>) returns (zero: bool)
    requires Walkable(fields)
    ensures zero == AllZero(fields, msg)
    decreases fields, 1
  {
    if fields == [] {
      return true;
    }
    var iter := new Iter(fields, 0);
    var more := true;
    while more
      invariant iter.AtPosition() && iter.SizeAtPosition() && iter.fields == fields
      invariant forall j :: 0 <= j < |fields| && (!more || j < iter.pos) ==>
                  ZeroField(fields, j, Get(msg, Leader(fields, j)))
      decreases more, |fields| - iter.pos
    {
      var here := CheckFieldDefault(fields, iter.pos, Get(msg, Leader(fields, iter.pos)));
      if !here {
        return false;
      }
      more := iter.Next();
    }
    return true;
  }

  // ----- Items other than submessages

  /** pb_enc_bool, pb_enc_varint, pb_enc_uvarint, pb_enc_svarint, pb_enc_fixed32 and pb_enc_fixed64. */
  method EncNumber(stream: OStream, f: Field, v: Value) returns (ok: bool)
    requires stream.Valid() && Packable(f.ltype)
    modifies stream`state, stream`bytesWritten, stream.buf
    ensures stream.Valid() && Appended(old(stream.Now()), stream.Now(), EncodeLeaf(f, v), ok)
  {
    if !v.Num? {
      return false;
    }
    match f.ltype {
      case Bool => ok := stream.EncodeVarint(if v.n != 0 then 1 else 0);
      case Fixed32 => ok := stream.EncodeFixed32(ToUnsigned(4, v.n));
      case Fixed64 => ok := stream.EncodeFixed64(ToUnsigned(8, v.n));
      case Varint | UVarint =>
        if !IntegerSize(f.dataSize) {
          return false;
        }
        ok := stream.EncodeVarint(ToUnsigned(8, v.n));
      case SVarint =>
        if !IntegerSize(f.dataSize) {
          return false;
        }
        ok := stream.EncodeSvarint(v.n);
    }
  }

  /** pb_enc_bytes. */
  method EncBytes(stream: OStream, f: Field, v: Value) returns (ok: bool)
    requires stream.Valid() && f.ltype.Bytes?
    modifies stream`state, stream`bytesWritten, stream.buf
    ensures stream.Valid() && Appended(old(stream.Now()), stream.Now(), EncodeLeaf(f, v), ok)
  {
    if !v.Blob? || |v.data| + BYTES_OFFSET > f.dataSize {
      return false;
    }
    ok := stream.EncodeString(v.data);
  }

  lemma CStringStep(data: seq<byte>, size: nat)
    requires size < |data| && data[size] != 0
    ensures data[..size] + CString(data[size..]) == data[..size + 1] + CString(data[size + 1..])
  {
    assert data[size..][1..] == data[size + 1..] && data[..size + 1] == data[..size] + [data[size]];
    assert CString(data[size..]) == [data[size]] + CString(data[size + 1..]);
  }

  /** The loop of pb_enc_string; what is not written of the buffer reads as a terminator. */
  method StringLength(data: seq<byte>, maxSize: nat) returns (size: nat)
    requires |data| <= maxSize
    ensures size <= |data| && data[..size] == CString(data)
  {
    size := 0;
    while size < maxSize && size < |data| && data[size] != 0
      invariant size <= |data| && CString(data) == data[..size] + CString(data[size..])
    {
      CStringStep(data, size);
      size := size + 1;
    }
    assert CString(data[size..]) == [];
  }

  /** pb_enc_string. */
  method EncString(stream: OStream, f: Field, v: Value) returns (ok: bool)
    requires stream.Valid() && f.ltype.String?
    modifies stream`state, stream`bytesWritten, stream.buf
    ensures stream.Valid() && Appended(old(stream.Now()), stream.Now(), EncodeLeaf(f, v), ok)
  {
    if !v.Blob? || |v.data| > f.dataSize {
      return false;
    }
    var size := StringLength(v.data, f.dataSize);
    ok := stream.EncodeString(v.data[..size]);
  }

  /** pb_enc_fixed_length_bytes. */
  method EncFixedLengthBytes(stream: OStream, f: Field, v: Value) returns (ok: bool)
    requires stream.Valid() && f.ltype.FixedLengthBytes?
    modifies stream`state, stream`bytesWritten, stream.buf
    ensures stream.Valid() && Appended(old(stream.Now()), stream.Now(), EncodeLeaf(f, v), ok)
  {
    if !v.Blob? || |v.data| != f.dataSize {
      return false;
    }
    ok := stream.EncodeString(v.data);
  }

  // ----- Records as one run of bytes

  function Joined(rs: Option<seq<seq<byte>>>): Option<seq<byte>> {
    if rs.None? then None else Some(Flatten(rs.value))
  }

  lemma JoinedOne(r: seq<byte>)
    ensures Joined(Some([r])) == Some(r)
  {
    assert Flatten([r]) == r + Flatten([]);
    assert r + [] == r;
  }

  lemma JoinedEach(f: Field, items: seq<Value>)
    requires items != []
    ensures Joined(EncodeEach(f, items)) == Concat(EncodeRecord(f, items[0]), Joined(EncodeEach(f, items[1..])))
  {
    var first, rest := EncodeRecord(f, items[0]), EncodeEach(f, items[1..]);
    if first.Some? && rest.Some? {
      assert ([first.value] + rest.value)[1..] == rest.value;
    }
  }

  lemma JoinedSingle(f: Field, v: Value)
    ensures Joined(EncodeEach(f, [v])) == EncodeRecord(f, v)
  {
    JoinedEach(f, [v]);
    ConcatNothing(EncodeRecord(f, v));
  }

  lemma JoinedFrom(fields: seq<Field>, msg: seq<Slot>, i: nat)
    requires i < |fields|
    ensures Joined(EncodeFrom(fields, msg, i)) ==
            Concat(Joined(EncodeField(fields, i, Get(msg, Leader(fields, i)))), Joined(EncodeFrom(fields, msg, i + 1)))
  {
    var here, rest := EncodeField(fields, i, Get(msg, Leader(fields, i))), EncodeFrom(fields, msg, i + 1);
    if here.Some? && rest.Some? {
      FlattenConcat(here.value, rest.value);
    }
  }

  // ----- Items and arrays

  /** The call through PB_ENCODERS. */
  method EncodeItem(stream: OStream, f: Field, v: Value) returns (ok: bool)
    requires stream.Valid() && WalkableField(f)
    modifies stream`state, stream`bytesWritten, stream.buf
    ensures stream.Valid() && Appended(old(stream.Now()), stream.Now(), EncodeValue(f, v), ok)
    decreases f, 1
  {
    match f.ltype {
      case Bytes => ok := EncBytes(stream, f, v);
      case String => ok := EncString(stream, f, v);
      case FixedLengthBytes => ok := EncFixedLengthBytes(stream, f, v);
      case Submessage =>
        if !f.ptr.SubFields? || !v.Msg? {
          return false;
        }
        ok := EncodeSubmessage(stream, f.ptr.fields, v.slots);
      case Extension => return false;
      case _ => ok := EncNumber(stream, f, v);
    }
  }

  /** pb_encode_tag_for_field. */
  method EncodeTagForField(stream: OStream, f: Field) returns (ok: bool)
    requires stream.Valid() && WalkableField(f)
    modifies stream`state, stream`bytesWritten, stream.buf
    ensures stream.Valid()
    ensures Appended(old(stream.Now()), stream.Now(),
                     if f.ltype.Extension? then None else Some(EncTag(f.tag, WireType(f.ltype))), ok)
  {
    var wireType;
    match f.ltype {
      case Bool | Varint | UVarint | SVarint => wireType := WT_VARINT;
      case Fixed32 => wireType := WT_32BIT;
      case Fixed64 => wireType := WT_64BIT;
      case Bytes | String | Submessage | FixedLengthBytes => wireType := WT_STRING;
      case Extension => return false;
    }
    ok := stream.EncodeTag(wireType, f.tag);
  }

  /** A tag and the item behind it. */
  method EncodeTagged(stream: OStream, f: Field, v: Value) returns (ok: bool)
    requires stream.Valid() && WalkableField(f)
    modifies stream`state, stream`bytesWritten, stream.buf
    ensures stream.Valid() && Appended(old(stream.Now()), stream.Now(), EncodeRecord(f, v), ok)
    decreases f, 2
  {
    ghost var t0 := stream.Now();
    ghost var tag := if f.ltype.Extension? then None else Some(EncTag(f.tag, WireType(f.ltype)));
    assert EncodeRecord(f, v) == Concat(tag, EncodeValue(f, v));
    ok := EncodeTagForField(stream, f);
    ghost var t1 := stream.Now();
    if !ok {
      NotAppended(t0, t1, tag, EncodeValue(f, v));
      return;
    }
    ok := EncodeItem(stream, f, v);
    ThenAppended(t0, t1, stream.Now(), tag, EncodeValue(f, v), ok);
  }

  /** The items of a packed array one after another, for sizing as for writing. */
  method EncodePackedItems(stream: OStream, f: Field, items: seq<Value>) returns (ok: bool)
    requires stream.Valid() && Packable(f.ltype)
    modifies stream`state, stream`bytesWritten, stream.buf
    ensures stream.Valid() && Appended(old(stream.Now()), stream.Now(), EncodePacked(f, items), ok)
  {
    ghost var t0 := stream.Now();
    ghost var all := EncodePacked(f, items);
    ghost var done: Option<seq<byte>> := Some([]);
    NothingAppended(t0);
    ConcatNothing(all);
    var i := 0;
    while i < |items|
      invariant 0 <= i <= |items| && stream.Valid()
      invariant Appended(t0, stream.Now(), done, true)
      invariant Concat(done, EncodePacked(f, items[i..])) == all
    {
      ghost var t1, here, rest := stream.Now(), EncodeLeaf(f, items[i]), EncodePacked(f, items[i + 1..]);
      assert items[i..][1..] == items[i + 1..];
      assert EncodePacked(f, items[i..]) == Concat(here, rest);
      ConcatAssoc(done, here, rest);
      ok := EncNumber(stream, f, items[i]);
      ThenAppended(t0, t1, stream.Now(), done, here, ok);
      done := Concat(done, here);
      if !ok {
        NotAppended(t0, stream.Now(), done, rest);
        return;
      }
      i := i + 1;
    }
    ConcatNothing(done);
    ok := true;
  }

  predicate NumbersOnly(items: seq<Value>) {
    forall k | 0 <= k < |items| :: items[k].Num?
  }

  /** The shortcut for fixed-size items. */
  lemma {:induction false} FixedSize(f: Field, items: seq<Value>)
    requires (f.ltype.Fixed32? || f.ltype.Fixed64?) && NumbersOnly(items)
    ensures EncodePacked(f, items).Some?
    ensures |EncodePacked(f, items).value| == (if f.ltype.Fixed32? then 4 else 8) * |items|
  {
    if items != [] {
      FixedSize(f, items[1..]);
    }
  }

  /** The number of bytes of a packed array. */
  method PackedSize(f: Field, items: seq<Value>) returns (ok: bool, size: nat)
    requires Packable(f.ltype) && NumbersOnly(items)
    ensures EncodePacked(f, items).None? ==> !ok
    ensures Small(EncodePacked(f, items)) ==> ok && size == |EncodePacked(f, items).value|
  {
    if f.ltype.Fixed32? {
      FixedSize(f, items);
      return true, 4 * |items|;
    }
    if f.ltype.Fixed64? {
      FixedSize(f, items);
      return true, 8 * |items|;
    }
    var sizeStream := new OStream.Sizing();
    ok := EncodePackedItems(sizeStream, f, items);
    size := sizeStream.bytesWritten;
  }

  /** The contents of a packed array whose size is known; a sizing stream only counts it. */
  method EncodePackedContents(stream: OStream, f: Field, items: seq<Value>, size: nat) returns (ok: bool)
    requires stream.Valid() && Packable(f.ltype)
    requires EncodePacked(f, items).Some? && (Small(EncodePacked(f, items)) ==> size == |EncodePacked(f, items).value|)
    modifies stream`state, stream`bytesWritten, stream.buf
    ensures stream.Valid() && Appended(old(stream.Now()), stream.Now(), EncodePacked(f, items), ok)
  {
    if stream.buf == null {
      ok := stream.Write([], size);
    } else {
      ok := EncodePackedItems(stream, f, items);
    }
  }

  /** The length prefix of a packed array and its contents. */
  method EncodePackedBlock(stream: OStream, f: Field, items: seq<Value>) returns (ok: bool)
    requires stream.Valid() && Packable(f.ltype) && NumbersOnly(items)
    modifies stream`state, stream`bytesWritten, stream.buf
    ensures stream.Valid()
    ensures var b := EncodePacked(f, items);
            Appended(old(stream.Now()), stream.Now(), if b.None? then None else Some(EncBlock(b.value)), ok)
  {
    ghost var t0 := stream.Now();
    ghost var b := EncodePacked(f, items);
    var size;
    ok, size := PackedSize(f, items);
    if !ok {
      return;
    }
    ok := stream.EncodeVarint(size % TWO_64);
    ghost var t1 := stream.Now();
    if ok {
      ok := EncodePackedContents(stream, f, items, size);
    }
    BlockAppended(t0, t1, stream.Now(), EncVarint(size % TWO_64), b.value, ok);
  }

  lemma {:induction false} NoNumbers(f: Field, items: seq<Value>)
    requires Packable(f.ltype) && !NumbersOnly(items)
    ensures EncodePacked(f, items).None?
  {
    if items[0].Num? {
      assert !NumbersOnly(items[1..]) by {
        var k :| 0 <= k < |items| && !items[k].Num?;
        assert items[1..][k - 1] == items[k];
      }
      NoNumbers(f, items[1..]);
    }
  }

  /** encode_array. */
  method EncodeArrayField(stream: OStream, f: Field, items: seq<Value>) returns (ok: bool)
    requires stream.Valid() && WalkableField(f)
    modifies stream`state, stream`bytesWritten, stream.buf
    ensures stream.Valid() && Appended(old(stream.Now()), stream.Now(), Joined(EncodeArray(f, items)), ok)
    decreases f, 4
  {
    ghost var t0 := stream.Now();
    if |items| == 0 {
      NothingAppended(t0);
      return true;
    }
    if |items| > f.arraySize {
      return false;
    }
    if !Packable(f.ltype) {
      ok := EncodeEachItem(stream, f, items);
      return;
    }
    ghost var b := EncodePacked(f, items);
    if !NumbersOnly(items) {
      NoNumbers(f, items);
      return false;
    }
    ghost var tag, block := Some(EncTag(f.tag, WT_STRING)), if b.None? then None else Some(EncBlock(b.value));
    if b.Some? {
      JoinedOne(EncTag(f.tag, WT_STRING) + EncBlock(b.value));
    }
    ok := stream.EncodeTag(WT_STRING, f.tag);
    ghost var t1 := stream.Now();
    if !ok {
      NotAppended(t0, t1, tag, block);
      return;
    }
    ok := EncodePackedBlock(stream, f, items);
    ThenAppended(t0, t1, stream.Now(), tag, block, ok);
  }

  /** An array that cannot be packed: a record for every item. */
  method EncodeEachItem(stream: OStream, f: Field, items: seq<Value>) returns (ok: bool)
    requires stream.Valid() && WalkableField(f)
    modifies stream`state, stream`bytesWritten, stream.buf
    ensures stream.Valid() && Appended(old(stream.Now()), stream.Now(), Joined(EncodeEach(f, items)), ok)
    decreases f, 3
  {
    ghost var t0 := stream.Now();
    ghost var all := Joined(EncodeEach(f, items));
    ghost var done: Option<seq<byte>> := Some([]);
    NothingAppended(t0);
    ConcatNothing(all);
    var i := 0;
    while i < |items|
      invariant 0 <= i <= |items| && stream.Valid()
      invariant Appended(t0, stream.Now(), done, true)
      invariant Concat(done, Joined(EncodeEach(f, items[i..]))) == all
    {
      ghost var t1, here, rest := stream.Now(), EncodeRecord(f, items[i]), Joined(EncodeEach(f, items[i + 1..]));
      JoinedEach(f, items[i..]);
      assert items[i..][1..] == items[i + 1..];
      ConcatAssoc(done, here, rest);
      ok := EncodeTagged(stream, f, items[i]);
      ThenAppended(t0, t1, stream.Now(), done, here, ok);
      done := Concat(done, here);
      if !ok {
        NotAppended(t0, stream.Now(), done, rest);
        return;
      }
      i := i + 1;
    }
    ConcatNothing(done);
    ok := true;
  }

  // ----- Fields and messages

  /** encode_field and encode_basic_field. */
  method EncodeBasicField(stream: OStream, fields: seq<Field>, i: nat, slot: Slot) returns (ok: bool)
    requires stream.Valid() && Walkable(fields) && i < |fields|
    modifies stream`state, stream`bytesWritten, stream.buf
    ensures stream.Valid() && Appended(old(stream.Now()), stream.Now(), Joined(EncodeField(fields, i, slot)), ok)
    decreases fields, 0
  {
    var f := fields[i];
    NothingAppended(stream.Now());
    if !f.atype.Static? {
      return false;
    }
    match f.htype {
      case Required =>
        if !slot.Single? {
          return false;
        }
        JoinedSingle(f, slot.val);
        ok := EncodeTagged(stream, f, slot.val);
      case Optional =>
        if !slot.Single? {
          return false;
        }
        var has := slot.has;
        if f.sizeOffset == 0 {
          var zero := CheckProto3Default(f, slot.val);
          has := !zero;
        }
        if !has {
          return true;
        }
        JoinedSingle(f, slot.val);
        ok := EncodeTagged(stream, f, slot.val);
      case Repeated =>
        if !slot.Array? || (f.sizeOffset == 0 && |slot.items| != f.arraySize) {
          return false;
        }
        ok := EncodeArrayField(stream, f, slot.items);
      case Oneof =>
        if !slot.Union? {
          return false;
        }
        if slot.which != f.tag {
          return true;
        }
        JoinedSingle(f, slot.val);
        ok := EncodeTagged(stream, f, slot.val);
    }
  }

  /** One turn of the loop over the fields, with what has been written before it. */
  method EncodeTurn(stream: OStream, fields: seq<Field>, msg: seq<Slot>, i: nat,
                    ghost t0: Track, ghost done: Option<seq<byte>>)
    returns (ok: bool, ghost done': Option<seq<byte>>)
    requires stream.Valid() && Walkable(fields) && i < |fields| && Appended(t0, stream.Now(), done, true)
    modifies stream`state, stream`bytesWritten, stream.buf
    ensures stream.Valid()
    ensures Concat(done', Joined(EncodeFrom(fields, msg, i + 1))) == Concat(done, Joined(EncodeFrom(fields, msg, i)))
    ensures ok ==> Appended(t0, stream.Now(), done', true)
    ensures !ok ==> Appended(t0, stream.Now(), Concat(done, Joined(EncodeFrom(fields, msg, i))), false)
    decreases fields, 1, 0
  {
    var slot := Get(msg, Leader(fields, i));
    ghost var t1, here := stream.Now(), Joined(EncodeField(fields, i, slot));
    ghost var rest := Joined(EncodeFrom(fields, msg, i + 1));
    JoinedFrom(fields, msg, i);
    ConcatAssoc(done, here, rest);
    ok := EncodeBasicField(stream, fields, i, slot);
    done' := Concat(done, here);
    ThenAppended(t0, t1, stream.Now(), done, here, ok);
    if !ok {
      NotAppended(t0, stream.Now(), done', rest);
    }
  }

  /** pb_encode. */
  method EncodeMessage(stream: OStream, fields: seq<Field>, msg: seq<Slot>) returns (ok: bool)
    requires stream.Valid() && Walkable(fields)
    modifies stream`state, stream`bytesWritten, stream.buf
    ensures stream.Valid() && Appended(old(stream.Now()), stream.Now(), Encode(fields, msg), ok)
    decreases fields, 1
  {
    ghost var t0 := stream.Now();
    NothingAppended(t0);
    var iter := new Iter(fields, 0);
    if fields == [] {
      return true;
    }
    ghost var all, rest := Joined(EncodeFrom(fields, msg, 0)), Joined(EncodeFrom(fields, msg, 0));
    ghost var done: Option<seq<byte>> := Some([]);
    ConcatNothing(all);
    var more := true;
    while more
      invariant iter.AtPosition() && iter.SizeAtPosition() && iter.fields == fields && stream.Valid()
      invariant Appended(t0, stream.Now(), done, true)
      invariant rest == if more then Joined(EncodeFrom(fields, msg, iter.pos)) else Some([])
      invariant Concat(done, rest) == all
      decreases more, |fields| - iter.pos
    {
      ok, done := EncodeTurn(stream, fields, msg, iter.pos, t0, done);
      if !ok {
        return;
      }
      rest := Joined(EncodeFrom(fields, msg, iter.pos + 1));
      more := iter.Next();
    }
    ConcatNothing(done);
    ok := true;
  }

  /** pb_encode_submessage: a sizing pass, the length, and a second pass that may write no more
      than that length. */
  method EncodeSubmessage(stream: OStream, fields: seq<Field>, msg: seq<Slot>) returns (ok: bool)
    requires stream.Valid() && Walkable(fields)
    modifies stream`state, stream`bytesWritten, stream.buf
    ensures stream.Valid() && Appended(old(stream.Now()), stream.Now(), EncodeDelimited(fields, msg), ok)
    decreases fields, 2
  {
    var substream := new OStream.Sizing();
    ok := EncodeMessage(substream, fields, msg);
    if !ok {
      return;
    }
    ok := EncodeSized(stream, substream, substream.bytesWritten, fields, msg);
  }

  /** What follows the sizing pass. */
  method EncodeSized(stream: OStream, substream: OStream, size: nat, fields: seq<Field>, msg: seq<Slot>)
    returns (ok: bool)
    requires stream.Valid() && substream != stream && Walkable(fields)
    requires Encode(fields, msg).Some? && (Small(Encode(fields, msg)) ==> size == |Encode(fields, msg).value|)
    modifies stream`state, stream`bytesWritten, stream.buf, substream
    ensures stream.Valid() && Appended(old(stream.Now()), stream.Now(), EncodeDelimited(fields, msg), ok)
    decreases fields, 2, 1
  {
    ghost var t0 := stream.Now();
    ok := stream.EncodeVarint(size % TWO_64);
    ghost var t1 := stream.Now();
    if ok {
      if stream.buf == null {
        ok := stream.Write([], size);
      } else {
        ok := EncodeSecondPass(stream, substream, size, fields, msg);
      }
    }
    BlockAppended(t0, t1, stream.Now(), EncVarint(size % TWO_64), Encode(fields, msg).value, ok);
  }

  /** The second pass, into the parent's buffer with the size as its limit. */
  method EncodeSecondPass(stream: OStream, substream: OStream, size: nat, fields: seq<Field>, msg: seq<Slot>)
    returns (ok: bool)
    requires stream.Valid() && stream.buf != null && substream != stream && Walkable(fields)
    requires Small(Encode(fields, msg)) ==> size == |Encode(fields, msg).value|
    modifies stream`state, stream`bytesWritten, stream.buf, substream
    ensures stream.Valid() && Appended(old(stream.Now()), stream.Now(), Encode(fields, msg), ok)
    decreases fields, 2, 0
  {
    if stream.bytesWritten + size > stream.maxSize {
      return false;
    }
    substream.LimitTo(stream, size);
    ghost var t1, s1 := stream.Now(), substream.Now();
    ok := EncodeMessage(substream, fields, msg);
    ghost var s2 := substream.Now();
    stream.MoveTo(substream, t1, s1);
    SubstreamAppended(t1, s1, stream.Now(), s2, Encode(fields, msg), ok);
    if substream.bytesWritten != size {
      // the size has changed: only for a message that is too long to be written at all
      assert !(ok && Small(Encode(fields, msg)));
      return false;
    }
  }

  /** pb_encode_delimited. */
  method EncodeDelimitedMessage(stream: OStream, fields: seq<Field>, msg: seq<Slot>) returns (ok: bool)
    requires stream.Valid() && Walkable(fields)
    modifies stream`state, stream`bytesWritten, stream.buf
    ensures stream.Valid() && Appended(old(stream.Now()), stream.Now(), EncodeDelimited(fields, msg), ok)
  {
    ok := EncodeSubmessage(stream, fields, msg);
  }

  /** pb_encode_nullterminated. */
  method EncodeNullTerminatedMessage(stream: OStream, fields: seq<Field>, msg: seq<Slot>) returns (ok: bool)
    requires stream.Valid() && Walkable(fields)
    modifies stream`state, stream`bytesWritten, stream.buf
    ensures stream.Valid() && Appended(old(stream.Now()), stream.Now(), EncodeNullTerminated(fields, msg), ok)
  {
    ghost var t0 := stream.Now();
    ok := EncodeMessage(stream, fields, msg);
    ghost var t1 := stream.Now();
    if !ok {
      NotAppended(t0, t1, Encode(fields, msg), Some([0]));
      return;
    }
    ok := stream.WriteAll([0]);
    ThenAppended(t0, t1, stream.Now(), Encode(fields, msg), Some([0]), ok);
  }

  /** pb_get_encoded_size. */
  method GetEncodedSize(fields: seq<Field>, msg: seq<Slot>) returns (ok: bool, size: nat)
    requires Walkable(fields)
    ensures Encode(fields, msg).None? ==> !ok
    ensures Small(Encode(fields, msg)) ==> ok && size == |Encode(fields, msg).value|
  {
    var stream := new OStream.Sizing();
    ok := EncodeMessage(stream, fields, msg);
    size := stream.bytesWritten;
  }
}
