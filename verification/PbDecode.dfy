/** pb_decode.c: the decoder over mutable streams, proved against DecodeSpec. */
module PbDecode {
  import opened Basics
  import opened Varint
  import opened Descriptor
  import opened Leaf
  import opened DecodeSpec
  import opened Required
  import opened FieldIter
  import opened Initial
  import opened InputStream

  /** What the iterator and the recursion need of a descriptor array: a terminator behind it, and
      one field for a tag. */
  predicate Navigable(fields: seq<Field>)
    decreases fields, 1
  {
    Terminated(fields) && DistinctTags(fields) && forall i | 0 <= i < |fields| :: NavigableField(fields[i])
  }

  predicate NavigableField(f: Field)
    decreases f, 0
  {
    f.ltype.Submessage? && f.ptr.SubFields? ==> Navigable(f.ptr.fields)
  }

  // ----- Items other than submessages

  /** pb_dec_bool. */
  method DecBool(stream: IStream, f: Field) returns (ok: bool, v: Value)
    requires stream.Valid() && f.ltype.Bool?
    modifies stream
    ensures stream.Valid() && stream.Limit() == old(stream.Limit())
    ensures var r := DecodeLeaf(f, old(stream.Left())); ok == r.Ok? && (ok ==> r == Ok(v, stream.Left()))
  {
    var value;
    ok, value := stream.DecodeVarint32();
    v := Num(if value != 0 then 1 else 0);
  }

  /** pb_dec_varint. */
  method DecVarint(stream: IStream, f: Field) returns (ok: bool, v: Value)
    requires stream.Valid() && f.ltype.Varint?
    modifies stream
    ensures stream.Valid() && stream.Limit() == old(stream.Limit())
    ensures var r := DecodeLeaf(f, old(stream.Left())); ok == r.Ok? && (ok ==> r == Ok(v, stream.Left()))
  {
    var value;
    ok, value := stream.DecodeVarint();
    v := Num(0);
    if !ok {
      return;
    }
    var svalue := if f.dataSize == 8 then ToSigned(8, value) else ToSigned(4, value);
    if !IntegerSize(f.dataSize) {
      return false, v;
    }
    var clamped := ToSigned(f.dataSize, svalue);
    v := Num(clamped);
    ok := clamped == svalue;
  }

  /** pb_dec_uvarint. */
  method DecUVarint(stream: IStream, f: Field) returns (ok: bool, v: Value)
    requires stream.Valid() && f.ltype.UVarint?
    modifies stream
    ensures stream.Valid() && stream.Limit() == old(stream.Limit())
    ensures var r := DecodeLeaf(f, old(stream.Left())); ok == r.Ok? && (ok ==> r == Ok(v, stream.Left()))
  {
    var value;
    ok, value := stream.DecodeVarint();
    v := Num(0);
    if !ok {
      return;
    }
    if !IntegerSize(f.dataSize) {
      return false, v;
    }
    var clamped := ToUnsigned(f.dataSize, value);
    v := Num(clamped);
    ok := clamped == value;
  }

  /** pb_dec_svarint, with pb_decode_svarint. */
  method DecSVarint(stream: IStream, f: Field) returns (ok: bool, v: Value)
    requires stream.Valid() && f.ltype.SVarint?
    modifies stream
    ensures stream.Valid() && stream.Limit() == old(stream.Limit())
    ensures var r := DecodeLeaf(f, old(stream.Left())); ok == r.Ok? && (ok ==> r == Ok(v, stream.Left()))
  {
    var raw;
    ok, raw := stream.DecodeVarint();
    v := Num(0);
    if !ok {
      return;
    }
    var value := UnZigZag(raw);
    if !IntegerSize(f.dataSize) {
      return false, v;
    }
    var clamped := ToSigned(f.dataSize, value);
    v := Num(clamped);
    ok := clamped == value;
  }

  /** pb_dec_fixed32 and pb_dec_fixed64. */
  method DecFixed(stream: IStream, f: Field) returns (ok: bool, v: Value)
    requires stream.Valid() && (f.ltype.Fixed32? || f.ltype.Fixed64?)
    modifies stream
    ensures stream.Valid() && stream.Limit() == old(stream.Limit())
    ensures var r := DecodeLeaf(f, old(stream.Left())); ok == r.Ok? && (ok ==> r == Ok(v, stream.Left()))
  {
    var value;
    if f.ltype.Fixed32? {
      ok, value := stream.DecodeFixed32();
    } else {
      ok, value := stream.DecodeFixed64();
    }
    v := Num(value);
  }

  /** The decoders of the packable types. */
  method DecNumber(stream: IStream, f: Field) returns (ok: bool, v: Value)
    requires stream.Valid() && Packable(f.ltype)
    modifies stream
    ensures stream.Valid() && stream.Limit() == old(stream.Limit())
    ensures var r := DecodeLeaf(f, old(stream.Left())); ok == r.Ok? && (ok ==> r == Ok(v, stream.Left()))
  {
    match f.ltype {
      case Bool => ok, v := DecBool(stream, f);
      case Varint => ok, v := DecVarint(stream, f);
      case UVarint => ok, v := DecUVarint(stream, f);
      case SVarint => ok, v := DecSVarint(stream, f);
      case Fixed32 | Fixed64 => ok, v := DecFixed(stream, f);
    }
  }

  /** The contents of a block whose length has been read. */
  method ReadContents(stream: IStream, size: nat) returns (ok: bool, data: seq<byte>)
    requires stream.Valid()
    modifies stream
    ensures stream.Valid() && stream.Limit() == old(stream.Limit())
    ensures ok == (size <= old(stream.bytesLeft))
    ensures ok ==> data == old(stream.Left())[..size] && stream.Left() == old(stream.Left())[size..]
  {
    var contents := new byte[size](_ => 0);
    ok := stream.Read(contents, size);
    data := contents[..];
    assert contents[..size] == data;
  }

  /** pb_dec_bytes. */
  method DecBytes(stream: IStream, f: Field) returns (ok: bool, v: Value)
    requires stream.Valid() && f.ltype.Bytes?
    modifies stream
    ensures stream.Valid() && stream.Limit() == old(stream.Limit())
    ensures var r := DecodeLeaf(f, old(stream.Left())); ok == r.Ok? && (ok ==> r == Ok(v, stream.Left()))
  {
    var size, data;
    v := Garbage;
    ok, size := stream.DecodeVarint32();
    if !ok {
      return;
    }
    if size > PB_SIZE_MAX || size + BYTES_OFFSET > f.dataSize {
      return false, v;
    }
    ok, data := ReadContents(stream, size);
    v := Blob(data);
  }

  /** pb_dec_string. */
  method DecString(stream: IStream, f: Field) returns (ok: bool, v: Value)
    requires stream.Valid() && f.ltype.String?
    modifies stream
    ensures stream.Valid() && stream.Limit() == old(stream.Limit())
    ensures var r := DecodeLeaf(f, old(stream.Left())); ok == r.Ok? && (ok ==> r == Ok(v, stream.Left()))
  {
    var size, data;
    v := Garbage;
    ok, size := stream.DecodeVarint32();
    if !ok {
      return;
    }
    var allocSize := (size + 1) % TWO_32;
    if allocSize < size || allocSize > f.dataSize {
      return false, v;
    }
    ok, data := ReadContents(stream, size);
    v := Blob(data);
  }

  /** pb_dec_fixed_length_bytes. */
  method DecFixedLengthBytes(stream: IStream, f: Field) returns (ok: bool, v: Value)
    requires stream.Valid() && f.ltype.FixedLengthBytes?
    modifies stream
    ensures stream.Valid() && stream.Limit() == old(stream.Limit())
    ensures var r := DecodeLeaf(f, old(stream.Left())); ok == r.Ok? && (ok ==> r == Ok(v, stream.Left()))
  {
    var size, data;
    v := Garbage;
    ok, size := stream.DecodeVarint32();
    if !ok {
      return;
    }
    if size > PB_SIZE_MAX {
      return false, v;
    }
    if size == 0 {
      return true, Blob(Zeros(f.dataSize));
    }
    if size != f.dataSize {
      return false, v;
    }
    ok, data := ReadContents(stream, size);
    v := Blob(data);
  }

  // ----- Defaults

  /** pb_message_set_to_defaults, with pb_field_set_to_default for each field in turn. */
  method SetToDefaults(fields: seq<Field>) returns (msg: seq<Slot>)
    requires Navigable(fields)
    ensures msg == Defaults(fields) && InitialStruct(fields, msg)
    decreases fields, 1
  {
    msg := seq(|fields|, _ => Shared);
    var iter := new Iter(fields, 0);
    if fields == [] {
      return;
    }
    var more := true;
    while more
      invariant iter.AtPosition() && iter.SizeAtPosition() && iter.fields == fields && |msg| == |fields|
      invariant more ==> iter.pos < |fields|
      invariant forall j :: 0 <= j < |fields| ==>
                  msg[j] == if !more || j < iter.pos then DefaultSlot(fields, j) else Shared
      decreases more, |fields| - iter.pos
    {
      var i := iter.pos;
      var f := fields[i];
      if Leader(fields, i) == i {
        var slot;
        match f.htype {
          case Oneof => slot := Union(0, Garbage);
          case Repeated => slot := if FixedCount(f) then Array(seq(f.arraySize, _ => Garbage)) else Array([]);
          case _ =>
            var v := DefaultItem(f);
            slot := Single(f.htype.Required? || f.sizeOffset == 0, v);
        }
        msg := msg[i := slot];
      }
      more := iter.Next();
    }
    assert msg == Defaults(fields);
    DefaultsAreInitial(fields);
  }

  method DefaultItem(f: Field) returns (v: Value)
    requires NavigableField(f)
    ensures v == DefaultValue(f)
    decreases f, 0
  {
    if f.ltype.Submessage? {
      if f.ptr.SubFields? {
        var m := SetToDefaults(f.ptr.fields);
        return Msg(m);
      }
      return Garbage;
    }
    return if f.ptr.Default? then f.ptr.value else ZeroValue(f);
  }

  // ----- Items and fields

  /** The call through PB_DECODERS. */
  method DecodeItem(stream: IStream, f: Field, prior: Value) returns (ok: bool, v: Value)
    requires stream.Valid() && NavigableField(f) && (f.htype.Repeated? ==> prior == Garbage)
    modifies stream
    ensures stream.Valid() && stream.Limit() <= old(stream.Limit())
    ensures var r := DecodeValue(f, old(stream.Left()), prior); ok == r.Ok? && (ok ==> r == Ok(v, stream.Left()))
    ensures ok ==> stream.Limit() == old(stream.Limit())
    decreases stream.bytesLeft, 2
  {
    match f.ltype {
      case Bool | Varint | UVarint | SVarint | Fixed32 | Fixed64 => ok, v := DecNumber(stream, f);
      case Bytes => ok, v := DecBytes(stream, f);
      case String => ok, v := DecString(stream, f);
      case FixedLengthBytes => ok, v := DecFixedLengthBytes(stream, f);
      case Submessage => ok, v := DecSubmessage(stream, f, prior);
      case Extension => return false, Garbage;
    }
  }

  lemma SubmessageValue(f: Field, s: seq<byte>, prior: Value)
    requires f.ltype.Submessage?
    ensures DecodeValue(f, s, prior) ==
            if ReadBlock(s).Fail? || !f.ptr.SubFields? then Fail
            else match DecodeNoinit(f.ptr.fields, ReadBlock(s).value, PriorSlots(prior, f.ptr.fields))
              case Fail => Fail
              case Ok(m, _) => Ok(Msg(m), ReadBlock(s).rest)
  {
  }

  /** pb_dec_submessage. */
  method DecSubmessage(stream: IStream, f: Field, prior: Value) returns (ok: bool, v: Value)
    requires stream.Valid() && NavigableField(f) && f.ltype.Submessage?
    requires f.htype.Repeated? ==> prior == Garbage
    modifies stream
    ensures stream.Valid() && stream.Limit() <= old(stream.Limit())
    ensures var r := DecodeValue(f, old(stream.Left()), prior); ok == r.Ok? && (ok ==> r == Ok(v, stream.Left()))
    ensures ok ==> stream.Limit() == old(stream.Limit())
    decreases stream.bytesLeft, 1
  {
    v := Garbage;
    SubmessageValue(f, stream.Left(), prior);
    var msg;
    ok, msg := DecodeBlock(stream, f, prior);
    v := Msg(msg);
  }

  lemma BlockShrinks(s: seq<byte>)
    ensures ReadBlock(s).Ok? ==> |ReadBlock(s).value| < |s|
  {
    if ReadBlock(s).Ok? {
      ReadBlockShrinks(s);
    }
  }

  /** The substream of a submessage: new array entries are initialised, other submessages merge into
      what is there. */
  method DecodeBlock(stream: IStream, f: Field, prior: Value) returns (ok: bool, msg: seq<Slot>)
    requires stream.Valid() && NavigableField(f) && f.ltype.Submessage?
    requires f.htype.Repeated? ==> prior == Garbage
    modifies stream
    ensures stream.Valid() && stream.Limit() <= old(stream.Limit())
    ensures var block := ReadBlock(old(stream.Left()));
            if block.Fail? || !f.ptr.SubFields? then !ok
            else
              var r := DecodeNoinit(f.ptr.fields, block.value, PriorSlots(prior, f.ptr.fields));
              ok == r.Ok? && (ok ==> msg == r.value && stream.Left() == block.rest)
    ensures ok ==> stream.Limit() == old(stream.Limit())
    decreases stream.bytesLeft, 0
  {
    msg := [];
    ghost var block := ReadBlock(stream.Left());
    BlockShrinks(stream.Left());
    var substream;
    ok, substream := stream.MakeSubstream();
    if !ok {
      return;
    }
    if !f.ptr.SubFields? {
      return false, msg;
    }
    ok, msg := DecodePayload(substream, f, prior);
    var closed := stream.CloseSubstream(substream, block.rest);
  }

  method DecodePayload(substream: IStream, f: Field, prior: Value) returns (ok: bool, msg: seq<Slot>)
    requires substream.Valid() && NavigableField(f) && f.ltype.Submessage? && f.ptr.SubFields?
    requires f.htype.Repeated? ==> prior == Garbage
    modifies substream
    ensures substream.Valid() && substream.Limit() <= old(substream.Limit())
    ensures var r := DecodeNoinit(f.ptr.fields, old(substream.Left()), PriorSlots(prior, f.ptr.fields));
            ok == r.Ok? && (ok ==> msg == r.value && substream.Limit() == old(substream.Limit()))
    decreases substream.bytesLeft, 12
  {
    if f.htype.Repeated? {
      ok, msg := DecodeMessage(substream, f.ptr.fields);
    } else {
      ok, msg := DecodeMessageNoinit(substream, f.ptr.fields, PriorSlots(prior, f.ptr.fields));
    }
  }

  function Prepend(vs: seq<Value>, more: Option<seq<Value>>): Option<seq<Value>> {
    match more { case None => None case Some(ws) => Some(vs + ws) }
  }

  lemma PrependMore(vs: seq<Value>, v: Value, more: Option<seq<Value>>)
    ensures Prepend(vs, Prepend([v], more)) == Prepend(vs + [v], more)
  {
    if more.Some? {
      assert vs + ([v] + more.value) == vs + [v] + more.value;
    }
  }

  lemma PrependNothing(more: Option<seq<Value>>)
    ensures Prepend([], more) == more
  {
    if more.Some? {
      assert [] + more.value == more.value;
    }
  }

  lemma PackedItem(f: Field, s: seq<byte>, room: nat)
    requires Packable(f.ltype) && s != [] && room > 0
    ensures var r := DecodeLeaf(f, s);
            DecodePacked(f, s, room) == if r.Fail? then None else Prepend([r.value], DecodePacked(f, r.rest, room - 1))
  {
  }

  /** One item further in a packed array. */
  lemma PackedTurn(f: Field, s: seq<byte>, room: nat, received: seq<Value>)
    requires Packable(f.ltype) && s != [] && room > 0
    ensures var r := DecodeLeaf(f, s);
            Prepend(received, DecodePacked(f, s, room))
            == if r.Fail? then None else Prepend(received + [r.value], DecodePacked(f, r.rest, room - 1))
  {
    var r := DecodeLeaf(f, s);
    PackedItem(f, s, room);
    if r.Ok? {
      PrependMore(received, r.value, DecodePacked(f, r.rest, room - 1));
    }
  }

  lemma PackedEnd(f: Field, s: seq<byte>, room: nat, received: seq<Value>)
    requires s == [] || room == 0
    ensures Prepend(received, DecodePacked(f, s, room)) == if s == [] then Some(received) else None
  {
    assert received + [] == received;
  }

  /** The loop over the items of a packed array, while the array has room. */
  method DecodePackedItems(substream: IStream, f: Field, room: nat) returns (status: bool, received: seq<Value>)
    requires substream.Valid() && Packable(f.ltype)
    modifies substream
    ensures substream.Valid() && substream.Limit() == old(substream.Limit())
    ensures var r := DecodePacked(f, old(substream.Left()), room);
            if status && substream.bytesLeft == 0 then r == Some(received) else r.None?
  {
    received := [];
    ghost var rest: seq<byte>, n: nat := substream.Left(), room;
    ghost var all := DecodePacked(f, rest, n);
    PrependNothing(all);
    while substream.bytesLeft > 0 && |received| < room
      invariant substream.Valid() && substream.Limit() == old(substream.Limit())
      invariant rest == substream.Left() && |rest| <= old(substream.bytesLeft)
      invariant n + |received| == room
      invariant all == Prepend(received, DecodePacked(f, rest, n))
      decreases substream.bytesLeft
    {
      ghost var item := DecodeLeaf(f, rest);
      PackedTurn(f, rest, n, received);
      var ok, v := DecNumber(substream, f);
      if !ok {
        return false, received;
      }
      rest, n := item.rest, n - 1;
      received := received + [v];
    }
    PackedEnd(f, rest, n, received);
    return true, received;
  }

  lemma PackedBlock(f: Field, s: seq<byte>, room: nat)
    requires Packable(f.ltype)
    ensures var block := ReadBlock(s);
            var items := if block.Ok? then DecodePacked(f, block.value, room) else None;
            && DecodeItems(f, WT_STRING, s, room) == (if items.None? then Fail else Ok(items.value, block.rest))
            && (block.Ok? ==> |block.value| < |s|)
  {
    BlockShrinks(s);
  }

  /** The packed branch of decode_static_field: items until the substream or the array is used up. */
  method DecodePackedArray(stream: IStream, f: Field, used: nat) returns (ok: bool, received: seq<Value>)
    requires stream.Valid() && Packable(f.ltype)
    modifies stream
    ensures stream.Valid() && stream.Limit() <= old(stream.Limit())
    ensures ok ==> stream.Limit() == old(stream.Limit())
    ensures var r := DecodeItems(f, WT_STRING, old(stream.Left()), Room(f, used));
            ok == r.Ok? && (ok ==> r == Ok(received, stream.Left()))
  {
    received := [];
    ghost var block := ReadBlock(stream.Left());
    PackedBlock(f, stream.Left(), Room(f, used));
    var substream;
    ok, substream := stream.MakeSubstream();
    if !ok {
      return;
    }
    var status;
    status, received := DecodePackedItems(substream, f, Room(f, used));
    if substream.bytesLeft != 0 {
      return false, received;
    }
    var closed := stream.CloseSubstream(substream, block.rest);
    ok := status;
  }

  /** decode_static_field on the memory of one field. `counter` is the decoder's own count when
      pSize points at it, which is the case for fixed-count arrays. */
  method DecodeStaticField(stream: IStream, wireType: nat, f: Field, slot: Slot, fixed: bool, counter: nat)
    returns (ok: bool, slot': Slot, counter': nat)
    requires stream.Valid() && NavigableField(f)
    modifies stream
    ensures stream.Valid() && stream.Limit() <= old(stream.Limit())
    ensures ok ==> stream.Limit() == old(stream.Limit())
    ensures f.htype.Repeated? ==>
              var items := ItemsOf(slot);
              var r := DecodeItems(f, wireType, old(stream.Left()), Room(f, if fixed then counter else |items|));
              && ok == r.Ok?
              && (ok ==> stream.Left() == r.rest
                         && slot' == Array(if fixed then Splice(items, counter, r.value) else items + r.value)
                         && counter' == counter + |r.value|)
    ensures !f.htype.Repeated? ==>
              var r := DecodeValue(f, old(stream.Left()), if f.htype.Oneof? then Garbage else ItemOf(slot));
              && ok == r.Ok?
              && (ok ==> stream.Left() == r.rest && counter' == counter
                         && slot' == if f.htype.Oneof? then Union(f.tag, r.value) else Single(true, r.value))
    decreases stream.bytesLeft, 5
  {
    slot', counter' := slot, counter;
    var v;
    match f.htype {
      case Required | Optional =>
        ok, v := DecodeItem(stream, f, ItemOf(slot));
        slot' := Single(true, v);
      case Oneof =>
        var start := Garbage;
        if f.ltype.Submessage? && f.ptr.SubFields? {
          var m := SetToDefaults(f.ptr.fields);
          start := Msg(m);
        }
        ok, v := DecodeItem(stream, f, start);
        slot' := Union(f.tag, v);
      case Repeated =>
        var items := ItemsOf(slot);
        var size := if fixed then counter else |items|;
        var received: seq<Value>;
        if wireType == WT_STRING && Packable(f.ltype) {
          ok, received := DecodePackedArray(stream, f, size);
        } else {
          if size >= f.arraySize {
            return false, slot, counter;
          }
          ok, v := DecodeItem(stream, f, Garbage);
          received := [v];
        }
        slot' := Array(if fixed then Splice(items, counter, received) else items + received);
        counter' := counter + |received|;
    }
  }

  // ----- Messages

  /** The two words of the bitmap stand for the set of seen required fields. */
  ghost predicate SeenWords(words: array<nat>, seen: set<nat>)
    reads words
  {
    words.Length == 2 && words[0] == SeenWord(seen, 0, 32) && words[1] == SeenWord(seen, 32, 32)
  }

  lemma MarkedWord(seen: set<nat>, word: nat, bit: nat)
    requires word < 2 && bit < 32
    ensures var more := seen + {32 * word + bit};
            if word == 0 then
              && SeenWord(more, 0, 32) == BitOr(SeenWord(seen, 0, 32), Pow2(bit))
              && SeenWord(more, 32, 32) == SeenWord(seen, 32, 32)
            else
              && SeenWord(more, 0, 32) == SeenWord(seen, 0, 32)
              && SeenWord(more, 32, 32) == BitOr(SeenWord(seen, 32, 32), Pow2(bit))
  {
    if word == 0 {
      SetBit(seen, 0, 32, bit);
      SeenWordUnchanged(seen, seen + {bit}, 32, 32);
    } else {
      SetBit(seen, 32, 32, bit);
      SeenWordUnchanged(seen, seen + {32 + bit}, 0, 32);
    }
  }

  /** Marking one required field: a bit of one of the two words. */
  method MarkSeen(words: array<nat>, index: nat, ghost seen: set<nat>)
    requires SeenWords(words, seen) && index < PB_MAX_REQUIRED_FIELDS
    modifies words
    ensures SeenWords(words, seen + {index})
  {
    var word, bit := index / 32, index % 32;
    var tmp := Pow2(bit);
    words[word] := BitOr(words[word], tmp);
    MarkedWord(seen, word, bit);
  }

  /** The final check over the words and the mask of the last one. */
  method CheckSeen(words: array<nat>, count: nat, ghost seen: set<nat>) returns (ok: bool)
    requires SeenWords(words, seen) && count <= PB_MAX_REQUIRED_FIELDS
    requires count > 0 ==> forall k :: k in seen ==> k < count
    ensures ok <==> forall k: nat :: k < count ==> k in seen
  {
    if count == 0 {
      return true;
    }
    var whole, bits := count / 32, count % 32;
    var i := 0;
    while i < whole
      invariant 0 <= i <= whole
      invariant forall k: nat :: k < 32 * i ==> k in seen
    {
      WordCheck(seen, 32 * i, 32);
      if words[i] != ALL_BITS {
        assert words[i] == SeenWord(seen, 32 * i, 32);
        return false;
      }
      assert words[i] == SeenWord(seen, 32 * i, 32);
      i := i + 1;
    }
    if bits != 0 {
      WordCheck(seen, 32 * whole, bits);
      assert words[whole] == SeenWord(seen, 32 * whole, 32);
      if words[whole] != ALL_BITS / Pow2(32 - bits) {
        return false;
      }
    }
    return true;
  }

  /** The number of required fields that are tracked, found by running the iterator to its end. */
  method CountRequired(iter: Iter, fields: seq<Field>) returns (count: nat)
    requires iter.Usable() && iter.fields == fields
    modifies iter
    ensures count == Tracked(fields)
  {
    var lastType := Required;
    count := 0;
    var more := true;
    while more
      invariant iter.Usable() && iter.fields == fields
      invariant !more ==> iter.AtPosition() && iter.pos == 0
      invariant !more && fields != [] ==>
                  count == RequiredBefore(fields, |fields| - 1) && lastType == fields[|fields| - 1].htype
      invariant !more && fields == [] ==> count == 0
      decreases more, |fields| - iter.pos
    {
      count := iter.requiredFieldIndex;
      lastType := FieldAt(fields, iter.pos).htype;
      more := iter.Next();
    }
    if lastType == Required && FieldAt(fields, iter.pos).tag != 0 {
      count := count + 1;
    }
    if count > PB_MAX_REQUIRED_FIELDS {
      count := PB_MAX_REQUIRED_FIELDS;
    }
  }

  // ----- The loop of pb_decode_noinit

  /** The local variables of pb_decode_noinit represent the loop state. */
  ghost predicate LoopState(iter: Iter, fields: seq<Field>, fieldsSeen: array<nat>, fixedCountField: Option<nat>,
                            fixedCountSize: nat, msg: seq<Slot>, st: State)
    reads iter, fieldsSeen
  {
    && iter.Usable() && iter.fields == fields && iter.destStruct == 0
    && (iter.SizeAtPosition()
        || (iter.pSize == FixedCounter && fixedCountField == Some(iter.pos)
            && iter.pos < |fields| && FixedCount(fields[iter.pos])))
    && SeenWords(fieldsSeen, st.seen)
    && (fields != [] ==> forall k :: k in st.seen ==> k < Tracked(fields))
    && st.msg == msg && st.fixed == fixedCountField && st.count == fixedCountSize
    && (fixedCountField.Some? ==> fixedCountField.value < |fields|)
  }

  lemma SeenNothing()
    ensures SeenWord({}, 0, 32) == 0 && SeenWord({}, 32, 32) == 0
  {
    SeenWordPrefix({}, 0, 0, 32);
    SeenWordPrefix({}, 32, 0, 32);
  }

  /** The fixed-count bookkeeping: a new fixed-count array may begin when the one before is
      complete, and its items are counted in the decoder's own counter. */
  method EnterFixedArray(iter: Iter, fields: seq<Field>, fieldsSeen: array<nat>,
                         fixedField: Option<nat>, fixedSize: nat, msg: seq<Slot>, ghost st: State)
    returns (ok: bool, fixedField': Option<nat>, fixedSize': nat)
    requires LoopState(iter, fields, fieldsSeen, fixedField, fixedSize, msg, st)
    modifies iter
    ensures iter.pos == old(iter.pos) && iter.requiredFieldIndex == old(iter.requiredFieldIndex)
    ensures var f := FieldAt(fields, iter.pos);
            var entered := EnterFixed(fields, iter.pos, st);
            if FixedCount(f) then
              && ok == entered.Some?
              && (ok ==> iter.pSize == FixedCounter
                         && LoopState(iter, fields, fieldsSeen, fixedField', fixedSize', msg, entered.value))
            else
              ok && iter.pSize != FixedCounter && LoopState(iter, fields, fieldsSeen, fixedField', fixedSize', msg, st)
  {
    fixedField', fixedSize' := fixedField, fixedSize;
    var i := iter.pos;
    if FieldAt(fields, i).htype.Repeated? && iter.pSize == InStruct(iter.pData) {
      if fixedField != Some(i) {
        if fixedField.Some? && fixedSize != FieldAt(fields, fixedField.value).arraySize {
          return false, fixedField', fixedSize';
        }
        fixedField' := Some(i);
        fixedSize' := 0;
      }
      iter.pSize := FixedCounter;
    }
    return true, fixedField', fixedSize';
  }

  lemma StepIs(fields: seq<Field>, i: nat, tag: nat, wt: nat, s: seq<byte>, st: State)
    requires DistinctTags(fields) && i < |fields| && Matches(fields[i], tag)
    ensures Step(fields, tag, wt, s, st) == StepField(fields, i, wt, s, st)
  {
    FoundOnlyOnce(fields, tag, i);
  }

  /** The bitmap of a field that was found, when it is required and among the first 64. */
  method MarkRequired(iter: Iter, fields: seq<Field>, fieldsSeen: array<nat>, ghost seen: set<nat>)
    requires iter.Usable() && iter.fields == fields && iter.pos < |fields| && SeenWords(fieldsSeen, seen)
    modifies fieldsSeen
    ensures SeenWords(fieldsSeen, seen + Marks(fields, iter.pos))
  {
    if fields[iter.pos].htype.Required? && iter.requiredFieldIndex < PB_MAX_REQUIRED_FIELDS {
      MarkSeen(fieldsSeen, iter.requiredFieldIndex, seen);
    } else {
      assert Marks(fields, iter.pos) == {} && seen + {} == seen;
    }
  }

  lemma NoMarks(fields: seq<Field>, i: nat, seen: set<nat>)
    requires i < |fields| && !fields[i].htype.Required?
    ensures seen + Marks(fields, i) == seen
  {
  }

  /** decode_field for a field whose array, when it is a fixed-count one, has been entered. */
  method DecodeEntered(stream: IStream, wireType: nat, fields: seq<Field>, i: nat, fixed: bool, counter: nat,
                       dest: seq<Slot>, ghost st: State, ghost entered: State)
    returns (ok: bool, msg: seq<Slot>, counter': nat)
    requires stream.Valid() && Navigable(fields) && i < |fields|
    requires fixed == FixedCount(fields[i]) && st.msg == dest
    requires if fixed then EnterFixed(fields, i, st) == Some(entered) && counter == entered.count else entered == st
    modifies stream
    ensures stream.Valid() && stream.Limit() <= old(stream.Limit())
    ensures ok ==> stream.Limit() == old(stream.Limit())
    ensures var r := StepField(fields, i, wireType, old(stream.Left()), st);
            var st' := State(msg, st.seen + Marks(fields, i), entered.fixed, if fixed then counter' else entered.count);
            ok == r.Ok? && (ok ==> r == Ok(st', stream.Left()))
    decreases stream.bytesLeft, 6
  {
    var f := fields[i];
    msg, counter' := dest, counter;
    if !f.atype.Static? {
      return false, msg, counter';
    }
    var k := Leader(fields, i);
    var slot;
    ok, slot, counter' := DecodeStaticField(stream, wireType, f, Get(dest, k), fixed, counter);
    if ok {
      msg := Put(dest, k, slot);
      if !f.htype.Required? {
        NoMarks(fields, i, st.seen);
      }
    }
  }

  /** The part of the loop behind a successful search: the fixed-count bookkeeping, the bitmap and
      decode_field. */
  method DecodeField(stream: IStream, wireType: nat, tag: nat, iter: Iter, fields: seq<Field>, fieldsSeen: array<nat>,
                     fixedField: Option<nat>, fixedSize: nat, dest: seq<Slot>, ghost st: State)
    returns (ok: bool, msg: seq<Slot>, fixedField': Option<nat>, fixedSize': nat, ghost st': State)
    requires stream.Valid() && Navigable(fields)
    requires LoopState(iter, fields, fieldsSeen, fixedField, fixedSize, dest, st)
    requires fields != [] && Matches(fields[iter.pos], tag)
    modifies stream, iter, fieldsSeen
    ensures stream.Valid() && stream.Limit() <= old(stream.Limit())
    ensures ok ==> stream.Limit() == old(stream.Limit())
    ensures var r := Step(fields, tag, wireType, old(stream.Left()), st);
            ok == r.Ok? && (ok ==> r == Ok(st', stream.Left()))
    ensures ok ==> LoopState(iter, fields, fieldsSeen, fixedField', fixedSize', msg, st')
    decreases stream.bytesLeft, 7
  {
    msg, st' := dest, st;
    ghost var here := stream.Left();
    var i := iter.pos;
    var f := fields[i];
    StepIs(fields, i, tag, wireType, here, st);
    ok, fixedField', fixedSize' := EnterFixedArray(iter, fields, fieldsSeen, fixedField, fixedSize, dest, st);
    if !ok {
      return;
    }
    MarksTracked(fields, i);
    MarkRequired(iter, fields, fieldsSeen, st.seen);
    ghost var entered := if FixedCount(f) then EnterFixed(fields, i, st).value else st;
    var fixed := iter.pSize == FixedCounter;
    var counter;
    ok, msg, counter := DecodeEntered(stream, wireType, fields, i, fixed, fixedSize', dest, st, entered);
    if !ok {
      return;
    }
    if fixed {
      fixedSize' := counter;
    }
    st' := StepField(fields, i, wireType, here, st).value;
  }

  /** The terminator of an empty message answers to tag 0, and reads a bool. */
  method DecodeTerminator(stream: IStream, iter: Iter, fieldsSeen: array<nat>, ghost seen: set<nat>) returns (ok: bool)
    requires stream.Valid() && SeenWords(fieldsSeen, seen) && iter.requiredFieldIndex == 0
    modifies stream, fieldsSeen
    ensures stream.Valid() && stream.Limit() == old(stream.Limit())
    ensures SeenWords(fieldsSeen, seen + {0})
    ensures var r := ReadVarint32(old(stream.Left())); ok == r.Ok? && (ok ==> stream.Left() == r.rest)
  {
    MarkSeen(fieldsSeen, iter.requiredFieldIndex, seen);
    var unused;
    ok, unused := DecBool(stream, LAST_FIELD);
  }

  lemma ReadTagShrinks'(s: seq<byte>)
    requires s != []
    ensures !ReadTag(s).Bad? ==> |ReadTag(s).left| < |s|
  {
    if !ReadTag(s).Bad? {
      ReadTagShrinks(s);
    }
  }

  /** One turn of the loop: a tag, and the field or unknown field behind it. */
  method DecodeRecord(stream: IStream, iter: Iter, fields: seq<Field>, fieldsSeen: array<nat>,
                      fixedField: Option<nat>, fixedSize: nat, dest: seq<Slot>, ghost st: State)
    returns (ok: bool, stop: bool, msg: seq<Slot>, fixedField': Option<nat>, fixedSize': nat, ghost st': State)
    requires stream.Valid() && stream.bytesLeft > 0 && Navigable(fields)
    requires LoopState(iter, fields, fieldsSeen, fixedField, fixedSize, dest, st)
    modifies stream, iter, fieldsSeen
    ensures stream.Valid() && stream.Limit() <= old(stream.Limit())
    ensures ok ==> stream.Limit() == old(stream.Limit())
    ensures ok ==> LoopState(iter, fields, fieldsSeen, fixedField', fixedSize', msg, st')
    ensures var t := ReadTag(old(stream.Left()));
            if t.Bad? then !ok
            else if t.End? then ok && stop && stream.Left() == t.left && st' == st
            else
              var r := Step(fields, t.tag, t.wt, t.left, st);
              ok == r.Ok? && (ok ==> !stop && r == Ok(st', stream.Left()))
    decreases stream.bytesLeft, 8
  {
    msg, fixedField', fixedSize', st', stop := dest, fixedField, fixedSize, st, false;
    ReadTagShrinks'(stream.Left());
    var wireType, tag, eof;
    ok, wireType, tag, eof := stream.DecodeTag();
    if !ok {
      ok, stop := eof, eof;
      return;
    }
    var found := iter.FindTag(tag);
    if !found {
      ok := stream.SkipOne(wireType);
      return;
    }
    if fields == [] {
      ok := DecodeTerminator(stream, iter, fieldsSeen, st.seen);
      st' := st.(seen := st.seen + {0});
      return;
    }
    ok, msg, fixedField', fixedSize', st' :=
      DecodeField(stream, wireType, tag, iter, fields, fieldsSeen, fixedField, fixedSize, dest, st);
  }

  lemma LoopTurn(fields: seq<Field>, s: seq<byte>, st: State)
    requires s != []
    ensures var t := ReadTag(s);
            Loop(fields, s, st) ==
            if t.Bad? then Broken
            else if t.End? then Stopped(st, t.left)
            else
              var r := Step(fields, t.tag, t.wt, t.left, st);
              if r.Fail? then Broken else Loop(fields, r.rest, r.value)
    ensures ReadTag(s).Tag? ==> |ReadTag(s).left| < |s|
  {
    if ReadTag(s).Tag? {
      ReadTagShrinks(s);
    }
  }

  /** The loop of pb_decode_noinit. */
  method DecodeRecords(stream: IStream, iter: Iter, fields: seq<Field>, fieldsSeen: array<nat>, dest: seq<Slot>)
    returns (ok: bool, msg: seq<Slot>, fixedCountField: Option<nat>, fixedCountSize: nat, ghost st: State)
    requires stream.Valid() && Navigable(fields)
    requires LoopState(iter, fields, fieldsSeen, None, 0, dest, Start(dest))
    modifies stream, iter, fieldsSeen
    ensures stream.Valid() && stream.Limit() <= old(stream.Limit())
    ensures match Loop(fields, old(stream.Left()), Start(dest))
            case Broken => !ok
            case Done(end) => ok && st == end && stream.Left() == []
            case Stopped(end, left) => ok && st == end && stream.Left() == left
    ensures ok ==> stream.Limit() == old(stream.Limit())
    ensures ok ==> LoopState(iter, fields, fieldsSeen, fixedCountField, fixedCountSize, msg, st)
    decreases stream.bytesLeft, 9
  {
    msg, fixedCountField, fixedCountSize, st := dest, None, 0, Start(dest);
    ghost var run := Loop(fields, stream.Left(), st);
    ghost var limit := stream.Limit();
    ghost var size := stream.bytesLeft;
    while stream.bytesLeft > 0
      invariant stream.Valid() && stream.Limit() == limit && stream.bytesLeft <= size
      invariant run == Loop(fields, stream.Left(), st)
      invariant LoopState(iter, fields, fieldsSeen, fixedCountField, fixedCountSize, msg, st)
      decreases stream.bytesLeft
    {
      LoopTurn(fields, stream.Left(), st);
      var stop;
      ok, stop, msg, fixedCountField, fixedCountSize, st :=
        DecodeRecord(stream, iter, fields, fieldsSeen, fixedCountField, fixedCountSize, msg, st);
      if !ok || stop {
        return;
      }
    }
    ok := true;
  }

  /** The checks behind the loop: the last fixed-count array, and the required fields. */
  method CheckComplete(iter: Iter, fields: seq<Field>, fieldsSeen: array<nat>, fixedField: Option<nat>, fixedSize: nat,
                       msg: seq<Slot>, ghost st: State)
    returns (ok: bool)
    requires LoopState(iter, fields, fieldsSeen, fixedField, fixedSize, msg, st)
    modifies iter
    ensures ok == Complete(fields, st)
  {
    if fixedField.Some? && fixedSize != FieldAt(fields, fixedField.value).arraySize {
      return false;
    }
    var count := CountRequired(iter, fields);
    ok := CheckSeen(fieldsSeen, count, st.seen);
  }

  /** pb_decode_noinit. */
  method DecodeMessageNoinit(stream: IStream, fields: seq<Field>, dest: seq<Slot>) returns (ok: bool, msg: seq<Slot>)
    requires stream.Valid() && Navigable(fields)
    modifies stream
    ensures stream.Valid() && stream.Limit() <= old(stream.Limit())
    ensures var r := DecodeNoinit(fields, old(stream.Left()), dest); ok == r.Ok? && (ok ==> r == Ok(msg, stream.Left()))
    ensures ok ==> stream.Limit() == old(stream.Limit())
    decreases stream.bytesLeft, 10
  {
    var fieldsSeen := new nat[2](_ => 0);
    var iter := new Iter(fields, 0);
    SeenNothing();
    var fixedCountField, fixedCountSize;
    ghost var st;
    ok, msg, fixedCountField, fixedCountSize, st := DecodeRecords(stream, iter, fields, fieldsSeen, dest);
    if ok {
      ok := CheckComplete(iter, fields, fieldsSeen, fixedCountField, fixedCountSize, msg, st);
    }
  }

  /** pb_decode, and pb_decode_nullterminated. */
  method DecodeMessage(stream: IStream, fields: seq<Field>) returns (ok: bool, msg: seq<Slot>)
    requires stream.Valid() && Navigable(fields)
    modifies stream
    ensures stream.Valid() && stream.Limit() <= old(stream.Limit())
    ensures var r := Decode(fields, old(stream.Left())); ok == r.Ok? && (ok ==> r == Ok(msg, stream.Left()))
    ensures ok ==> stream.Limit() == old(stream.Limit())
    decreases stream.bytesLeft, 11
  {
    msg := SetToDefaults(fields);
    ok, msg := DecodeMessageNoinit(stream, fields, msg);
  }

  /** pb_decode_delimited. */
  method DecodeDelimitedMessage(stream: IStream, fields: seq<Field>) returns (ok: bool, msg: seq<Slot>)
    requires stream.Valid() && Navigable(fields)
    modifies stream
    ensures stream.Valid() && stream.Limit() <= old(stream.Limit())
    ensures var r := DecodeDelimited(fields, old(stream.Left())); ok == r.Ok? && (ok ==> r == Ok(msg, stream.Left()))
    ensures ok ==> stream.Limit() == old(stream.Limit())
  {
    msg := [];
    ghost var block := ReadBlock(stream.Left());
    var substream;
    ok, substream := stream.MakeSubstream();
    if !ok {
      return;
    }
    ok, msg := DecodeMessage(substream, fields);
    var closed := stream.CloseSubstream(substream, block.rest);
  }
}
