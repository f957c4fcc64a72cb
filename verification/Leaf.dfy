/** Records on the wire, and the codecs of single items other than submessages. */
module Leaf {
  import opened Basics
  import opened Varint
  import opened Descriptor

  // ----- Reading from the wire

  /** pb_decode_tag: a tag with its wire type, the end of the message, or an error. */
  datatype TagRead = Bad | End(left: seq<byte>) | Tag(tag: nat, wt: nat, left: seq<byte>)

  function ReadTag(s: seq<byte>): TagRead {
    if s == [] then End([])
    else match ReadVarint32(s)
      case Fail => Bad
      case Ok(v, rest) => if v == 0 then End(rest) else Tag(v / 8, v % 8, rest)
  }

  /** A length prefix and as many bytes: what pb_make_string_substream limits a stream to. */
  function ReadBlock(s: seq<byte>): Read<seq<byte>> {
    match ReadVarint32(s)
    case Fail => Fail
    case Ok(n, rest) => if |rest| < n then Fail else Ok(rest[..n], rest[n..])
  }

  function ReadBytes(s: seq<byte>, n: nat): Read<seq<byte>> {
    if |s| < n then Fail else Ok(s[..n], s[n..])
  }

  /** pb_skip_field. */
  function SkipField(wt: nat, s: seq<byte>): Read<()> {
    if wt == WT_VARINT then
      match VarintSpan(s) { case None => Fail case Some(n) => Ok((), s[n..]) }
    else if wt == WT_64BIT then
      if |s| < 8 then Fail else Ok((), s[8..])
    else if wt == WT_STRING then
      match ReadBlock(s) { case Fail => Fail case Ok(_, rest) => Ok((), rest) }
    else if wt == WT_32BIT then
      if |s| < 4 then Fail else Ok((), s[4..])
    else Fail
  }

  // ----- Storing a decoded integer, with the check that it fits

  /** pb_dec_varint: fields of up to 32 bits look at the low 32 bits only. */
  function StoreVarint(size: nat, v: nat): Option<int> {
    var sv := if size == 8 then ToSigned(8, v) else ToSigned(4, v);
    if IntegerSize(size) && ToSigned(size, sv) == sv then Some(sv) else None
  }

  /** pb_dec_uvarint. */
  function StoreUVarint(size: nat, v: nat): Option<int> {
    if IntegerSize(size) && ToUnsigned(size, v) == v then Some(v) else None
  }

  /** pb_dec_svarint. */
  function StoreSVarint(size: nat, v: nat): Option<int> {
    var sv := UnZigZag(v);
    if IntegerSize(size) && ToSigned(size, sv) == sv then Some(sv) else None
  }

  function StoreNumber(f: Field, v: nat): Option<int> {
    match f.ltype
    case Varint => StoreVarint(f.dataSize, v)
    case UVarint => StoreUVarint(f.dataSize, v)
    case SVarint => StoreSVarint(f.dataSize, v)
    case _ => None
  }

  /** What pb_dec_bytes, pb_dec_string and pb_dec_fixed_length_bytes make of a block's contents. */
  function StoreBlob(f: Field, b: seq<byte>): Option<Value> {
    match f.ltype
    case Bytes =>
      if |b| > PB_SIZE_MAX || |b| + BYTES_OFFSET > f.dataSize then None else Some(Blob(b))
    case String =>
      // the uint32_t sum size + 1 may wrap
      var allocSize := (|b| + 1) % TWO_32;
      if allocSize < |b| || allocSize > f.dataSize then None else Some(Blob(b))
    case FixedLengthBytes =>
      if |b| > PB_SIZE_MAX then None
      else if b == [] then Some(Blob(Zeros(f.dataSize)))
      else if |b| != f.dataSize then None
      else Some(Blob(b))
    case _ => None
  }

  lemma ReadBlockShrinks(s: seq<byte>)
    requires ReadBlock(s).Ok?
    ensures |ReadBlock(s).rest| < |s| && |ReadBlock(s).value| < |s|
  {
    ReadVarint32Span(s);
  }

  /** The decoder of one item that is not a submessage. */
  function DecodeLeaf(f: Field, s: seq<byte>): (r: Read<Value>)
    ensures r.Ok? ==> |r.rest| < |s|
  {
    match f.ltype
    case Bool =>
      (match ReadVarint32(s)
       case Fail => Fail
       case Ok(v, rest) => ReadVarint32Span(s); Ok(Num(if v != 0 then 1 else 0), rest))
    case Varint | UVarint | SVarint =>
      (match ReadVarint64(s)
       case Fail => Fail
       case Ok(v, rest) =>
         match StoreNumber(f, v) { case None => Fail case Some(n) => Ok(Num(n), rest) })
    case Fixed32 =>
      (match ReadBytes(s, 4) { case Fail => Fail case Ok(b, rest) => Ok(Num(LittleEndian(b)), rest) })
    case Fixed64 =>
      (match ReadBytes(s, 8) { case Fail => Fail case Ok(b, rest) => Ok(Num(LittleEndian(b)), rest) })
    case Bytes | String | FixedLengthBytes =>
      (match ReadBlock(s)
       case Fail => Fail
       case Ok(b, rest) =>
         ReadBlockShrinks(s);
         match StoreBlob(f, b) { case None => Fail case Some(v) => Ok(v, rest) })
    case Submessage | Extension => Fail
  }

  // ----- Writing to the wire

  /** pb_encode_tag: field number and wire type share one varint. */
  function EncTag(tag: nat, wt: nat): seq<byte> {
    EncVarint(8 * tag + wt)
  }

  /** pb_encode_string: length prefix and contents. */
  function EncBlock(b: seq<byte>): seq<byte> {
    EncVarint(|b|) + b
  }

  /** The characters before the first NUL, as the loop of pb_enc_string counts them. */
  function CString(b: seq<byte>): (r: seq<byte>)
    ensures |r| <= |b| && r == b[..|r|]
    ensures 0 !in r
    ensures |r| < |b| ==> b[|r|] == 0
  {
    if b == [] || b[0] == 0 then [] else [b[0]] + CString(b[1..])
  }

  /** The encoder of one item that is not a submessage. */
  function EncodeLeaf(f: Field, v: Value): Option<seq<byte>> {
    match f.ltype
    case Bool => if v.Num? then Some(EncVarint(if v.n != 0 then 1 else 0)) else None
    case Varint | UVarint =>
      if v.Num? && IntegerSize(f.dataSize) then Some(EncVarint(ToUnsigned(8, v.n))) else None
    case SVarint => if v.Num? && IntegerSize(f.dataSize) then Some(EncVarint(ZigZag(v.n))) else None
    case Fixed32 => if v.Num? then Some(ToLittleEndian(ToUnsigned(4, v.n), 4)) else None
    case Fixed64 => if v.Num? then Some(ToLittleEndian(ToUnsigned(8, v.n), 8)) else None
    case Bytes => if v.Blob? && |v.data| + BYTES_OFFSET <= f.dataSize then Some(EncBlock(v.data)) else None
    case String => if v.Blob? && |v.data| <= f.dataSize then Some(EncBlock(CString(v.data))) else None
    case FixedLengthBytes => if v.Blob? && |v.data| == f.dataSize then Some(EncBlock(v.data)) else None
    case Submessage | Extension => None
  }

  // ----- What an item's memory can hold

  /** The contents that fit the memory of one item other than a submessage. A string leaves room
      for its terminator. */
  predicate HoldsLeaf(f: Field, v: Value) {
    match f.ltype
    case Bool => v.Num? && 0 <= v.n < 0x100
    case Varint | SVarint => v.Num? && IntegerSize(f.dataSize) && FitsSigned(f.dataSize, v.n)
    case UVarint => v.Num? && IntegerSize(f.dataSize) && FitsUnsigned(f.dataSize, v.n)
    case Fixed32 => v.Num? && FitsUnsigned(4, v.n)
    case Fixed64 => v.Num? && FitsUnsigned(8, v.n)
    case Bytes => v.Blob? && |v.data| <= PB_SIZE_MAX && |v.data| + BYTES_OFFSET <= f.dataSize
    case String => v.Blob? && |v.data| + 1 <= f.dataSize && |v.data| + 1 < TWO_32
    case FixedLengthBytes => v.Blob? && |v.data| == f.dataSize <= PB_SIZE_MAX
    case Submessage | Extension => false
  }

  /** The part of an item that the encoder looks at: a bool's truth, a string up to its NUL. */
  function CanonLeaf(f: Field, v: Value): Value {
    if f.ltype.Bool? && v.Num? then Num(if v.n != 0 then 1 else 0)
    else if f.ltype.String? && v.Blob? then Blob(CString(v.data))
    else v
  }

  // ----- Readers ignore what follows, and agree with pb_skip_field on where an item ends

  lemma ReadBlockExtend(s: seq<byte>, more: seq<byte>)
    requires ReadBlock(s).Ok?
    ensures ReadBlock(s + more) == Extend(ReadBlock(s), more)
  {
    ReadVarint32Span(s);
    ReadVarint32Extend(s, more);
    SplitConcat(ReadVarint32(s).rest, more, ReadVarint32(s).value);
  }

  lemma SkipExtend(wt: nat, s: seq<byte>, more: seq<byte>)
    requires SkipField(wt, s).Ok?
    ensures SkipField(wt, s + more) == Extend(SkipField(wt, s), more)
  {
    if wt == WT_VARINT {
      SpanExtend(s, more);
      var n := VarintSpan(s).value;
      assert (s + more)[n..] == s[n..] + more;
    } else if wt == WT_STRING {
      ReadBlockExtend(s, more);
    } else if wt == WT_64BIT {
      assert (s + more)[8..] == s[8..] + more;
    } else {
      assert (s + more)[4..] == s[4..] + more;
    }
  }

  lemma SkipShrinks(wt: nat, s: seq<byte>)
    requires SkipField(wt, s).Ok?
    ensures |SkipField(wt, s).rest| < |s|
  {
    if wt == WT_STRING {
      ReadBlockShrinks(s);
    }
  }

  /** A decoder that succeeds leaves the stream where pb_skip_field would. */
  lemma LeafSkips(f: Field, s: seq<byte>)
    requires DecodeLeaf(f, s).Ok?
    ensures SkipField(WireType(f.ltype), s) == Ok((), DecodeLeaf(f, s).rest)
  {
    if f.ltype.Bool? {
      ReadVarint32Span(s);
    }
  }

  /** When the item is complete, what follows it changes neither the result nor the outcome. */
  lemma LeafExtend(f: Field, s: seq<byte>, more: seq<byte>)
    requires SkipField(WireType(f.ltype), s).Ok?
    ensures DecodeLeaf(f, s + more) == Extend(DecodeLeaf(f, s), more)
  {
    match f.ltype
    case Bool => ReadVarint32Extend(s, more);
    case Varint | UVarint | SVarint => ReadVarint64Extend(s, more);
    case Fixed32 =>
      assert (s + more)[..4] == s[..4];
      assert (s + more)[4..] == s[4..] + more;
    case Fixed64 =>
      assert (s + more)[..8] == s[..8];
      assert (s + more)[8..] == s[8..] + more;
    case Bytes | String | FixedLengthBytes => ReadBlockExtend(s, more);
    case Submessage | Extension =>
  }

  lemma ReadTagExtend(s: seq<byte>, more: seq<byte>)
    requires s != [] && !ReadTag(s).Bad?
    ensures ReadTag(s + more) ==
            match ReadTag(s) { case Bad => Bad case End(r) => End(r + more) case Tag(t, w, r) => Tag(t, w, r + more) }
  {
    ReadVarint32Span(s);
    ReadVarint32Extend(s, more);
  }

  lemma ReadTagShrinks(s: seq<byte>)
    requires s != [] && !ReadTag(s).Bad?
    ensures |ReadTag(s).left| < |s|
  {
    ReadVarint32Span(s);
  }

  // ----- Round trips

  /** The sum of the groups of 2^32 with a byte of padding. */
  lemma SumOfPadded(s: seq<byte>)
    requires |s| == 6 && s[..4] == [0x80, 0x80, 0x80, 0x80] && s[4] == 0x90 && s[5] == 0x00
    ensures GroupSum(s) == TWO_32
  {
    assert forall i :: 0 <= i < 4 ==> s[i] == s[..4][i];
    var low := FourGroups(s);
    var tail := s[4..];
    assert tail[0] == 0x90 && tail[1] == 0x00 && tail[1..][1..] == [];
    assert GroupSum(tail[1..]) == 0;
    assert GroupSum(tail) == 0x10;
  }

  lemma FiveBytesRefused(r: seq<byte>)
    requires |r| == 5 && r[..4] == [0x80, 0x80, 0x80, 0x80] && r[4] == 0x10
    ensures ReadVarint32(r).Fail?
  {
    assert forall i :: 0 <= i < 4 ==> r[i] == r[..4][i];
    SpanIs(r, 5);
    assert r[..5] == r;
    AcceptedExactly(r);
  }

  /** The overflow check looks at varints of five bytes only: 2^32 is refused in five bytes, but with
      a byte of padding it is read as 0, and as a tag it ends the message. */
  lemma PaddedOverflow(s: seq<byte>)
    requires |s| == 6 && s[..4] == [0x80, 0x80, 0x80, 0x80] && s[4] == 0x90 && s[5] == 0x00
    ensures VarintSpan(s) == Some(6) && GroupSum(s) == TWO_32
    ensures ReadVarint32(s) == Ok(0, []) && ReadTag(s) == End([])
    ensures ReadVarint32(s[..4] + [0x10]).Fail?
  {
    assert forall i :: 0 <= i < 4 ==> s[i] == s[..4][i];
    SpanIs(s, 6);
    assert s[..6] == s;
    SumOfPadded(s);
    AcceptedExactly(s);
    ReadVarint32Value(s);
    ReadVarint32Span(s);
    ModUnique(TWO_32, 1, 0);
    FiveBytesRefused(s[..4] + [0x10]);
  }

  /** A tag is read back as it was written, for every field number of the protocol. */
  lemma TagRoundTrip(tag: nat, wt: nat, rest: seq<byte>)
    requires 1 <= tag < 0x2000_0000 && wt < 8
    ensures ReadTag(EncTag(tag, wt) + rest) == Tag(tag, wt, rest)
  {
    Varint32RoundTrip(8 * tag + wt, rest);
  }

  lemma BlockRoundTrip(b: seq<byte>, rest: seq<byte>)
    requires |b| < TWO_32
    ensures ReadBlock(EncBlock(b) + rest) == Ok(b, rest)
  {
    Varint32RoundTrip(|b|, b + rest);
    assert EncBlock(b) + rest == EncVarint(|b|) + (b + rest);
    assert (b + rest)[..|b|] == b;
    assert (b + rest)[|b|..] == rest;
  }

  lemma FixedRoundTrip(v: nat, size: nat, rest: seq<byte>)
    requires size == 4 || size == 8
    requires FitsUnsigned(size, v)
    ensures var s := ToLittleEndian(v, size) + rest;
            LittleEndian(s[..size]) == v && s[size..] == rest
  {
    Pow256Sizes(size);
    LittleEndianRoundTrip(v, size);
    assert (ToLittleEndian(v, size) + rest)[..size] == ToLittleEndian(v, size);
  }

  lemma SignedWidth(size: nat, n: int)
    requires size == 4 || size == 8
    requires FitsSigned(size, n)
    ensures ToUnsigned(8, n) < TWO_64 && ToSigned(size, ToUnsigned(8, n)) == n
  {
    if n < 0 {
      assert ToUnsigned(8, n) == n + TWO_64 by { assert (n + TWO_64) / TWO_64 == 0; }
      if size == 4 {
        ModUnique(n + TWO_64, TWO_32 - 1, n + TWO_32);
      }
    }
  }

  /** Signed varint fields of every width: the 64-bit encoding comes back as the same value. */
  lemma StoreVarintRoundTrip(size: nat, n: int)
    requires IntegerSize(size) && FitsSigned(size, n)
    ensures ToUnsigned(8, n) < TWO_64 && StoreVarint(size, ToUnsigned(8, n)) == Some(n)
  {
    SignedWidth(if size == 8 then 8 else 4, n);
    SignedCastKeeps(size, n);
  }

  lemma ZigZagNumberRoundTrip(f: Field, v: Value, rest: seq<byte>)
    requires f.ltype.SVarint? && HoldsLeaf(f, v)
    ensures EncodeLeaf(f, v).Some?
    ensures DecodeLeaf(f, EncodeLeaf(f, v).value + rest) == Ok(v, rest)
  {
    ZigZagRoundTrip(v.n);
    SignedCastKeeps(f.dataSize, v.n);
    VarintRoundTrip(ZigZag(v.n), rest);
  }

  lemma NumberRoundTrip(f: Field, v: Value, rest: seq<byte>)
    requires f.ltype.Varint? || f.ltype.UVarint? || f.ltype.SVarint?
    requires HoldsLeaf(f, v)
    ensures EncodeLeaf(f, v).Some?
    ensures DecodeLeaf(f, EncodeLeaf(f, v).value + rest) == Ok(v, rest)
  {
    match f.ltype
    case Varint =>
      StoreVarintRoundTrip(f.dataSize, v.n);
      VarintRoundTrip(ToUnsigned(8, v.n), rest);
    case UVarint =>
      UnsignedCastKeeps(8, v.n);
      UnsignedCastKeeps(f.dataSize, v.n);
      VarintRoundTrip(v.n, rest);
    case SVarint => ZigZagNumberRoundTrip(f, v, rest);
  }

  lemma DecodeBlob(f: Field, s: seq<byte>)
    requires f.ltype.Bytes? || f.ltype.String? || f.ltype.FixedLengthBytes?
    requires ReadBlock(s).Ok?
    ensures var v := StoreBlob(f, ReadBlock(s).value);
            DecodeLeaf(f, s) == if v.None? then Fail else Ok(v.value, ReadBlock(s).rest)
  {
  }

  lemma StoreBlobKeeps(f: Field, b: seq<byte>)
    requires f.ltype.Bytes? || f.ltype.String? || f.ltype.FixedLengthBytes?
    requires HoldsLeaf(f, Blob(b))
    ensures StoreBlob(f, b) == Some(Blob(b))
  {
    match f.ltype
    case String => ModUnique(|b| + 1, 0, |b| + 1);
    case FixedLengthBytes => assert b == [] ==> Zeros(f.dataSize) == b;
    case Bytes =>
  }

  lemma BlobRoundTrip(f: Field, v: Value, rest: seq<byte>)
    requires f.ltype.Bytes? || f.ltype.String? || f.ltype.FixedLengthBytes?
    requires HoldsLeaf(f, v)
    ensures EncodeLeaf(f, v).Some?
    ensures DecodeLeaf(f, EncodeLeaf(f, v).value + rest) == Ok(CanonLeaf(f, v), rest)
  {
    var b := if f.ltype.String? then CString(v.data) else v.data;
    BlockRoundTrip(b, rest);
    DecodeBlob(f, EncBlock(b) + rest);
    StoreBlobKeeps(f, b);
  }

  /** An item that fits its memory is encoded, and decoding gives back what the encoder looked at,
      whatever follows. */
  lemma LeafRoundTrip(f: Field, v: Value, rest: seq<byte>)
    requires HoldsLeaf(f, v)
    ensures EncodeLeaf(f, v).Some?
    ensures DecodeLeaf(f, EncodeLeaf(f, v).value + rest) == Ok(CanonLeaf(f, v), rest)
    ensures HoldsLeaf(f, CanonLeaf(f, v))
  {
    match f.ltype
    case Bool => Varint32RoundTrip(if v.n != 0 then 1 else 0, rest);
    case Varint | UVarint | SVarint => NumberRoundTrip(f, v, rest);
    case Fixed32 =>
      UnsignedCastKeeps(4, v.n);
      FixedRoundTrip(v.n, 4, rest);
    case Fixed64 =>
      UnsignedCastKeeps(8, v.n);
      FixedRoundTrip(v.n, 8, rest);
    case Bytes | String | FixedLengthBytes => BlobRoundTrip(f, v, rest);
  }

  /** Exactly the strings without an embedded NUL, and the bools that are 0 or 1, come back as
      they were. */
  lemma CanonLeafIdentity(f: Field, v: Value)
    requires HoldsLeaf(f, v)
    ensures CanonLeaf(f, v) == v
            <==> (f.ltype.String? ==> 0 !in v.data) && (f.ltype.Bool? ==> v.n <= 1)
  {
    if f.ltype.String? {
      var r := CString(v.data);
      if |r| == |v.data| {
        assert r == v.data;
      } else {
        assert v.data[|r|] in v.data;
      }
    }
  }

  /** A string that fills its buffer is encoded too, but it comes back exactly when its terminator
      is inside the buffer; otherwise the decoder refuses what the encoder wrote. */
  lemma StringRoundTripExactly(f: Field, b: seq<byte>, rest: seq<byte>)
    requires f.ltype.String? && |b| <= f.dataSize <= PB_SIZE_MAX
    ensures EncodeLeaf(f, Blob(b)).Some?
    ensures DecodeLeaf(f, EncodeLeaf(f, Blob(b)).value + rest) ==
            if |CString(b)| < f.dataSize then Ok(Blob(CString(b)), rest) else Fail
  {
    var c := CString(b);
    BlockRoundTrip(c, rest);
    DecodeBlob(f, EncBlock(c) + rest);
    if |c| < f.dataSize {
      StoreBlobKeeps(f, c);
    }
  }

  // ----- What the decoders accept

  lemma FixedRange(s: seq<byte>)
    requires |s| == 4 || |s| == 8
    ensures FitsUnsigned(|s|, LittleEndian(s))
  {
    LittleEndianRange(s);
    Pow256Sizes(|s|);
  }

  /** Whatever the bytes are, a decoded item stays inside its memory. */
  lemma DecodedLeafHolds(f: Field, s: seq<byte>)
    requires DecodeLeaf(f, s).Ok?
    requires f.ltype.FixedLengthBytes? ==> f.dataSize <= PB_SIZE_MAX
    ensures HoldsLeaf(f, DecodeLeaf(f, s).value)
  {
    match f.ltype
    case Varint =>
      var sv := if f.dataSize == 8 then ToSigned(8, ReadVarint64(s).value) else ToSigned(4, ReadVarint64(s).value);
      SignedCastKeeps(f.dataSize, sv);
    case SVarint => SignedCastKeeps(f.dataSize, UnZigZag(ReadVarint64(s).value));
    case UVarint => UnsignedCastKeeps(f.dataSize, ReadVarint64(s).value);
    case Fixed32 =>
      FixedRange(s[..4]);
    case Fixed64 =>
      FixedRange(s[..8]);
    case _ =>
  }

  /** Unsigned fields accept exactly the varints whose value fits, and store that value. */
  lemma UVarintExact(f: Field, s: seq<byte>)
    requires f.ltype.UVarint? && IntegerSize(f.dataSize)
    ensures var r := ReadVarint64(s);
            DecodeLeaf(f, s) ==
            if r.Ok? && FitsUnsigned(f.dataSize, r.value) then Ok(Num(r.value), r.rest) else Fail
  {
    if ReadVarint64(s).Ok? {
      UnsignedCastKeeps(f.dataSize, ReadVarint64(s).value);
    }
  }

  /** ZigZag fields accept exactly the varints whose mapped value fits, and store that value. */
  lemma SVarintExact(f: Field, s: seq<byte>)
    requires f.ltype.SVarint? && IntegerSize(f.dataSize)
    ensures var r := ReadVarint64(s);
            DecodeLeaf(f, s) ==
            if r.Ok? && FitsSigned(f.dataSize, UnZigZag(r.value)) then Ok(Num(UnZigZag(r.value)), r.rest) else Fail
  {
    if ReadVarint64(s).Ok? {
      SignedCastKeeps(f.dataSize, UnZigZag(ReadVarint64(s).value));
    }
  }

  /** Signed varint fields of four bytes accept every varint: they keep its low half. Narrower
      fields accept exactly the varints whose low half, as an int32, fits. */
  lemma VarintExact(f: Field, s: seq<byte>)
    requires f.ltype.Varint? && IntegerSize(f.dataSize)
    ensures var r := ReadVarint64(s);
            var width := if f.dataSize == 8 then 8 else 4;
            DecodeLeaf(f, s) ==
            if r.Ok? && FitsSigned(f.dataSize, ToSigned(width, r.value)) then Ok(Num(ToSigned(width, r.value)), r.rest)
            else Fail
    ensures f.dataSize >= 4 ==> (DecodeLeaf(f, s).Ok? <==> ReadVarint64(s).Ok?)
  {
    if ReadVarint64(s).Ok? {
      var width := if f.dataSize == 8 then 8 else 4;
      SignedCastKeeps(f.dataSize, ToSigned(width, ReadVarint64(s).value));
      SignedCastKeeps(width, ReadVarint64(s).value);
    }
  }

  lemma SameLowHalf(size: nat, v: nat)
    requires IntegerSize(size) && v < TWO_64 && FitsSigned(size, ToSigned(8, v))
    ensures ToSigned(if size == 8 then 8 else 4, v) == ToSigned(8, v)
  {
    var n := ToSigned(8, v);
    if size < 8 && n < 0 {
      ModUnique(v, TWO_32 - 1, n + TWO_32);
    } else if size < 8 {
      ModUnique(v, 0, n);
    }
  }

  /** The int64 that was sent comes back exactly when it fits the field. */
  lemma SentValueExactly(f: Field, s: seq<byte>)
    requires f.ltype.Varint? && IntegerSize(f.dataSize) && ReadVarint64(s).Ok?
    ensures var r := ReadVarint64(s);
            DecodeLeaf(f, s) == Ok(Num(ToSigned(8, r.value)), r.rest) <==> FitsSigned(f.dataSize, ToSigned(8, r.value))
  {
    var v := ReadVarint64(s).value;
    VarintExact(f, s);
    if FitsSigned(f.dataSize, ToSigned(8, v)) {
      SameLowHalf(f.dataSize, v);
    }
  }

  /** A value outside may be stored as another one: 2^32, sent to a field of four bytes, as 0. */
  lemma HighHalfDropped(f: Field)
    requires f.ltype.Varint? && f.dataSize == 4
    ensures ReadVarint64(EncVarint(TWO_32)).Ok? && ReadVarint64(EncVarint(TWO_32)).value == TWO_32
    ensures DecodeLeaf(f, EncVarint(TWO_32)) == Ok(Num(0), [])
  {
    var s := EncVarint(TWO_32);
    VarintRoundTrip(TWO_32, []);
    assert s + [] == s;
    VarintExact(f, s);
    ModUnique(TWO_32, 1, 0);
  }

  /** Tags are told from the low half of every varint that the 32-bit reader accepts; one that is zero
      ends the message. */
  lemma TagExactly(s: seq<byte>)
    requires VarintSpan(s).Some? && VarintSpan(s).value <= WRAP_LENGTH
    ensures var n := VarintSpan(s).value;
            var key := GroupSum(s[..n]) % TWO_32;
            ReadTag(s) ==
            if !Accepted32(s[..n]) then Bad else if key == 0 then End(s[n..]) else Tag(key / 8, key % 8, s[n..])
  {
    ReadVarint32Exactly(s);
  }

  lemma SliceOfRest(s: seq<byte>, n: nat, size: nat)
    requires n <= |s| && size <= |s[n..]|
    ensures s[n..][..size] == s[n..n + size] && s[n..][size..] == s[n + size..]
  {
  }

  /** So are lengths; the block has to be there. */
  lemma BlockExactly(s: seq<byte>, n: nat, size: nat)
    requires VarintSpan(s) == Some(n) && n <= WRAP_LENGTH && size == GroupSum(s[..n]) % TWO_32
    ensures ReadBlock(s) ==
            if Accepted32(s[..n]) && n + size <= |s| then Ok(s[n..n + size], s[n + size..]) else Fail
  {
    ReadVarint32Exactly(s);
    if n + size <= |s| {
      SliceOfRest(s, n, size);
    }
  }

  /** Bools accept exactly the varints that the 32-bit reader accepts, and store whether the low half
      is zero. */
  lemma BoolExact(f: Field, s: seq<byte>)
    requires f.ltype.Bool? && VarintSpan(s).Some? && VarintSpan(s).value <= WRAP_LENGTH
    ensures var n := VarintSpan(s).value;
            DecodeLeaf(f, s) ==
            if Accepted32(s[..n]) then Ok(Num(if GroupSum(s[..n]) % TWO_32 == 0 then 0 else 1), s[n..]) else Fail
  {
    ReadVarint32Exactly(s);
  }

  /** The size in front of a bytes array takes exactly the bytes of a pb_size_t. */
  lemma SizeMemberExactly()
    ensures Pow256(BYTES_OFFSET) == PB_SIZE_MAX + 1
  {
    assert Pow256(2) == 0x1_0000;
    assert Pow256(4) == TWO_32;
  }

  /** Blocks are accepted exactly when they fit: bytes behind their size, strings in front of a
      terminator, fixed-length bytes when the length is right, or none, which means zeros. */
  lemma BlobExact(f: Field, s: seq<byte>)
    requires f.ltype.Bytes? || f.ltype.String? || f.ltype.FixedLengthBytes?
    requires ReadBlock(s).Ok?
    ensures var b := ReadBlock(s).value;
            DecodeLeaf(f, s).Ok? <==>
              match f.ltype
              case Bytes => |b| <= PB_SIZE_MAX && |b| + BYTES_OFFSET <= f.dataSize
              case String => |b| + 1 <= f.dataSize && |b| + 1 < TWO_32
              case _ => |b| <= PB_SIZE_MAX && (|b| == f.dataSize || b == [])
    ensures var b, r := ReadBlock(s).value, DecodeLeaf(f, s);
            r.Ok? ==> r.rest == ReadBlock(s).rest && r.value.Blob?
                      && (if f.ltype.FixedLengthBytes? && b == [] then
                            |r.value.data| == f.dataSize && ZeroBytes(r.value.data)
                          else r.value.data == b)
  {
    DecodeBlob(f, s);
    var b := ReadBlock(s).value;
    if |b| + 1 < TWO_32 {
      ModUnique(|b| + 1, 0, |b| + 1);
    }
  }

  /** Signed varint fields are sent as 64-bit numbers whatever their width: readers of 64 bits get the
      same value, and negative ones take ten bytes. */
  lemma SentWide(f: Field, v: Value, rest: seq<byte>)
    requires f.ltype.Varint? && HoldsLeaf(f, v)
    ensures EncodeLeaf(f, v).Some?
    ensures DecodeLeaf(f.(dataSize := 8), EncodeLeaf(f, v).value + rest) == Ok(v, rest)
    ensures v.n < 0 ==> |EncodeLeaf(f, v).value| == 10
  {
    NumberRoundTrip(f.(dataSize := 8), v, rest);
    if v.n < 0 {
      TakesTen(ToUnsigned(8, v.n));
    }
  }

  // ----- Where unknown fields end

  /** pb_skip_field: varints, eight bytes, blocks and four bytes; groups and the unassigned wire types
      are errors. */
  lemma SkipExactly(s: seq<byte>)
    ensures SkipField(0, s) == if VarintSpan(s).Some? then Ok((), s[VarintSpan(s).value..]) else Fail
    ensures SkipField(1, s) == if |s| >= 8 then Ok((), s[8..]) else Fail
    ensures SkipField(2, s) == if ReadBlock(s).Ok? then Ok((), ReadBlock(s).rest) else Fail
    ensures SkipField(5, s) == if |s| >= 4 then Ok((), s[4..]) else Fail
    ensures forall wt: nat :: wt !in {0, 1, 2, 5} ==> SkipField(wt, s).Fail?
  {
  }
}
