/** pb_istream_t over a memory buffer, and the readers of pb_decode.c that work on it. */
module InputStream {
  import opened Basics
  import opened Varint
  import opened Descriptor
  import opened Leaf

  lemma ScaleByte(b: nat, p: nat)
    ensures 256 * (b * p) == b * (256 * p)
  {
  }

  lemma {:induction false} LittleEndianAppend(s: seq<byte>, n: nat)
    requires n < |s|
    ensures LittleEndian(s[..n + 1]) == LittleEndian(s[..n]) + s[n] * Pow256(n)
    decreases n
  {
    if n == 0 {
      assert s[..1] == [s[0]] && s[..0] == [];
    } else {
      assert s[..n + 1][1..] == s[1..][..n] && s[..n][1..] == s[1..][..n - 1];
      LittleEndianAppend(s[1..], n - 1);
      ScaleByte(s[n], Pow256(n - 1));
    }
  }

  lemma {:induction false} BytePower(n: nat)
    ensures Pow2(8 * n) == Pow256(n)
  {
    if n > 0 {
      BytePower(n - 1);
      var k := 8 * (n - 1);
      assert Pow2(k + 2) == 4 * Pow2(k);
      assert Pow2(k + 4) == 4 * Pow2(k + 2);
      assert Pow2(k + 6) == 4 * Pow2(k + 4);
    }
  }

  /** Or-ing the next byte in above those that are there already. */
  lemma OrByte(s: seq<byte>, n: nat, weight: nat)
    requires n < |s| && weight == Pow256(n)
    ensures BitOr(LittleEndian(s[..n]), s[n] * weight) == LittleEndian(s[..n + 1])
  {
    LittleEndianAppend(s, n);
    LittleEndianRange(s[..n]);
    BytePower(n);
    BitOrDisjoint(LittleEndian(s[..n]), 8 * n, s[n]);
  }

  lemma Pow256Values()
    ensures Pow256(1) == 0x100 && Pow256(2) == 0x1_0000 && Pow256(3) == 0x100_0000 && Pow256(4) == 0x1_0000_0000
    ensures Pow256(5) == 0x100_0000_0000 && Pow256(6) == 0x1_0000_0000_0000 && Pow256(7) == 0x100_0000_0000_0000
  {
    assert Pow256(2) == 0x1_0000;
    assert Pow256(4) == 0x1_0000_0000;
  }

  /** The shifts and ors of pb_decode_fixed32. */
  function OrFour(b0: nat, b1: nat, b2: nat, b3: nat): nat {
    BitOr(BitOr(BitOr(b0, b1 * 0x100), b2 * 0x1_0000), b3 * 0x100_0000)
  }

  /** Those that pb_decode_fixed64 has besides. */
  function OrFourMore(low: nat, b4: nat, b5: nat, b6: nat, b7: nat): nat {
    BitOr(BitOr(BitOr(BitOr(low, b4 * 0x1_0000_0000), b5 * 0x100_0000_0000), b6 * 0x1_0000_0000_0000),
          b7 * 0x100_0000_0000_0000)
  }

  lemma FourBytesOred(s: seq<byte>)
    requires |s| >= 4
    ensures OrFour(s[0], s[1], s[2], s[3]) == LittleEndian(s[..4])
  {
    Pow256Values();
    LittleEndianAppend(s, 0);
    assert s[..0] == [];
    OrByte(s, 1, 0x100);
    OrByte(s, 2, 0x1_0000);
    OrByte(s, 3, 0x100_0000);
  }

  lemma EightBytesOred(s: seq<byte>)
    requires |s| == 8
    ensures OrFourMore(OrFour(s[0], s[1], s[2], s[3]), s[4], s[5], s[6], s[7]) == LittleEndian(s)
  {
    Pow256Values();
    FourBytesOred(s);
    OrByte(s, 4, 0x1_0000_0000);
    OrByte(s, 5, 0x100_0000_0000);
    OrByte(s, 6, 0x1_0000_0000_0000);
    OrByte(s, 7, 0x100_0000_0000_0000);
    assert s[..8] == s;
  }

  lemma BlockBehindVarint(s: seq<byte>, size: nat, left: seq<byte>)
    requires ReadVarint32(s) == Ok(size, left)
    ensures ReadBlock(s) == if |left| < size then Fail else Ok(left[..size], left[size..])
  {
  }

  lemma SliceDrop(s: seq<byte>, lo: nat, hi: nat, n: nat)
    requires lo + n <= hi <= |s|
    ensures s[lo..hi][n..] == s[lo + n..hi] && s[lo..hi][..n] == s[lo..lo + n]
  {
  }

  class IStream {
    const buf: array<byte>
    var state: nat
    var bytesLeft: nat

    ghost predicate Valid()
      reads this
    {
      state + bytesLeft <= buf.Length
    }

    /** The bytes that the stream may still deliver. */
    ghost function Left(): (s: seq<byte>)
      requires Valid()
      reads this, buf
      ensures |s| == bytesLeft
    {
      buf[state..state + bytesLeft]
    }

    /** Where the stream's limit lies in the buffer. */
    ghost function Limit(): nat
      reads this
    {
      state + bytesLeft
    }

    /** pb_istream_from_buffer. */
    constructor (buf: array<byte>, bufsize: nat)
      requires bufsize <= buf.Length
      ensures Valid() && this.buf == buf && state == 0 && Left() == buf[..bufsize]
    {
      this.buf := buf;
      state := 0;
      bytesLeft := bufsize;
    }

    /** The copy that pb_make_string_substream takes of its parent, with a limit of its own. */
    constructor Copy(parent: IStream, size: nat)
      requires parent.Valid() && size <= parent.bytesLeft
      ensures Valid() && buf == parent.buf && state == parent.state && Left() == parent.Left()[..size]
    {
      buf := parent.buf;
      state := parent.state;
      bytesLeft := size;
    }

    /** buf_read: copies, or skips when there is no destination. */
    method BufRead(dest: array?<byte>, count: nat)
      requires Valid() && count <= bytesLeft
      requires dest != null ==> dest != buf && count <= dest.Length
      modifies this`state, dest
      ensures state == old(state) + count
      ensures dest != null ==> dest[..count] == buf[old(state)..old(state) + count]
      ensures dest != null ==> dest[count..] == old(dest[count..])
    {
      var source := state;
      state := state + count;
      if dest != null {
        var i := 0;
        while i < count
          invariant 0 <= i <= count && state == source + count
          invariant dest[..i] == buf[source..source + i]
          invariant dest[count..] == old(dest[count..])
        {
          dest[i] := buf[source + i];
          i := i + 1;
        }
      }
    }

    /** pb_read: all or nothing. */
    method Read(dest: array?<byte>, count: nat) returns (ok: bool)
      requires Valid()
      requires dest != null ==> dest != buf && count <= dest.Length
      modifies this, dest
      ensures Valid() && Limit() == old(Limit())
      ensures ok == (count <= old(bytesLeft))
      ensures ok ==> Left() == old(Left())[count..]
      ensures ok && dest != null ==> dest[..count] == old(Left())[..count] && dest[count..] == old(dest[count..])
      ensures !ok ==> unchanged(this) && (dest != null ==> dest[..] == old(dest[..]))
    {
      if count == 0 {
        assert Left()[..count] == [] && Left()[count..] == Left();
        assert dest != null ==> dest[..count] == [];
        return true;
      }
      if bytesLeft < count {
        return false;
      }
      SliceDrop(buf[..], state, state + bytesLeft, count);
      BufRead(dest, count);
      bytesLeft := bytesLeft - count;
      return true;
    }

    /** pb_readbyte. */
    method ReadByte() returns (ok: bool, b: byte)
      requires Valid()
      modifies this
      ensures Valid() && Limit() == old(Limit())
      ensures ok == (old(Left()) != [])
      ensures ok ==> b == old(Left())[0] && Left() == old(Left())[1..]
      ensures !ok ==> unchanged(this)
    {
      if bytesLeft == 0 {
        return false, 0;
      }
      b := buf[state];
      state := state + 1;
      bytesLeft := bytesLeft - 1;
      return true, b;
    }

    /** pb_decode_varint32_eof. */
    method DecodeVarint32Eof() returns (ok: bool, dest: nat, eof: bool)
      requires Valid()
      modifies this
      ensures Valid() && Limit() == old(Limit())
      ensures ok == ReadVarint32(old(Left())).Ok?
      ensures ok ==> ReadVarint32(old(Left())) == Ok(dest, Left())
      ensures eof == (old(Left()) == []) && (eof ==> Left() == [])
    {
      var b;
      ok, b := ReadByte();
      if !ok {
        return false, 0, true;
      }
      if b < 0x80 {
        return true, b, false;
      }
      ghost var all := old(Left());
      var bitpos: nat := 7;
      var result: nat := b % 0x80;
      while true
        invariant Valid() && Limit() == old(Limit())
        invariant ReadVarint32(all) == Varint32Loop(Left(), bitpos, result)
        decreases bytesLeft
      {
        ok, b := ReadByte();
        if !ok {
          return false, 0, false;
        }
        if bitpos >= 32 {
          var signExtension := if bitpos < 63 then 0xFF else 0x01;
          if b % 0x80 != 0 && (result / TWO_31 == 0 || b != signExtension) {
            return false, 0, false;
          }
        } else {
          result := BitOr(result, b % 0x80 * Pow2(bitpos) % TWO_32);
        }
        bitpos := (bitpos + 7) % FAST8_RANGE;
        if b < 0x80 {
          break;
        }
      }
      if bitpos == 35 && b / 16 % 8 != 0 {
        return false, 0, false;
      }
      return true, result, false;
    }

    /** pb_decode_varint32. */
    method DecodeVarint32() returns (ok: bool, dest: nat)
      requires Valid()
      modifies this
      ensures Valid() && Limit() == old(Limit())
      ensures ok == ReadVarint32(old(Left())).Ok?
      ensures ok ==> ReadVarint32(old(Left())) == Ok(dest, Left())
    {
      var eof;
      ok, dest, eof := DecodeVarint32Eof();
    }

    /** pb_decode_varint: the loop's shifts and ors compute the sum of the groups modulo 2^64. */
    method DecodeVarint() returns (ok: bool, dest: nat)
      requires Valid()
      modifies this
      ensures Valid() && Limit() == old(Limit())
      ensures ok == ReadVarint64(old(Left())).Ok?
      ensures ok ==> ReadVarint64(old(Left())) == Ok(dest, Left())
    {
      ghost var all := old(Left());
      ghost var n: nat := 0;
      var bitpos := 0;
      var result := 0;
      var b: byte;
      while true
        invariant Valid() && Limit() == old(Limit())
        invariant n <= |all| && n <= 10 && bitpos == 7 * n && Left() == all[n..]
        invariant forall j :: 0 <= j < n ==> all[j] >= 0x80
        invariant result == GroupSum(all[..n]) % TWO_64
        decreases bytesLeft
      {
        if bitpos >= 64 {
          Varint64TooLong(all);
          return false, 0;
        }
        ok, b := ReadByte();
        if !ok {
          NoVarint(all);
          return false, 0;
        }
        OrGroup64(all, n, result);
        result := BitOr(result, b % 0x80 * Pow2(bitpos) % TWO_64);
        bitpos := bitpos + 7;
        n := n + 1;
        if b < 0x80 {
          break;
        }
      }
      Varint64Ends(all, n, result);
      return true, result;
    }

    /** pb_decode_fixed32. */
    method DecodeFixed32() returns (ok: bool, dest: nat)
      requires Valid()
      modifies this
      ensures Valid() && Limit() == old(Limit())
      ensures ok == (old(bytesLeft) >= 4)
      ensures ok ==> dest == LittleEndian(old(Left())[..4]) && Left() == old(Left())[4..]
    {
      var bytes := new byte[4](_ => 0);
      dest := 0;
      ok := Read(bytes, 4);
      if !ok {
        return;
      }
      FourBytesOred(bytes[..]);
      assert bytes[..4] == bytes[..];
      dest := OrFour(bytes[0], bytes[1], bytes[2], bytes[3]);
    }

    /** pb_decode_fixed64. */
    method DecodeFixed64() returns (ok: bool, dest: nat)
      requires Valid()
      modifies this
      ensures Valid() && Limit() == old(Limit())
      ensures ok == (old(bytesLeft) >= 8)
      ensures ok ==> dest == LittleEndian(old(Left())[..8]) && Left() == old(Left())[8..]
    {
      var bytes := new byte[8](_ => 0);
      dest := 0;
      ok := Read(bytes, 8);
      if !ok {
        return;
      }
      EightBytesOred(bytes[..]);
      assert bytes[..8] == bytes[..];
      dest := OrFourMore(OrFour(bytes[0], bytes[1], bytes[2], bytes[3]), bytes[4], bytes[5], bytes[6], bytes[7]);
    }

    /** pb_skip_varint. */
    method SkipVarint() returns (ok: bool)
      requires Valid()
      modifies this
      ensures Valid() && Limit() == old(Limit())
      ensures ok == SkipField(WT_VARINT, old(Left())).Ok?
      ensures ok ==> SkipField(WT_VARINT, old(Left())) == Ok((), Left())
    {
      ghost var all := old(Left());
      ghost var n: nat := 0;
      var one := new byte[1];
      while true
        invariant Valid() && Limit() == old(Limit())
        invariant n <= |all| && Left() == all[n..]
        invariant forall j :: 0 <= j < n ==> all[j] >= 0x80
        decreases bytesLeft
      {
        ok := Read(one, 1);
        if !ok {
          NoVarint(all);
          return false;
        }
        assert one[0] == one[..1][0];
        n := n + 1;
        if one[0] < 0x80 {
          break;
        }
      }
      SpanIs(all, n);
      return true;
    }

    /** pb_skip_string. */
    method SkipString() returns (ok: bool)
      requires Valid()
      modifies this
      ensures Valid() && Limit() == old(Limit())
      ensures ok == SkipField(WT_STRING, old(Left())).Ok?
      ensures ok ==> SkipField(WT_STRING, old(Left())) == Ok((), Left())
    {
      var length;
      ok, length := DecodeVarint32();
      if !ok {
        return false;
      }
      ok := Read(null, length);
    }

    /** pb_decode_tag. */
    method DecodeTag() returns (ok: bool, wireType: nat, tag: nat, eof: bool)
      requires Valid()
      modifies this
      ensures Valid() && Limit() == old(Limit())
      ensures match ReadTag(old(Left()))
              case Bad => !ok && !eof
              case End(left) => !ok && eof && Left() == left
              case Tag(t, w, left) => ok && tag == t && wireType == w && Left() == left
    {
      wireType, tag := 0, 0;
      var temp;
      ok, temp, eof := DecodeVarint32Eof();
      if !ok {
        return;
      }
      if temp == 0 {
        return false, wireType, tag, true;
      }
      tag := temp / 8;
      wireType := temp % 8;
    }

    /** pb_skip_field. */
    method SkipOne(wireType: nat) returns (ok: bool)
      requires Valid()
      modifies this
      ensures Valid() && Limit() == old(Limit())
      ensures ok == SkipField(wireType, old(Left())).Ok?
      ensures ok ==> SkipField(wireType, old(Left())) == Ok((), Left())
      ensures wireType == 1 ==> ok == (|old(Left())| >= 8) && (ok ==> Left() == old(Left())[8..])
      ensures wireType == 5 ==> ok == (|old(Left())| >= 4) && (ok ==> Left() == old(Left())[4..])
      ensures wireType !in {0, 1, 2, 5} ==> !ok
    {
      SkipExactly(Left());
      if wireType == WT_VARINT {
        ok := SkipVarint();
      } else if wireType == WT_64BIT {
        ok := Read(null, 8);
      } else if wireType == WT_STRING {
        ok := SkipString();
      } else if wireType == WT_32BIT {
        ok := Read(null, 4);
      } else {
        return false;
      }
    }

    /** The substream is this stream's next block: `rest` is what lies behind the substream's limit. */
    ghost predicate Lends(substream: IStream, rest: seq<byte>)
      reads this, substream, buf
    {
      && substream != this && substream.Valid() && substream.buf == buf
      && bytesLeft == |rest| && substream.Limit() + bytesLeft <= buf.Length
      && buf[substream.Limit()..substream.Limit() + bytesLeft] == rest
    }

    /** The last step: the copy gets the next bytes, and the parent counts those behind them. */
    method SplitOff(size: nat) returns (substream: IStream)
      requires Valid() && size <= bytesLeft
      modifies this
      ensures Valid() && Limit() <= old(Limit())
      ensures fresh(substream) && Lends(substream, old(Left())[size..])
      ensures substream.Left() == old(Left())[..size] && substream.Limit() + bytesLeft == old(Limit())
    {
      SliceDrop(buf[..], state, state + bytesLeft, size);
      substream := new IStream.Copy(this, size);
      bytesLeft := bytesLeft - size;
    }

    /** pb_make_string_substream: the substream gets the block, and the parent's count forgets it,
        while the parent's position stays until the substream is closed. */
    method MakeSubstream() returns (ok: bool, substream: IStream)
      requires Valid()
      modifies this
      ensures Valid() && Limit() <= old(Limit())
      ensures ok == ReadBlock(old(Left())).Ok?
      ensures ok ==> fresh(substream) && Lends(substream, ReadBlock(old(Left())).rest)
                     && substream.Left() == ReadBlock(old(Left())).value
                     && substream.Limit() + bytesLeft == old(Limit())
    {
      substream := this;
      var size;
      ok, size := DecodeVarint32();
      if !ok {
        return;
      }
      BlockBehindVarint(old(Left()), size, Left());
      if bytesLeft < size {
        return false, substream;
      }
      substream := SplitOff(size);
    }

    /** pb_close_string_substream: the parent moves to the substream's limit, whatever was read. */
    method CloseSubstream(substream: IStream, ghost rest: seq<byte>) returns (ok: bool)
      requires Valid() && substream != this && substream.Valid() && substream.buf == buf
      requires substream.Limit() + bytesLeft <= buf.Length
      modifies this, substream
      ensures ok && Valid()
      ensures state == old(substream.Limit()) && bytesLeft == old(bytesLeft)
      ensures old(Lends(substream, rest)) ==> Left() == rest
    {
      if substream.bytesLeft != 0 {
        ok := substream.Read(null, substream.bytesLeft);
        if !ok {
          return;
        }
      }
      state := substream.state;
      return true;
    }
  }
}
