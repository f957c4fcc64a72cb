/** pb_ostream_t over a memory buffer or none at all, and the writers of pb_encode.c that work on
    it. */
module OutputStream {
  import opened Basics
  import opened Varint
  import opened Leaf

  // ----- What writing does to a stream

  /** A stream as a value: what lies in its buffer before the cursor, and what lies beyond its
      limit. A sizing stream has no buffer. */
  datatype Track = Track(sizing: bool, written: nat, limit: nat, output: seq<byte>, beyond: seq<byte>)

  /** Output accounting, on success and on failure: the cursor keeps its distance from the number
      of bytes written, that number stays within the limit, the bytes before the cursor stay as they
      were, and so does everything beyond the limit. */
  predicate Kept(t: Track, t': Track) {
    && t'.sizing == t.sizing && t'.limit == t.limit && t'.beyond == t.beyond
    && (!t.sizing ==>
          |t'.output| - t'.written == |t.output| - t.written && t'.written <= t'.limit && t.output <= t'.output)
  }

  predicate Small(b: Option<seq<byte>>) {
    b.Some? && |b.value| < TWO_64
  }

  predicate Fits(t: Track, n: nat) {
    t.sizing || t.written + n <= t.limit
  }

  /** The outcome of writing b, or of a message that cannot be written. It succeeds exactly when b
      fits, and sizing and writing count the same bytes. */
  predicate Appended(t: Track, t': Track, b: Option<seq<byte>>, ok: bool) {
    && Kept(t, t')
    && (b.None? ==> !ok)
    && (Small(b) ==>
          && ok == Fits(t, |b.value|)
          && (ok ==> t'.written == t.written + |b.value| && (!t.sizing ==> t'.output == t.output + b.value)))
  }

  function Concat(a: Option<seq<byte>>, b: Option<seq<byte>>): Option<seq<byte>> {
    if a.Some? && b.Some? then Some(a.value + b.value) else None
  }

  lemma ConcatAssoc(a: Option<seq<byte>>, b: Option<seq<byte>>, c: Option<seq<byte>>)
    ensures Concat(Concat(a, b), c) == Concat(a, Concat(b, c))
  {
    if a.Some? && b.Some? && c.Some? {
      assert (a.value + b.value) + c.value == a.value + (b.value + c.value);
    }
  }

  lemma ConcatNothing(a: Option<seq<byte>>)
    ensures Concat(a, Some([])) == a && Concat(Some([]), a) == a
  {
    if a.Some? {
      assert a.value + [] == a.value && [] + a.value == a.value;
    }
  }

  lemma NothingAppended(t: Track)
    requires !t.sizing ==> t.written <= t.limit
    ensures Appended(t, t, Some([]), true)
  {
    assert t.output + [] == t.output;
  }

  /** A substream's track at the beginning: its parent's, with a limit within the parent's. */
  predicate Limits(parent: Track, sub: Track) {
    && !parent.sizing && !sub.sizing && sub.output == parent.output && sub.written == 0
    && parent.written + sub.limit <= parent.limit
    && parent.limit - parent.written - sub.limit <= |sub.beyond|
    && parent.beyond == sub.beyond[parent.limit - parent.written - sub.limit..]
  }

  lemma DropDrop(s: seq<byte>, i: nat, d: nat)
    requires i + d <= |s|
    ensures s[i..][d..] == s[i + d..]
  {
  }

  /** What a substream does up to its own limit is what its parent does. */
  lemma SubstreamAppended(t1: Track, s1: Track, t2: Track, s2: Track, b: Option<seq<byte>>, ok: bool)
    requires Limits(t1, s1) && (Small(b) ==> s1.limit == |b.value|)
    requires Appended(s1, s2, b, ok)
    requires t2 == Track(false, t1.written + s2.written, t1.limit, s2.output, t1.beyond)
    ensures Appended(t1, t2, b, ok)
    ensures Small(b) ==> ok && s2.written == s1.limit
  {
  }

  /** One write after another is one write of both. */
  lemma ThenAppended(t0: Track, t1: Track, t2: Track, a: Option<seq<byte>>, b: Option<seq<byte>>, ok: bool)
    requires Appended(t0, t1, a, true) && Appended(t1, t2, b, ok)
    ensures Appended(t0, t2, Concat(a, b), ok)
  {
    if Small(Concat(a, b)) && ok && !t0.sizing {
      assert t0.output + a.value + b.value == t0.output + (a.value + b.value);
    }
  }

  /** Where the first of two writes fails, both together would. */
  lemma NotAppended(t0: Track, t1: Track, a: Option<seq<byte>>, b: Option<seq<byte>>)
    requires Appended(t0, t1, a, false)
    ensures Appended(t0, t1, Concat(a, b), false)
  {
  }

  lemma Regroup(a: seq<byte>, g: byte, b: seq<byte>)
    ensures a + ([g] + b) == (a + [g]) + b
  {
  }

  lemma GroupStep(done: seq<byte>, v: nat, all: seq<byte>)
    requires v > 0 && done + EncVarint(v) == all
    ensures |done| < |all|
    ensures var group: byte := v % 0x80 + 0x80;
            if v >= 0x80 then (done + [group]) + EncVarint(v / 0x80) == all
            else (done + [group])[..|done|] + [group - 0x80] == all
  {
    var group: byte := v % 0x80 + 0x80;
    if v >= 0x80 {
      assert EncVarint(v) == [group] + EncVarint(v / 0x80);
      Regroup(done, group, EncVarint(v / 0x80));
    } else {
      assert EncVarint(v) == [group - 0x80];
    }
  }

  /** The loop of pb_encode_varint. */
  method VarintBytes(value: nat) returns (bytes: seq<byte>)
    requires 0x80 <= value < TWO_64
    ensures bytes == EncVarint(value)
  {
    var buffer := new byte[10](_ => 0);
    var v: nat, i: nat := value, 0;
    EncVarintLength64(value);
    ghost var done: seq<byte> := [];
    while v > 0
      invariant 0 <= i <= 10 && buffer[..i] == done
      invariant v > 0 ==> done + EncVarint(v) == EncVarint(value)
      invariant v == 0 ==> i > 0 && done[i - 1] >= 0x80 && done[..i - 1] + [done[i - 1] - 0x80] == EncVarint(value)
      decreases v
    {
      GroupStep(done, v, EncVarint(value));
      buffer[i] := v % 0x80 + 0x80;
      done := done + [v % 0x80 + 0x80];
      v := v / 0x80;
      i := i + 1;
    }
    buffer[i - 1] := buffer[i - 1] % 0x80;
    bytes := buffer[..i];
    assert bytes == done[..i - 1] + [done[i - 1] - 0x80];
  }

  /** A length prefix and the contents behind it, where both are written or the prefix is not. */
  lemma BlockAppended(t0: Track, t1: Track, t2: Track, prefix: seq<byte>, contents: seq<byte>, ok: bool)
    requires |contents| < TWO_64 ==> prefix == EncVarint(|contents|)
    requires || (Appended(t0, t1, Some(prefix), true) && Appended(t1, t2, Some(contents), ok))
             || (Appended(t0, t1, Some(prefix), false) && t2 == t1 && !ok)
    ensures Appended(t0, t2, Some(EncBlock(contents)), ok)
  {
    if Appended(t0, t1, Some(prefix), true) && Appended(t1, t2, Some(contents), ok) {
      ThenAppended(t0, t1, t2, Some(prefix), Some(contents), ok);
    } else {
      NotAppended(t0, t1, Some(prefix), Some(contents));
    }
  }

  lemma TwoBytes(v: nat)
    ensures ToLittleEndian(v, 2) == [v % 0x100, v / 0x100 % 0x100]
    ensures forall n: nat :: ToLittleEndian(v, n + 2) == ToLittleEndian(v, 2) + ToLittleEndian(v / 0x1_0000, n)
  {
    assert v / 0x100 / 0x100 == v / 0x1_0000;
  }

  lemma FourBytes(v: nat)
    ensures ToLittleEndian(v, 4) == [v % 0x100, v / 0x100 % 0x100, v / 0x1_0000 % 0x100, v / 0x100_0000 % 0x100]
  {
    TwoBytes(v);
    TwoBytes(v / 0x1_0000);
  }

  lemma FourMore(v: nat, n: nat)
    ensures ToLittleEndian(v, 4 + n) == ToLittleEndian(v, 4) + ToLittleEndian(v / 0x1_0000_0000, n)
  {
    TwoBytes(v);
    TwoBytes(v / 0x1_0000);
    assert v / 0x1_0000 / 0x1_0000 == v / 0x1_0000_0000;
    assert ToLittleEndian(v, n + 2 + 2) == ToLittleEndian(v, 2) + ToLittleEndian(v / 0x1_0000, n + 2);
    assert ToLittleEndian(v, 2 + 2) == ToLittleEndian(v, 2) + ToLittleEndian(v / 0x1_0000, 2);
  }

  lemma HighHalf(v: nat)
    ensures var h := v / 0x1_0000_0000;
            && h / 0x100 == v / 0x100_0000_0000
            && h / 0x1_0000 == v / 0x1_0000_0000_0000
            && h / 0x100_0000 == v / 0x100_0000_0000_0000
  {
  }

  lemma EightBytes(v: nat)
    ensures ToLittleEndian(v, 8) ==
            [v % 0x100, v / 0x100 % 0x100, v / 0x1_0000 % 0x100, v / 0x100_0000 % 0x100,
             v / 0x1_0000_0000 % 0x100, v / 0x100_0000_0000 % 0x100,
             v / 0x1_0000_0000_0000 % 0x100, v / 0x100_0000_0000_0000 % 0x100]
  {
    FourBytes(v);
    FourBytes(v / 0x1_0000_0000);
    FourMore(v, 4);
    HighHalf(v);
  }

  class OStream {
    var buf: array?<byte>
    var state: nat
    var maxSize: nat
    var bytesWritten: nat

    ghost predicate Valid()
      reads this
    {
      buf != null ==> bytesWritten <= state && bytesWritten <= maxSize && state - bytesWritten + maxSize <= buf.Length
    }

    ghost function Now(): (t: Track)
      requires Valid()
      reads this, buf
    {
      if buf == null then Track(true, bytesWritten, 0, [], [])
      else Track(false, bytesWritten, maxSize, buf[..state], buf[state - bytesWritten + maxSize..])
    }

    /** PB_OSTREAM_SIZING: no callback, and no limit. */
    constructor Sizing()
      ensures Valid() && buf == null && bytesWritten == 0
    {
      buf, state, maxSize, bytesWritten := null, 0, 0, 0;
    }

    /** pb_ostream_from_buffer. */
    constructor FromBuffer(buf: array<byte>, bufsize: nat)
      requires bufsize <= buf.Length
      ensures Valid() && this.buf == buf && state == 0 && bytesWritten == 0 && maxSize == bufsize
      ensures Now() == Track(false, 0, bufsize, [], buf[bufsize..])
    {
      this.buf, state, maxSize, bytesWritten := buf, 0, bufsize, 0;
    }

    /** The substream of pb_encode_submessage takes over its parent's buffer and cursor, with a limit
        of its own. */
    method LimitTo(parent: OStream, size: nat)
      requires parent != this && parent.Valid() && parent.buf != null && parent.bytesWritten + size <= parent.maxSize
      modifies this
      ensures buf == parent.buf && state == parent.state && maxSize == size && bytesWritten == 0 && Valid()
      ensures Limits(parent.Now(), Now())
    {
      buf := parent.buf;
      state := parent.state;
      maxSize := size;
      bytesWritten := 0;
      DropDrop(buf[..], state + size, parent.maxSize - parent.bytesWritten - size);
    }

    /** Afterwards the parent moves to where the substream is. */
    method MoveTo(substream: OStream, ghost t: Track, ghost s: Track)
      requires substream != this && substream.Valid() && buf != null && substream.buf == buf
      requires Limits(t, s) && Kept(s, substream.Now())
      requires bytesWritten == t.written && maxSize == t.limit && state == |t.output|
      requires bytesWritten <= state && state - bytesWritten + maxSize <= buf.Length
      modifies this`state, this`bytesWritten
      ensures Valid()
      ensures Now() == Track(false, t.written + substream.Now().written, t.limit, substream.Now().output, t.beyond)
    {
      DropDrop(buf[..], state + substream.maxSize, maxSize - bytesWritten - substream.maxSize);
      bytesWritten := bytesWritten + substream.bytesWritten;
      state := substream.state;
    }

    /** buf_write. */
    method BufWrite(src: seq<byte>)
      requires buf != null && state + |src| <= buf.Length
      modifies this`state, buf
      ensures state == old(state) + |src|
      ensures buf[..] == old(buf[..state]) + src + old(buf[state + |src|..])
    {
      var dest := state;
      state := dest + |src|;
      var i := 0;
      while i < |src|
        invariant 0 <= i <= |src| && state == dest + |src|
        invariant buf[..dest] == old(buf[..state])
        invariant buf[dest..dest + i] == src[..i]
        invariant buf[dest + |src|..] == old(buf[state + |src|..])
      {
        buf[dest + i] := src[i];
        i := i + 1;
      }
      assert buf[..] == buf[..dest] + buf[dest..dest + |src|] + buf[dest + |src|..];
    }

    /** pb_write: all or nothing. A sizing stream only counts, and needs no source. */
    method Write(src: seq<byte>, count: nat) returns (ok: bool)
      requires Valid() && (buf != null ==> |src| == count)
      modifies this`state, this`bytesWritten, buf
      ensures Valid() && Kept(old(Now()), Now())
      ensures ok == Fits(old(Now()), count)
      ensures ok ==> bytesWritten == old(bytesWritten) + count
      ensures ok && buf != null ==> Now().output == old(Now()).output + src
      ensures !ok ==> Now() == old(Now())
    {
      if count > 0 && buf != null {
        if bytesWritten + count > maxSize {
          return false;
        }
        BufWrite(src);
      }
      bytesWritten := bytesWritten + count;
      return true;
    }

    /** Writing bytes that are there. */
    method WriteAll(src: seq<byte>) returns (ok: bool)
      requires Valid()
      modifies this`state, this`bytesWritten, buf
      ensures Valid() && Appended(old(Now()), Now(), Some(src), ok)
    {
      ok := Write(src, |src|);
    }

    /** pb_encode_varint. */
    method EncodeVarint(value: nat) returns (ok: bool)
      requires Valid() && value < TWO_64
      modifies this`state, this`bytesWritten, buf
      ensures Valid() && Appended(old(Now()), Now(), Some(EncVarint(value)), ok)
    {
      if value <= 0x7F {
        ok := WriteAll([value]);
        return;
      }
      var bytes := VarintBytes(value);
      ok := WriteAll(bytes);
    }

    /** pb_encode_svarint. */
    method EncodeSvarint(value: int) returns (ok: bool)
      requires Valid()
      modifies this`state, this`bytesWritten, buf
      ensures Valid() && Appended(old(Now()), Now(), Some(EncVarint(ZigZag(value))), ok)
    {
      var shifted := 2 * value % TWO_64;
      var zigzagged := if value < 0 then TWO_64 - 1 - shifted else shifted;
      ok := EncodeVarint(zigzagged);
    }

    /** pb_encode_fixed32. */
    method EncodeFixed32(value: nat) returns (ok: bool)
      requires Valid() && value < TWO_32
      modifies this`state, this`bytesWritten, buf
      ensures Valid() && Appended(old(Now()), Now(), Some(ToLittleEndian(value, 4)), ok)
    {
      var bytes := new byte[4](_ => 0);
      bytes[0] := value % 0x100;
      bytes[1] := value / 0x100 % 0x100;
      bytes[2] := value / 0x1_0000 % 0x100;
      bytes[3] := value / 0x100_0000 % 0x100;
      FourBytes(value);
      assert bytes[..] == ToLittleEndian(value, 4);
      ok := WriteAll(bytes[..]);
    }

    /** pb_encode_fixed64. */
    method EncodeFixed64(value: nat) returns (ok: bool)
      requires Valid() && value < TWO_64
      modifies this`state, this`bytesWritten, buf
      ensures Valid() && Appended(old(Now()), Now(), Some(ToLittleEndian(value, 8)), ok)
    {
      var bytes := new byte[8](_ => 0);
      bytes[0] := value % 0x100;
      bytes[1] := value / 0x100 % 0x100;
      bytes[2] := value / 0x1_0000 % 0x100;
      bytes[3] := value / 0x100_0000 % 0x100;
      bytes[4] := value / 0x1_0000_0000 % 0x100;
      bytes[5] := value / 0x100_0000_0000 % 0x100;
      bytes[6] := value / 0x1_0000_0000_0000 % 0x100;
      bytes[7] := value / 0x100_0000_0000_0000 % 0x100;
      EightBytes(value);
      assert bytes[..] == ToLittleEndian(value, 8);
      ok := WriteAll(bytes[..]);
    }

    /** pb_encode_tag. */
    method EncodeTag(wireType: nat, tag: nat) returns (ok: bool)
      requires Valid() && tag < TWO_32 && wireType < 8
      modifies this`state, this`bytesWritten, buf
      ensures Valid() && Appended(old(Now()), Now(), Some(EncTag(tag, wireType)), ok)
    {
      ok := EncodeVarint(8 * tag + wireType);
    }

    /** pb_encode_string. */
    method EncodeString(buffer: seq<byte>) returns (ok: bool)
      requires Valid()
      modifies this`state, this`bytesWritten, buf
      ensures Valid() && Appended(old(Now()), Now(), Some(EncBlock(buffer)), ok)
    {
      ghost var t0 := Now();
      ok := EncodeVarint(|buffer| % TWO_64);
      ghost var t1 := Now();
      if ok {
        ok := WriteAll(buffer);
      }
      BlockAppended(t0, t1, Now(), EncVarint(|buffer| % TWO_64), buffer, ok);
    }
  }
}
