/** Messages on the wire as the "Encoding" specification of Protocol Buffers describes them: numbered
    records of four kinds, told apart by the wire type. The definitions do not depend on nanopb. */
module WireFormat {
  import opened Basics
  import opened Varint

  datatype Payload = Number(n: nat) | EightBytes(n: nat) | Block(b: seq<byte>) | FourBytes(n: nat)

  datatype Record = Record(number: nat, payload: Payload)

  // ----- Reading

  /** A base 128 number in as few bytes as it needs. */
  function ReadNumber(s: seq<byte>): (r: Read<nat>)
    ensures r.Ok? ==> |r.rest| < |s|
  {
    if s == [] then Fail
    else if s[0] < 128 then Ok(s[0], s[1..])
    else match ReadNumber(s[1..])
      case Fail => Fail
      case Ok(n, rest) => if n == 0 then Fail else Ok(s[0] - 128 + 128 * n, rest)
  }

  function Digits(a: nat, b: nat, c: nat, d: nat): nat {
    a + 0x100 * (b + 0x100 * (c + 0x100 * d))
  }

  /** The least significant byte comes first. */
  function FourBytesOf(s: seq<byte>): nat
    requires |s| >= 4
  {
    Digits(s[0], s[1], s[2], s[3])
  }

  function EightBytesOf(s: seq<byte>): nat
    requires |s| >= 8
  {
    FourBytesOf(s) + 0x1_0000_0000 * FourBytesOf(s[4..])
  }

  function ReadPayload(wireType: nat, s: seq<byte>): (r: Read<Payload>)
    ensures r.Ok? ==> |r.rest| < |s|
  {
    match wireType
    case 0 => (match ReadNumber(s) { case Fail => Fail case Ok(n, rest) => Ok(Number(n), rest) })
    case 1 =>
      if |s| < 8 then Fail else Ok(EightBytes(EightBytesOf(s)), s[8..])
    case 2 =>
      (match ReadNumber(s)
       case Fail => Fail
       case Ok(n, rest) => if |rest| < n then Fail else Ok(Block(rest[..n]), rest[n..]))
    case 5 => if |s| < 4 then Fail else Ok(FourBytes(FourBytesOf(s)), s[4..])
    case _ => Fail
  }

  /** A key, which is the field number and the wire type, and the payload. */
  function ReadRecord(s: seq<byte>): (r: Read<Record>)
    ensures r.Ok? ==> |r.rest| < |s|
  {
    match ReadNumber(s)
    case Fail => Fail
    case Ok(key, left) =>
      match ReadPayload(key % 8, left)
      case Fail => Fail
      case Ok(p, rest) => Ok(Record(key / 8, p), rest)
  }

  function ReadMessage(s: seq<byte>): Option<seq<Record>>
    decreases |s|
  {
    if s == [] then Some([])
    else match ReadRecord(s)
      case Fail => None
      case Ok(r, rest) =>
        match ReadMessage(rest) { case None => None case Some(rs) => Some([r] + rs) }
  }

  // ----- What has been read determines the bytes

  lemma {:induction false} NumberReads(v: nat, rest: seq<byte>)
    ensures ReadNumber(EncVarint(v) + rest) == Ok(v, rest)
  {
    if v >= 0x80 {
      NumberReads(v / 0x80, rest);
      assert (EncVarint(v) + rest)[1..] == EncVarint(v / 0x80) + rest;
    }
  }

  lemma {:induction false} NumberSpelled(s: seq<byte>)
    requires ReadNumber(s).Ok?
    ensures s == EncVarint(ReadNumber(s).value) + ReadNumber(s).rest
  {
    if s[0] >= 128 {
      NumberSpelled(s[1..]);
      var n, low: nat := ReadNumber(s[1..]).value, s[0] - 128;
      assert (low + 128 * n) / 128 == n && (low + 128 * n) % 128 == low;
      assert s == [s[0]] + s[1..];
    } else {
      assert s == [s[0]] + s[1..];
    }
  }

  lemma SameDigit(a: nat, high: nat, b: nat, high': nat)
    requires a < 0x100 && b < 0x100 && a + 0x100 * high == b + 0x100 * high'
    ensures a == b && high == high'
  {
  }

  lemma SameDigits(a: nat, b: nat, c: nat, d: nat, a': nat, b': nat, c': nat, d': nat)
    requires a < 0x100 && b < 0x100 && c < 0x100 && a' < 0x100 && b' < 0x100 && c' < 0x100
    requires Digits(a, b, c, d) == Digits(a', b', c', d')
    ensures a == a' && b == b' && c == c' && d == d'
  {
    SameDigit(a, b + 0x100 * (c + 0x100 * d), a', b' + 0x100 * (c' + 0x100 * d'));
    SameDigit(b, c + 0x100 * d, b', c' + 0x100 * d');
    SameDigit(c, d, c', d');
  }

  lemma SameFour(s: seq<byte>, t: seq<byte>)
    requires |s| >= 4 && |t| >= 4 && FourBytesOf(s) == FourBytesOf(t)
    ensures s[..4] == t[..4]
  {
    SameDigits(s[0], s[1], s[2], s[3], t[0], t[1], t[2], t[3]);
  }

  lemma DigitsRange(a: nat, b: nat, c: nat, d: nat)
    requires a < 0x100 && b < 0x100 && c < 0x100 && d < 0x100
    ensures Digits(a, b, c, d) < 0x1_0000_0000
  {
  }

  lemma SameHalves(low: nat, high: nat, low': nat, high': nat)
    requires low < 0x1_0000_0000 && low' < 0x1_0000_0000
    requires low + 0x1_0000_0000 * high == low' + 0x1_0000_0000 * high'
    ensures low == low' && high == high'
  {
  }

  lemma SameEight(s: seq<byte>, t: seq<byte>)
    requires |s| >= 8 && |t| >= 8 && EightBytesOf(s) == EightBytesOf(t)
    ensures s[..8] == t[..8]
  {
    DigitsRange(s[0], s[1], s[2], s[3]);
    DigitsRange(t[0], t[1], t[2], t[3]);
    SameHalves(FourBytesOf(s), FourBytesOf(s[4..]), FourBytesOf(t), FourBytesOf(t[4..]));
    SameFour(s, t);
    SameFour(s[4..], t[4..]);
    assert s[..8] == s[..4] + s[4..][..4] && t[..8] == t[..4] + t[4..][..4];
  }

  lemma SameNumber(s: seq<byte>, t: seq<byte>)
    requires ReadNumber(s).Ok? && ReadNumber(s) == ReadNumber(t)
    ensures s == t
  {
    NumberSpelled(s);
    NumberSpelled(t);
  }

  /** The numbers of two streams agree, and so does what follows them. */
  lemma SameFront(s: seq<byte>, t: seq<byte>)
    requires ReadNumber(s).Ok? && ReadNumber(t).Ok?
    requires ReadNumber(s).value == ReadNumber(t).value && ReadNumber(s).rest == ReadNumber(t).rest
    ensures s == t
  {
    SameNumber(s, t);
  }

  function WireTypeOf(p: Payload): nat {
    match p { case Number(_) => 0 case EightBytes(_) => 1 case Block(_) => 2 case FourBytes(_) => 5 }
  }

  lemma WireTypeRead(wireType: nat, s: seq<byte>)
    requires ReadPayload(wireType, s).Ok?
    ensures WireTypeOf(ReadPayload(wireType, s).value) == wireType
  {
  }

  lemma SameBlock(s: seq<byte>, t: seq<byte>)
    requires ReadPayload(2, s).Ok? && ReadPayload(2, s) == ReadPayload(2, t)
    ensures s == t
  {
    var a, b := ReadNumber(s), ReadNumber(t);
    assert a.rest == a.rest[..a.value] + a.rest[a.value..];
    assert b.rest == b.rest[..b.value] + b.rest[b.value..];
    SameFront(s, t);
  }

  lemma SamePayload(wireType: nat, s: seq<byte>, t: seq<byte>)
    requires ReadPayload(wireType, s).Ok? && ReadPayload(wireType, s) == ReadPayload(wireType, t)
    ensures s == t
  {
    match wireType
    case 0 => SameFront(s, t);
    case 1 =>
      SameEight(s, t);
      assert s == s[..8] + s[8..] && t == t[..8] + t[8..];
    case 2 => SameBlock(s, t);
    case 5 =>
      SameFour(s, t);
      assert s == s[..4] + s[4..] && t == t[..4] + t[4..];
  }

  lemma SameRecord(s: seq<byte>, t: seq<byte>)
    requires ReadRecord(s).Ok? && ReadRecord(s) == ReadRecord(t)
    ensures s == t
  {
    var a, b := ReadNumber(s), ReadNumber(t);
    WireTypeRead(a.value % 8, a.rest);
    WireTypeRead(b.value % 8, b.rest);
    SamePayload(a.value % 8, a.rest, b.rest);
    SameFront(s, t);
  }

  /** Different bytes are different records. */
  lemma {:induction false} SameMessage(s: seq<byte>, t: seq<byte>)
    requires ReadMessage(s).Some? && ReadMessage(s) == ReadMessage(t)
    ensures s == t
    decreases |s|
  {
    if s != [] {
      var a, b := ReadRecord(s), ReadRecord(t);
      var more, more' := ReadMessage(a.rest).value, ReadMessage(b.rest).value;
      assert ReadMessage(s).value[0] == a.value && ReadMessage(t).value[0] == b.value;
      assert ReadMessage(s).value[1..] == more && ReadMessage(t).value[1..] == more';
      SameMessage(a.rest, b.rest);
      SameRecord(s, t);
    }
  }

  // ----- What follows a record does not matter to it

  lemma {:induction false} NumberExtend(s: seq<byte>, more: seq<byte>)
    requires ReadNumber(s).Ok?
    ensures ReadNumber(s + more) == Extend(ReadNumber(s), more)
  {
    assert (s + more)[0] == s[0] && (s + more)[1..] == s[1..] + more;
    if s[0] >= 128 {
      NumberExtend(s[1..], more);
    }
  }

  lemma PayloadExtend(wireType: nat, s: seq<byte>, more: seq<byte>)
    requires ReadPayload(wireType, s).Ok?
    ensures ReadPayload(wireType, s + more) == Extend(ReadPayload(wireType, s), more)
  {
    match wireType
    case 0 => NumberExtend(s, more);
    case 1 =>
      SplitConcat(s, more, 4);
      SplitConcat(s, more, 8);
    case 2 =>
      NumberExtend(s, more);
      SplitConcat(ReadNumber(s).rest, more, ReadNumber(s).value);
    case 5 => SplitConcat(s, more, 4);
  }

  lemma RecordExtend(s: seq<byte>, more: seq<byte>)
    requires ReadRecord(s).Ok?
    ensures ReadRecord(s + more) == Extend(ReadRecord(s), more)
  {
    NumberExtend(s, more);
    PayloadExtend(ReadNumber(s).value % 8, ReadNumber(s).rest, more);
  }

  /** A list of byte strings that are one record each. */
  predicate Reads(parts: seq<seq<byte>>, rs: seq<Record>) {
    |parts| == |rs| && forall j :: 0 <= j < |parts| ==> ReadRecord(parts[j]) == Ok(rs[j], [])
  }

  lemma {:induction false} MessageReads(parts: seq<seq<byte>>, rs: seq<Record>)
    requires Reads(parts, rs)
    ensures ReadMessage(Flatten(parts)) == Some(rs)
  {
    if parts != [] {
      MessageReads(parts[1..], rs[1..]);
      RecordExtend(parts[0], Flatten(parts[1..]));
      assert [] + Flatten(parts[1..]) == Flatten(parts[1..]);
      assert rs == [rs[0]] + rs[1..];
    }
  }
}
