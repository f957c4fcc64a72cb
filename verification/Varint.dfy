/** Base 128 varints, as pb_encode_varint, pb_decode_varint and pb_decode_varint32 treat them,
    and the ZigZag mapping of signed integers. */
module Varint {
  import opened Basics

  // ----- What a varint is

  /** The length of the varint at the front of s: it ends with the first byte below 0x80. */
  function VarintSpan(s: seq<byte>): (n: Option<nat>)
    ensures n.Some? ==> 1 <= n.value <= |s| && s[n.value - 1] < 0x80
    ensures n.Some? ==> forall i :: 0 <= i < n.value - 1 ==> s[i] >= 0x80
  {
    if s == [] then None
    else if s[0] < 0x80 then Some(1)
    else match VarintSpan(s[1..])
      case None => None
      case Some(n) => Some(n + 1)
  }

  /** The number spelled by the 7-bit groups of s, least significant group first. */
  function GroupSum(s: seq<byte>): nat {
    if s == [] then 0 else s[0] % 0x80 + 0x80 * GroupSum(s[1..])
  }

  function Pow128(n: nat): (p: nat)
    ensures p > 0
  {
    if n == 0 then 1 else 0x80 * Pow128(n - 1)
  }

  // ----- Encoding

  /** The bytes that pb_encode_varint produces. */
  function EncVarint(v: nat): (s: seq<byte>)
    ensures |s| >= 1
  {
    if v < 0x80 then [v] else [0x80 + v % 0x80] + EncVarint(v / 0x80)
  }

  lemma {:induction false} EncVarintSpan(v: nat, rest: seq<byte>)
    ensures VarintSpan(EncVarint(v) + rest) == Some(|EncVarint(v)|)
  {
    if v >= 0x80 {
      EncVarintSpan(v / 0x80, rest);
      assert (EncVarint(v) + rest)[1..] == EncVarint(v / 0x80) + rest;
    }
  }

  lemma {:induction false} EncVarintSum(v: nat)
    ensures GroupSum(EncVarint(v)) == v
  {
    if v >= 0x80 {
      EncVarintSum(v / 0x80);
      assert EncVarint(v)[1..] == EncVarint(v / 0x80);
    } else {
      assert EncVarint(v)[1..] == [];
    }
  }

  lemma {:induction false} EncVarintLength(v: nat, n: nat)
    requires n >= 1 && v < Pow128(n)
    ensures |EncVarint(v)| <= n
  {
    if v >= 0x80 {
      EncVarintLength(v / 0x80, n - 1);
    }
  }

  lemma Pow128Values()
    ensures Pow128(8) == 0x100_0000_0000_0000 && Pow128(9) == TWO_63 && Pow128(10) == 0x80 * TWO_63
  {
    assert Pow128(3) == 0x20_0000;
    assert Pow128(6) == 0x400_0000_0000;
  }

  lemma EncVarintLength64(v: nat)
    requires v < TWO_64
    ensures |EncVarint(v)| <= 10
  {
    Pow128Values();
    EncVarintLength(v, 10);
  }

  lemma {:induction false} EncVarintLonger(v: nat, n: nat)
    requires v >= Pow128(n)
    ensures |EncVarint(v)| > n
  {
    if n > 0 {
      EncVarintLonger(v / 0x80, n - 1);
    }
  }

  lemma TakesTen(v: nat)
    requires TWO_63 <= v < TWO_64
    ensures |EncVarint(v)| == 10
  {
    Pow128Values();
    EncVarintLonger(v, 9);
    EncVarintLength64(v);
  }

  lemma {:induction false} GroupSumRange(s: seq<byte>)
    ensures GroupSum(s) < Pow128(|s|)
  {
    if s != [] {
      GroupSumRange(s[1..]);
    }
  }

  // ----- Reading 64 bits

  /** pb_decode_varint: at most ten bytes, and the groups' sum modulo 2^64. */
  function ReadVarint64(s: seq<byte>): Read<nat> {
    match VarintSpan(s)
    case None => Fail
    case Some(n) => if n > 10 then Fail else Ok(GroupSum(s[..n]) % TWO_64, s[n..])
  }

  lemma {:induction false} SpanExtend(s: seq<byte>, more: seq<byte>)
    requires VarintSpan(s).Some?
    ensures VarintSpan(s + more) == VarintSpan(s)
  {
    if s[0] >= 0x80 {
      SpanExtend(s[1..], more);
      assert (s + more)[1..] == s[1..] + more;
    }
  }

  lemma {:induction false} NoVarint(s: seq<byte>)
    requires forall j :: 0 <= j < |s| ==> s[j] >= 0x80
    ensures VarintSpan(s).None?
  {
    if s != [] {
      NoVarint(s[1..]);
    }
  }

  lemma {:induction false} SpanIs(s: seq<byte>, n: nat)
    requires 1 <= n <= |s| && s[n - 1] < 0x80
    requires forall j :: 0 <= j < n - 1 ==> s[j] >= 0x80
    ensures VarintSpan(s) == Some(n)
  {
    if n > 1 {
      SpanIs(s[1..], n - 1);
    }
  }

  lemma PowerTimes(g: nat, p: nat)
    ensures 0x80 * (g * p) == g * (0x80 * p)
  {
  }

  lemma Pow2Step(k: nat)
    ensures Pow2(k + 7) == 0x80 * Pow2(k)
  {
    assert Pow2(k + 2) == 4 * Pow2(k);
    assert Pow2(k + 4) == 4 * Pow2(k + 2);
    assert Pow2(k + 6) == 4 * Pow2(k + 4);
  }

  lemma {:induction false} GroupSumAppend(s: seq<byte>, n: nat)
    requires n < |s|
    ensures GroupSum(s[..n + 1]) == GroupSum(s[..n]) + s[n] % 0x80 * Pow2(7 * n)
    decreases n
  {
    if n == 0 {
      assert s[..1][1..] == [];
    } else {
      GroupSumAppend(s[1..], n - 1);
      assert s[..n + 1][1..] == s[1..][..n] && s[..n][1..] == s[1..][..n - 1];
      Pow2Step(7 * n - 7);
      PowerTimes(s[n] % 0x80, Pow2(7 * n - 7));
    }
  }

  lemma ModUnique64(a: nat, k: nat, r: nat)
    requires a == TWO_64 * k + r && r < TWO_64
    ensures a % TWO_64 == r
  {
  }

  lemma ProductBelow(g: nat, p: nat)
    requires g < 0x80
    ensures g * p + p <= 0x80 * p
  {
  }

  lemma LowGroup64(sum: nat, g: nat, bitpos: nat)
    requires sum < Pow2(bitpos) <= 0x100_0000_0000_0000 && g < 0x80
    ensures BitOr(sum, g * Pow2(bitpos) % TWO_64) == (sum + g * Pow2(bitpos)) % TWO_64
  {
    ProductBelow(g, Pow2(bitpos));
    BitOrDisjoint(sum, bitpos, g);
    ModUnique64(g * Pow2(bitpos), 0, g * Pow2(bitpos));
    ModUnique64(sum + g * Pow2(bitpos), 0, sum + g * Pow2(bitpos));
  }

  lemma {:induction false} GroupSumBelow(s: seq<byte>, n: nat)
    requires n <= |s|
    ensures GroupSum(s[..n]) < Pow2(7 * n)
    decreases n
  {
    if n > 0 {
      GroupSumAppend(s, n - 1);
      GroupSumBelow(s, n - 1);
      Pow2Step(7 * (n - 1));
      ProductBelow(s[n - 1] % 0x80, Pow2(7 * (n - 1)));
    }
  }

  lemma {:induction false} Pow2Groups(n: nat)
    ensures Pow2(7 * n) == Pow128(n)
  {
    if n > 0 {
      Pow2Groups(n - 1);
      Pow2Step(7 * (n - 1));
    }
  }

  lemma {:induction false} Pow128Monotone(m: nat, n: nat)
    requires m <= n
    ensures Pow128(m) <= Pow128(n)
    decreases n
  {
    if m < n {
      Pow128Monotone(m, n - 1);
    }
  }

  lemma Pow2Upto63(n: nat)
    requires n <= 9
    ensures n <= 8 ==> Pow2(7 * n) <= 0x100_0000_0000_0000
    ensures n == 9 ==> Pow2(7 * n) == TWO_63
  {
    Pow2Groups(n);
    Pow128Values();
    if n <= 8 {
      Pow128Monotone(n, 8);
    }
  }

  lemma LastGroupBits64(result: nat, g: nat)
    requires result < TWO_63
    ensures g * TWO_63 % TWO_64 == g % 2 * TWO_63
    ensures (result + g * TWO_63) % TWO_64 == result + g % 2 * TWO_63
  {
    ModUnique64(g * TWO_63, g / 2, g % 2 * TWO_63);
    ModUnique64(result + g * TWO_63, g / 2, result + g % 2 * TWO_63);
  }

  lemma LastGroup64(result: nat, g: nat)
    requires result < Pow2(63) && g < 0x80
    ensures BitOr(result, g * Pow2(63) % TWO_64) == (result + g * Pow2(63)) % TWO_64
  {
    Pow2Upto63(9);
    BitOrDisjoint(result, 63, g % 2);
    LastGroupBits64(result, g);
  }

  /** One turn of pb_decode_varint's loop: or-ing the next group in adds it, modulo 2^64. */
  lemma OrGroup64(s: seq<byte>, n: nat, result: nat)
    requires n < |s| && n <= 9 && result == GroupSum(s[..n]) % TWO_64
    ensures BitOr(result, s[n] % 0x80 * Pow2(7 * n) % TWO_64) == GroupSum(s[..n + 1]) % TWO_64
  {
    var g: nat := s[n] % 0x80;
    GroupSumAppend(s, n);
    GroupSumBelow(s, n);
    Pow2Upto63(n);
    var sum := GroupSum(s[..n]);
    ModUnique64(sum, 0, sum);
    if n == 9 {
      LastGroup64(sum, g);
    } else {
      LowGroup64(sum, g, 7 * n);
    }
  }

  /** The loop of pb_decode_varint has ended after n bytes. */
  lemma Varint64Ends(s: seq<byte>, n: nat, result: nat)
    requires 1 <= n <= 10 && n <= |s| && s[n - 1] < 0x80
    requires forall j :: 0 <= j < n - 1 ==> s[j] >= 0x80
    requires result == GroupSum(s[..n]) % TWO_64
    ensures ReadVarint64(s) == Ok(result, s[n..])
  {
    SpanIs(s, n);
  }

  lemma Varint64TooLong(s: seq<byte>)
    requires |s| >= 10 && forall j :: 0 <= j < 10 ==> s[j] >= 0x80
    ensures ReadVarint64(s).Fail?
  {
  }

  /** Every uint64 survives encoding and decoding, and decoding stops where encoding did. */
  lemma VarintRoundTrip(v: nat, rest: seq<byte>)
    requires v < TWO_64
    ensures 1 <= |EncVarint(v)| <= 10
    ensures ReadVarint64(EncVarint(v) + rest) == Ok(v, rest)
  {
    EncVarintLength64(v);
    EncVarintSpan(v, rest);
    EncVarintSum(v);
    ModUnique64(v, 0, v);
    var n := |EncVarint(v)|;
    assert (EncVarint(v) + rest)[..n] == EncVarint(v);
    assert (EncVarint(v) + rest)[n..] == rest;
  }

  /** No varint that decodes to v is shorter than the encoder's. */
  lemma VarintMinimal(s: seq<byte>)
    requires ReadVarint64(s).Ok?
    ensures |EncVarint(ReadVarint64(s).value)| <= |s| - |ReadVarint64(s).rest|
  {
    var n := VarintSpan(s).value;
    var sum := GroupSum(s[..n]);
    var v := ReadVarint64(s).value;
    if n <= 9 {
      GroupSumRange(s[..n]);
      Pow128Values();
      Pow128Monotone(n, 9);
      ModUnique64(sum, 0, sum);
      EncVarintLength(v, n);
    } else {
      EncVarintLength64(v);
    }
  }

  // ----- Reading 32 bits

  /** Room in the uint_fast8_t that holds the bit position of pb_decode_varint32_eof. */
  const FAST8_RANGE: nat := 256

  /** A byte that may follow the 32 value bits: padding, or sign extension of a negative int32. */
  predicate TailByteAllowed(b: byte, bitpos: nat, result: nat) {
    b % 0x80 == 0 || (result / TWO_31 != 0 && b == (if bitpos < 63 then 0xFF else 0x01))
  }

  /** The multi-byte loop of pb_decode_varint32_eof from its current bit position and result. */
  function Varint32Loop(s: seq<byte>, bitpos: nat, result: nat): Read<nat> {
    if s == [] then Fail
    else if bitpos >= 32 && !TailByteAllowed(s[0], bitpos, result) then Fail
    else
      var result' := if bitpos >= 32 then result
                     else BitOr(result, s[0] % 0x80 * Pow2(bitpos) % TWO_32);
      var bitpos' := (bitpos + 7) % FAST8_RANGE;
      if s[0] >= 0x80 then Varint32Loop(s[1..], bitpos', result')
      else if bitpos' == 35 && s[0] / 16 % 8 != 0 then Fail
      else Ok(result', s[1..])
  }

  /** pb_decode_varint32. */
  function ReadVarint32(s: seq<byte>): Read<nat> {
    if s == [] then Fail
    else if s[0] < 0x80 then Ok(s[0], s[1..])
    else Varint32Loop(s[1..], 7, s[0] % 0x80)
  }

  lemma {:induction false} Varint32LoopExtend(s: seq<byte>, bitpos: nat, result: nat, more: seq<byte>)
    requires VarintSpan(s).Some?
    ensures Varint32Loop(s + more, bitpos, result) == Extend(Varint32Loop(s, bitpos, result), more)
    decreases |s|
  {
    assert (s + more)[0] == s[0];
    assert (s + more)[1..] == s[1..] + more;
    if s[0] >= 0x80 {
      forall b: nat, r: nat
        ensures Varint32Loop(s[1..] + more, b, r) == Extend(Varint32Loop(s[1..], b, r), more)
      {
        Varint32LoopExtend(s[1..], b, r, more);
      }
    }
  }

  /** What follows a complete varint does not influence how the varint is read. */
  lemma ReadVarint32Extend(s: seq<byte>, more: seq<byte>)
    requires VarintSpan(s).Some?
    ensures ReadVarint32(s + more) == Extend(ReadVarint32(s), more)
  {
    assert (s + more)[0] == s[0];
    assert (s + more)[1..] == s[1..] + more;
    if s[0] >= 0x80 {
      Varint32LoopExtend(s[1..], 7, s[0] % 0x80, more);
    }
  }

  lemma ReadVarint64Extend(s: seq<byte>, more: seq<byte>)
    requires VarintSpan(s).Some?
    ensures ReadVarint64(s + more) == Extend(ReadVarint64(s), more)
  {
    SpanExtend(s, more);
    SplitConcat(s, more, VarintSpan(s).value);
  }

  lemma {:induction false} Varint32LoopSpan(s: seq<byte>, bitpos: nat, result: nat)
    requires Varint32Loop(s, bitpos, result).Ok?
    ensures VarintSpan(s).Some?
    ensures Varint32Loop(s, bitpos, result).rest == s[VarintSpan(s).value..]
    decreases |s|
  {
    if s[0] >= 0x80 {
      var result' := if bitpos >= 32 then result else BitOr(result, s[0] % 0x80 * Pow2(bitpos) % TWO_32);
      Varint32LoopSpan(s[1..], (bitpos + 7) % FAST8_RANGE, result');
    }
  }

  /** The 32-bit reader consumes exactly the varint. */
  lemma ReadVarint32Span(s: seq<byte>)
    requires ReadVarint32(s).Ok?
    ensures VarintSpan(s).Some?
    ensures ReadVarint32(s).rest == s[VarintSpan(s).value..]
  {
    if s[0] >= 0x80 {
      Varint32LoopSpan(s[1..], 7, s[0] % 0x80);
    }
  }

  // ----- 32 against 64 bits

  /** Past the 32 value bits the loop only checks; it no longer changes the result. */
  lemma {:induction false} Varint32Tail(s: seq<byte>, bitpos: nat, result: nat)
    requires 32 <= bitpos
    requires Varint32Loop(s, bitpos, result).Ok?
    requires VarintSpan(s).Some? && bitpos + 7 * (VarintSpan(s).value - 1) < FAST8_RANGE
    ensures Varint32Loop(s, bitpos, result).value == result
    decreases |s|
  {
    if s[0] >= 0x80 {
      assert (bitpos + 7) % FAST8_RANGE == bitpos + 7;
      assert Varint32Loop(s, bitpos, result) == Varint32Loop(s[1..], bitpos + 7, result);
      Varint32Tail(s[1..], bitpos + 7, result);
    }
  }

  lemma Pow2Values()
    ensures Pow2(7) == 0x80 && Pow2(14) == 0x4000 && Pow2(21) == 0x20_0000 && Pow2(28) == 0x1000_0000
  {
    assert Pow2(4) == 16;
    assert Pow2(7) == 0x80;
    assert Pow2(11) == 0x800;
    assert Pow2(14) == 0x4000;
    assert Pow2(18) == 0x4_0000;
    assert Pow2(21) == 0x20_0000;
    assert Pow2(25) == 0x200_0000;
  }

  lemma ModUnique(a: nat, k: nat, r: nat)
    requires a == TWO_32 * k + r && r < TWO_32
    ensures a % TWO_32 == r
  {
  }

  /** Or-ing the next group in, at each of the four positions below bit 32. */
  lemma OrGroup(result: nat, group: nat, bitpos: nat, weight: nat)
    requires weight == Pow2(bitpos) && weight <= 0x20_0000
    requires result < weight && group < 0x80
    ensures BitOr(result, group * Pow2(bitpos) % TWO_32) == result + group * weight
  {
    ProductBelow(group, weight);
    BitOrDisjoint(result, bitpos, group);
    ModUnique(group * weight, 0, group * weight);
  }

  lemma LastGroupBits(result: nat, group: nat)
    requires result < 0x1000_0000
    ensures group * 0x1000_0000 % TWO_32 == group % 16 * 0x1000_0000
    ensures result + group % 16 * 0x1000_0000 == (result + group * 0x1000_0000) % TWO_32
  {
    ModUnique(group * 0x1000_0000, group / 16, group % 16 * 0x1000_0000);
    ModUnique(result + group * 0x1000_0000, group / 16, result + group % 16 * 0x1000_0000);
  }

  lemma OrLastGroup(result: nat, group: nat, bitpos: nat)
    requires bitpos == 28 && result < 0x1000_0000 && group < 0x80
    ensures BitOr(result, group * Pow2(bitpos) % TWO_32) == (result + group * 0x1000_0000) % TWO_32
  {
    Pow2Values();
    LastGroupBits(result, group);
    BitOrDisjoint(result, bitpos, group % 16);
  }

  lemma GroupSumFirst(s: seq<byte>, n: nat)
    requires 1 <= n <= |s|
    ensures GroupSum(s[..n]) == s[0] % 0x80 + 0x80 * GroupSum(s[1..][..n - 1])
  {
    assert s[..n][1..] == s[1..][..n - 1];
  }

  /** The number of bytes the 32-bit loop can read before its bit position wraps. */
  predicate SpanFits(s: seq<byte>, bitpos: nat) {
    VarintSpan(s).Some? && bitpos + 7 * (VarintSpan(s).value - 1) < FAST8_RANGE
  }

  lemma LastGroupSum(result: nat, group: nat, more: nat)
    ensures (result + 0x1000_0000 * (group + 0x80 * more)) % TWO_32 == (result + group * 0x1000_0000) % TWO_32
  {
    var a := result + group * 0x1000_0000;
    ModUnique(a + TWO_32 * (8 * more), a / TWO_32 + 8 * more, a % TWO_32);
  }

  lemma LoopStep28(s: seq<byte>, bitpos: nat, result: nat)
    requires bitpos == 28 && result < 0x1000_0000 && s != []
    ensures var group: nat := s[0] % 0x80;
            var result' := (result + group * 0x1000_0000) % TWO_32;
            && (s[0] >= 0x80 ==> Varint32Loop(s, bitpos, result) == Varint32Loop(s[1..], bitpos + 7, result'))
            && (s[0] < 0x80 && Varint32Loop(s, bitpos, result).Ok? ==>
                  Varint32Loop(s, bitpos, result) == Ok(result', s[1..]))
  {
    var group: nat := s[0] % 0x80;
    OrLastGroup(result, group, bitpos);
  }

  lemma SumStep(s: seq<byte>)
    requires VarintSpan(s).Some?
    ensures GroupSum(s[..VarintSpan(s).value])
            == s[0] % 0x80 + 0x80 * (if s[0] >= 0x80 then GroupSum(s[1..][..VarintSpan(s[1..]).value]) else 0)
  {
    GroupSumFirst(s, VarintSpan(s).value);
  }

  lemma LoopAt28(s: seq<byte>, result: nat)
    requires result < 0x1000_0000 && SpanFits(s, 28) && Varint32Loop(s, 28, result).Ok?
    ensures Varint32Loop(s, 28, result).value
            == (result + 0x1000_0000 * GroupSum(s[..VarintSpan(s).value])) % TWO_32
  {
    var group: nat := s[0] % 0x80;
    LoopStep28(s, 28, result);
    SumStep(s);
    if s[0] >= 0x80 {
      Varint32Tail(s[1..], 35, (result + group * 0x1000_0000) % TWO_32);
      LastGroupSum(result, group, GroupSum(s[1..][..VarintSpan(s[1..]).value]));
    }
  }

  /** One turn of the loop at a position below 28. */
  lemma LoopStep(s: seq<byte>, bitpos: nat, weight: nat, result: nat)
    requires bitpos == 7 || bitpos == 14 || bitpos == 21
    requires weight == if bitpos == 7 then 0x80 else if bitpos == 14 then 0x4000 else 0x20_0000
    requires result < weight && s != []
    ensures var group: nat := s[0] % 0x80;
            var result' := result + group * weight;
            Varint32Loop(s, bitpos, result)
            == if s[0] >= 0x80 then Varint32Loop(s[1..], bitpos + 7, result') else Ok(result', s[1..])
  {
    Pow2Values();
    OrGroup(result, s[0] % 0x80, bitpos, weight);
  }

  lemma LoopAt21(s: seq<byte>, result: nat)
    requires result < 0x20_0000 && SpanFits(s, 21) && Varint32Loop(s, 21, result).Ok?
    ensures Varint32Loop(s, 21, result).value
            == (result + 0x20_0000 * GroupSum(s[..VarintSpan(s).value])) % TWO_32
  {
    var group: nat := s[0] % 0x80;
    LoopStep(s, 21, 0x20_0000, result);
    SumStep(s);
    if s[0] >= 0x80 {
      LoopAt28(s[1..], result + group * 0x20_0000);
    }
  }

  lemma LoopAt14(s: seq<byte>, result: nat)
    requires result < 0x4000 && SpanFits(s, 14) && Varint32Loop(s, 14, result).Ok?
    ensures Varint32Loop(s, 14, result).value
            == (result + 0x4000 * GroupSum(s[..VarintSpan(s).value])) % TWO_32
  {
    var group: nat := s[0] % 0x80;
    LoopStep(s, 14, 0x4000, result);
    SumStep(s);
    if s[0] >= 0x80 {
      LoopAt21(s[1..], result + group * 0x4000);
    }
  }

  lemma LoopAt7(s: seq<byte>, result: nat)
    requires result < 0x80 && SpanFits(s, 7) && Varint32Loop(s, 7, result).Ok?
    ensures Varint32Loop(s, 7, result).value
            == (result + 0x80 * GroupSum(s[..VarintSpan(s).value])) % TWO_32
  {
    var group: nat := s[0] % 0x80;
    LoopStep(s, 7, 0x80, result);
    SumStep(s);
    if s[0] >= 0x80 {
      LoopAt14(s[1..], result + group * 0x80);
    }
  }

  /** The value of an accepted varint whose length keeps the bit position from wrapping: at most
      37 bytes. */
  lemma ReadVarint32Value(s: seq<byte>)
    requires ReadVarint32(s).Ok?
    requires VarintSpan(s).Some? && VarintSpan(s).value <= 37
    ensures ReadVarint32(s).value == GroupSum(s[..VarintSpan(s).value]) % TWO_32
  {
    SumStep(s);
    if s[0] >= 0x80 {
      LoopAt7(s[1..], s[0] % 0x80);
    }
  }

  function Padding(n: nat): (s: seq<byte>)
    ensures |s| == n && forall k :: 0 <= k < n ==> s[k] == 0x80
  {
    seq(n, _ => 0x80)
  }

  lemma PaddingFirst(n: nat, t: seq<byte>)
    requires n > 0
    ensures (Padding(n) + t)[0] == 0x80 && (Padding(n) + t)[1..] == Padding(n - 1) + t
  {
  }

  lemma ZeroGroup(b: byte, weight: nat)
    requires b == 0x80
    ensures b % 0x80 * weight % TWO_32 == 0
  {
    var group: nat := b % 0x80;
    assert group == 0 && group * weight == 0;
  }

  /** A zero group that is not the last moves the bit position only. */
  lemma ZeroGroupTurn(s: seq<byte>, bitpos: nat, result: nat)
    requires s != [] && s[0] == 0x80
    ensures Varint32Loop(s, bitpos, result) == Varint32Loop(s[1..], (bitpos + 7) % FAST8_RANGE, result)
  {
    ZeroGroup(s[0], Pow2(bitpos));
    assert BitOr(result, 0) == result;
  }

  lemma PaddingTurn(n: nat, bitpos: nat, result: nat, t: seq<byte>)
    requires n > 0
    ensures Varint32Loop(Padding(n) + t, bitpos, result)
            == Varint32Loop(Padding(n - 1) + t, (bitpos + 7) % FAST8_RANGE, result)
  {
    PaddingFirst(n, t);
    ZeroGroupTurn(Padding(n) + t, bitpos, result);
  }

  /** The number of bytes behind which the bit position has wrapped, and what it is then. */
  const WRAP_LENGTH: nat := 37
  const WRAPPED: nat := 3

  lemma WrapAdd(a: nat, b: nat)
    ensures (a % FAST8_RANGE + b) % FAST8_RANGE == (a + b) % FAST8_RANGE
  {
  }

  /** The loop over padding bytes moves the bit position only, which may wrap. */
  lemma {:induction false} PaddingLoop(n: nat, bitpos: nat, end: nat, result: nat, t: seq<byte>)
    requires bitpos + 7 * n == end
    ensures Varint32Loop(Padding(n) + t, bitpos % FAST8_RANGE, result) == Varint32Loop(t, end % FAST8_RANGE, result)
    decreases n
  {
    if n == 0 {
      assert Padding(n) + t == t;
    } else {
      PaddingLoop(n - 1, bitpos + 7, end, result, t);
      WrapAdd(bitpos, 7);
      PaddingTurn(n, bitpos % FAST8_RANGE, result, t);
    }
  }

  lemma FactorOut(p: nat, g: nat)
    ensures 0x80 * (p * g) == (0x80 * p) * g
  {
  }

  lemma PaddingSpan(n: nat, t: seq<byte>)
    requires VarintSpan(t).Some?
    ensures VarintSpan(Padding(n) + t) == Some(n + VarintSpan(t).value)
  {
    SpanIs(Padding(n) + t, n + VarintSpan(t).value);
  }

  lemma ZeroGroupSum(s: seq<byte>)
    requires s != [] && s[0] == 0x80
    ensures GroupSum(s) == 0x80 * GroupSum(s[1..])
  {
  }

  /** Padding in front of a varint moves its groups up. */
  lemma {:induction false} PaddingShifts(n: nat, t: seq<byte>)
    ensures GroupSum(Padding(n) + t) == Pow128(n) * GroupSum(t)
  {
    if n == 0 {
      assert Padding(n) + t == t;
    } else {
      PaddingFirst(n, t);
      PaddingShifts(n - 1, t);
      ZeroGroupSum(Padding(n) + t);
      FactorOut(Pow128(n - 1), GroupSum(t));
    }
  }

  lemma {:induction false} HighGroups(n: nat)
    requires n >= 5
    ensures Pow128(n) % TWO_32 == 0
  {
    if n == 5 {
      assert Pow128(5) == 8 * TWO_32;
    } else {
      HighGroups(n - 1);
      ModUnique(Pow128(n), 0x80 * (Pow128(n - 1) / TWO_32), 0);
    }
  }

  lemma MultipleHides(q: nat, g: nat)
    ensures TWO_32 * q * g % TWO_32 == 0
  {
    assert TWO_32 * q * g == TWO_32 * (q * g);
    ModUnique(TWO_32 * (q * g), q * g, 0);
  }

  /** Groups that all lie above bit 31 do not show in 32 bits. */
  lemma PaddingHides(n: nat, t: seq<byte>)
    requires n >= 5
    ensures GroupSum(Padding(n) + t) % TWO_32 == 0
  {
    PaddingShifts(n, t);
    HighGroups(n);
    MultipleHides(Pow128(n) / TWO_32, GroupSum(t));
  }

  /** A varint of m + 1 groups, all of them zero. */
  function ZeroGroups(m: nat): (s: seq<byte>)
    ensures |s| == m + 1
  {
    Padding(m) + [0x00]
  }

  lemma {:induction false} ZeroGroupsAccepted(m: nat, bitpos: nat, result: nat)
    ensures Varint32Loop(ZeroGroups(m), bitpos, result) == Ok(result, [])
    ensures VarintSpan(ZeroGroups(m)) == Some(m + 1)
  {
    var s := ZeroGroups(m);
    if m == 0 {
      assert s == [0x00] && s[1..] == [];
      assert BitOr(result, 0) == result;
    } else {
      PaddingFirst(m, [0x00]);
      ZeroGroupTurn(s, bitpos, result);
      ZeroGroupsAccepted(m - 1, (bitpos + 7) % FAST8_RANGE, result);
    }
  }

  /** What the reader meets where its bit position has wrapped: a group of 1, and k bytes in all. */
  function WrappedTail(k: nat): (s: seq<byte>)
    requires k >= 1
    ensures |s| == k
  {
    if k == 1 then [0x01] else [0x81] + ZeroGroups(k - 2)
  }

  lemma WrappedTurn(s: seq<byte>, bitpos: nat)
    requires bitpos == WRAPPED && s != [] && s[0] % 0x80 == 1
    ensures Varint32Loop(s, bitpos, 0)
            == if s[0] >= 0x80 then Varint32Loop(s[1..], bitpos + 7, 8) else Ok(8, s[1..])
  {
    assert Pow2(WRAPPED) == 8;
    assert BitOr(0, 1 * Pow2(WRAPPED) % TWO_32) == 8;
  }

  lemma TailReadWrapped(k: nat, bitpos: nat)
    requires k >= 1 && bitpos == WRAPPED
    ensures Varint32Loop(WrappedTail(k), bitpos, 0) == Ok(8, [])
    ensures VarintSpan(WrappedTail(k)) == Some(k)
  {
    var s := WrappedTail(k);
    WrappedTurn(s, bitpos);
    if k >= 2 {
      ZeroGroupsAccepted(k - 2, bitpos + 7, 8);
      assert s[1..] == ZeroGroups(k - 2);
    } else {
      assert s[1..] == [];
    }
  }

  /** Behind m bytes of padding the loop stands at bit 7 * m, modulo the width of its counter. */
  lemma PaddedRead(m: nat, t: seq<byte>)
    requires m > 0
    ensures ReadVarint32(Padding(m) + t) == Varint32Loop(t, 7 * m % FAST8_RANGE, 0)
  {
    PaddingFirst(m, t);
    PaddingLoop(m - 1, 7, 7 * m, 0, t);
  }

  lemma PaddedWraps(m: nat, n: nat)
    requires m == WRAP_LENGTH && n > m
    ensures var s := Padding(m) + WrappedTail(n - m);
            && VarintSpan(s) == Some(n) && ReadVarint32(s) == Ok(8, [])
            && GroupSum(s[..n]) % TWO_32 == 0
  {
    var t := WrappedTail(n - m);
    PaddedRead(m, t);
    TailReadWrapped(n - m, 7 * m % FAST8_RANGE);
    PaddingSpan(m, t);
    PaddingHides(m, t);
    assert (Padding(m) + t)[..n] == Padding(m) + t;
  }

  /** The 38th byte meets a bit position that has wrapped: at every length from 38 bytes on there is
      a varint that means 2^259 and is read as 8. */
  lemma BitPositionWraps(n: nat)
    requires n > WRAP_LENGTH
    ensures var s := Padding(WRAP_LENGTH) + WrappedTail(n - WRAP_LENGTH);
            && VarintSpan(s) == Some(n) && ReadVarint32(s) == Ok(8, [])
            && GroupSum(s[..n]) % TWO_32 == 0
  {
    PaddedWraps(WRAP_LENGTH, n);
  }

  /** The 32-bit reader gives every varint of n bytes that it accepts its value. */
  ghost predicate RightAtLength(n: nat) {
    forall s :: VarintSpan(s) == Some(n) && ReadVarint32(s).Ok? ==> ReadVarint32(s).value == GroupSum(s[..n]) % TWO_32
  }

  /** It does so exactly up to 37 bytes. */
  lemma WidthExactly(n: nat)
    requires n >= 1
    ensures RightAtLength(n) <==> n <= WRAP_LENGTH
  {
    if n <= WRAP_LENGTH {
      forall s | VarintSpan(s) == Some(n) && ReadVarint32(s).Ok?
        ensures ReadVarint32(s).value == GroupSum(s[..n]) % TWO_32
      {
        ReadVarint32Value(s);
      }
    } else {
      BitPositionWraps(n);
    }
  }

  lemma LowHalf(v: nat)
    ensures v % TWO_64 % TWO_32 == v % TWO_32
  {
    var low := v % TWO_64;
    ModUnique(v, v / TWO_64 * TWO_32 + low / TWO_32, low % TWO_32);
  }

  // ----- Which varints the 32-bit reader accepts

  /** Bytes from bit 35 on: padding, or the sign extension of a set sign bit. */
  predicate TailAllowed(tail: seq<byte>, bitpos: nat, signed: bool) {
    forall i :: 0 <= i < |tail| ==>
      tail[i] % 0x80 == 0 || (signed && tail[i] == (if bitpos + 7 * i < 63 then 0xFF else 0x01))
  }

  lemma TailAllowedFirst(tail: seq<byte>, bitpos: nat, signed: bool)
    requires tail != []
    ensures TailAllowed(tail, bitpos, signed) <==>
              && (tail[0] % 0x80 == 0 || (signed && tail[0] == (if bitpos < 63 then 0xFF else 0x01)))
              && TailAllowed(tail[1..], bitpos + 7, signed)
  {
    assert forall i :: 0 < i < |tail| ==> tail[i] == tail[1..][i - 1] && bitpos + 7 + 7 * (i - 1) == bitpos + 7 * i;
  }

  lemma TailTurn(s: seq<byte>, bitpos: nat, result: nat)
    requires 35 <= bitpos < FAST8_RANGE && s != []
    ensures var allowed := TailByteAllowed(s[0], bitpos, result);
            if s[0] < 0x80 then Varint32Loop(s, bitpos, result).Ok? == allowed
            else if bitpos + 7 < FAST8_RANGE then
              Varint32Loop(s, bitpos, result) == if allowed then Varint32Loop(s[1..], bitpos + 7, result) else Fail
            else true
  {
    if bitpos + 7 < FAST8_RANGE {
      assert (bitpos + 7) % FAST8_RANGE == bitpos + 7;
    } else {
      assert (bitpos + 7) % FAST8_RANGE == bitpos + 7 - FAST8_RANGE;
    }
  }

  lemma {:induction false} TailExactly(s: seq<byte>, bitpos: nat, result: nat)
    requires bitpos >= 35 && SpanFits(s, bitpos)
    ensures Varint32Loop(s, bitpos, result).Ok?
            <==> TailAllowed(s[..VarintSpan(s).value], bitpos, result / TWO_31 != 0)
    decreases |s|
  {
    var n, signed := VarintSpan(s).value, result / TWO_31 != 0;
    TailAllowedFirst(s[..n], bitpos, signed);
    TailTurn(s, bitpos, result);
    if s[0] >= 0x80 {
      TailExactly(s[1..], bitpos + 7, result);
      assert s[..n][1..] == s[1..][..n - 1];
    } else {
      assert s[..n][1..] == [];
    }
  }

  /** The overflow check for a fifth byte that is the last one. */
  lemma LastAt28(s: seq<byte>, bitpos: nat, result: nat)
    requires bitpos == 28 && s != [] && s[0] < 0x80
    ensures Varint32Loop(s, bitpos, result).Ok? <==> s[0] < 0x10
  {
    var b: nat := s[0];
    assert b / 16 % 8 == b / 16;
  }

  /** The turn of the loop for byte i, below bit 28. */
  lemma EarlyTurn(s: seq<byte>, i: nat, weight: nat, result: nat)
    requires 1 <= i <= 3 && i < |s| && s[i] >= 0x80
    requires weight == (if i == 1 then 0x80 else if i == 2 then 0x4000 else 0x20_0000) && result < weight
    ensures var group: nat := s[i] % 0x80;
            && result + group * weight < 0x80 * weight
            && Varint32Loop(s[i..], 7 * i, result) == Varint32Loop(s[i + 1..], 7 * (i + 1), result + group * weight)
  {
    LoopStep(s[i..], 7 * i, weight, result);
    assert s[i..][1..] == s[i + 1..];
  }

  /** The first four bytes are always accepted. */
  lemma FirstFour(s: seq<byte>) returns (result: nat)
    requires |s| >= 5 && forall i :: 0 <= i < 4 ==> s[i] >= 0x80
    ensures result < 0x1000_0000 && ReadVarint32(s) == Varint32Loop(s[4..], 28, result)
  {
    var g1: nat, g2: nat, g3: nat := s[1] % 0x80, s[2] % 0x80, s[3] % 0x80;
    result := s[0] % 0x80;
    assert ReadVarint32(s) == Varint32Loop(s[1..], 7, result);
    EarlyTurn(s, 1, 0x80, result);
    result := result + g1 * 0x80;
    EarlyTurn(s, 2, 0x4000, result);
    result := result + g2 * 0x4000;
    EarlyTurn(s, 3, 0x20_0000, result);
    result := result + g3 * 0x20_0000;
  }

  lemma UpToFour(s: seq<byte>)
    requires VarintSpan(s).Some? && VarintSpan(s).value <= 4
    ensures ReadVarint32(s).Ok?
  {
    var n := VarintSpan(s).value;
    if n >= 2 {
      var g0: nat, g1: nat := s[0] % 0x80, s[1] % 0x80;
      LoopStep(s[1..], 7, 0x80, g0);
      if n >= 3 {
        var g2: nat := s[2] % 0x80;
        LoopStep(s[2..], 14, 0x4000, g0 + g1 * 0x80);
        assert s[1..][1..] == s[2..];
        if n >= 4 {
          LoopStep(s[3..], 21, 0x20_0000, g0 + g1 * 0x80 + g2 * 0x4000);
          assert s[2..][1..] == s[3..];
        }
      }
    }
  }

  lemma SignBitExactly(result: nat, group: nat)
    requires result < 0x1000_0000 && group < 0x80
    ensures (result + group * 0x1000_0000) % TWO_32 / TWO_31 != 0 <==> group % 16 >= 8
  {
    LastGroupBits(result, group);
  }

  /** What pb_decode_varint32 accepts of n bytes: up to four bytes anything, five bytes without
      overflow, and more when those behind the fifth are padding or sign extension. The excess bits
      of the fifth byte are then not looked at. */
  predicate Accepted32(s: seq<byte>) {
    |s| <= 4
    || (|s| == 5 && s[4] < 0x10)
    || (|s| >= 6 && TailAllowed(s[5..], 35, s[4] % 0x10 >= 8))
  }

  lemma SpanDrop(s: seq<byte>, k: nat, n: nat)
    requires VarintSpan(s) == Some(n) && k < n
    ensures VarintSpan(s[k..]) == Some(n - k)
  {
    SpanIs(s[k..], n - k);
  }

  lemma LowBits(b: nat)
    ensures b % 0x80 % 16 == b % 0x10
  {
  }

  lemma TurnAt28(t: seq<byte>, bitpos: nat, result: nat) returns (r: nat)
    requires bitpos == 28 && t != [] && t[0] >= 0x80 && result < 0x1000_0000
    ensures Varint32Loop(t, bitpos, result) == Varint32Loop(t[1..], bitpos + 7, r)
    ensures r / TWO_31 != 0 <==> t[0] % 0x10 >= 8
  {
    var group: nat := t[0] % 0x80;
    LoopStep28(t, bitpos, result);
    SignBitExactly(result, group);
    LowBits(t[0]);
    r := (result + group * 0x1000_0000) % TWO_32;
  }

  lemma BehindFive(s: seq<byte>, n: nat) returns (r: nat)
    requires VarintSpan(s) == Some(n) && 6 <= n
    ensures ReadVarint32(s) == Varint32Loop(s[5..], 35, r)
    ensures r / TWO_31 != 0 <==> s[4] % 0x10 >= 8
  {
    var result := FirstFour(s);
    r := TurnAt28(s[4..], 28, result);
    assert s[4..][1..] == s[5..];
  }

  lemma SixAndMore(s: seq<byte>, n: nat)
    requires VarintSpan(s) == Some(n) && 6 <= n <= WRAP_LENGTH
    ensures ReadVarint32(s).Ok? <==> TailAllowed(s[5..n], 35, s[4] % 0x10 >= 8)
  {
    var r := BehindFive(s, n);
    SpanDrop(s, 5, n);
    TailExactly(s[5..], 35, r);
    assert s[5..n] == s[5..][..n - 5];
  }

  lemma AcceptedExactly(s: seq<byte>)
    requires VarintSpan(s).Some? && VarintSpan(s).value <= WRAP_LENGTH
    ensures ReadVarint32(s).Ok? <==> Accepted32(s[..VarintSpan(s).value])
  {
    var n := VarintSpan(s).value;
    if n <= 4 {
      UpToFour(s);
    } else if n == 5 {
      var result := FirstFour(s);
      LastAt28(s[4..], 28, result);
    } else {
      SixAndMore(s, n);
      assert s[..n][5..] == s[5..n];
    }
  }

  /** All that pb_decode_varint32 does with a varint of up to 37 bytes. */
  lemma ReadVarint32Exactly(s: seq<byte>)
    requires VarintSpan(s).Some? && VarintSpan(s).value <= WRAP_LENGTH
    ensures var n := VarintSpan(s).value;
            ReadVarint32(s) == if Accepted32(s[..n]) then Ok(GroupSum(s[..n]) % TWO_32, s[n..]) else Fail
  {
    AcceptedExactly(s);
    if ReadVarint32(s).Ok? {
      ReadVarint32Value(s);
      ReadVarint32Span(s);
    }
  }

  // ----- Which of them it reads without loss

  lemma {:induction false} GroupSumZero(s: seq<byte>)
    ensures GroupSum(s) == 0 <==> forall i :: 0 <= i < |s| ==> s[i] % 0x80 == 0
  {
    if s != [] {
      GroupSumZero(s[1..]);
      assert forall i :: 0 < i < |s| ==> s[i] == s[1..][i - 1];
    }
  }

  /** The groups spell a number below 2^32. */
  predicate Within32(s: seq<byte>) {
    |s| <= 4 || (s[4] % 0x80 < 0x10 && forall i :: 5 <= i < |s| ==> s[i] % 0x80 == 0)
  }

  lemma FourGroups(s: seq<byte>) returns (low: nat)
    requires |s| >= 4
    ensures low < 0x1000_0000 && GroupSum(s) == low + 0x1000_0000 * GroupSum(s[4..])
    ensures (forall i :: 0 <= i < 4 ==> s[i] % 0x80 == 0) ==> low == 0
  {
    assert s[1..][1..] == s[2..] && s[2..][1..] == s[3..] && s[3..][1..] == s[4..];
    var g0: nat, g1: nat, g2: nat, g3: nat := s[0] % 0x80, s[1] % 0x80, s[2] % 0x80, s[3] % 0x80;
    assert GroupSum(s[3..]) == g3 + 0x80 * GroupSum(s[4..]);
    assert GroupSum(s[2..]) == g2 + 0x80 * GroupSum(s[3..]);
    assert GroupSum(s[1..]) == g1 + 0x80 * GroupSum(s[2..]);
    low := g0 + 0x80 * (g1 + 0x80 * (g2 + 0x80 * g3));
  }

  lemma Within32Exactly(s: seq<byte>)
    ensures GroupSum(s) < TWO_32 <==> Within32(s)
  {
    if |s| <= 4 {
      GroupSumRange(s);
      Pow128Monotone(|s|, 4);
      assert Pow128(4) == 0x1000_0000 by { assert Pow128(2) == 0x4000; }
    } else {
      var low := FourGroups(s);
      GroupSumZero(s[5..]);
      assert s[4..][1..] == s[5..];
      assert GroupSum(s[4..]) == s[4] % 0x80 + 0x80 * GroupSum(s[5..]);
      assert forall i :: 5 <= i < |s| ==> s[i] == s[5..][i - 5];
      assert Within32(s) <==> s[4] % 0x80 < 0x10 && GroupSum(s[5..]) == 0 by {
        assert forall i :: 0 <= i < |s[5..]| ==> s[5..][i] == s[i + 5];
      }
    }
  }

  /** The 32-bit reader gives the number that was sent exactly when it accepts the varint and the
      number is below 2^32; others lose their upper bits, or are refused. */
  lemma SentExactly(s: seq<byte>)
    requires VarintSpan(s).Some? && VarintSpan(s).value <= WRAP_LENGTH
    ensures var bytes := s[..VarintSpan(s).value];
            ReadVarint32(s).Ok? && ReadVarint32(s).value == GroupSum(bytes) <==> Accepted32(bytes) && Within32(bytes)
  {
    var bytes := s[..VarintSpan(s).value];
    AcceptedExactly(s);
    Within32Exactly(bytes);
    if ReadVarint32(s).Ok? {
      ReadVarint32Value(s);
      if GroupSum(bytes) < TWO_32 {
        ModUnique(GroupSum(bytes), 0, GroupSum(bytes));
      }
    }
  }

  /** Whenever both readers accept a varint they consume the same bytes, and the 32-bit value is
      the low half of the 64-bit one. */
  lemma Varint32IsLowHalf(s: seq<byte>)
    requires ReadVarint32(s).Ok? && ReadVarint64(s).Ok?
    ensures ReadVarint32(s) == Ok(ReadVarint64(s).value % TWO_32, ReadVarint64(s).rest)
  {
    ReadVarint32Span(s);
    ReadVarint32Value(s);
    var sum := GroupSum(s[..VarintSpan(s).value]);
    LowHalf(sum);
  }

  // ----- What the 32-bit reader accepts from the encoder

  lemma EncVarintFirst(v: nat, high: nat, low: nat, rest: seq<byte>)
    requires v == 0x80 * high + low && low < 0x80 && high > 0
    ensures EncVarint(v) == [0x80 + low] + EncVarint(high)
    ensures (EncVarint(v) + rest)[0] == 0x80 + low && (0x80 + low) % 0x80 == low
    ensures (EncVarint(v) + rest)[1..] == EncVarint(high) + rest
  {
    assert v / 0x80 == high && v % 0x80 == low;
    assert [0x80 + low] + (EncVarint(high) + rest) == EncVarint(v) + rest;
  }

  /** The loop reads the rest of a small value: w is what remains above the current position. */
  lemma {:induction false} LoopAccepts(w: nat, bitpos: nat, result: nat, rest: seq<byte>)
    requires || (bitpos == 7 && w < 0x200_0000) || (bitpos == 14 && w < 0x4_0000)
             || (bitpos == 21 && w < 0x800) || (bitpos == 28 && w < 0x10)
    ensures Varint32Loop(EncVarint(w) + rest, bitpos, result).Ok?
    decreases 28 - bitpos
  {
    var s := EncVarint(w) + rest;
    if w >= 0x80 {
      assert s[1..] == EncVarint(w / 0x80) + rest;
      LoopAccepts(w / 0x80, bitpos + 7, BitOr(result, s[0] % 0x80 * Pow2(bitpos) % TWO_32), rest);
    }
  }

  lemma SmallAccepted(v: nat, rest: seq<byte>)
    requires v < TWO_32
    ensures ReadVarint32(EncVarint(v) + rest).Ok?
  {
    if v >= 0x80 {
      var high, low := v / 0x80, v % 0x80;
      EncVarintFirst(v, high, low, rest);
      LoopAccepts(high, 7, low, rest);
    }
  }

  /** pb_decode_varint32 reads back every value below 2^32. */
  lemma Varint32RoundTrip(v: nat, rest: seq<byte>)
    requires v < TWO_32
    ensures ReadVarint32(EncVarint(v) + rest) == Ok(v, rest)
  {
    VarintRoundTrip(v, rest);
    SmallAccepted(v, rest);
    Varint32IsLowHalf(EncVarint(v) + rest);
    ModUnique(v, 0, v);
  }

  /** The sign extension above bit 34 of a negative int32. */
  lemma SignBytes()
    ensures EncVarint(0x1FFF_FFFF) == [0xFF, 0xFF, 0xFF, 0xFF, 0x01]
  {
    assert EncVarint(1) == [0x01];
    assert EncVarint(0xFF) == [0xFF] + EncVarint(1);
    assert EncVarint(0x7FFF) == [0xFF] + EncVarint(0xFF);
    assert EncVarint(0x3F_FFFF) == [0xFF] + EncVarint(0x7FFF);
    assert EncVarint(0x1FFF_FFFF) == [0xFF] + EncVarint(0x3F_FFFF);
  }

  lemma SignTail(result: nat, rest: seq<byte>)
    requires result >= TWO_31
    ensures Varint32Loop(EncVarint(0x1FFF_FFFF) + rest, 35, result).Ok?
  {
    SignBytes();
    var s := EncVarint(0x1FFF_FFFF) + rest;
    assert result / TWO_31 != 0;
    assert s[1..][1..] == s[2..] && s[2..][1..] == s[3..] && s[3..][1..] == s[4..];
    assert Varint32Loop(s[4..], 63, result).Ok?;
    assert Varint32Loop(s[3..], 56, result).Ok?;
    assert Varint32Loop(s[2..], 49, result).Ok?;
    assert Varint32Loop(s[1..], 42, result).Ok?;
  }

  lemma SignBit(result: nat, group: nat)
    requires 0x78 <= group < 0x80 && result < 0x1000_0000
    ensures TWO_31 <= (result + group * 0x1000_0000) % TWO_32
  {
    ModUnique(result + group * 0x1000_0000, 7, result + (group - 0x70) * 0x1000_0000);
  }

  /** At bit 28 of a negative int32: the four low bits of the group belong to the value, and
      everything above is ones. */
  lemma SignAt28(group: nat, result: nat, rest: seq<byte>)
    requires 0x78 <= group < 0x80 && result < 0x1000_0000
    ensures Varint32Loop(EncVarint(0x80 * 0x1FFF_FFFF + group) + rest, 28, result).Ok?
  {
    EncVarintFirst(0x80 * 0x1FFF_FFFF + group, 0x1FFF_FFFF, group, rest);
    SignBit(result, group);
    SignTail((result + group * 0x1000_0000) % TWO_32, rest);
    LoopStep28(EncVarint(0x80 * 0x1FFF_FFFF + group) + rest, 28, result);
  }

  lemma SignStep(high: nat, low: nat, bitpos: nat, weight: nat, result: nat, rest: seq<byte>)
    requires bitpos == 7 || bitpos == 14 || bitpos == 21
    requires weight == if bitpos == 7 then 0x80 else if bitpos == 14 then 0x4000 else 0x20_0000
    requires result < weight && high > 0 && low < 0x80
    ensures Varint32Loop(EncVarint(0x80 * high + low) + rest, bitpos, result)
            == Varint32Loop(EncVarint(high) + rest, bitpos + 7, result + low * weight)
  {
    EncVarintFirst(0x80 * high + low, high, low, rest);
    LoopStep(EncVarint(0x80 * high + low) + rest, bitpos, weight, result);
  }

  /** A negative int32 as a 64-bit number, from bit 28, 21, 14 and 7 on. */
  function Sign28(g4: nat): nat { 0x80 * 0x1FFF_FFFF + g4 }
  function Sign21(g3: nat, g4: nat): nat { 0x80 * Sign28(g4) + g3 }
  function Sign14(g2: nat, g3: nat, g4: nat): nat { 0x80 * Sign21(g3, g4) + g2 }
  function Sign7(g1: nat, g2: nat, g3: nat, g4: nat): nat { 0x80 * Sign14(g2, g3, g4) + g1 }

  lemma SignAt21(g3: nat, g4: nat, result: nat, rest: seq<byte>)
    requires g3 < 0x80 && 0x78 <= g4 < 0x80 && result < 0x20_0000
    ensures Varint32Loop(EncVarint(Sign21(g3, g4)) + rest, 21, result).Ok?
  {
    SignStep(Sign28(g4), g3, 21, 0x20_0000, result, rest);
    SignAt28(g4, result + g3 * 0x20_0000, rest);
  }

  lemma SignAt14(g2: nat, g3: nat, g4: nat, result: nat, rest: seq<byte>)
    requires g2 < 0x80 && g3 < 0x80 && 0x78 <= g4 < 0x80 && result < 0x4000
    ensures Varint32Loop(EncVarint(Sign14(g2, g3, g4)) + rest, 14, result).Ok?
  {
    SignStep(Sign21(g3, g4), g2, 14, 0x4000, result, rest);
    SignAt21(g3, g4, result + g2 * 0x4000, rest);
  }

  lemma SignAccepted(g0: nat, g1: nat, g2: nat, g3: nat, g4: nat, rest: seq<byte>)
    requires g0 < 0x80 && g1 < 0x80 && g2 < 0x80 && g3 < 0x80 && 0x78 <= g4 < 0x80
    ensures ReadVarint32(EncVarint(0x80 * Sign7(g1, g2, g3, g4) + g0) + rest).Ok?
  {
    EncVarintFirst(0x80 * Sign7(g1, g2, g3, g4) + g0, Sign7(g1, g2, g3, g4), g0, rest);
    SignStep(Sign14(g2, g3, g4), g1, 7, 0x80, g0, rest);
    SignAt14(g2, g3, g4, g0 + g1 * 0x80, rest);
  }

  /** The five low groups of a negative int32 as a 64-bit number. */
  lemma NegativeGroups(k: nat) returns (g0: nat, g1: nat, g2: nat, g3: nat, g4: nat)
    requires 1 <= k <= TWO_31
    ensures g0 < 0x80 && g1 < 0x80 && g2 < 0x80 && g3 < 0x80 && 0x78 <= g4 < 0x80
    ensures TWO_64 - k == 0x80 * Sign7(g1, g2, g3, g4) + g0
  {
    var u0 := 0x8_0000_0000 - k;
    var u1 := u0 / 0x80;
    var u2 := u1 / 0x80;
    var u3 := u2 / 0x80;
    g0, g1, g2, g3, g4 := u0 % 0x80, u1 % 0x80, u2 % 0x80, u3 % 0x80, u3 / 0x80;
    assert u0 == 0x80 * u1 + g0 && u1 == 0x80 * u2 + g1 && u2 == 0x80 * u3 + g2 && u3 == 0x80 * g4 + g3;
  }

  /** pb_decode_varint32 accepts every negative int32 that was encoded as a 64-bit varint. */
  lemma Varint32AcceptsNegative(k: nat, rest: seq<byte>)
    requires 1 <= k <= TWO_31
    ensures ReadVarint32(EncVarint(TWO_64 - k) + rest) == Ok(TWO_32 - k, rest)
  {
    var g0, g1, g2, g3, g4 := NegativeGroups(k);
    SignAccepted(g0, g1, g2, g3, g4, rest);
    VarintRoundTrip(TWO_64 - k, rest);
    Varint32IsLowHalf(EncVarint(TWO_64 - k) + rest);
    ModUnique(TWO_64 - k, TWO_32 - 1, TWO_32 - k);
  }

  // ----- ZigZag

  /** pb_encode_svarint's mapping, in 64-bit arithmetic: shift left, and complement when negative. */
  function ZigZag(v: int): nat {
    var shifted := 2 * v % TWO_64;
    if v < 0 then TWO_64 - 1 - shifted else shifted
  }

  /** pb_decode_svarint's mapping. */
  function UnZigZag(u: nat): int {
    if u % 2 == 1 then ToSigned(8, TWO_64 - 1 - u / 2) else ToSigned(8, u / 2)
  }

  /** ZigZag is a bijection between int64 and uint64 that keeps small magnitudes small. */
  lemma ZigZagRoundTrip(v: int)
    requires FitsSigned(8, v)
    ensures ZigZag(v) == if v < 0 then -2 * v - 1 else 2 * v
    ensures ZigZag(v) < TWO_64 && UnZigZag(ZigZag(v)) == v
  {
    if v < 0 {
      assert 2 * v + TWO_64 == 2 * v % TWO_64;
    } else {
      assert 2 * v == 2 * v % TWO_64;
    }
  }

  lemma UnZigZagRoundTrip(u: nat)
    requires u < TWO_64
    ensures FitsSigned(8, UnZigZag(u)) && ZigZag(UnZigZag(u)) == u
  {
    assert UnZigZag(u) == if u % 2 == 1 then -1 - u / 2 else u / 2;
    ZigZagRoundTrip(UnZigZag(u));
  }
}
