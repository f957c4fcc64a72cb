/** Bytes, fixed-width integers and the result of reading from a byte stream. */
module Basics {

  type byte = x: nat | x < 256

  const TWO_31: nat := 0x8000_0000
  const TWO_32: nat := 0x1_0000_0000
  const TWO_63: nat := 0x8000_0000_0000_0000
  const TWO_64: nat := 0x1_0000_0000_0000_0000

  datatype Option<+T> = None | Some(value: T)

  /** The outcome of reading from the front of a stream: a value and the bytes
      that remain, or failure. */
  datatype Read<+T> = Fail | Ok(value: T, rest: seq<byte>)

  /** The same outcome when `more` bytes follow what the reader was given. */
  function Extend<T>(r: Read<T>, more: seq<byte>): Read<T> {
    match r
    case Fail => Fail
    case Ok(v, rest) => Ok(v, rest + more)
  }

  lemma SplitConcat<T>(a: seq<T>, b: seq<T>, n: nat)
    requires n <= |a|
    ensures (a + b)[..n] == a[..n] && (a + b)[n..] == a[n..] + b
  {
  }

  function Flatten(parts: seq<seq<byte>>): seq<byte> {
    if parts == [] then [] else parts[0] + Flatten(parts[1..])
  }

  lemma {:induction false} FlattenConcat(a: seq<seq<byte>>, b: seq<seq<byte>>)
    ensures Flatten(a + b) == Flatten(a) + Flatten(b)
  {
    if a == [] {
      assert a + b == b;
    } else {
      var c := a + b;
      assert c[0] == a[0] && c[1..] == a[1..] + b;
      FlattenConcat(a[1..], b);
      assert Flatten(c) == a[0] + (Flatten(a[1..]) + Flatten(b));
    }
  }

  function Zeros(n: nat): (s: seq<byte>)
    ensures |s| == n
  {
    seq(n, _ => 0)
  }

  function Pow2(n: nat): (p: nat)
    ensures p > 0
  {
    if n == 0 then 1 else 2 * Pow2(n - 1)
  }

  /** Bitwise or of two unsigned integers. */
  function BitOr(a: nat, b: nat): nat
    decreases a + b
  {
    if a == 0 then b
    else if b == 0 then a
    else 2 * BitOr(a / 2, b / 2) + (if a % 2 == 1 || b % 2 == 1 then 1 else 0)
  }

  /** Or-ing in bits above those in use is addition. */
  lemma {:induction false} BitOrDisjoint(a: nat, k: nat, b: nat)
    requires a < Pow2(k)
    ensures BitOr(a, b * Pow2(k)) == a + b * Pow2(k)
    decreases k
  {
    if k == 0 || a == 0 || b == 0 {
    } else {
      var high := b * Pow2(k);
      assert high == 2 * (b * Pow2(k - 1));
      assert high > 0;
      BitOrDisjoint(a / 2, k - 1, b);
    }
  }

  // ----- Fixed-width integers

  /** The number of values of an integer of `size` bytes, for the sizes that C integers have. */
  function Span256(size: nat): nat {
    if size == 1 then 0x100 else if size == 2 then 0x1_0000 else if size == 4 then TWO_32 else TWO_64
  }

  predicate IntegerSize(size: nat) {
    size == 1 || size == 2 || size == 4 || size == 8
  }

  function ToUnsigned(size: nat, v: int): nat {
    v % Span256(size)
  }

  /** The two's complement value of the low `size` bytes of v. */
  function ToSigned(size: nat, v: int): int {
    var u := ToUnsigned(size, v);
    if u < Span256(size) / 2 then u else u - Span256(size)
  }

  predicate FitsUnsigned(size: nat, v: int) {
    0 <= v < Span256(size)
  }

  predicate FitsSigned(size: nat, v: int) {
    -(Span256(size) / 2) <= v < Span256(size) / 2
  }

  /** A signed cast keeps exactly the values that the target type has. */
  lemma SignedCastKeeps(size: nat, v: int)
    requires IntegerSize(size)
    ensures FitsSigned(size, ToSigned(size, v))
    ensures ToSigned(size, v) == v <==> FitsSigned(size, v)
  {
  }

  lemma UnsignedCastKeeps(size: nat, v: int)
    ensures FitsUnsigned(size, ToUnsigned(size, v))
    ensures ToUnsigned(size, v) == v <==> FitsUnsigned(size, v)
  {
  }

  // ----- Little-endian fixed-width integers

  function LittleEndian(s: seq<byte>): (v: nat) {
    if s == [] then 0 else s[0] + 256 * LittleEndian(s[1..])
  }

  function ToLittleEndian(v: nat, n: nat): (s: seq<byte>)
    ensures |s| == n
  {
    if n == 0 then [] else [v % 256] + ToLittleEndian(v / 256, n - 1)
  }

  function Pow256(n: nat): (p: nat)
    ensures p > 0
  {
    if n == 0 then 1 else 256 * Pow256(n - 1)
  }

  lemma {:induction false} LittleEndianRoundTrip(v: nat, n: nat)
    requires v < Pow256(n)
    ensures LittleEndian(ToLittleEndian(v, n)) == v
  {
    if n != 0 {
      LittleEndianRoundTrip(v / 256, n - 1);
      var s := ToLittleEndian(v, n);
      assert s[1..] == ToLittleEndian(v / 256, n - 1);
    }
  }

  lemma {:induction false} LittleEndianRange(s: seq<byte>)
    ensures LittleEndian(s) < Pow256(|s|)
  {
    if s != [] {
      LittleEndianRange(s[1..]);
    }
  }

  /** The bytes of the memory in which an item holds a number. */
  function NumberBytes(size: nat, n: int): (s: seq<byte>)
    ensures |s| == size
  {
    ToLittleEndian(n % Pow256(size), size)
  }

  predicate ZeroBytes(s: seq<byte>) {
    forall k :: 0 <= k < |s| ==> s[k] == 0
  }

  lemma {:induction false} ZeroBytesOf(v: nat, n: nat)
    requires v < Pow256(n)
    ensures ZeroBytes(ToLittleEndian(v, n)) <==> v == 0
  {
    if n > 0 {
      var s := ToLittleEndian(v, n);
      ZeroBytesOf(v / 256, n - 1);
      assert s[1..] == ToLittleEndian(v / 256, n - 1);
      assert ZeroBytes(s) <==> s[0] == 0 && ZeroBytes(s[1..]) by {
        assert forall k :: 0 < k < |s| ==> s[k] == s[1..][k - 1];
      }
    }
  }

  lemma Pow256Sizes(size: nat)
    requires IntegerSize(size)
    ensures Pow256(size) == Span256(size)
  {
    assert Pow256(2) == 0x1_0000;
    assert Pow256(4) == TWO_32;
    assert Pow256(6) == 0x1_0000_0000_0000;
    assert Pow256(8) == TWO_64;
  }

  lemma MultipleIsLarge(q: int, p: int)
    requires p > 0
    ensures q >= 1 ==> q * p >= p
    ensures q <= -1 ==> q * p <= -p
  {
  }

  lemma ZeroRemainder(p: int, n: int)
    requires p > 0 && -p < n < p
    ensures n % p == 0 <==> n == 0
  {
    var q := n / p;
    assert n == q * p + n % p;
    MultipleIsLarge(q, p);
  }

  /** The bytes of a number that fits its memory are zero exactly when the number is. */
  lemma ZeroBytesExactly(size: nat, n: int)
    requires IntegerSize(size) && (FitsSigned(size, n) || FitsUnsigned(size, n))
    ensures ZeroBytes(NumberBytes(size, n)) <==> n == 0
  {
    Pow256Sizes(size);
    var v: nat := n % Pow256(size);
    ZeroBytesOf(v, size);
    ZeroRemainder(Span256(size), n);
  }
}
