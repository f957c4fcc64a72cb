/** Required fields: the bitmap that pb_decode_noinit keeps, and what its final check means. */
module Required {
  import opened Basics
  import opened Varint
  import opened Descriptor
  import opened Leaf
  import opened DecodeSpec
  import opened Records

  // ----- The words of the bitmap

  const ALL_BITS: nat := 0xFFFF_FFFF

  /** The number whose bit k says whether `base + k` has been seen, for k below n. */
  function SeenWord(seen: set<nat>, base: nat, n: nat): nat
    decreases n, seen, base
  {
    if n == 0 then 0 else (if base in seen then 1 else 0) + 2 * SeenWord(seen, base + 1, n - 1)
  }

  lemma {:induction false} SeenWordRange(seen: set<nat>, base: nat, n: nat)
    ensures SeenWord(seen, base, n) < Pow2(n)
    decreases n
  {
    if n > 0 {
      SeenWordRange(seen, base + 1, n - 1);
    }
  }

  lemma {:induction false} SeenWordUnchanged(seen: set<nat>, more: set<nat>, base: nat, n: nat)
    requires forall k :: base <= k < base + n ==> (k in seen <==> k in more)
    ensures SeenWord(seen, base, n) == SeenWord(more, base, n)
    decreases n
  {
    if n > 0 {
      SeenWordUnchanged(seen, more, base + 1, n - 1);
    }
  }

  /** Or-ing bit k into the word records that `base + k` has been seen. */
  lemma {:induction false} SetBit(seen: set<nat>, base: nat, n: nat, k: nat)
    requires k < n
    ensures BitOr(SeenWord(seen, base, n), Pow2(k)) == SeenWord(seen + {base + k}, base, n)
    decreases n
  {
    var w := SeenWord(seen, base, n);
    var high := SeenWord(seen, base + 1, n - 1);
    assert w / 2 == high && w % 2 == if base in seen then 1 else 0;
    if k == 0 {
      SeenWordUnchanged(seen, seen + {base}, base + 1, n - 1);
      assert BitOr(w, 1) == 2 * high + 1;
    } else {
      SetBit(seen, base + 1, n - 1, k - 1);
      assert base + 1 + (k - 1) == base + k;
      if w == 0 {
        assert high == 0 && BitOr(0, Pow2(k - 1)) == Pow2(k - 1);
      }
    }
  }

  /** A word has all of its low n bits set exactly when everything it stands for was seen. */
  lemma {:induction false} AllSeen(seen: set<nat>, base: nat, n: nat)
    ensures SeenWord(seen, base, n) == Pow2(n) - 1 <==> forall k :: base <= k < base + n ==> k in seen
    decreases n
  {
    if n > 0 {
      SeenWordRange(seen, base + 1, n - 1);
      AllSeen(seen, base + 1, n - 1);
    }
  }

  lemma {:induction false} SeenWordPrefix(seen: set<nat>, base: nat, m: nat, n: nat)
    requires m <= n && forall k :: base + m <= k < base + n ==> k !in seen
    ensures SeenWord(seen, base, n) == SeenWord(seen, base, m)
    decreases n
  {
    if n > 0 {
      if m > 0 {
        SeenWordPrefix(seen, base + 1, m - 1, n - 1);
      } else {
        SeenWordPrefix(seen, base + 1, 0, n - 1);
      }
    }
  }

  lemma {:induction false} Pow2Add(m: nat, n: nat)
    ensures Pow2(m + n) == Pow2(m) * Pow2(n)
    decreases m
  {
    if m > 0 {
      Pow2Add(m - 1, n);
      assert Pow2(m + n) == 2 * Pow2(m - 1 + n);
    }
  }

  lemma Pow2At32()
    ensures Pow2(32) == TWO_32
  {
    Pow2Values();
    assert Pow2(30) == 0x4000_0000;
  }

  lemma MulOrder(x: nat, y: nat, q: nat)
    ensures x <= y ==> x * q <= y * q
  {
  }

  lemma DivUnique(a: nat, q: nat, k: nat, r: nat)
    requires a == k * q + r && r < q
    ensures a / q == k
  {
    var d := a / q;
    assert a == d * q + a % q;
    MulOrder(d + 1, k, q);
    MulOrder(k + 1, d, q);
  }

  lemma AllBitsSplit(p: nat, q: nat)
    requires p * q == TWO_32 && p > 0 && q > 0
    ensures ALL_BITS / q == p - 1
  {
    assert (p - 1) * q == p * q - q;
    DivUnique(ALL_BITS, q, p - 1, q - 1);
  }

  lemma LowMask(r: nat)
    requires r < 32
    ensures ALL_BITS / Pow2(32 - r) == Pow2(r) - 1
    ensures Pow2(32) - 1 == ALL_BITS
  {
    Pow2At32();
    Pow2Add(r, 32 - r);
    AllBitsSplit(Pow2(r), Pow2(32 - r));
  }

  /** The check of one word for the required fields `base` up to `base + r`, by mask. */
  lemma WordCheck(seen: set<nat>, base: nat, r: nat)
    requires r <= 32 && forall k :: base + r <= k < base + 32 ==> k !in seen
    ensures SeenWord(seen, base, 32) == (if r == 32 then ALL_BITS else ALL_BITS / Pow2(32 - r))
            <==> forall k :: base <= k < base + r ==> k in seen
  {
    LowMask(if r == 32 then 0 else r);
    SeenWordPrefix(seen, base, r, 32);
    AllSeen(seen, base, r);
  }

  // ----- Which fields have been seen

  lemma {:induction false} RequiredBeforeMonotone(fields: seq<Field>, i: nat, j: nat)
    requires i <= j <= |fields|
    ensures RequiredBefore(fields, i) <= RequiredBefore(fields, j)
    ensures i < j && fields[i].htype.Required? ==> RequiredBefore(fields, i) < RequiredBefore(fields, j)
    decreases j
  {
    if i < j {
      RequiredBeforeMonotone(fields, i, j - 1);
    }
  }

  /** Marks never reach beyond the number of tracked required fields. */
  lemma MarksTracked(fields: seq<Field>, i: nat)
    requires i < |fields|
    ensures forall k :: k in Marks(fields, i) ==> k < Tracked(fields)
  {
    RequiredBeforeMonotone(fields, i, |fields|);
  }

  predicate RecordOf(fields: seq<Field>, r: seq<byte>, i: nat) {
    ReadTag(r).Tag? && Find(fields, ReadTag(r).tag) == Some(i)
  }

  predicate Occurs(fields: seq<Field>, rs: seq<seq<byte>>, i: nat) {
    exists j :: 0 <= j < |rs| && RecordOf(fields, rs[j], i)
  }

  lemma StepMarks(fields: seq<Field>, r: seq<byte>, st: State)
    requires fields != [] && Framed(fields, r) && StepRecord(fields, r, st).Some?
    ensures StepRecord(fields, r, st).value.seen ==
            match Find(fields, ReadTag(r).tag) { case None => st.seen case Some(i) => st.seen + Marks(fields, i) }
  {
    var t := ReadTag(r);
    match Find(fields, t.tag)
    case None =>
    case Some(i) =>
      assert Step(fields, t.tag, t.wt, t.left, st) == StepField(fields, i, t.wt, t.left, st);
      assert !fields[i].htype.Required? ==> st.seen + Marks(fields, i) == st.seen;
  }

  lemma OccursSplit(fields: seq<Field>, rs: seq<seq<byte>>, i: nat)
    requires rs != []
    ensures Occurs(fields, rs, i) <==> RecordOf(fields, rs[0], i) || Occurs(fields, rs[1..], i)
  {
    if Occurs(fields, rs, i) && !RecordOf(fields, rs[0], i) {
      var j :| 0 <= j < |rs| && RecordOf(fields, rs[j], i);
      assert RecordOf(fields, rs[1..][j - 1], i);
    }
    if Occurs(fields, rs[1..], i) {
      var j :| 0 <= j < |rs[1..]| && RecordOf(fields, rs[1..][j], i);
      assert RecordOf(fields, rs[j + 1], i);
    }
  }

  /** A tracked required field has been seen exactly when one of the records was its own. */
  lemma {:induction false} SeenExactly(fields: seq<Field>, rs: seq<seq<byte>>, st: State, i: nat)
    requires fields != [] && AllFramed(fields, rs) && Fold(fields, rs, st).Some?
    requires i < |fields| && fields[i].htype.Required? && RequiredBefore(fields, i) < PB_MAX_REQUIRED_FIELDS
    ensures RequiredBefore(fields, i) in Fold(fields, rs, st).value.seen
            <==> RequiredBefore(fields, i) in st.seen || Occurs(fields, rs, i)
    decreases |rs|
  {
    if rs != [] {
      var r, more := rs[0], rs[1..];
      StepMarks(fields, r, st);
      SeenExactly(fields, more, StepRecord(fields, r, st).value, i);
      match Find(fields, ReadTag(r).tag) {
        case None =>
        case Some(j) =>
          if j < i { RequiredBeforeMonotone(fields, j, i); }
          if i < j { RequiredBeforeMonotone(fields, i, j); }
      }
      OccursSplit(fields, rs, i);
    }
  }

  /** Each of the first 64 required fields has a record of its own. */
  predicate EachOccurs(fields: seq<Field>, rs: seq<seq<byte>>) {
    forall i | 0 <= i < |fields| && fields[i].htype.Required? && RequiredBefore(fields, i) < PB_MAX_REQUIRED_FIELDS ::
      Occurs(fields, rs, i)
  }

  /** A required field for every index among the required fields. */
  lemma {:induction false} RequiredAt(fields: seq<Field>, i: nat, k: nat) returns (j: nat)
    requires i <= |fields| && k < RequiredBefore(fields, i)
    ensures j < i && fields[j].htype.Required? && RequiredBefore(fields, j) == k
    decreases i
  {
    if fields[i - 1].htype.Required? && RequiredBefore(fields, i - 1) == k {
      j := i - 1;
    } else {
      j := RequiredAt(fields, i - 1, k);
    }
  }

  /** When all records decode, the required-field check passes exactly when each of the first 64
      required fields occurred at least once, in whatever order. */
  lemma RequiredFieldsExactly(fields: seq<Field>, rs: seq<seq<byte>>, msg: seq<Slot>)
    requires fields != [] && AllFramed(fields, rs) && Fold(fields, rs, Start(msg)).Some?
    ensures (forall k: nat :: k < Tracked(fields) ==> k in Fold(fields, rs, Start(msg)).value.seen)
            <==> EachOccurs(fields, rs)
  {
    var seen := Fold(fields, rs, Start(msg)).value.seen;
    forall i | 0 <= i < |fields| && fields[i].htype.Required? && RequiredBefore(fields, i) < PB_MAX_REQUIRED_FIELDS
      ensures RequiredBefore(fields, i) in seen <==> Occurs(fields, rs, i)
      ensures RequiredBefore(fields, i) < Tracked(fields)
    {
      SeenExactly(fields, rs, Start(msg), i);
      RequiredBeforeMonotone(fields, i, |fields|);
    }
    if EachOccurs(fields, rs) {
      forall k: nat | k < Tracked(fields) ensures k in seen {
        var i := RequiredAt(fields, |fields|, k);
        assert Occurs(fields, rs, i);
      }
    }
  }

  // ----- How many required fields can be checked

  /** Every required field has a record of its own. */
  predicate AllOccur(fields: seq<Field>, rs: seq<seq<byte>>) {
    forall i | 0 <= i < |fields| && fields[i].htype.Required? :: Occurs(fields, rs, i)
  }

  predicate Decodes(fields: seq<Field>, rs: seq<seq<byte>>, msg: seq<Slot>) {
    DistinctTags(fields) && AllFramed(fields, rs) && DecodeNoinit(fields, Flatten(rs), msg).Ok?
  }

  /** With n required fields, success means that all of them occurred. */
  ghost predicate AllChecked(n: nat) {
    forall fields, rs, msg :: RequiredBefore(fields, |fields|) == n && Decodes(fields, rs, msg) ==> AllOccur(fields, rs)
  }

  lemma CheckedWhenFew(fields: seq<Field>, rs: seq<seq<byte>>, msg: seq<Slot>)
    requires Decodes(fields, rs, msg) && RequiredBefore(fields, |fields|) <= PB_MAX_REQUIRED_FIELDS
    ensures AllOccur(fields, rs)
  {
    if fields != [] {
      LoopRecords(fields, rs, Start(msg));
      RequiredFieldsExactly(fields, rs, msg);
      forall i | 0 <= i < |fields| && fields[i].htype.Required? ensures Occurs(fields, rs, i) {
        RequiredBeforeMonotone(fields, i, |fields|);
      }
    }
  }

  /** n required bools, and records of the first k of them. */
  function Flags(n: nat): (fields: seq<Field>)
    ensures |fields| == n
  {
    seq(n, i requires 0 <= i < n => Field(i + 1, Bool, Required, Static, 0, 0, 1, 0, Null))
  }

  function FlagRecord(i: nat): seq<byte> {
    EncTag(i + 1, WT_VARINT) + [0x01]
  }

  function FlagRecords(k: nat): (rs: seq<seq<byte>>)
    ensures |rs| == k
  {
    seq(k, i requires 0 <= i < k => FlagRecord(i))
  }

  lemma {:induction false} FlagsBefore(n: nat, i: nat)
    requires i <= n
    ensures RequiredBefore(Flags(n), i) == i
  {
    if i > 0 {
      FlagsBefore(n, i - 1);
    }
  }

  lemma FlagStep(n: nat, i: nat, st: State)
    requires i < n && i < PB_MAX_REQUIRED_FIELDS
    ensures Framed(Flags(n), FlagRecord(i)) && ReadTag(FlagRecord(i)) == Tag(i + 1, WT_VARINT, [0x01])
    ensures Find(Flags(n), i + 1) == Some(i)
    ensures StepRecord(Flags(n), FlagRecord(i), st).Some?
    ensures StepRecord(Flags(n), FlagRecord(i), st).value.fixed == st.fixed
  {
    var fields := Flags(n);
    TagRoundTrip(i + 1, WT_VARINT, [0x01]);
    assert Matches(fields[i], i + 1);
    assert DecodeLeaf(fields[i], [0x01]) == Ok(Num(1), []);
    assert Step(fields, i + 1, WT_VARINT, [0x01], st) == StepField(fields, i, WT_VARINT, [0x01], st);
  }

  lemma {:induction false} FlagsFold(n: nat, k: nat, j: nat, st: State)
    requires j <= k <= PB_MAX_REQUIRED_FIELDS && k <= n
    ensures AllFramed(Flags(n), FlagRecords(k)[j..])
    ensures Fold(Flags(n), FlagRecords(k)[j..], st).Some?
    ensures Fold(Flags(n), FlagRecords(k)[j..], st).value.fixed == st.fixed
    decreases k - j
  {
    if j < k {
      var rs := FlagRecords(k)[j..];
      FlagStep(n, j, st);
      FlagsFold(n, k, j + 1, StepRecord(Flags(n), FlagRecord(j), st).value);
      assert rs[0] == FlagRecord(j) && rs[1..] == FlagRecords(k)[j + 1..];
    }
  }

  lemma FlagOccurs(n: nat, k: nat, i: nat)
    requires k <= PB_MAX_REQUIRED_FIELDS && k <= n && i < n
    ensures Occurs(Flags(n), FlagRecords(k), i) <==> i < k
  {
    forall j | 0 <= j < k ensures RecordOf(Flags(n), FlagRecords(k)[j], i) <==> i == j {
      FlagStep(n, j, Start([]));
    }
    if i < k {
      assert RecordOf(Flags(n), FlagRecords(k)[i], i);
    }
  }

  lemma FlagsDecode(n: nat, k: nat)
    requires k == PB_MAX_REQUIRED_FIELDS && k <= n
    ensures Decodes(Flags(n), FlagRecords(k), [])
  {
    var fields, rs := Flags(n), FlagRecords(k);
    FlagsFold(n, k, 0, Start([]));
    assert rs[0..] == rs;
    LoopRecords(fields, rs, Start([]));
    RequiredFieldsExactly(fields, rs, []);
    forall i | 0 <= i < n && RequiredBefore(fields, i) < k ensures Occurs(fields, rs, i) {
      FlagsBefore(n, i);
      FlagOccurs(n, k, i);
    }
    assert EachOccurs(fields, rs);
  }

  /** With more of them, the 65th may be missing. */
  lemma LaterFlagsUnchecked(n: nat)
    requires n > 64
    ensures var fields, rs := Flags(n), FlagRecords(64);
            && RequiredBefore(fields, n) == n && Decodes(fields, rs, [])
            && fields[64].htype.Required? && !Occurs(fields, rs, 64)
  {
    FlagsBefore(n, n);
    FlagsDecode(n, PB_MAX_REQUIRED_FIELDS);
    FlagOccurs(n, PB_MAX_REQUIRED_FIELDS, PB_MAX_REQUIRED_FIELDS);
  }

  /** Success vouches for all required fields, whatever the descriptor and the records, exactly when
      there are no more than 64 of them. */
  lemma CheckedExactly(n: nat)
    ensures AllChecked(n) <==> n <= 64
  {
    if n <= PB_MAX_REQUIRED_FIELDS {
      forall fields, rs, msg | RequiredBefore(fields, |fields|) == n && Decodes(fields, rs, msg)
        ensures AllOccur(fields, rs)
      {
        CheckedWhenFew(fields, rs, msg);
      }
    } else {
      LaterFlagsUnchecked(n);
      assert !AllOccur(Flags(n), FlagRecords(PB_MAX_REQUIRED_FIELDS));
    }
  }
}
