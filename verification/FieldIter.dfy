/** The cyclic iterator over a descriptor array (pb_common.c), and the struct layout that it
    recovers from the offsets the generator's macros wrote. */
module FieldIter {
  import opened Basics
  import opened Descriptor

  const POINTER_SIZE: nat

  /** The terminator of a descriptor array. */
  const LAST_FIELD := Field(0, Bool, Required, Static, 0, 0, 0, 0, Null)

  /** An address inside the struct, or that of pb_decode_noinit's own fixed-count counter. */
  datatype Address = InStruct(addr: int) | FixedCounter

  function FieldAt(fields: seq<Field>, i: nat): Field {
    if i < |fields| then fields[i] else LAST_FIELD
  }

  /** The fields before the terminator, which has tag 0. */
  predicate Terminated(fields: seq<Field>) {
    forall i :: 0 <= i < |fields| ==> fields[i].tag != 0
  }

  // ----- Closed form of the iterator's pointers

  /** The bytes that a field takes up in the struct, as the iterator computes them. */
  function MemberSize(f: Field): nat {
    if f.atype.Static? && f.htype.Repeated? then f.dataSize * f.arraySize
    else if f.atype.Pointer? then POINTER_SIZE
    else f.dataSize
  }

  /** The offset of field i: its delta from the end of the field before, or that field's own
      offset inside a oneof. */
  function DataOffset(fields: seq<Field>, i: nat): nat
    requires i < |fields|
  {
    if i == 0 then fields[0].dataOffset
    else if JoinsUnion(fields, i) then DataOffset(fields, i - 1)
    else DataOffset(fields, i - 1) + MemberSize(fields[i - 1]) + fields[i].dataOffset
  }

  /** The offset of the count, has-flag or which-field: inside a oneof, the first member's. */
  function SizeOffset(fields: seq<Field>, i: nat): int
    requires i < |fields|
  {
    DataOffset(fields, i) + fields[Leader(fields, i)].sizeOffset
  }

  lemma {:induction false} UnionSharesOffset(fields: seq<Field>, i: nat)
    requires i < |fields|
    ensures DataOffset(fields, i) == DataOffset(fields, Leader(fields, i))
  {
    if JoinsUnion(fields, i) {
      UnionSharesOffset(fields, i - 1);
    }
  }

  class Iter {
    var fields: seq<Field>
    var pos: nat
    var requiredFieldIndex: nat
    var destStruct: int
    var pData: int
    var pSize: Address

    /** pData and the running index depend on the position only. */
    ghost predicate AtPosition()
      reads this
    {
      && Terminated(fields)
      && (pos < |fields| || (pos == 0 && fields == []))
      && pData == destStruct + (if fields == [] then 0 else DataOffset(fields, pos))
      && requiredFieldIndex == (if fields == [] then 0 else RequiredBefore(fields, pos))
    }

    /** So does pSize, unless the decoder has pointed it elsewhere. */
    ghost predicate SizeAtPosition()
      reads this
      requires AtPosition()
    {
      pSize == InStruct(destStruct + (if fields == [] then 0 else SizeOffset(fields, pos)))
    }

    /** The decoder points pSize at its own counter for fixed-count arrays only. */
    ghost predicate Usable()
      reads this
    {
      AtPosition() && (SizeAtPosition() || (pos < |fields| && fields[pos].htype.Repeated?))
    }

    constructor (fields: seq<Field>, destStruct: int)
      requires Terminated(fields)
      ensures AtPosition() && SizeAtPosition() && pos == 0
      ensures this.fields == fields && this.destStruct == destStruct
    {
      this.fields := fields;
      this.destStruct := destStruct;
      pos := 0;
      requiredFieldIndex := 0;
      pData := destStruct + FieldAt(fields, 0).dataOffset;
      pSize := InStruct(destStruct + FieldAt(fields, 0).dataOffset + FieldAt(fields, 0).sizeOffset);
    }

    /** pb_field_iter_begin. */
    method Begin(fields: seq<Field>, destStruct: int) returns (nonempty: bool)
      requires Terminated(fields)
      modifies this
      ensures AtPosition() && SizeAtPosition() && pos == 0
      ensures this.fields == fields && this.destStruct == destStruct
      ensures nonempty == (fields != [])
    {
      this.fields := fields;
      this.destStruct := destStruct;
      pos := 0;
      requiredFieldIndex := 0;
      pData := destStruct + FieldAt(fields, pos).dataOffset;
      pSize := InStruct(pData + FieldAt(fields, pos).sizeOffset);
      return FieldAt(fields, pos).tag != 0;
    }

    /** pb_field_iter_next: the next position in a cycle, with everything that depends on it. */
    method Next() returns (more: bool)
      requires Usable()
      modifies this
      ensures AtPosition() && SizeAtPosition()
      ensures fields == old(fields) && destStruct == old(destStruct)
      ensures more == (old(pos) + 1 < |fields|)
      ensures pos == if more then old(pos) + 1 else 0
    {
      var prev := FieldAt(fields, pos);
      if prev.tag == 0 {
        return false;
      }
      pos := pos + 1;
      if FieldAt(fields, pos).tag == 0 {
        var _ := Begin(fields, destStruct);
        return false;
      }
      var here := FieldAt(fields, pos);
      var prevSize := prev.dataSize;
      if prev.htype.Oneof? && here.htype.Oneof? && here.dataOffset == PB_SIZE_MAX {
        return true;
      } else if prev.atype.Static? && prev.htype.Repeated? {
        prevSize := prevSize * prev.arraySize;
      } else if prev.atype.Pointer? {
        prevSize := POINTER_SIZE;
      }
      if prev.htype.Required? {
        requiredFieldIndex := requiredFieldIndex + 1;
      }
      pData := pData + prevSize + here.dataOffset;
      pSize := InStruct(pData + here.sizeOffset);
      return true;
    }

    /** pb_field_iter_find: searches the whole cycle from the current position. It fails exactly
        when no field has the tag, and is then back where it started; an empty message's
        terminator answers to tag 0. */
    method FindTag(tag: nat) returns (found: bool)
      requires Usable()
      modifies this
      ensures Usable()
      ensures fields == old(fields) && destStruct == old(destStruct)
      ensures found == (Find(fields, tag).Some? || (fields == [] && tag == 0))
      ensures found && fields != [] ==> Matches(fields[pos], tag)
      ensures found && fields != [] ==> fields[pos].tag == tag && !fields[pos].ltype.Extension?
      ensures !found ==> forall j :: 0 <= j < |fields| ==> fields[j].tag != tag || fields[j].ltype.Extension?
      ensures !found ==> pos == old(pos)
      ensures if found && pos == old(pos) then pSize == old(pSize) else SizeAtPosition()
    {
      var start := pos;
      ghost var wrapped := false;
      while true
        invariant Usable() && fields == old(fields) && destStruct == old(destStruct)
        invariant start == old(pos) && (fields != [] ==> start < |fields|)
        invariant wrapped ==> pos < start
        invariant !wrapped ==> start <= pos
        invariant forall j :: start <= j < |fields| && (wrapped || j < pos) ==> !Matches(fields[j], tag)
        invariant wrapped ==> forall j :: 0 <= j < pos ==> !Matches(fields[j], tag)
        invariant if pos == start then pSize == old(pSize) else SizeAtPosition()
        decreases if wrapped then start - pos else |fields| + start - pos
      {
        if FieldAt(fields, pos).tag == tag && !FieldAt(fields, pos).ltype.Extension? {
          assert fields != [] ==> Matches(fields[pos], tag);
          return true;
        }
        ghost var before := pos;
        var more := Next();
        if !more {
          wrapped := true;
        }
        if pos == start {
          break;
        }
      }
      return false;
    }
  }

  /** With distinct tags there is one answer, whatever the position the search began at. */
  lemma FoundOnlyOnce(fields: seq<Field>, tag: nat, pos: nat)
    requires DistinctTags(fields) && pos < |fields| && Matches(fields[pos], tag)
    ensures Find(fields, tag) == Some(pos)
  {
  }

  // ----- The struct layout behind the descriptors

  /** A struct member as the compiler lays it out: where it is, the size of one item and the number
      of items, where its count, has-flag or which-field is, and the oneof that it belongs to. */
  datatype Member = Member(
    tag: nat, ltype: LType, htype: HType, atype: AType, ptr: Ptr,
    offset: nat, itemSize: nat, items: nat, sizeAt: Option<nat>, union: Option<nat>)

  /** pb_membersize of a member. */
  function Bytes(m: Member): nat {
    if m.atype.Pointer? then POINTER_SIZE
    else if m.atype.Static? && m.htype.Repeated? then m.itemSize * m.items
    else m.itemSize
  }

  predicate SameUnion(a: Member, b: Member) {
    a.union.Some? && a.union == b.union
  }

  /** The members of one oneof lie together. */
  predicate Contiguous(ms: seq<Member>) {
    forall i, l, j :: 0 <= i < l < j < |ms| && SameUnion(ms[i], ms[j]) ==> SameUnion(ms[i], ms[l])
  }

  /** The bytes of a has-flag, which is a bool, or of a count or which-field, which is a pb_size_t
      like the size in front of a bytes array. */
  function CounterSize(h: HType): nat {
    if h.Optional? then 1 else BYTES_OFFSET
  }

  predicate Apart(a: int, aSize: int, b: int, bSize: int) {
    a + aSize <= b || b + bSize <= a
  }

  /** Counts, has-flags and which-fields lie apart from all items and from each other; the members
      of one oneof have one which-field. */
  predicate CountersApart(ms: seq<Member>) {
    && (forall i, j :: 0 <= i < |ms| && 0 <= j < |ms| && ms[i].sizeAt.Some? ==>
          Apart(ms[i].sizeAt.value, CounterSize(ms[i].htype), ms[j].offset, Bytes(ms[j])))
    && (forall i, j :: 0 <= i < j < |ms| && ms[i].sizeAt.Some? && ms[j].sizeAt.Some? && !SameUnion(ms[i], ms[j]) ==>
          Apart(ms[i].sizeAt.value, CounterSize(ms[i].htype), ms[j].sizeAt.value, CounterSize(ms[j].htype)))
  }

  /** What the C compiler guarantees of a struct, and the generator of its order: members are not
      empty and follow one another without overlap, the members of one oneof lie together and on
      top of each other. */
  predicate LaidOut(ms: seq<Member>) {
    && (forall i :: 0 <= i < |ms| ==> (ms[i].htype.Oneof? <==> ms[i].union.Some?) && Bytes(ms[i]) > 0)
    && (forall i :: 0 <= i < |ms| ==> ms[i].htype.Oneof? ==> ms[i].sizeAt.Some?)
    && (forall i, j :: 0 <= i < j < |ms| ==>
          if SameUnion(ms[i], ms[j]) then ms[i].offset == ms[j].offset && ms[i].sizeAt == ms[j].sizeAt
          else ms[i].offset + Bytes(ms[i]) <= ms[j].offset)
    && CountersApart(ms) && Contiguous(ms)
  }

  /** The data_offset that PB_DATAOFFSET_FIRST, _OTHER and _UNION compute. */
  function DataOffsetMacro(ms: seq<Member>, i: nat): int
    requires i < |ms|
  {
    if i == 0 then ms[0].offset
    else if SameUnion(ms[i - 1], ms[i]) then PB_SIZE_MAX
    else ms[i].offset - ms[i - 1].offset - Bytes(ms[i - 1])
  }

  /** The descriptor that the macros of pb.h write for member i. */
  function Describe(ms: seq<Member>, i: nat): Field
    requires LaidOut(ms) && i < |ms|
  {
    var m := ms[i];
    assert i > 0 && !SameUnion(ms[i - 1], m) ==> ms[i - 1].offset + Bytes(ms[i - 1]) <= m.offset;
    Field(m.tag, m.ltype, m.htype, m.atype, DataOffsetMacro(ms, i),
          if m.sizeAt.Some? then m.sizeAt.value - m.offset else 0,
          m.itemSize, if m.atype.Static? && m.htype.Repeated? then m.items else 0, m.ptr)
  }

  function Describes(ms: seq<Member>): (fields: seq<Field>)
    requires LaidOut(ms)
    ensures |fields| == |ms|
  {
    seq(|ms|, i requires 0 <= i < |ms| => Describe(ms, i))
  }

  /** Member i begins a oneof right after another one, at a distance that reads as the mark of a
      oneof's further members. */
  predicate Ambiguous(ms: seq<Member>, i: nat)
    requires i < |ms|
  {
    i > 0 && ms[i - 1].htype.Oneof? && ms[i].htype.Oneof? && !SameUnion(ms[i - 1], ms[i])
    && DataOffsetMacro(ms, i) == PB_SIZE_MAX
  }

  lemma JoinsExactly(ms: seq<Member>, i: nat)
    requires LaidOut(ms) && 0 < i < |ms| && !Ambiguous(ms, i)
    ensures var fields := Describes(ms);
            && fields[i] == Describe(ms, i) && fields[i - 1] == Describe(ms, i - 1)
            && (JoinsUnion(fields, i) <==> SameUnion(ms[i - 1], ms[i]))
            && (!JoinsUnion(fields, i) ==> fields[i].dataOffset == ms[i].offset - ms[i - 1].offset - Bytes(ms[i - 1]))
            && (JoinsUnion(fields, i) ==> ms[i - 1].offset == ms[i].offset)
            && MemberSize(fields[i - 1]) == Bytes(ms[i - 1])
  {
    assert ms[i - 1].htype.Oneof? <==> ms[i - 1].union.Some?;
    assert ms[i].htype.Oneof? <==> ms[i].union.Some?;
  }

  lemma {:induction false} OffsetsRecovered(ms: seq<Member>, i: nat)
    requires LaidOut(ms) && i < |ms|
    requires forall j :: 0 <= j <= i ==> !Ambiguous(ms, j)
    ensures DataOffset(Describes(ms), i) == ms[i].offset
    decreases i
  {
    var fields := Describes(ms);
    if i > 0 {
      OffsetsRecovered(ms, i - 1);
      JoinsExactly(ms, i);
      assert DataOffset(fields, i)
             == if JoinsUnion(fields, i) then ms[i - 1].offset
                else ms[i - 1].offset + MemberSize(fields[i - 1]) + fields[i].dataOffset;
    }
  }

  function CounterAt(m: Member): nat {
    if m.sizeAt.Some? then m.sizeAt.value else m.offset
  }

  lemma {:induction false} LeaderShares(ms: seq<Member>, i: nat)
    requires LaidOut(ms) && i < |ms|
    requires forall j :: 0 <= j <= i ==> !Ambiguous(ms, j)
    ensures var k := Leader(Describes(ms), i); k == i || SameUnion(ms[k], ms[i])
    decreases i
  {
    var fields := Describes(ms);
    if i > 0 {
      JoinsExactly(ms, i);
      if JoinsUnion(fields, i) {
        LeaderShares(ms, i - 1);
      }
    }
  }

  /** So are those of counts, has-flags and which-fields; without one, pSize is pData. */
  lemma CountersRecovered(ms: seq<Member>, i: nat)
    requires LaidOut(ms) && i < |ms|
    requires forall j :: 0 <= j <= i ==> !Ambiguous(ms, j)
    ensures SizeOffset(Describes(ms), i) == CounterAt(ms[i])
    ensures Describes(ms)[i].sizeOffset == 0 <==> ms[i].sizeAt.None?
  {
    OffsetsRecovered(ms, i);
    LeaderShares(ms, i);
    var k := Leader(Describes(ms), i);
    assert Describes(ms)[k] == Describe(ms, k) && Describes(ms)[i] == Describe(ms, i);
  }

  /** The iterator's addresses of member i are the compiler's. */
  predicate Recovered(ms: seq<Member>, i: nat)
    requires LaidOut(ms) && i < |ms|
  {
    DataOffset(Describes(ms), i) == ms[i].offset && SizeOffset(Describes(ms), i) == CounterAt(ms[i])
  }

  lemma AmbiguousIsLost(ms: seq<Member>, i: nat)
    requires LaidOut(ms) && i < |ms| && Ambiguous(ms, i)
    ensures DataOffset(Describes(ms), i) == DataOffset(Describes(ms), i - 1)
    ensures JoinsUnion(Describes(ms), i) && ms[i].offset != ms[i - 1].offset
  {
    var fields := Describes(ms);
    assert fields[i] == Describe(ms, i) && fields[i - 1] == Describe(ms, i - 1);
    assert JoinsUnion(fields, i);
  }

  /** The iterator recovers the addresses of every item, and of every count, has-flag and
      which-field, exactly when no oneof is ambiguous. */
  lemma LayoutRecoveredExactly(ms: seq<Member>)
    requires LaidOut(ms)
    ensures (forall i :: 0 <= i < |ms| ==> Recovered(ms, i)) <==> (forall i :: 0 <= i < |ms| ==> !Ambiguous(ms, i))
  {
    if forall i :: 0 <= i < |ms| ==> Recovered(ms, i) {
      forall i | 0 <= i < |ms| ensures !Ambiguous(ms, i) {
        if Ambiguous(ms, i) {
          assert Recovered(ms, i) && Recovered(ms, i - 1);
          AmbiguousIsLost(ms, i);
          assert false;
        }
      }
    }
    if forall i :: 0 <= i < |ms| ==> !Ambiguous(ms, i) {
      forall i | 0 <= i < |ms| ensures Recovered(ms, i) {
        OffsetsRecovered(ms, i);
        CountersRecovered(ms, i);
      }
    }
  }

  /** Two oneofs, one behind the other without any padding; the last member of the first one is a
      bool, so that the macros count the rest of the union as distance. */
  function TwoOneofs(): (ms: seq<Member>)
    ensures |ms| == 3
  {
    var w := BYTES_OFFSET;
    [Member(1, FixedLengthBytes, Oneof, Static, Null, w, PB_SIZE_MAX + 1 - w, 0, Some(0), Some(0)),
     Member(2, Bool, Oneof, Static, Null, w, 1, 0, Some(0), Some(0)),
     Member(3, Bool, Oneof, Static, Null, PB_SIZE_MAX + 1 + w, 1, 0, Some(PB_SIZE_MAX + 1), Some(1))]
  }

  /** Members with the addresses of two oneofs in a row. */
  predicate InTwoOneofs(ms: seq<Member>, w: nat, s: nat) {
    forall i :: 0 <= i < |ms| ==>
      && ms[i].htype.Oneof? && 1 <= Bytes(ms[i]) <= s + 1 - w
      && (if i < 2 then ms[i].offset == w && ms[i].sizeAt == Some(0) && ms[i].union == Some(0)
          else ms[i].offset == s + 1 + w && ms[i].sizeAt == Some(s + 1) && ms[i].union == Some(1))
  }

  lemma MembersOfTwoOneofs(ms: seq<Member>, w: nat, s: nat)
    requires w == BYTES_OFFSET && s == PB_SIZE_MAX && ms == TwoOneofs()
    ensures 1 <= w <= s
    ensures InTwoOneofs(ms, w, s)
  {
    forall i | 0 <= i < 3
      ensures ms[i].htype.Oneof? && 1 <= Bytes(ms[i]) <= s + 1 - w
    {
      assert i == 0 || i == 1 || i == 2;
    }
  }

  lemma TwoOneofsLieApart(ms: seq<Member>, w: nat, s: nat)
    requires 1 <= w <= s && w == BYTES_OFFSET && InTwoOneofs(ms, w, s) && |ms| == 3
    ensures LaidOut(ms)
  {
  }

  lemma TwoOneofsLaidOut()
    ensures LaidOut(TwoOneofs())
  {
    MembersOfTwoOneofs(TwoOneofs(), BYTES_OFFSET, PB_SIZE_MAX);
    TwoOneofsLieApart(TwoOneofs(), BYTES_OFFSET, PB_SIZE_MAX);
  }

  lemma LeaderOfThird(fields: seq<Field>)
    requires |fields| == 3 && JoinsUnion(fields, 1) && JoinsUnion(fields, 2)
    ensures Leader(fields, 2) == 0
  {
    assert Leader(fields, 1) == Leader(fields, 0);
  }

  lemma AmbiguousTwoOneofs(ms: seq<Member>, w: nat, s: nat)
    requires w == BYTES_OFFSET && s == PB_SIZE_MAX && ms == TwoOneofs()
    ensures !Ambiguous(ms, 0) && !Ambiguous(ms, 1) && Ambiguous(ms, 2) && SameUnion(ms[0], ms[1])
    ensures ms[0].offset + Bytes(ms[0]) == ms[2].sizeAt.value && ms[2].sizeAt.value % w == 0
  {
  }

  /** There the second oneof's member is taken for one of the first oneof, with its address. */
  lemma AmbiguousLayout()
    ensures var ms := TwoOneofs();
            && LaidOut(ms) && Ambiguous(ms, 2)
            && ms[0].offset + Bytes(ms[0]) == ms[2].sizeAt.value && ms[2].sizeAt.value % BYTES_OFFSET == 0
            && DataOffset(Describes(ms), 2) == ms[0].offset && Leader(Describes(ms), 2) == 0
  {
    var ms := TwoOneofs();
    TwoOneofsLaidOut();
    AmbiguousTwoOneofs(ms, BYTES_OFFSET, PB_SIZE_MAX);
    JoinsExactly(ms, 1);
    OffsetsRecovered(ms, 1);
    AmbiguousIsLost(ms, 2);
    var fields := Describes(ms);
    LeaderOfThird(fields);
    assert ms[1].offset == ms[0].offset;
  }

  /** Where the slots of fields i and j lie: the items, and the count, has-flag or which-field. */
  predicate SlotsApart(fields: seq<Field>, i: nat, j: nat)
    requires i < |fields| && j < |fields|
  {
    var f, g := fields[i], fields[j];
    && Apart(DataOffset(fields, i), MemberSize(f), DataOffset(fields, j), MemberSize(g))
    && (f.sizeOffset != 0 ==>
          Apart(SizeOffset(fields, i), CounterSize(f.htype), DataOffset(fields, j), MemberSize(g)))
    && (g.sizeOffset != 0 ==>
          Apart(DataOffset(fields, i), MemberSize(f), SizeOffset(fields, j), CounterSize(g.htype)))
    && (f.sizeOffset != 0 && g.sizeOffset != 0 ==>
          Apart(SizeOffset(fields, i), CounterSize(f.htype), SizeOffset(fields, j), CounterSize(g.htype)))
  }

  lemma MembersApart(ms: seq<Member>, i: nat, j: nat)
    requires LaidOut(ms) && i < j < |ms|
    ensures Describes(ms)[i] == Describe(ms, i) && Describes(ms)[j] == Describe(ms, j)
    ensures MemberSize(Describes(ms)[i]) == Bytes(ms[i]) && MemberSize(Describes(ms)[j]) == Bytes(ms[j])
    ensures !SameUnion(ms[i], ms[j]) ==> ms[i].offset + Bytes(ms[i]) <= ms[j].offset
    ensures forall l :: (l == i || l == j) && ms[l].sizeAt.Some? ==>
              Apart(ms[l].sizeAt.value, CounterSize(ms[l].htype), ms[l].offset, Bytes(ms[l]))
    ensures ms[i].sizeAt.Some? ==> Apart(ms[i].sizeAt.value, CounterSize(ms[i].htype), ms[j].offset, Bytes(ms[j]))
    ensures ms[j].sizeAt.Some? ==> Apart(ms[j].sizeAt.value, CounterSize(ms[j].htype), ms[i].offset, Bytes(ms[i]))
    ensures ms[i].sizeAt.Some? && ms[j].sizeAt.Some? && !SameUnion(ms[i], ms[j]) ==>
              Apart(ms[i].sizeAt.value, CounterSize(ms[i].htype), ms[j].sizeAt.value, CounterSize(ms[j].htype))
  {
  }

  lemma {:induction false} LeaderOfUnion(fields: seq<Field>, ms: seq<Member>, i: nat, j: nat)
    requires i < j < |ms| == |fields| && Contiguous(ms)
    requires forall l :: 0 < l < |ms| ==> (JoinsUnion(fields, l) <==> SameUnion(ms[l - 1], ms[l]))
    ensures Leader(fields, i) == Leader(fields, j) <==> SameUnion(ms[i], ms[j])
    decreases j
  {
    assert JoinsUnion(fields, j) <==> SameUnion(ms[j - 1], ms[j]);
    if i + 1 < j {
      LeaderOfUnion(fields, ms, i, j - 1);
      assert SameUnion(ms[i], ms[j]) ==> SameUnion(ms[i], ms[j - 1]);
    }
  }

  /** In an unambiguous layout, two fields have the same leader exactly when they are members of
      one oneof; then the iterator gives them the same addresses, and otherwise neither their items
      nor their counts, has-flags and which-fields overlap. So a message's slots stand for the
      struct's memory. */
  lemma SlotsAreDisjoint(ms: seq<Member>, i: nat, j: nat)
    requires LaidOut(ms) && i < j < |ms|
    requires forall l :: 0 <= l < |ms| ==> !Ambiguous(ms, l)
    ensures var fields := Describes(ms);
            && (Leader(fields, i) == Leader(fields, j) <==> SameUnion(ms[i], ms[j]))
            && (if SameUnion(ms[i], ms[j]) then
                  DataOffset(fields, i) == DataOffset(fields, j) && SizeOffset(fields, i) == SizeOffset(fields, j)
                else SlotsApart(fields, i, j))
    ensures var fields := Describes(ms);
            forall l :: l == i || l == j ==> fields[l].sizeOffset != 0 ==>
              Apart(SizeOffset(fields, l), CounterSize(fields[l].htype), DataOffset(fields, l), MemberSize(fields[l]))
  {
    var fields := Describes(ms);
    OffsetsRecovered(ms, i);
    OffsetsRecovered(ms, j);
    CountersRecovered(ms, i);
    CountersRecovered(ms, j);
    forall l | 0 < l < |ms| ensures JoinsUnion(fields, l) <==> SameUnion(ms[l - 1], ms[l]) {
      JoinsExactly(ms, l);
    }
    LeaderOfUnion(fields, ms, i, j);
    MembersApart(ms, i, j);
  }
}
