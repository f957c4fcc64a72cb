/** Field order: which records may be exchanged without changing what is decoded. */
module Order {
  import opened Basics
  import opened Descriptor
  import opened Leaf
  import opened DecodeSpec
  import opened Message
  import opened Records
  import opened RoundTrip

  /** What a record works on: nothing when its field is unknown, the slot of its field, or the
      state that all fixed-count arrays share. */
  datatype Lane = Nowhere | SlotLane(k: nat) | FixedLane

  function LaneOf(fields: seq<Field>, r: seq<byte>): Lane {
    match ReadTag(r)
    case Tag(tag, _, _) =>
      (match Find(fields, tag)
       case None => Nowhere
       case Some(i) => if FixedCount(fields[i]) then FixedLane else SlotLane(Leader(fields, i)))
    case _ => Nowhere
  }

  /** The records of one lane, in their order. */
  function Project(fields: seq<Field>, rs: seq<seq<byte>>, lane: Lane): seq<seq<byte>> {
    if rs == [] then []
    else (if LaneOf(fields, rs[0]) == lane then [rs[0]] else []) + Project(fields, rs[1..], lane)
  }

  // ----- The effect of a record is local to its lane

  /** The effect of field i on st2, told from the result o on another state. */
  function Transfer(fields: seq<Field>, i: nat, o: Read<State>, st2: State): Read<State>
    requires i < |fields|
  {
    match o
    case Fail => Fail
    case Ok(st, rest) =>
      var k := Leader(fields, i);
      var fixed := FixedCount(fields[i]);
      Ok(State(Put(st2.msg, k, Get(st.msg, k)), st2.seen + Marks(fields, i),
               if fixed then st.fixed else st2.fixed, if fixed then st.count else st2.count), rest)
  }

  lemma EnteredLocal(fields: seq<Field>, i: nat, st: State, st2: State)
    requires st2.fixed == st.fixed && st2.count == st.count
    ensures var e, e2 := EnterFixed(fields, i, st), EnterFixed(fields, i, st2);
            && e.Some? == e2.Some?
            && (e.Some? ==> e2.value == State(st2.msg, st2.seen, e.value.fixed, e.value.count)
                            && e.value == State(st.msg, st.seen, e.value.fixed, e.value.count))
  {
    assert FixedComplete(fields, st) == FixedComplete(fields, st2);
  }

  /** What a record of a fixed-count array does. */
  lemma FixedStep(fields: seq<Field>, i: nat, wt: nat, s: seq<byte>, st: State, e: State)
    requires i < |fields| && FixedCount(fields[i]) && fields[i].atype.Static? && EnterFixed(fields, i, st) == Some(e)
    ensures var r := DecodeItems(fields[i], wt, s, Room(fields[i], e.count));
            var k := Leader(fields, i);
            StepField(fields, i, wt, s, st) ==
            if r.Fail? then Fail
            else Ok(e.(msg := Put(st.msg, k, Array(Splice(ItemsOf(Get(st.msg, k)), e.count, r.value))),
                       count := e.count + |r.value|), r.rest)
  {
  }

  lemma FixedLocal(fields: seq<Field>, i: nat, wt: nat, s: seq<byte>, st: State, st2: State)
    requires i < |fields| && |st.msg| == |st2.msg| == |fields| && FixedCount(fields[i])
    requires Get(st2.msg, Leader(fields, i)) == Get(st.msg, Leader(fields, i))
    requires st2.fixed == st.fixed && st2.count == st.count
    ensures StepField(fields, i, wt, s, st2) == Transfer(fields, i, StepField(fields, i, wt, s, st), st2)
  {
    EnteredLocal(fields, i, st, st2);
    if fields[i].atype.Static? && EnterFixed(fields, i, st).Some? {
      assert Marks(fields, i) == {} && st2.seen + {} == st2.seen;
      FixedStep(fields, i, wt, s, st, EnterFixed(fields, i, st).value);
      FixedStep(fields, i, wt, s, st2, EnterFixed(fields, i, st2).value);
    }
  }

  /** A step reads and writes its own slot, and the fixed-count state only for a fixed-count array. */
  lemma StepFieldLocal(fields: seq<Field>, i: nat, wt: nat, s: seq<byte>, st: State, st2: State)
    requires i < |fields| && |st.msg| == |st2.msg| == |fields|
    requires Get(st2.msg, Leader(fields, i)) == Get(st.msg, Leader(fields, i))
    requires FixedCount(fields[i]) ==> st2.fixed == st.fixed && st2.count == st.count
    ensures StepField(fields, i, wt, s, st2) == Transfer(fields, i, StepField(fields, i, wt, s, st), st2)
  {
    var f := fields[i];
    if FixedCount(f) {
      FixedLocal(fields, i, wt, s, st, st2);
    } else if f.htype.Repeated? {
      assert Marks(fields, i) == {} && st2.seen + {} == st2.seen;
    } else if f.htype.Oneof? {
      assert Marks(fields, i) == {} && st2.seen + {} == st2.seen;
    }
  }

  lemma PutCommutes(msg: seq<Slot>, j: nat, k: nat, a: Slot, b: Slot)
    requires j != k
    ensures Put(Put(msg, j, a), k, b) == Put(Put(msg, k, b), j, a)
  {
  }

  lemma Regroup<T>(a: seq<T>, r: T)
    requires a != []
    ensures a + [r] == [a[0]] + (a[1..] + [r]) && [r] + a == [r, a[0]] + a[1..]
    ensures [a[0]] + ([r] + a[1..]) == [a[0], r] + a[1..]
  {
  }

  /** Records of different lanes commute. */
  lemma FieldsCommute(fields: seq<Field>, i: nat, wi: nat, si: seq<byte>, j: nat, wj: nat, sj: seq<byte>, st: State)
    requires i < |fields| && j < |fields| && |st.msg| == |fields|
    requires Leader(fields, i) != Leader(fields, j)
    requires !(FixedCount(fields[i]) && FixedCount(fields[j]))
    ensures var a := StepField(fields, i, wi, si, st);
            var b := StepField(fields, j, wj, sj, st);
            var ab := if a.Ok? then StepField(fields, j, wj, sj, a.value) else Fail;
            var ba := if b.Ok? then StepField(fields, i, wi, si, b.value) else Fail;
            (ab.Ok? <==> ba.Ok?) && (ab.Ok? ==> ab.value == ba.value)
  {
    var a := StepField(fields, i, wi, si, st);
    var b := StepField(fields, j, wj, sj, st);
    var k, l := Leader(fields, i), Leader(fields, j);
    StepFieldLocal(fields, i, wi, si, st, st);
    StepFieldLocal(fields, j, wj, sj, st, st);
    if a.Ok? {
      StepFieldLocal(fields, j, wj, sj, st, a.value);
    }
    if b.Ok? {
      StepFieldLocal(fields, i, wi, si, st, b.value);
    }
    if a.Ok? && b.Ok? {
      PutCommutes(st.msg, k, l, Get(a.value.msg, k), Get(b.value.msg, l));
      assert st.seen + Marks(fields, i) + Marks(fields, j) == st.seen + Marks(fields, j) + Marks(fields, i);
    }
  }

  lemma StepKeepsLength(fields: seq<Field>, tag: nat, wt: nat, s: seq<byte>, st: State)
    requires |st.msg| == |fields| && Step(fields, tag, wt, s, st).Ok?
    ensures |Step(fields, tag, wt, s, st).value.msg| == |fields|
  {
    match Find(fields, tag)
    case None =>
    case Some(i) => StepFieldLocal(fields, i, wt, s, st, st);
  }

  /** A fixed-count array has a slot of its own. */
  lemma LeadersDiffer(fields: seq<Field>, i: nat, j: nat)
    requires i < |fields| && j < |fields|
    requires FixedCount(fields[i]) != FixedCount(fields[j])
             || (!FixedCount(fields[i]) && Leader(fields, i) != Leader(fields, j))
    ensures Leader(fields, i) != Leader(fields, j)
  {
  }

  lemma FoldOne(fields: seq<Field>, x: seq<byte>, st: State)
    requires Framed(fields, x)
    ensures Fold(fields, [x], st) == StepRecord(fields, x, st)
  {
    assert [x][1..] == [];
  }

  lemma FoldTwo(fields: seq<Field>, x: seq<byte>, y: seq<byte>, st: State)
    requires Framed(fields, x) && Framed(fields, y)
    ensures Fold(fields, [x, y], st) ==
            match StepRecord(fields, x, st) { case None => None case Some(st1) => StepRecord(fields, y, st1) }
  {
    assert [x, y] == [x] + [y];
    FoldConcat(fields, [x], [y], st);
    FoldOne(fields, x, st);
    if StepRecord(fields, x, st).Some? {
      FoldOne(fields, y, StepRecord(fields, x, st).value);
    }
  }

  lemma RecordsCommute(fields: seq<Field>, x: seq<byte>, y: seq<byte>, st: State)
    requires Framed(fields, x) && Framed(fields, y) && |st.msg| == |fields|
    requires LaneOf(fields, x) != LaneOf(fields, y)
    ensures Fold(fields, [x, y], st) == Fold(fields, [y, x], st)
  {
    var tx, ty := ReadTag(x), ReadTag(y);
    FoldTwo(fields, x, y, st);
    FoldTwo(fields, y, x, st);
    match (Find(fields, tx.tag), Find(fields, ty.tag))
    case (Some(i), Some(j)) =>
      LeadersDiffer(fields, i, j);
      FieldsCommute(fields, i, tx.wt, tx.left, j, ty.wt, ty.left, st);
    case (Some(i), None) => assert fields != [];
    case (None, Some(j)) => assert fields != [];
    case (None, None) =>
  }

  // ----- Moving a record to the front

  lemma {:induction false} FoldKeepsLength(fields: seq<Field>, rs: seq<seq<byte>>, st: State)
    requires AllFramed(fields, rs) && |st.msg| == |fields| && Fold(fields, rs, st).Some?
    ensures |Fold(fields, rs, st).value.msg| == |fields|
    decreases |rs|
  {
    if rs != [] {
      var t := ReadTag(rs[0]);
      StepKeepsLength(fields, t.tag, t.wt, t.left, st);
      FoldKeepsLength(fields, rs[1..], StepRecord(fields, rs[0], st).value);
    }
  }

  predicate AvoidsLane(fields: seq<Field>, rs: seq<seq<byte>>, lane: Lane) {
    forall j :: 0 <= j < |rs| ==> LaneOf(fields, rs[j]) != lane
  }

  lemma {:induction false} MoveToFront(fields: seq<Field>, a: seq<seq<byte>>, r: seq<byte>, st: State)
    requires AllFramed(fields, a) && Framed(fields, r) && |st.msg| == |fields|
    requires AvoidsLane(fields, a, LaneOf(fields, r))
    ensures AllFramed(fields, a + [r]) && AllFramed(fields, [r] + a)
    ensures Fold(fields, a + [r], st) == Fold(fields, [r] + a, st)
    decreases |a|
  {
    if a == [] {
      assert a + [r] == [r] + a;
    } else {
      var x, rest := a[0], a[1..];
      Regroup(a, r);
      FoldConcat(fields, [x], rest + [r], st);
      FoldConcat(fields, [x], [r] + rest, st);
      FoldConcat(fields, [x, r], rest, st);
      FoldConcat(fields, [r, x], rest, st);
      RecordsCommute(fields, x, r, st);
      if Fold(fields, [x], st).Some? {
        FoldKeepsLength(fields, [x], st);
        MoveToFront(fields, rest, r, Fold(fields, [x], st).value);
      }
    }
  }

  // ----- Records of the same slot

  lemma IgnoresPrior(f: Field, s: seq<byte>, prior: Value, prior2: Value)
    requires !f.ltype.Submessage?
    ensures DecodeValue(f, s, prior) == DecodeValue(f, s, prior2)
  {
    assert DecodeValue(f, s, prior) == DecodeLeaf(f, s) == DecodeValue(f, s, prior2);
  }

  /** What the step of a field that is no array leaves to overwrite. */
  lemma PutTwice(fields: seq<Field>, i: nat, wt: nat, s: seq<byte>, st: State)
    requires i < |fields| && |st.msg| == |fields| && !fields[i].htype.Repeated?
    requires StepField(fields, i, wt, s, st).Ok?
    ensures var st1 := StepField(fields, i, wt, s, st).value;
            && st1.fixed == st.fixed && st1.count == st.count && st1.seen == st.seen + Marks(fields, i)
            && forall slot :: Put(st1.msg, Leader(fields, i), slot) == Put(st.msg, Leader(fields, i), slot)
  {
    assert fields[i].htype.Oneof? ==> st.seen + Marks(fields, i) == st.seen;
  }

  lemma SlotOverwritten(fields: seq<Field>, i: nat, wi: nat, si: seq<byte>, j: nat, wj: nat, sj: seq<byte>, st: State)
    requires i < |fields| && j < |fields| && |st.msg| == |fields|
    requires Leader(fields, i) == Leader(fields, j)
    requires !fields[j].htype.Repeated? && (fields[j].htype.Oneof? || !fields[j].ltype.Submessage?)
    requires StepField(fields, i, wi, si, st).Ok?
    ensures StepField(fields, j, wj, sj, StepField(fields, i, wi, si, st).value) == StepField(fields, j, wj, sj, st)
  {
    var f, k := fields[j], Leader(fields, j);
    var st1 := StepField(fields, i, wi, si, st).value;
    PutTwice(fields, i, wi, si, st);
    if !f.htype.Oneof? {
      IgnoresPrior(f, sj, ItemOf(Get(st.msg, k)), ItemOf(Get(st1.msg, k)));
    }
    assert StepField(fields, j, wj, sj, st1).Ok? == StepField(fields, j, wj, sj, st).Ok?;
    assert st.seen + Marks(fields, i) + Marks(fields, i) == st.seen + Marks(fields, i);
  }

  /** Last one wins: of two records of a scalar field, or of members of one oneof, the first has no
      effect once it has decoded. Submessages outside oneofs merge instead. */
  lemma LastOneWins(fields: seq<Field>, x: seq<byte>, y: seq<byte>, i: nat, j: nat, st: State)
    requires Framed(fields, x) && Find(fields, ReadTag(x).tag) == Some(i)
    requires Framed(fields, y) && Find(fields, ReadTag(y).tag) == Some(j)
    requires Leader(fields, i) == Leader(fields, j) && |st.msg| == |fields|
    requires !fields[j].htype.Repeated? && (fields[j].htype.Oneof? || !fields[j].ltype.Submessage?)
    requires StepRecord(fields, x, st).Some?
    ensures Fold(fields, [x, y], st) == StepRecord(fields, y, st)
  {
    FoldTwo(fields, x, y, st);
    var st1 := StepRecord(fields, x, st).value;
    var tx, ty := ReadTag(x), ReadTag(y);
    assert StepField(fields, i, tx.wt, tx.left, st).value == st1;
    SlotOverwritten(fields, i, tx.wt, tx.left, j, ty.wt, ty.left, st);
  }

  /** A submessage that is no array. */
  predicate SubmessageField(fields: seq<Field>, i: nat) {
    WellFormed(fields) && i < |fields| && fields[i].ltype.Submessage? && fields[i].ptr.SubFields?
    && !fields[i].htype.Repeated?
  }

  function SubmessageRecord(f: Field, payload: seq<byte>): seq<byte> {
    EncTag(f.tag, WT_STRING) + EncBlock(payload)
  }

  function OldSlots(fields: seq<Field>, i: nat, st: State): seq<Slot>
    requires SubmessageField(fields, i)
  {
    PriorSlots(PriorOf(fields[i], Get(st.msg, i)), fields[i].ptr.fields)
  }

  /** The first run over a submessage's payload. */
  function PayloadRun(fields: seq<Field>, i: nat, payload: seq<byte>, st: State): Run
    requires SubmessageField(fields, i)
  {
    Loop(fields[i].ptr.fields, payload, Start(OldSlots(fields, i, st)))
  }

  /** The effect of decoding a payload onto the old contents. */
  function MergePayload(fields: seq<Field>, i: nat, payload: seq<byte>, st: State): Option<State>
    requires SubmessageField(fields, i)
  {
    var f := fields[i];
    match DecodeNoinit(f.ptr.fields, payload, OldSlots(fields, i, st))
    case Fail => None
    case Ok(m, _) =>
      Some(st.(msg := Put(st.msg, Leader(fields, i),
                          if f.htype.Oneof? then Union(f.tag, Msg(m)) else Single(true, Msg(m))),
               seen := st.seen + Marks(fields, i)))
  }

  lemma SubmessageStep(fields: seq<Field>, i: nat, payload: seq<byte>, st: State)
    requires SubmessageField(fields, i) && |fields| == |st.msg| && |payload| < TWO_32
    ensures Framed(fields, SubmessageRecord(fields[i], payload))
    ensures StepRecord(fields, SubmessageRecord(fields[i], payload), st) == MergePayload(fields, i, payload, st)
  {
    var f := fields[i];
    assert WellFormedField(f);
    TagRoundTrip(f.tag, WT_STRING, EncBlock(payload));
    FindsItself(fields, i);
    BlockRoundTrip(payload, []);
    assert EncBlock(payload) + [] == EncBlock(payload);
    assert SkipField(WT_STRING, EncBlock(payload)) == Ok((), []);
    SingleRecord(fields, i, SubmessageRecord(f, payload), EncBlock(payload), st);
  }

  function MergeBoth(fields: seq<Field>, i: nat, p: seq<byte>, q: seq<byte>, st: State): Option<State>
    requires SubmessageField(fields, i)
  {
    match MergePayload(fields, i, p, st) { case None => None case Some(st1) => MergePayload(fields, i, q, st1) }
  }

  lemma TwoSubmessages(fields: seq<Field>, i: nat, p: seq<byte>, q: seq<byte>, st: State)
    requires SubmessageField(fields, i) && |fields| == |st.msg| && |p| + |q| < TWO_32
    ensures var rs := [SubmessageRecord(fields[i], p), SubmessageRecord(fields[i], q)];
            AllFramed(fields, rs) && Fold(fields, rs, st) == MergeBoth(fields, i, p, q, st)
  {
    SubmessageStep(fields, i, p, st);
    SubmessageStep(fields, i, q, st);
    FoldTwo(fields, SubmessageRecord(fields[i], p), SubmessageRecord(fields[i], q), st);
    if MergePayload(fields, i, p, st).Some? {
      SubmessageStep(fields, i, q, MergePayload(fields, i, p, st).value);
    }
  }

  lemma {:induction false} LoopKeepsLength(fields: seq<Field>, s: seq<byte>, st: State)
    requires |st.msg| == |fields|
    ensures !Loop(fields, s, st).Broken? ==> |Loop(fields, s, st).st.msg| == |fields|
    decreases |s|
  {
    if s != [] && ReadTag(s).Tag? {
      var t := ReadTag(s);
      ReadTagShrinks(s);
      var r := Step(fields, t.tag, t.wt, t.left, st);
      if r.Ok? {
        StepKeepsLength(fields, t.tag, t.wt, t.left, st);
        LoopKeepsLength(fields, r.rest, r.value);
      }
    }
  }

  /** Both payloads have all required fields of the submessage, or the second breaks. */
  predicate BothComplete(fields: seq<Field>, i: nat, p: seq<byte>, q: seq<byte>, st: State)
    requires SubmessageField(fields, i) && PayloadRun(fields, i, p, st).Done?
  {
    var sub := fields[i].ptr.fields;
    var first := PayloadRun(fields, i, p, st).st;
    var second := Loop(sub, q, Start(first.msg));
    Complete(sub, first) && (second.Broken? || Complete(sub, second.st))
  }

  lemma MergeTwice(fields: seq<Field>, i: nat, p: seq<byte>, q: seq<byte>, st: State)
    requires SubmessageField(fields, i) && |fields| == |st.msg| && !fields[i].htype.Oneof?
    requires PayloadRun(fields, i, p, st).Done? && PayloadRun(fields, i, p, st).st.fixed.None?
    ensures MergeBoth(fields, i, p, q, st)
            == if BothComplete(fields, i, p, q, st) then MergePayload(fields, i, p + q, st) else None
  {
    var sub, before := fields[i].ptr.fields, OldSlots(fields, i, st);
    PartsExactly(sub, p, q, before);
    if MergePayload(fields, i, p, st).Some? {
      var st1 := MergePayload(fields, i, p, st).value;
      LoopKeepsLength(sub, p, Start(before));
      assert OldSlots(fields, i, st1) == DecodeNoinit(sub, p, before).value;
      forall slot ensures Put(st1.msg, i, slot) == Put(st.msg, i, slot) {
      }
      assert st.seen + Marks(fields, i) + Marks(fields, i) == st.seen + Marks(fields, i);
    }
  }

  /** Submessages merge: two records of one singular submessage act like one record whose payload is
      the first payload followed by the second, where the first consists of records to its end and
      has no fixed-count array. They fail besides when one of them misses a required field. */
  lemma SubmessagesConcatenate(fields: seq<Field>, i: nat, p: seq<byte>, q: seq<byte>, st: State)
    requires SubmessageField(fields, i) && |fields| == |st.msg| && !fields[i].htype.Oneof?
    requires PayloadRun(fields, i, p, st).Done? && PayloadRun(fields, i, p, st).st.fixed.None?
    requires |p| + |q| < TWO_32
    ensures var f := fields[i];
            var rs := [SubmessageRecord(f, p), SubmessageRecord(f, q)];
            && AllFramed(fields, rs) && Framed(fields, SubmessageRecord(f, p + q))
            && Fold(fields, rs, st) == if BothComplete(fields, i, p, q, st)
                                       then StepRecord(fields, SubmessageRecord(f, p + q), st) else None
  {
    SubmessageStep(fields, i, p + q, st);
    TwoSubmessages(fields, i, p, q, st);
    MergeTwice(fields, i, p, q, st);
  }

  // ----- Which submessages merge

  function FoldFramed(fields: seq<Field>, rs: seq<seq<byte>>, st: State): Option<State> {
    if AllFramed(fields, rs) then Fold(fields, rs, st) else None
  }

  /** Two payloads that submessage i can be given one after the other. */
  predicate InTwoParts(fields: seq<Field>, i: nat, p: seq<byte>, q: seq<byte>, st: State)
    requires SubmessageField(fields, i)
  {
    && |st.msg| == |fields| && |p| + |q| < TWO_32
    && PayloadRun(fields, i, p, st).Done? && PayloadRun(fields, i, p, st).st.fixed.None?
    && FoldFramed(fields, [SubmessageRecord(fields[i], p), SubmessageRecord(fields[i], q)], st).Some?
  }

  /** As the standard has it, whenever two records of submessage i decode, they act like one record
      with the payloads concatenated. */
  ghost predicate Merges(fields: seq<Field>, i: nat)
    requires SubmessageField(fields, i)
  {
    forall p, q, st :: InTwoParts(fields, i, p, q, st) ==>
      FoldFramed(fields, [SubmessageRecord(fields[i], p), SubmessageRecord(fields[i], q)], st)
      == FoldFramed(fields, [SubmessageRecord(fields[i], p + q)], st)
  }

  lemma SingularMerges(fields: seq<Field>, i: nat)
    requires SubmessageField(fields, i) && !fields[i].htype.Oneof?
    ensures Merges(fields, i)
  {
    forall p, q, st | InTwoParts(fields, i, p, q, st)
      ensures FoldFramed(fields, [SubmessageRecord(fields[i], p), SubmessageRecord(fields[i], q)], st)
              == FoldFramed(fields, [SubmessageRecord(fields[i], p + q)], st)
    {
      SubmessagesConcatenate(fields, i, p, q, st);
      FoldOne(fields, SubmessageRecord(fields[i], p + q), st);
    }
  }

  /** An optional bool with a has-flag, and a oneof with a submessage of that. */
  function FlagOnly(): seq<Field> {
    [Field(1, Bool, Optional, Static, 1, -1, 1, 0, Null)]
  }

  function OneofOfFlag(): seq<Field> {
    [Field(1, Submessage, Oneof, Static, 4, -4, 2, 0, SubFields(FlagOnly()))]
  }

  lemma FlagIsWellFormed()
    ensures WellFormed(FlagOnly()) && SubmessageField(OneofOfFlag(), 0)
    ensures Defaults(FlagOnly()) == [Single(false, Num(0))]
  {
    assert HoldsLeaf(FlagOnly()[0], Num(0));
    assert WellFormedField(FlagOnly()[0]);
    assert WellFormedField(OneofOfFlag()[0]);
  }

  lemma FlagDecodes()
    ensures var p: seq<byte> := [0x08, 0x01];
            && Loop(FlagOnly(), p, Start(Defaults(FlagOnly()))).Done?
            && Loop(FlagOnly(), p, Start(Defaults(FlagOnly()))).st.fixed.None?
            && DecodeNoinit(FlagOnly(), p, Defaults(FlagOnly())) == Ok([Single(true, Num(1))], [])
            && DecodeNoinit(FlagOnly(), [], Defaults(FlagOnly())) == Ok([Single(false, Num(0))], [])
  {
    var p: seq<byte> := [0x08, 0x01];
    var sub, st := FlagOnly(), Start(Defaults(FlagOnly()));
    FlagIsWellFormed();
    assert p[1..] == [0x01] && p[1..][1..] == [];
    assert ReadTag(p) == Tag(1, WT_VARINT, [0x01]);
    assert Find(sub, 1) == Some(0);
    assert DecodeLeaf(sub[0], [0x01]) == Ok(Num(1), []);
    assert Step(sub, 1, WT_VARINT, [0x01], st) == StepField(sub, 0, WT_VARINT, [0x01], st);
    assert Loop(sub, p, st) == Done(State([Single(true, Num(1))], {}, None, 0));
  }

  lemma OneofStep(payload: seq<byte>, m: seq<Slot>, slot: Slot)
    requires SubmessageField(OneofOfFlag(), 0)
    requires DecodeNoinit(FlagOnly(), payload, Defaults(FlagOnly())) == Ok(m, [])
    ensures MergePayload(OneofOfFlag(), 0, payload, Start([slot])) == Some(Start([Union(1, Msg(m))]))
    ensures OldSlots(OneofOfFlag(), 0, Start([slot])) == Defaults(FlagOnly())
  {
    var fields := OneofOfFlag();
    assert fields[0].ptr.fields == FlagOnly();
    assert Marks(fields, 0) == {} && Leader(fields, 0) == 0;
    assert Put([slot], 0, Union(1, Msg(m))) == [Union(1, Msg(m))];
    assert Start([slot]).seen + Marks(fields, 0) == Start([slot]).seen;
  }

  /** In a oneof the second record replaces the first, though the member is the same: the flag that
      the first one set is gone. */
  lemma OneofReplaces()
    ensures SubmessageField(OneofOfFlag(), 0)
    ensures var fields := OneofOfFlag();
            var p: seq<byte> := [0x08, 0x01];
            var st := Start([Union(0, Garbage)]);
            && InTwoParts(fields, 0, p, [], st)
            && FoldFramed(fields, [SubmessageRecord(fields[0], p), SubmessageRecord(fields[0], [])], st)
               == Some(Start([Union(1, Msg([Single(false, Num(0))]))]))
            && FoldFramed(fields, [SubmessageRecord(fields[0], p + [])], st)
               == Some(Start([Union(1, Msg([Single(true, Num(1))]))]))
  {
    var fields := OneofOfFlag();
    var p: seq<byte> := [0x08, 0x01];
    var st := Start([Union(0, Garbage)]);
    FlagIsWellFormed();
    FlagDecodes();
    assert p + [] == p;
    OneofStep(p, [Single(true, Num(1))], Union(0, Garbage));
    OneofStep([], [Single(false, Num(0))], Union(1, Msg([Single(true, Num(1))])));
    TwoSubmessages(fields, 0, p, [], st);
    SubmessageStep(fields, 0, p, st);
    FoldOne(fields, SubmessageRecord(fields[0], p), st);
  }

  /** The code keeps the standard's rule for all submessages of one kind exactly when they are not
      members of a oneof. */
  lemma MergesExactly(h: HType)
    requires !h.Repeated?
    ensures (forall fields: seq<Field>, i: nat ::
              SubmessageField(fields, i) && fields[i].htype == h ==> Merges(fields, i))
            <==> !h.Oneof?
  {
    if h.Oneof? {
      OneofReplaces();
      assert !Merges(OneofOfFlag(), 0);
    } else {
      forall fields: seq<Field>, i: nat | SubmessageField(fields, i) && fields[i].htype == h ensures Merges(fields, i) {
        SingularMerges(fields, i);
      }
    }
  }

  // ----- Projections

  lemma Associative<T>(a: seq<T>, b: seq<T>, c: seq<T>)
    ensures a + (b + c) == a + b + c
  {
  }

  lemma {:induction false} ProjectConcat(fields: seq<Field>, a: seq<seq<byte>>, b: seq<seq<byte>>, lane: Lane)
    ensures Project(fields, a + b, lane) == Project(fields, a, lane) + Project(fields, b, lane)
    decreases |a|
  {
    if a == [] {
      assert a + b == b;
    } else {
      var first, others := a[0], a[1..];
      var ab := a + b;
      ProjectConcat(fields, others, b, lane);
      assert ab[0] == first && ab[1..] == others + b;
      var head := if LaneOf(fields, first) == lane then [first] else [];
      assert Project(fields, ab, lane) == head + Project(fields, others + b, lane);
      Associative(head, Project(fields, others, lane), Project(fields, b, lane));
    }
  }

  /** The first record of a lane, with what precedes and follows it. */
  lemma {:induction false} FirstOfLane(fields: seq<Field>, rs: seq<seq<byte>>, lane: Lane) returns (n: nat)
    requires Project(fields, rs, lane) != []
    ensures n < |rs| && rs[n] == Project(fields, rs, lane)[0] && LaneOf(fields, rs[n]) == lane
    ensures AvoidsLane(fields, rs[..n], lane)
    decreases |rs|
  {
    if LaneOf(fields, rs[0]) == lane {
      n := 0;
    } else {
      var m := FirstOfLane(fields, rs[1..], lane);
      n := m + 1;
      forall j | 0 <= j < n ensures LaneOf(fields, rs[..n][j]) != lane {
        if j > 0 {
          assert rs[..n][j] == rs[1..][..m][j - 1];
        }
      }
    }
  }

  lemma {:induction false} ProjectAvoided(fields: seq<Field>, rs: seq<seq<byte>>, lane: Lane)
    requires AvoidsLane(fields, rs, lane)
    ensures Project(fields, rs, lane) == []
    decreases |rs|
  {
    if rs != [] {
      ProjectAvoided(fields, rs[1..], lane);
    }
  }

  /** Two lists of records agree lane by lane; records of unknown fields do not count. */
  ghost predicate SameLanes(fields: seq<Field>, rs: seq<seq<byte>>, qs: seq<seq<byte>>) {
    forall lane: Lane :: lane != Nowhere ==> Project(fields, rs, lane) == Project(fields, qs, lane)
  }

  lemma LaneIsUsed(fields: seq<Field>, rs: seq<seq<byte>>)
    requires rs != []
    ensures Project(fields, rs, LaneOf(fields, rs[0])) != []
  {
  }

  lemma UnknownFirst(fields: seq<Field>, rs: seq<seq<byte>>, st: State)
    requires AllFramed(fields, rs) && rs != [] && LaneOf(fields, rs[0]) == Nowhere && fields != []
    ensures AllFramed(fields, rs[1..])
    ensures Fold(fields, rs, st) == Fold(fields, rs[1..], st)
    ensures forall lane: Lane :: lane != Nowhere ==> Project(fields, rs, lane) == Project(fields, rs[1..], lane)
  {
  }

  lemma Split<T>(qs: seq<T>, n: nat)
    requires n < |qs|
    ensures qs == (qs[..n] + [qs[n]]) + qs[n + 1..]
    ensures [qs[n]] + (qs[..n] + qs[n + 1..]) == ([qs[n]] + qs[..n]) + qs[n + 1..]
  {
  }

  lemma PullFront(fields: seq<Field>, qs: seq<seq<byte>>, n: nat, st: State)
    requires AllFramed(fields, qs) && n < |qs| && |st.msg| == |fields|
    requires AvoidsLane(fields, qs[..n], LaneOf(fields, qs[n]))
    ensures AllFramed(fields, [qs[n]] + (qs[..n] + qs[n + 1..]))
    ensures Fold(fields, qs, st) == Fold(fields, [qs[n]] + (qs[..n] + qs[n + 1..]), st)
  {
    var a, r, b := qs[..n], qs[n], qs[n + 1..];
    Split(qs, n);
    MoveToFront(fields, a, r, st);
    FoldConcat(fields, a + [r], b, st);
    FoldConcat(fields, [r] + a, b, st);
  }

  lemma ProjectHead(fields: seq<Field>, rs: seq<seq<byte>>, lane: Lane)
    requires rs != []
    ensures lane == LaneOf(fields, rs[0]) ==>
              Project(fields, rs, lane) != [] && Project(fields, rs, lane)[1..] == Project(fields, rs[1..], lane)
    ensures lane != LaneOf(fields, rs[0]) ==> Project(fields, rs, lane) == Project(fields, rs[1..], lane)
  {
  }

  lemma ProjectWithout(fields: seq<Field>, qs: seq<seq<byte>>, n: nat, lane: Lane)
    requires n < |qs|
    requires AvoidsLane(fields, qs[..n], LaneOf(fields, qs[n]))
    ensures lane == LaneOf(fields, qs[n]) ==>
              && Project(fields, qs, lane) != []
              && Project(fields, qs, lane)[1..] == Project(fields, qs[..n] + qs[n + 1..], lane)
    ensures lane != LaneOf(fields, qs[n]) ==> Project(fields, qs, lane) == Project(fields, qs[..n] + qs[n + 1..], lane)
  {
    var a, b := qs[..n], qs[n..];
    assert b[0] == qs[n] && b[1..] == qs[n + 1..] && qs == a + b;
    ProjectConcat(fields, a, b, lane);
    ProjectConcat(fields, a, b[1..], lane);
    ProjectHead(fields, b, lane);
    if lane == LaneOf(fields, qs[n]) {
      ProjectAvoided(fields, a, lane);
    }
  }

  lemma RemoveFirst(fields: seq<Field>, rs: seq<seq<byte>>, qs: seq<seq<byte>>, n: nat)
    requires SameLanes(fields, rs, qs)
    requires rs != [] && n < |qs| && rs[0] == qs[n]
    requires AvoidsLane(fields, qs[..n], LaneOf(fields, qs[n]))
    ensures SameLanes(fields, rs[1..], qs[..n] + qs[n + 1..])
  {
    forall lane: Lane | lane != Nowhere
      ensures Project(fields, rs[1..], lane) == Project(fields, qs[..n] + qs[n + 1..], lane)
    {
      assert Project(fields, rs, lane) == Project(fields, qs, lane);
      ProjectHead(fields, rs, lane);
      ProjectWithout(fields, qs, n, lane);
    }
  }

  /** Field-order independence: any two arrangements of records that keep the order within every
      lane have the same effect. Records of different slots, unknown records anywhere, and one
      fixed-count array among other fields may all be exchanged. */
  lemma {:induction false} OrderIndependence(fields: seq<Field>, rs: seq<seq<byte>>, qs: seq<seq<byte>>, st: State)
    requires fields != [] && |st.msg| == |fields|
    requires AllFramed(fields, rs) && AllFramed(fields, qs) && SameLanes(fields, rs, qs)
    ensures Fold(fields, rs, st) == Fold(fields, qs, st)
    decreases |rs| + |qs|
  {
    if rs == [] {
      if qs != [] {
        LaneIsUsed(fields, qs);
        if LaneOf(fields, qs[0]) != Nowhere {
          assert false;
        }
        UnknownFirst(fields, qs, st);
        OrderIndependence(fields, rs, qs[1..], st);
      }
    } else if LaneOf(fields, rs[0]) == Nowhere {
      UnknownFirst(fields, rs, st);
      OrderIndependence(fields, rs[1..], qs, st);
    } else {
      var r := rs[0];
      var lane := LaneOf(fields, r);
      assert Project(fields, rs, lane)[0] == r;
      var n := FirstOfLane(fields, qs, lane);
      RemoveFirst(fields, rs, qs, n);
      var a, b := qs[..n], qs[n + 1..];
      PullFront(fields, qs, n, st);
      FoldConcat(fields, [r], rs[1..], st);
      FoldConcat(fields, [r], a + b, st);
      assert rs == [r] + rs[1..];
      if Fold(fields, [r], st).Some? {
        FoldKeepsLength(fields, [r], st);
        OrderIndependence(fields, rs[1..], a + b, Fold(fields, [r], st).value);
      }
    }
  }

  /** Decoding two messages whose records differ only in their arrangement, before any further
      bytes: same success, same message, same bytes left. */
  lemma ReorderedMessagesDecodeAlike(fields: seq<Field>, rs: seq<seq<byte>>, qs: seq<seq<byte>>, rest: seq<byte>,
                                     msg: seq<Slot>)
    requires fields != [] && |msg| == |fields|
    requires AllFramed(fields, rs) && AllFramed(fields, qs) && SameLanes(fields, rs, qs)
    ensures DecodeNoinit(fields, Flatten(rs) + rest, msg) == DecodeNoinit(fields, Flatten(qs) + rest, msg)
  {
    LoopFold(fields, rs, rest, Start(msg));
    LoopFold(fields, qs, rest, Start(msg));
    OrderIndependence(fields, rs, qs, Start(msg));
  }

  lemma TwoRecords(fields: seq<Field>, x: seq<byte>, y: seq<byte>, rest: seq<byte>, st: State)
    requires Framed(fields, x) && Framed(fields, y)
    ensures Loop(fields, x + y + rest, st) ==
            match Fold(fields, [x, y], st) { case None => Broken case Some(st') => Loop(fields, rest, st') }
  {
    assert x + y + rest == x + (y + rest);
    LoopRecord(fields, x, y + rest, st);
    FoldTwo(fields, x, y, st);
    match StepRecord(fields, x, st)
    case None =>
    case Some(st1) => LoopRecord(fields, y, rest, st1);
  }

  lemma AfterPrefix(fields: seq<Field>, before: seq<seq<byte>>, x: seq<byte>, y: seq<byte>, rest: seq<byte>, st: State)
    requires AllFramed(fields, before) && Framed(fields, x) && Framed(fields, y)
    ensures Loop(fields, Flatten(before) + x + y + rest, st) ==
            match Fold(fields, before, st)
            case None => Broken
            case Some(st1) =>
              match Fold(fields, [x, y], st1) { case None => Broken case Some(st2) => Loop(fields, rest, st2) }
  {
    assert Flatten(before) + x + y + rest == Flatten(before) + (x + y + rest);
    LoopFold(fields, before, x + y + rest, st);
    match Fold(fields, before, st)
    case None =>
    case Some(st1) => TwoRecords(fields, x, y, rest, st1);
  }

  /** In particular two neighbouring records of different lanes can be swapped anywhere. */
  lemma SwapNeighbours(fields: seq<Field>, before: seq<seq<byte>>, x: seq<byte>, y: seq<byte>, rest: seq<byte>,
                       msg: seq<Slot>)
    requires |msg| == |fields|
    requires AllFramed(fields, before) && Framed(fields, x) && Framed(fields, y)
    requires LaneOf(fields, x) != LaneOf(fields, y)
    ensures DecodeNoinit(fields, Flatten(before) + x + y + rest, msg)
            == DecodeNoinit(fields, Flatten(before) + y + x + rest, msg)
  {
    AfterPrefix(fields, before, x, y, rest, Start(msg));
    AfterPrefix(fields, before, y, x, rest, Start(msg));
    if Fold(fields, before, Start(msg)).Some? {
      FoldKeepsLength(fields, before, Start(msg));
      RecordsCommute(fields, x, y, Fold(fields, before, Start(msg)).value);
    }
  }
}
