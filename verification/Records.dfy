/** How decoding follows the records of a message: concatenation, truncation, unknown fields. */
module Records {
  import opened Basics
  import opened Varint
  import opened Descriptor
  import opened Leaf
  import opened DecodeSpec

  // ----- Every decoder stops where the frame ends, and ignores what follows

  lemma ValueSkips(f: Field, s: seq<byte>, prior: Value)
    requires DecodeValue(f, s, prior).Ok?
    ensures SkipField(WireType(f.ltype), s) == Ok((), DecodeValue(f, s, prior).rest)
  {
    if !f.ltype.Submessage? {
      LeafSkips(f, s);
    }
  }

  lemma ValueExtend(f: Field, s: seq<byte>, prior: Value, more: seq<byte>)
    requires SkipField(WireType(f.ltype), s).Ok?
    ensures DecodeValue(f, s + more, prior) == Extend(DecodeValue(f, s, prior), more)
  {
    if f.ltype.Submessage? {
      ReadBlockExtend(s, more);
    } else {
      LeafExtend(f, s, more);
    }
  }

  lemma ItemsSkip(f: Field, wt: nat, s: seq<byte>, room: nat)
    requires f.htype.Repeated? && DecodeItems(f, wt, s, room).Ok?
    ensures SkipField(FieldFrame(f, wt), s) == Ok((), DecodeItems(f, wt, s, room).rest)
  {
    if !PackedRecord(f, wt) {
      ValueSkips(f, s, Garbage);
    }
  }

  lemma ItemsExtend(f: Field, wt: nat, s: seq<byte>, room: nat, more: seq<byte>)
    requires f.htype.Repeated? && SkipField(FieldFrame(f, wt), s).Ok?
    ensures DecodeItems(f, wt, s + more, room) == Extend(DecodeItems(f, wt, s, room), more)
  {
    if PackedRecord(f, wt) {
      ReadBlockExtend(s, more);
    } else {
      ValueExtend(f, s, Garbage, more);
    }
  }

  lemma StepFieldSkips(fields: seq<Field>, i: nat, wt: nat, s: seq<byte>, st: State)
    requires i < |fields| && StepField(fields, i, wt, s, st).Ok?
    ensures SkipField(FieldFrame(fields[i], wt), s) == Ok((), StepField(fields, i, wt, s, st).rest)
  {
    var f := fields[i];
    var slot := Get(st.msg, Leader(fields, i));
    if FixedCount(f) {
      ItemsSkip(f, wt, s, Room(f, EnterFixed(fields, i, st).value.count));
    } else if f.htype.Repeated? {
      ItemsSkip(f, wt, s, Room(f, |ItemsOf(slot)|));
    } else {
      ValueSkips(f, s, if f.htype.Oneof? then Garbage else ItemOf(slot));
    }
  }

  lemma StepFixedExtend(fields: seq<Field>, i: nat, wt: nat, s: seq<byte>, st: State, more: seq<byte>)
    requires i < |fields| && FixedCount(fields[i]) && SkipField(FieldFrame(fields[i], wt), s).Ok?
    ensures StepField(fields, i, wt, s + more, st) == Extend(StepField(fields, i, wt, s, st), more)
  {
    if EnterFixed(fields, i, st).Some? {
      ItemsExtend(fields[i], wt, s, Room(fields[i], EnterFixed(fields, i, st).value.count), more);
    }
  }

  lemma StepFieldExtend(fields: seq<Field>, i: nat, wt: nat, s: seq<byte>, st: State, more: seq<byte>)
    requires i < |fields| && SkipField(FieldFrame(fields[i], wt), s).Ok?
    ensures StepField(fields, i, wt, s + more, st) == Extend(StepField(fields, i, wt, s, st), more)
  {
    var f := fields[i];
    var slot := Get(st.msg, Leader(fields, i));
    if FixedCount(f) {
      StepFixedExtend(fields, i, wt, s, st, more);
    } else if f.htype.Repeated? {
      ItemsExtend(f, wt, s, Room(f, |ItemsOf(slot)|), more);
    } else {
      ValueExtend(f, s, if f.htype.Oneof? then Garbage else ItemOf(slot), more);
    }
  }

  lemma StepSkips(fields: seq<Field>, tag: nat, wt: nat, s: seq<byte>, st: State)
    requires Step(fields, tag, wt, s, st).Ok?
    ensures SkipField(Frame(fields, tag, wt), s) == Ok((), Step(fields, tag, wt, s, st).rest)
  {
    match Find(fields, tag)
    case Some(i) => StepFieldSkips(fields, i, wt, s, st);
    case None =>
      if fields == [] && tag == 0 {
        ReadVarint32Span(s);
      }
  }

  lemma StepExtend(fields: seq<Field>, tag: nat, wt: nat, s: seq<byte>, st: State, more: seq<byte>)
    requires SkipField(Frame(fields, tag, wt), s).Ok?
    ensures Step(fields, tag, wt, s + more, st) == Extend(Step(fields, tag, wt, s, st), more)
  {
    match Find(fields, tag)
    case Some(i) => StepFieldExtend(fields, i, wt, s, st, more);
    case None =>
      if fields == [] && tag == 0 {
        ReadVarint32Extend(s, more);
      } else {
        SkipExtend(wt, s, more);
      }
  }

  // ----- Records one by one

  /** The effect of one complete record. */
  function StepRecord(fields: seq<Field>, r: seq<byte>, st: State): Option<State>
    requires Framed(fields, r)
  {
    var t := ReadTag(r);
    match Step(fields, t.tag, t.wt, t.left, st)
    case Fail => None
    case Ok(st', _) => Some(st')
  }

  function Fold(fields: seq<Field>, rs: seq<seq<byte>>, st: State): Option<State>
    requires AllFramed(fields, rs)
  {
    if rs == [] then Some(st)
    else match StepRecord(fields, rs[0], st)
      case None => None
      case Some(st') => assert AllFramed(fields, rs[1..]); Fold(fields, rs[1..], st')
  }

  /** A complete record at the front of the bytes is consumed exactly, or the run breaks. */
  lemma LoopRecord(fields: seq<Field>, r: seq<byte>, rest: seq<byte>, st: State)
    requires Framed(fields, r)
    ensures Loop(fields, r + rest, st) ==
            match StepRecord(fields, r, st) { case None => Broken case Some(st') => Loop(fields, rest, st') }
  {
    var t := ReadTag(r);
    ReadTagExtend(r, rest);
    StepExtend(fields, t.tag, t.wt, t.left, st, rest);
    if Step(fields, t.tag, t.wt, t.left, st).Ok? {
      StepSkips(fields, t.tag, t.wt, t.left, st);
      assert [] + rest == rest;
    }
  }

  /** Running over a list of complete records is taking their effects in order. */
  lemma {:induction false} LoopFold(fields: seq<Field>, rs: seq<seq<byte>>, rest: seq<byte>, st: State)
    requires AllFramed(fields, rs)
    ensures Loop(fields, Flatten(rs) + rest, st) ==
            match Fold(fields, rs, st) { case None => Broken case Some(st') => Loop(fields, rest, st') }
    decreases |rs|
  {
    if rs == [] {
      assert Flatten(rs) + rest == rest;
    } else {
      assert Flatten(rs) + rest == rs[0] + (Flatten(rs[1..]) + rest);
      LoopRecord(fields, rs[0], Flatten(rs[1..]) + rest, st);
      match StepRecord(fields, rs[0], st)
      case None =>
      case Some(st') => LoopFold(fields, rs[1..], rest, st');
    }
  }

  /** And without anything behind them, the run ends there. */
  lemma LoopRecords(fields: seq<Field>, rs: seq<seq<byte>>, st: State)
    requires AllFramed(fields, rs)
    ensures Loop(fields, Flatten(rs), st) ==
            match Fold(fields, rs, st) { case None => Broken case Some(st') => Done(st') }
  {
    assert Flatten(rs) + [] == Flatten(rs);
    LoopFold(fields, rs, [], st);
  }

  lemma {:induction false} FoldConcat(fields: seq<Field>, a: seq<seq<byte>>, b: seq<seq<byte>>, st: State)
    requires AllFramed(fields, a) && AllFramed(fields, b)
    ensures AllFramed(fields, a + b)
    ensures Fold(fields, a + b, st) ==
            match Fold(fields, a, st) { case None => None case Some(st1) => Fold(fields, b, st1) }
    decreases |a|
  {
    if a == [] {
      assert a + b == b;
    } else {
      assert (a + b)[1..] == a[1..] + b;
      match StepRecord(fields, a[0], st)
      case None => FoldConcat(fields, a[1..], b, st);
      case Some(st1) => FoldConcat(fields, a[1..], b, st1);
    }
  }

  // ----- Unknown fields

  /** Dropping a record of an unknown field changes nothing, wherever it stands: the loop reaches
      the same state, or breaks or stops as it would have. The one exception is tag 0 in a message
      without fields. */
  lemma UnknownRecordIsTransparent(fields: seq<Field>, before: seq<seq<byte>>, r: seq<byte>, rest: seq<byte>, st: State)
    requires AllFramed(fields, before) && Framed(fields, r)
    requires Find(fields, ReadTag(r).tag).None?
    requires !(fields == [] && ReadTag(r).tag == 0)
    ensures Loop(fields, Flatten(before) + r + rest, st) == Loop(fields, Flatten(before) + rest, st)
  {
    assert Flatten(before) + r + rest == Flatten(before) + (r + rest);
    LoopFold(fields, before, r + rest, st);
    LoopFold(fields, before, rest, st);
    if Fold(fields, before, st).Some? {
      LoopRecord(fields, r, rest, Fold(fields, before, st).value);
    }
  }

  /** The exception: without fields, a record of tag 0 is read as a bool whatever its wire type
      says. Such a record of eight bytes, which any other message would skip, does not decode. */
  lemma TagZeroInEmptyMessage()
    ensures var r := [0x01, 0x80, 0x80, 0x80, 0x80, 0x80, 0x80, 0x80, 0x80];
            && ReadTag(r) == Tag(0, WT_64BIT, r[1..]) && SkipField(WT_64BIT, r[1..]) == Ok((), [])
            && DecodeNoinit([], r, []).Fail? && DecodeNoinit([], [], []).Ok?
  {
    var r: seq<byte> := [0x01, 0x80, 0x80, 0x80, 0x80, 0x80, 0x80, 0x80, 0x80];
    var p := r[1..];
    assert r[1..][8..] == [];
    NoVarint(p);
    if ReadVarint32(p).Ok? {
      ReadVarint32Span(p);
    }
    assert Step([], 0, WT_64BIT, p, Start([])).Fail?;
    assert Loop([], r, Start([])).Broken?;
  }

  /** A complete record by its own wire type. */
  predicate Skippable(r: seq<byte>, tag: nat) {
    ReadTag(r).Tag? && ReadTag(r).tag == tag && SkipField(ReadTag(r).wt, ReadTag(r).left) == Ok((), [])
  }

  ghost predicate Transparent(fields: seq<Field>, tag: nat) {
    forall r, rest, msg :: Skippable(r, tag) ==> DecodeNoinit(fields, r + rest, msg) == DecodeNoinit(fields, rest, msg)
  }

  lemma NotTransparent() returns (r: seq<byte>)
    ensures Skippable(r, 0) && DecodeNoinit([], r, []) != DecodeNoinit([], [], [])
  {
    TagZeroInEmptyMessage();
    r := [0x01, 0x80, 0x80, 0x80, 0x80, 0x80, 0x80, 0x80, 0x80];
  }

  lemma SkippedInFront(fields: seq<Field>, r: seq<byte>, rest: seq<byte>, msg: seq<Slot>)
    requires ReadTag(r).Tag? && Skippable(r, ReadTag(r).tag)
    requires Find(fields, ReadTag(r).tag).None? && !(fields == [] && ReadTag(r).tag == 0)
    ensures DecodeNoinit(fields, r + rest, msg) == DecodeNoinit(fields, rest, msg)
  {
    UnknownRecordIsTransparent(fields, [], r, rest, Start(msg));
    assert Flatten([]) == [];
    assert [] + r == r && [] + rest == rest;
  }

  /** So the records of an unknown tag may be left out of every message exactly when the message
      has fields or the tag is not 0. */
  lemma TransparentExactly(fields: seq<Field>, tag: nat)
    requires Find(fields, tag).None?
    ensures Transparent(fields, tag) <==> !(fields == [] && tag == 0)
  {
    if fields == [] && tag == 0 {
      var r := NotTransparent();
      assert r + [] == r;
    } else {
      forall r, rest, msg | Skippable(r, tag)
        ensures DecodeNoinit(fields, r + rest, msg) == DecodeNoinit(fields, rest, msg)
      {
        SkippedInFront(fields, r, rest, msg);
      }
    }
  }

  // ----- Truncation

  lemma CutRecordBreaks(fields: seq<Field>, q: seq<byte>, missing: seq<byte>, st: State)
    requires q != [] && missing != []
    requires Framed(fields, q + missing)
    ensures Loop(fields, q, st).Broken?
  {
    var t := ReadTag(q);
    if !t.Bad? {
      ReadTagExtend(q, missing);
      if t.Tag? && Step(fields, t.tag, t.wt, t.left, st).Ok? {
        StepSkips(fields, t.tag, t.wt, t.left, st);
        SkipExtend(Frame(fields, t.tag, t.wt), t.left, missing);
        assert false;
      }
    }
  }

  /** Bytes that end inside a record break the run: a cut is never taken for the message's end. */
  lemma TruncationIsDetected(fields: seq<Field>, before: seq<seq<byte>>, r: seq<byte>, cut: nat, st: State)
    requires AllFramed(fields, before) && Framed(fields, r)
    requires 0 < cut < |r|
    ensures Loop(fields, Flatten(before) + r[..cut], st).Broken?
  {
    LoopFold(fields, before, r[..cut], st);
    if Fold(fields, before, st).Some? {
      assert r[..cut] + r[cut..] == r;
      CutRecordBreaks(fields, r[..cut], r[cut..], Fold(fields, before, st).value);
    }
  }

  // ----- Concatenation

  /** A run over a that consumes it to the end continues into whatever follows. */
  lemma {:induction false} LoopAppend(fields: seq<Field>, a: seq<byte>, b: seq<byte>, st: State)
    requires Loop(fields, a, st).Done?
    ensures Loop(fields, a + b, st) == Loop(fields, b, Loop(fields, a, st).st)
    decreases |a|
  {
    if a == [] {
      assert a + b == b;
    } else {
      var t := ReadTag(a);
      ReadTagExtend(a, b);
      ReadTagShrinks(a);
      StepSkips(fields, t.tag, t.wt, t.left, st);
      StepExtend(fields, t.tag, t.wt, t.left, st, b);
      var r := Step(fields, t.tag, t.wt, t.left, st);
      LoopAppend(fields, r.rest, b, r.value);
    }
  }

  /** The same state with more required fields already seen. */
  function SeenToo(st: State, seen: set<nat>): State {
    st.(seen := seen + st.seen)
  }

  function RunSeenToo(run: Run, seen: set<nat>): Run {
    match run
    case Broken => Broken
    case Done(st) => Done(SeenToo(st, seen))
    case Stopped(st, left) => Stopped(SeenToo(st, seen), left)
  }

  lemma StepSeen(fields: seq<Field>, tag: nat, wt: nat, s: seq<byte>, st: State, seen: set<nat>)
    ensures Step(fields, tag, wt, s, SeenToo(st, seen)) ==
            match Step(fields, tag, wt, s, st) { case Fail => Fail case Ok(st', rest) => Ok(SeenToo(st', seen), rest) }
  {
    match Find(fields, tag)
    case None =>
      assert seen + (st.seen + {0}) == seen + st.seen + {0};
    case Some(i) =>
      var f := fields[i];
      assert seen + (st.seen + Marks(fields, i)) == seen + st.seen + Marks(fields, i);
      if FixedCount(f) {
        assert FixedComplete(fields, SeenToo(st, seen)) == FixedComplete(fields, st);
      }
  }

  lemma {:induction false} LoopSeen(fields: seq<Field>, s: seq<byte>, st: State, seen: set<nat>)
    ensures Loop(fields, s, SeenToo(st, seen)) == RunSeenToo(Loop(fields, s, st), seen)
    decreases |s|
  {
    if s != [] {
      var t := ReadTag(s);
      if t.Tag? {
        ReadTagShrinks(s);
        StepSeen(fields, t.tag, t.wt, t.left, st, seen);
        var r := Step(fields, t.tag, t.wt, t.left, st);
        if r.Ok? {
          LoopSeen(fields, r.rest, r.value, seen);
        }
      }
    }
  }

  lemma StepFixed(fields: seq<Field>, tag: nat, wt: nat, s: seq<byte>, st: State)
    requires Step(fields, tag, wt, s, st).Ok? && Step(fields, tag, wt, s, st).value.fixed.None?
    ensures st.fixed.None? && Step(fields, tag, wt, s, st).value.count == st.count
  {
    match Find(fields, tag)
    case None =>
    case Some(i) =>
      assert Step(fields, tag, wt, s, st) == StepField(fields, i, wt, s, st);
  }

  /** As long as no fixed-count array has been received, its count is untouched. */
  lemma {:induction false} LoopFixed(fields: seq<Field>, s: seq<byte>, st: State)
    requires !Loop(fields, s, st).Broken? && Loop(fields, s, st).st.fixed.None?
    ensures st.fixed.None? && Loop(fields, s, st).st.count == st.count
    decreases |s|
  {
    if s != [] {
      var t := ReadTag(s);
      if t.Tag? {
        ReadTagShrinks(s);
        var r := Step(fields, t.tag, t.wt, t.left, st);
        LoopFixed(fields, r.rest, r.value);
        StepFixed(fields, t.tag, t.wt, t.left, st);
      }
    }
  }

  /** What a second part finds when it is decoded into the same struct by a run that goes on: the
      struct and the fixed-count array that is being received, but no marks. */
  function Resume(st: State): State {
    State(st.msg, {}, st.fixed, st.count)
  }

  /** The outcome on a concatenation, success or failure, told from a run over each part: the second
      one resumes the fixed-count array of the first, and the required fields of both count. */
  lemma ConcatenationSplits(fields: seq<Field>, a: seq<byte>, b: seq<byte>, msg: seq<Slot>)
    requires Loop(fields, a, Start(msg)).Done?
    ensures var st := Loop(fields, a, Start(msg)).st;
            && DecodeNoinit(fields, a + b, msg) == Finish(fields, RunSeenToo(Loop(fields, b, Resume(st)), st.seen))
            && (st.fixed.None? ==> Resume(st) == Start(st.msg))
  {
    var st := Loop(fields, a, Start(msg)).st;
    LoopAppend(fields, a, b, Start(msg));
    LoopSeen(fields, b, Resume(st), st.seen);
    assert SeenToo(Resume(st), st.seen) == st;
    if st.fixed.None? {
      LoopFixed(fields, a, Start(msg));
    }
  }

  /** Merging: decoding a and then b into the same struct is decoding their concatenation, where a
      has received no fixed-count array and has no zero tag. The concatenation needs each required
      field only once, in either part. */
  lemma MergeByConcatenation(fields: seq<Field>, a: seq<byte>, b: seq<byte>, msg: seq<Slot>)
    requires Loop(fields, a, Start(msg)).Done? && Loop(fields, a, Start(msg)).st.fixed.None?
    requires DecodeNoinit(fields, a, msg).Ok?
    requires DecodeNoinit(fields, b, DecodeNoinit(fields, a, msg).value).Ok?
    ensures DecodeNoinit(fields, a + b, msg) == DecodeNoinit(fields, b, DecodeNoinit(fields, a, msg).value)
  {
    ConcatenationSplits(fields, a, b, msg);
  }

  /** And of both parts by themselves, exactly when each has all required fields; a second part
      without them may be completed by the first only in the concatenation. */
  lemma PartsExactly(fields: seq<Field>, a: seq<byte>, b: seq<byte>, msg: seq<Slot>)
    requires Loop(fields, a, Start(msg)).Done? && Loop(fields, a, Start(msg)).st.fixed.None?
    ensures var st := Loop(fields, a, Start(msg)).st;
            var run := Loop(fields, b, Start(st.msg));
            var both := if DecodeNoinit(fields, a, msg).Fail? then Fail else DecodeNoinit(fields, b, st.msg);
            both == if Complete(fields, st) && (run.Broken? || Complete(fields, run.st))
                    then DecodeNoinit(fields, a + b, msg) else Fail
  {
    var st := Loop(fields, a, Start(msg)).st;
    ConcatenationSplits(fields, a, b, msg);
    var run := Loop(fields, b, Start(st.msg));
    if !run.Broken? && Complete(fields, run.st) {
      assert FixedComplete(fields, SeenToo(run.st, st.seen)) == FixedComplete(fields, run.st);
    }
  }
}
