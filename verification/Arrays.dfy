/** Arrays on the wire: packed and unpacked records of one array, and fixed-count arrays. */
module Arrays {
  import opened Basics
  import opened Descriptor
  import opened Leaf
  import opened DecodeSpec
  import opened EncodeSpec
  import opened Message
  import opened Records
  import opened RoundTrip

  // ----- Packed and unpacked records are equivalent

  /** Items of one array as they are put on the wire: packed together, or one alone. */
  datatype Chunk = Packed(items: seq<Value>) | Alone(item: Value)

  function Items(c: Chunk): seq<Value> {
    match c { case Packed(items) => items case Alone(v) => [v] }
  }

  function AllItems(cs: seq<Chunk>): seq<Value> {
    if cs == [] then [] else Items(cs[0]) + AllItems(cs[1..])
  }

  /** The record that carries a chunk. */
  function ChunkRecord(f: Field, c: Chunk): Option<seq<byte>> {
    match c
    case Packed(items) =>
      (match EncodePacked(f, items) { case None => None case Some(b) => Some(EncTag(f.tag, WT_STRING) + EncBlock(b)) })
    case Alone(v) => EncodeRecord(f, v)
  }

  predicate ChunkFits(f: Field, c: Chunk) {
    HoldsItems(f, Items(c)) && ChunkRecord(f, c).Some? && |ChunkRecord(f, c).value| < TWO_32
  }

  predicate ChunksFit(f: Field, cs: seq<Chunk>) {
    forall j :: 0 <= j < |cs| ==> ChunkFits(f, cs[j])
  }

  function ChunkRecords(f: Field, cs: seq<Chunk>): (rs: seq<seq<byte>>)
    requires ChunksFit(f, cs)
    ensures |rs| == |cs|
  {
    if cs == [] then []
    else assert ChunkFits(f, cs[0]) && ChunksFit(f, cs[1..]); [ChunkRecord(f, cs[0]).value] + ChunkRecords(f, cs[1..])
  }

  predicate PackableArray(fields: seq<Field>, i: nat) {
    WellFormed(fields) && i < |fields| && fields[i].htype.Repeated? && Packable(fields[i].ltype)
  }

  /** What the record of a chunk decodes to: its items when they fit, else an error. */
  predicate ChunkParses(fields: seq<Field>, i: nat, c: Chunk, room: nat)
    requires i < |fields| && ChunkRecord(fields[i], c).Some?
  {
    var r := ChunkRecord(fields[i], c).value;
    && Framed(fields, r) && ReadTag(r).Tag? && Find(fields, ReadTag(r).tag) == Some(i)
    && DecodeItems(fields[i], ReadTag(r).wt, ReadTag(r).left, room)
       == if |Items(c)| <= room then Ok(CanonItems(fields[i], Items(c)), []) else Fail
  }

  lemma PackedChunk(fields: seq<Field>, i: nat, items: seq<Value>, room: nat)
    requires PackableArray(fields, i) && ChunkFits(fields[i], Packed(items))
    ensures ChunkParses(fields, i, Packed(items), room)
  {
    var f := fields[i];
    PackedRecordParses(fields, i, EncodePacked(f, items).value);
    if |items| <= room {
      PackedRoundTrip(f, items, room);
    } else {
      PackedOverflow(f, items, room);
    }
  }

  lemma AloneChunk(fields: seq<Field>, i: nat, v: Value, room: nat)
    requires PackableArray(fields, i) && ChunkFits(fields[i], Alone(v))
    ensures ChunkParses(fields, i, Alone(v), room)
  {
    var f := fields[i];
    assert Items(Alone(v)) == [v];
    PackableHolds(f, [v]);
    LeafRoundTrip(f, v, []);
    var b := EncodeLeaf(f, v).value;
    assert b + [] == b;
    assert EncodeValue(f, v) == Some(b);
    RecordParses(fields, i, b, Garbage, CanonLeaf(f, v));
    assert CanonItems(f, [v]) == [CanonLeaf(f, v)];
    assert !PackedRecord(f, WireType(f.ltype));
    assert DecodeItems(f, WireType(f.ltype), b, room) == if room == 0 then Fail else Ok([CanonLeaf(f, v)], []);
  }

  lemma ChunkStep(fields: seq<Field>, i: nat, c: Chunk, st: State)
    requires PackableArray(fields, i) && Receiving(fields, i, st) && ChunkFits(fields[i], c)
    requires Used(fields, i, st) <= fields[i].arraySize
    ensures Framed(fields, ChunkRecord(fields[i], c).value)
    ensures StepRecord(fields, ChunkRecord(fields[i], c).value, st) ==
            if Used(fields, i, st) + |Items(c)| <= fields[i].arraySize
            then Some(ArrayStep(fields, i, CanonItems(fields[i], Items(c)), st)) else None
  {
    var f := fields[i];
    var r := ChunkRecord(f, c).value;
    var room := Room(f, Used(fields, i, st));
    match c {
      case Packed(items) => PackedChunk(fields, i, items, room);
      case Alone(v) => AloneChunk(fields, i, v, room);
    }
    if |Items(c)| <= room {
      ArrayRecord(fields, i, r, CanonItems(f, Items(c)), st);
    } else {
      ArrayRecordFails(fields, i, r, st);
    }
  }

  lemma {:induction false} CanonConcat(f: Field, a: seq<Value>, b: seq<Value>)
    ensures CanonItems(f, a + b) == CanonItems(f, a) + CanonItems(f, b)
  {
  }

  lemma {:induction false} ChunksFramed(fields: seq<Field>, i: nat, cs: seq<Chunk>)
    requires PackableArray(fields, i) && ChunksFit(fields[i], cs)
    ensures AllFramed(fields, ChunkRecords(fields[i], cs))
    decreases |cs|
  {
    if cs != [] {
      assert ChunkFits(fields[i], cs[0]);
      match cs[0] {
        case Packed(items) => PackedChunk(fields, i, items, 0);
        case Alone(v) => AloneChunk(fields, i, v, 0);
      }
      ChunksFramed(fields, i, cs[1..]);
    }
  }

  /** However a list of scalars is split into packed chunks, empty ones included, and single
      unpacked items, the array receives the list in order; and the message is refused exactly
      when the list is longer than the room in the array. For fixed-count arrays as well. */
  lemma {:induction false} PackedUnpackedEquivalence(fields: seq<Field>, i: nat, cs: seq<Chunk>, st: State)
    requires PackableArray(fields, i) && Receiving(fields, i, st) && ChunksFit(fields[i], cs)
    requires Used(fields, i, st) <= fields[i].arraySize
    ensures AllFramed(fields, ChunkRecords(fields[i], cs))
    ensures Fold(fields, ChunkRecords(fields[i], cs), st) ==
            if cs == [] then Some(st)
            else if Used(fields, i, st) + |AllItems(cs)| <= fields[i].arraySize
            then Some(ArrayStep(fields, i, CanonItems(fields[i], AllItems(cs)), st)) else None
    decreases |cs|
  {
    var f := fields[i];
    if cs != [] {
      assert ChunkFits(f, cs[0]) && ChunksFit(f, cs[1..]);
      var r := ChunkRecord(f, cs[0]).value;
      var more := ChunkRecords(f, cs[1..]);
      ChunkStep(fields, i, cs[0], st);
      if Used(fields, i, st) + |Items(cs[0])| <= f.arraySize {
        var vs := CanonItems(f, Items(cs[0]));
        var ws := CanonItems(f, AllItems(cs[1..]));
        ArrayStepsCompose(fields, i, vs, [], st);
        var st1 := ArrayStep(fields, i, vs, st);
        PackedUnpackedEquivalence(fields, i, cs[1..], st1);
        CanonConcat(f, Items(cs[0]), AllItems(cs[1..]));
        if |vs| + |ws| + Used(fields, i, st) <= f.arraySize {
          ArrayStepsCompose(fields, i, vs, ws, st);
        }
        if cs[1..] == [] {
          assert vs + ws == vs;
        }
      } else {
        ChunksFramed(fields, i, cs[1..]);
      }
      FoldCons(fields, r, more, st);
    }
  }

  // ----- Fixed-count arrays

  /** The number of items in a record of field f, whatever room there is. */
  function ItemsIn(f: Field, wt: nat, s: seq<byte>): nat {
    if !PackedRecord(f, wt) then 1
    else match ReadBlock(s)
      case Fail => 0
      case Ok(b, _) => match DecodePacked(f, b, |b|) { case None => 0 case Some(vs) => |vs| }
  }

  lemma {:induction false} PackedAnyRoom(f: Field, s: seq<byte>, room: nat, room2: nat)
    requires DecodePacked(f, s, room).Some? && |DecodePacked(f, s, room).value| <= room2
    ensures DecodePacked(f, s, room2) == DecodePacked(f, s, room)
    ensures |DecodePacked(f, s, room).value| <= |s|
    decreases |s|
  {
    if s != [] {
      PackedAnyRoom(f, DecodeLeaf(f, s).rest, room - 1, room2 - 1);
    }
  }

  lemma ItemsCounted(f: Field, wt: nat, s: seq<byte>, room: nat)
    requires DecodeItems(f, wt, s, room).Ok?
    ensures |DecodeItems(f, wt, s, room).value| == ItemsIn(f, wt, s)
  {
    if PackedRecord(f, wt) {
      var b := ReadBlock(s).value;
      PackedAnyRoom(f, b, room, |DecodePacked(f, b, room).value|);
      PackedAnyRoom(f, b, room, |b|);
    }
  }

  /** A maximal stretch of records for one fixed-count array, other fields' records aside, and the
      number of items that it brought. */
  datatype FixedRun = FixedRun(field: nat, received: nat)

  function AddItems(fields: seq<Field>, i: nat, n: nat, runs: seq<FixedRun>): seq<FixedRun>
    requires i < |fields|
  {
    var last := |runs| - 1;
    if !FixedCount(fields[i]) then runs
    else if runs != [] && runs[last].field == i then runs[..last] + [FixedRun(i, runs[last].received + n)]
    else runs + [FixedRun(i, n)]
  }

  function AddRecord(fields: seq<Field>, r: seq<byte>, runs: seq<FixedRun>): seq<FixedRun>
    requires Framed(fields, r)
  {
    var t := ReadTag(r);
    match Find(fields, t.tag)
    case None => runs
    case Some(i) => AddItems(fields, i, ItemsIn(fields[i], t.wt, t.left), runs)
  }

  function FixedRuns(fields: seq<Field>, rs: seq<seq<byte>>, runs: seq<FixedRun>): seq<FixedRun>
    requires AllFramed(fields, rs)
  {
    if rs == [] then runs
    else assert AllFramed(fields, rs[1..]); FixedRuns(fields, rs[1..], AddRecord(fields, rs[0], runs))
  }

  predicate RunComplete(fields: seq<Field>, run: FixedRun) {
    run.field < |fields| && run.received == fields[run.field].arraySize
  }

  /** The decoder's two variables describe the last run, and the earlier runs are complete. */
  predicate Tracks(fields: seq<Field>, runs: seq<FixedRun>, st: State) {
    && (forall j :: 0 <= j < |runs| - 1 ==> RunComplete(fields, runs[j]))
    && (if runs == [] then st.fixed.None?
        else var last := runs[|runs| - 1];
             last.field < |fields| && st.fixed == Some(last.field) && st.count == last.received)
  }

  lemma FieldTracks(fields: seq<Field>, i: nat, wt: nat, s: seq<byte>, st: State)
    requires i < |fields| && StepField(fields, i, wt, s, st).Ok?
    ensures var st' := StepField(fields, i, wt, s, st).value;
            if FixedCount(fields[i]) then
              && st'.fixed == Some(i)
              && st'.count == (if st.fixed == Some(i) then st.count else 0) + ItemsIn(fields[i], wt, s)
              && (st.fixed != Some(i) ==> FixedComplete(fields, st))
            else st'.fixed == st.fixed && st'.count == st.count
  {
    if FixedCount(fields[i]) {
      var entered := EnterFixed(fields, i, st).value;
      ItemsCounted(fields[i], wt, s, Room(fields[i], entered.count));
    }
  }

  lemma AddTracks(fields: seq<Field>, i: nat, n: nat, runs: seq<FixedRun>, st: State, st': State)
    requires i < |fields| && Tracks(fields, runs, st)
    requires if FixedCount(fields[i]) then
               && st'.fixed == Some(i) && st'.count == (if st.fixed == Some(i) then st.count else 0) + n
               && (st.fixed != Some(i) ==> FixedComplete(fields, st))
             else st'.fixed == st.fixed && st'.count == st.count
    ensures Tracks(fields, AddItems(fields, i, n, runs), st')
  {
  }

  lemma RecordTracks(fields: seq<Field>, r: seq<byte>, runs: seq<FixedRun>, st: State)
    requires Framed(fields, r) && Tracks(fields, runs, st) && StepRecord(fields, r, st).Some?
    ensures Tracks(fields, AddRecord(fields, r, runs), StepRecord(fields, r, st).value)
  {
    var t := ReadTag(r);
    match Find(fields, t.tag)
    case None =>
    case Some(i) =>
      FieldTracks(fields, i, t.wt, t.left, st);
      AddTracks(fields, i, ItemsIn(fields[i], t.wt, t.left), runs, st, StepRecord(fields, r, st).value);
  }

  lemma {:induction false} FoldTracks(fields: seq<Field>, rs: seq<seq<byte>>, runs: seq<FixedRun>, st: State)
    requires AllFramed(fields, rs) && Tracks(fields, runs, st) && Fold(fields, rs, st).Some?
    ensures Tracks(fields, FixedRuns(fields, rs, runs), Fold(fields, rs, st).value)
    decreases |rs|
  {
    if rs != [] {
      RecordTracks(fields, rs[0], runs, st);
      FoldTracks(fields, rs[1..], AddRecord(fields, rs[0], runs), StepRecord(fields, rs[0], st).value);
    }
  }

  lemma AllRunsComplete(fields: seq<Field>, runs: seq<FixedRun>, st: State)
    requires Tracks(fields, runs, st) && FixedComplete(fields, st)
    ensures forall j :: 0 <= j < |runs| ==> RunComplete(fields, runs[j])
  {
  }

  /** When decoding succeeds, every run of a fixed-count array brought exactly its array's size,
      packed or not, with other fields' records in between or not. */
  lemma FixedCountRunsAreComplete(fields: seq<Field>, rs: seq<seq<byte>>, msg: seq<Slot>)
    requires AllFramed(fields, rs) && DecodeNoinit(fields, Flatten(rs), msg).Ok?
    ensures var runs := FixedRuns(fields, rs, []); forall j :: 0 <= j < |runs| ==> RunComplete(fields, runs[j])
  {
    LoopRecords(fields, rs, Start(msg));
    FoldTracks(fields, rs, [], Start(msg));
    var end := Fold(fields, rs, Start(msg)).value;
    assert FixedComplete(fields, end);
    AllRunsComplete(fields, FixedRuns(fields, rs, []), end);
  }

  /** And a run that is short or, over several visits, too long is an error: decoding succeeds
      exactly when every record does and the last run and all required fields are complete. */
  lemma DecodingSucceedsExactly(fields: seq<Field>, rs: seq<seq<byte>>, msg: seq<Slot>)
    requires AllFramed(fields, rs)
    ensures var runs := FixedRuns(fields, rs, []);
            var folded := Fold(fields, rs, Start(msg));
            DecodeNoinit(fields, Flatten(rs), msg).Ok? <==>
              && folded.Some?
              && (runs != [] ==> RunComplete(fields, runs[|runs| - 1]))
              && (forall k: nat :: k < Tracked(fields) ==> k in folded.value.seen)
  {
    LoopRecords(fields, rs, Start(msg));
    if Fold(fields, rs, Start(msg)).Some? {
      FoldTracks(fields, rs, [], Start(msg));
    }
  }
}
