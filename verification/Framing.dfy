/** Whole encoded messages on a stream: framing, truncation, unknown fields and merging. */
module Framing {
  import opened Basics
  import opened Varint
  import opened Descriptor
  import opened Leaf
  import opened Bounds
  import opened DecodeSpec
  import opened EncodeSpec
  import opened Merge
  import opened Message
  import opened Records
  import opened RoundTrip

  /** pb_encode refuses no struct that holds a message. */
  lemma EncodeSucceeds(fields: seq<Field>, msg: seq<Slot>)
    requires WellFormed(fields) && Holds(fields, msg)
    ensures Encode(fields, msg).Some?
  {
    FromEncodes(fields, msg, 0);
  }

  /** A delimited message leaves the stream exactly behind itself. */
  lemma DelimitedRoundTrip(fields: seq<Field>, msg: seq<Slot>, rest: seq<byte>)
    requires WellFormed(fields) && Holds(fields, msg)
    requires Encode(fields, msg).Some? && |Encode(fields, msg).value| < TWO_32
    ensures DecodeDelimited(fields, EncodeDelimited(fields, msg).value + rest) == Ok(Canon(fields, msg), rest)
  {
    BlockRoundTrip(Encode(fields, msg).value, rest);
    MessageRoundTrip(fields, msg);
  }

  lemma ZeroStops(fields: seq<Field>, rest: seq<byte>, st: State)
    ensures Loop(fields, [0] + rest, st) == Stopped(st, rest)
  {
    assert ([0] + rest)[1..] == rest;
    assert ReadVarint32([0] + rest) == Ok(0, rest);
  }

  /** A null-terminated message leaves the stream exactly behind its zero: no record starts with
      a zero tag. */
  lemma NullTerminatedRoundTrip(fields: seq<Field>, msg: seq<Slot>, rest: seq<byte>)
    requires WellFormed(fields) && Holds(fields, msg)
    requires Encode(fields, msg).Some? && |Encode(fields, msg).value| < TWO_32
    ensures Decode(fields, EncodeNullTerminated(fields, msg).value + rest) == Ok(Canon(fields, msg), rest)
  {
    var st := RecordsRoundTrip(fields, msg);
    var b := Encode(fields, msg).value;
    assert b + [0] + rest == b + ([0] + rest);
    LoopFold(fields, EncodeRecords(fields, msg).value, [0] + rest, Start(Defaults(fields)));
    ZeroStops(fields, rest, st);
  }

  /** The position in the concatenation where record n begins. */
  function Boundary(rs: seq<seq<byte>>, n: nat): nat
    requires n <= |rs|
  {
    |Flatten(rs[..n])|
  }

  predicate OffBoundary(rs: seq<seq<byte>>, cut: nat) {
    forall n :: 0 <= n <= |rs| ==> Boundary(rs, n) != cut
  }

  lemma BoundaryStep(rs: seq<seq<byte>>, m: nat)
    requires rs != [] && m < |rs|
    ensures Flatten(rs[..m + 1]) == rs[0] + Flatten(rs[1..][..m])
  {
    assert rs[..m + 1][1..] == rs[1..][..m];
  }

  /** A position that is no boundary lies strictly inside some record. */
  lemma {:induction false} InsideSomeRecord(rs: seq<seq<byte>>, cut: nat) returns (n: nat, k: nat)
    requires cut < |Flatten(rs)| && OffBoundary(rs, cut)
    ensures n < |rs| && 0 < k < |rs[n]| && Boundary(rs, n) + k == cut
    ensures Flatten(rs)[..cut] == Flatten(rs[..n]) + rs[n][..k]
    decreases |rs|
  {
    assert Boundary(rs, 0) == 0;
    if cut < |rs[0]| {
      n, k := 0, cut;
      SplitConcat(rs[0], Flatten(rs[1..]), cut);
    } else {
      BoundaryStep(rs, 0);
      assert Boundary(rs, 1) == |rs[0]|;
      forall m | 0 <= m <= |rs[1..]| ensures Boundary(rs[1..], m) + |rs[0]| == Boundary(rs, m + 1) {
        BoundaryStep(rs, m);
      }
      var m;
      m, k := InsideSomeRecord(rs[1..], cut - |rs[0]|);
      n := m + 1;
      BoundaryStep(rs, m);
      assert Flatten(rs)[..cut] == rs[0] + Flatten(rs[1..])[..cut - |rs[0]|];
    }
  }

  lemma FramedAround(fields: seq<Field>, rs: seq<seq<byte>>, n: nat)
    requires AllFramed(fields, rs) && n <= |rs|
    ensures AllFramed(fields, rs[..n]) && (n < |rs| ==> Framed(fields, rs[n]))
  {
  }

  lemma CutInsideBreaks(fields: seq<Field>, rs: seq<seq<byte>>, n: nat, cut: nat, st: State)
    requires AllFramed(fields, rs) && n < |rs| && 0 < cut < |rs[n]|
    ensures Loop(fields, Flatten(rs[..n]) + rs[n][..cut], st).Broken?
  {
    FramedAround(fields, rs, n);
    TruncationIsDetected(fields, rs[..n], rs[n], cut, st);
  }

  lemma TruncatedRecordsBreak(fields: seq<Field>, rs: seq<seq<byte>>, cut: nat, st: State)
    requires AllFramed(fields, rs) && cut < |Flatten(rs)| && OffBoundary(rs, cut)
    ensures Loop(fields, Flatten(rs)[..cut], st).Broken?
  {
    var n, k := InsideSomeRecord(rs, cut);
    CutInsideBreaks(fields, rs, n, k, st);
  }

  /** Cutting an encoded message anywhere but between two top-level records makes decoding fail. */
  lemma TruncatedMessageFails(fields: seq<Field>, msg: seq<Slot>, cut: nat)
    requires WellFormed(fields) && Holds(fields, msg)
    requires Encode(fields, msg).Some? && cut < |Encode(fields, msg).value| < TWO_32
    requires OffBoundary(EncodeRecords(fields, msg).value, cut)
    ensures Decode(fields, Encode(fields, msg).value[..cut]).Fail?
  {
    var st := RecordsRoundTrip(fields, msg);
    TruncatedRecordsBreak(fields, EncodeRecords(fields, msg).value, cut, Start(Defaults(fields)));
  }

  /** An encoded message with records of unknown fields put in at any record boundary decodes to
      the same message. */
  lemma UnknownFieldsAreSkipped(fields: seq<Field>, msg: seq<Slot>, n: nat, r: seq<byte>)
    requires WellFormed(fields) && Holds(fields, msg)
    requires Encode(fields, msg).Some? && |Encode(fields, msg).value| < TWO_32
    requires n <= |EncodeRecords(fields, msg).value|
    requires Framed(fields, r) && Find(fields, ReadTag(r).tag).None? && !(fields == [] && ReadTag(r).tag == 0)
    ensures var rs := EncodeRecords(fields, msg).value;
            Decode(fields, Flatten(rs[..n]) + r + Flatten(rs[n..])) == Ok(Canon(fields, msg), [])
  {
    var rs := EncodeRecords(fields, msg).value;
    var st := RecordsRoundTrip(fields, msg);
    FramedAround(fields, rs, n);
    UnknownRecordIsTransparent(fields, rs[..n], r, Flatten(rs[n..]), Start(Defaults(fields)));
    assert rs[..n] + rs[n..] == rs;
    FlattenConcat(rs[..n], rs[n..]);
    MessageRoundTrip(fields, msg);
  }

  predicate OthersHaveNone(fields: seq<Field>, i: nat) {
    forall j :: 0 <= j < |fields| && HasItems(fields[j]) ==> j == i
  }

  /** The descriptor has one fixed-count array, and no other. */
  ghost predicate OnlyOneFixed(fields: seq<Field>) {
    exists i :: 0 <= i < |fields| && HasItems(fields[i]) && OthersHaveNone(fields, i)
  }

  lemma SeparatedExactly(fields: seq<Field>, st: State)
    requires RunsEnded(fields, |fields|, st)
    ensures Separated(fields, 0, st) <==> !OnlyOneFixed(fields)
  {
    if st.fixed.Some? {
      var v := st.fixed.value;
      if !OnlyOneFixed(fields) {
        assert !OthersHaveNone(fields, v);
        var j :| 0 <= j < |fields| && HasItems(fields[j]) && j != v;
        assert j <= v;
      }
    }
  }

  /** Encoded messages merge: two encodings one after the other decode to the second message merged
      into the first. They fail exactly when some array has no room for the items of both, or when
      there is a single fixed-count array, whose two runs become one that is too long. */
  lemma EncodedMessagesMerge(fields: seq<Field>, a: seq<Slot>, b: seq<Slot>)
    requires WellFormed(fields) && Holds(fields, a) && Holds(fields, b)
    requires Encode(fields, a).Some? && |Encode(fields, a).value| < TWO_32
    requires Encode(fields, b).Some? && |Encode(fields, b).value| < TWO_32
    ensures Decode(fields, Encode(fields, a).value + Encode(fields, b).value) ==
            if Fits(fields, Canon(fields, a), b) && !OnlyOneFixed(fields)
            then Ok(Merged(fields, Canon(fields, a), b), []) else Fail
  {
    var m := Canon(fields, a);
    var st := RecordsRoundTrip(fields, a);
    MessageRoundTrip(fields, a);
    DecodeStaysInBounds(fields, Encode(fields, a).value);
    SeparatedExactly(fields, st);
    if OnlyOneFixed(fields) {
      AtStart(fields, m, b, st);
      FromFails(fields, m, b, 0, st);
    } else {
      RecordsMerge(fields, m, b, st);
    }
    LoopFold(fields, EncodeRecords(fields, a).value, Encode(fields, b).value, Start(Defaults(fields)));
    LoopRecords(fields, EncodeRecords(fields, b).value, st);
  }
}
