/** The bytes that pb_encode writes are those of what can be observed of a struct. */
module Canonical {
  import opened Basics
  import opened Descriptor
  import opened Leaf
  import opened EncodeSpec
  import opened Message
  import opened Presence
  import opened RoundTrip
  import opened Framing

  // ----- Single items

  lemma {:induction false} AllOfIt(b: seq<byte>)
    requires 0 !in b
    ensures CString(b) == b
  {
    if b != [] {
      AllOfIt(b[1..]);
    }
  }

  lemma CStringAgain(b: seq<byte>)
    ensures CString(CString(b)) == CString(b)
    ensures CString(b) == [] <==> b == [] || b[0] == 0
  {
    AllOfIt(CString(b));
  }

  lemma LeafStable(f: Field, v: Value)
    requires WellFormedField(f) && HoldsLeaf(f, v)
    ensures EncodeLeaf(f, CanonLeaf(f, v)) == EncodeLeaf(f, v)
    ensures ZeroItem(f, CanonLeaf(f, v)) == ZeroItem(f, v)
  {
    if f.ltype.String? {
      CStringAgain(v.data);
    } else if f.ltype.Bool? {
      ZeroBytesExactly(1, v.n);
      ZeroBytesExactly(1, CanonLeaf(f, v).n);
    }
  }

  // ----- Values, arrays, fields and messages

  lemma {:induction false} ValueStable(f: Field, v: Value)
    requires WellFormedField(f) && HoldsValue(f, v) && KnownValue(f, v)
    ensures EncodeValue(f, CanonValue(f, v)) == EncodeValue(f, v)
    ensures ZeroItem(f, CanonValue(f, v)) == ZeroItem(f, v)
    decreases f, 0
  {
    if f.ltype.Submessage? {
      FromStable(f.ptr.fields, v.slots, 0);
      ZeroStable(f.ptr.fields, v.slots);
    } else {
      LeafStable(f, v);
    }
  }

  lemma CanonItemsTail(f: Field, items: seq<Value>)
    requires items != []
    ensures CanonItems(f, items)[0] == CanonValue(f, items[0])
    ensures CanonItems(f, items)[1..] == CanonItems(f, items[1..])
  {
  }

  lemma {:induction false} EachStable(f: Field, items: seq<Value>)
    requires WellFormedField(f) && HoldsItems(f, items) && KnownItems(f, items)
    ensures EncodeEach(f, CanonItems(f, items)) == EncodeEach(f, items)
    decreases f, 1, |items|
  {
    if items != [] {
      CanonItemsTail(f, items);
      HoldsTail(f, items);
      assert KnownValue(f, items[0]) && KnownItems(f, items[1..]);
      ValueStable(f, items[0]);
      EachStable(f, items[1..]);
    }
  }

  lemma {:induction false} PackedStable(f: Field, items: seq<Value>)
    requires WellFormedField(f) && Packable(f.ltype) && HoldsItems(f, items)
    ensures EncodePacked(f, CanonItems(f, items)) == EncodePacked(f, items)
    decreases |items|
  {
    if items != [] {
      CanonItemsTail(f, items);
      HoldsTail(f, items);
      LeafStable(f, items[0]);
      PackedStable(f, items[1..]);
    }
  }

  lemma {:induction false} ArrayStable(f: Field, items: seq<Value>)
    requires WellFormedField(f) && HoldsItems(f, items) && KnownItems(f, items)
    ensures EncodeArray(f, CanonItems(f, items)) == EncodeArray(f, items)
    decreases f, 2
  {
    if Packable(f.ltype) {
      PackedStable(f, items);
    } else {
      EachStable(f, items);
    }
  }

  lemma {:induction false} SingleStable(f: Field, v: Value)
    requires WellFormedField(f) && HoldsValue(f, v) && KnownValue(f, v)
    ensures EncodeEach(f, [CanonValue(f, v)]) == EncodeEach(f, [v])
    ensures ZeroItem(f, CanonValue(f, v)) == ZeroItem(f, v)
    decreases f, 2
  {
    assert CanonItems(f, [v]) == [CanonValue(f, v)];
    EachStable(f, [v]);
    ValueStable(f, v);
  }

  /** Field i finds the same in the observable form of its slot. */
  lemma {:induction false} FieldStable(fields: seq<Field>, i: nat, slot: Slot)
    requires WellFormed(fields) && i < |fields|
    requires HoldsSlot(fields, Leader(fields, i), slot) && KnownSlot(fields, Leader(fields, i), slot)
    ensures EncodeField(fields, i, CanonSlot(fields, Leader(fields, i), slot)) == EncodeField(fields, i, slot)
    ensures ZeroField(fields, i, CanonSlot(fields, Leader(fields, i), slot)) == ZeroField(fields, i, slot)
    decreases fields, 0
  {
    var f, k := fields[i], Leader(fields, i);
    LeaderLeads(fields, i);
    assert WellFormedField(f);
    match f.htype
    case Required => SingleStable(f, slot.val);
    case Optional =>
      if slot.has {
        SingleStable(f, slot.val);
      }
    case Repeated => ArrayStable(f, slot.items);
    case Oneof =>
      NoTagZero(fields, k);
      FindsItself(fields, i);
      if slot.which == f.tag {
        SingleStable(f, slot.val);
      }
  }

  lemma {:induction false} FromStable(fields: seq<Field>, msg: seq<Slot>, i: nat)
    requires WellFormed(fields) && Holds(fields, msg) && Known(fields, msg) && i <= |fields|
    ensures EncodeFrom(fields, Canon(fields, msg), i) == EncodeFrom(fields, msg, i)
    decreases fields, 1, |fields| - i
  {
    if i < |fields| {
      var k := Leader(fields, i);
      assert HoldsSlot(fields, k, msg[k]) && KnownSlot(fields, k, Get(msg, k));
      FieldStable(fields, i, msg[k]);
      FromStable(fields, msg, i + 1);
    }
  }

  lemma {:induction false} ZeroStable(fields: seq<Field>, msg: seq<Slot>)
    requires WellFormed(fields) && Holds(fields, msg) && Known(fields, msg)
    ensures AllZero(fields, Canon(fields, msg)) == AllZero(fields, msg)
    decreases fields, 1
  {
    forall i | 0 <= i < |fields|
      ensures ZeroField(fields, i, Get(Canon(fields, msg), Leader(fields, i)))
              == ZeroField(fields, i, Get(msg, Leader(fields, i)))
    {
      var k := Leader(fields, i);
      assert HoldsSlot(fields, k, msg[k]) && KnownSlot(fields, k, Get(msg, k));
      FieldStable(fields, i, msg[k]);
    }
  }

  /** The bytes do not depend on anything that cannot be observed. */
  lemma EncodingIsCanonical(fields: seq<Field>, msg: seq<Slot>)
    requires WellFormed(fields) && Holds(fields, msg) && Known(fields, msg)
    ensures Encode(fields, Canon(fields, msg)) == Encode(fields, msg)
  {
    FromStable(fields, msg, 0);
  }

  /** Two structs are sent as the same bytes exactly when they are the same as far as can be
      observed. */
  lemma SameBytesExactly(fields: seq<Field>, a: seq<Slot>, b: seq<Slot>)
    requires WellFormed(fields) && Holds(fields, a) && Known(fields, a) && Holds(fields, b) && Known(fields, b)
    requires Encode(fields, a).Some? ==> |Encode(fields, a).value| < TWO_32
    requires Encode(fields, b).Some? ==> |Encode(fields, b).value| < TWO_32
    ensures Encode(fields, a) == Encode(fields, b) <==> Canon(fields, a) == Canon(fields, b)
  {
    EncodeSucceeds(fields, a);
    EncodeSucceeds(fields, b);
    EncodingIsCanonical(fields, a);
    EncodingIsCanonical(fields, b);
    MessageRoundTrip(fields, a);
    MessageRoundTrip(fields, b);
  }

  // ----- A which-field that names no member

  function ChoiceOnly(): seq<Field> {
    [Field(1, Bool, Oneof, Static, 4, -4, 1, 0, Null)]
  }

  function AroundChoice(): seq<Field> {
    [Field(1, Submessage, Optional, Static, 0, 0, 8, 0, SubFields(ChoiceOnly()))]
  }

  function Unnamed(): seq<Slot> {
    [Union(2, Garbage)]
  }

  lemma UnnamedInside()
    ensures WellFormed(ChoiceOnly()) && Holds(ChoiceOnly(), Unnamed()) && !Known(ChoiceOnly(), Unnamed())
    ensures !AllZero(ChoiceOnly(), Unnamed()) && AllZero(ChoiceOnly(), Canon(ChoiceOnly(), Unnamed()))
  {
    var sub, slots := ChoiceOnly(), Unnamed();
    assert HoldsLeaf(sub[0], Num(0)) && WellFormedField(sub[0]);
    assert Leader(sub, 0) == 0 && Find(sub, 2).None? && Chosen(sub, 0, 2).None?;
    assert HoldsSlot(sub, 0, slots[0]);
    assert !KnownSlot(sub, 0, Get(slots, 0));
    assert !ZeroField(sub, 0, Get(slots, Leader(sub, 0)));
    assert Canon(sub, slots)[0] == Union(0, Garbage);
    assert ZeroField(sub, 0, Get(Canon(sub, slots), Leader(sub, 0)));
  }

  lemma OnlyFrom(fields: seq<Field>, msg: seq<Slot>, rs: seq<seq<byte>>)
    requires |fields| == |msg| == 1 && EncodeField(fields, 0, msg[0]) == Some(rs)
    ensures EncodeFrom(fields, msg, 0) == Some(rs)
  {
    assert Leader(fields, 0) == 0 && Get(msg, 0) == msg[0];
    assert EncodeFrom(fields, msg, 1) == Some([]);
    assert EncodeFrom(fields, msg, 0) == Some(rs + []);
    assert rs + [] == rs;
  }

  /** An only field with implicit presence leaves no bytes exactly when it is zero. */
  lemma SentOrNot(fields: seq<Field>, msg: seq<Slot>)
    requires |fields| == |msg| == 1 && Implicit(fields[0]) && fields[0].atype.Static? && msg[0].Single?
    ensures ZeroItem(fields[0], msg[0].val) <==> Encode(fields, msg) == Some([])
  {
    var f, v := fields[0], msg[0].val;
    assert Leader(fields, 0) == 0 && Get(msg, 0) == msg[0];
    if ZeroItem(f, v) {
      assert EncodeField(fields, 0, msg[0]) == Some([]);
      OnlyFrom(fields, msg, []);
    } else {
      assert [v][1..] == [] && EncodeEach(f, []) == Some([]);
      assert EncodeField(fields, 0, msg[0]) == EncodeEach(f, [v]);
      if EncodeRecord(f, v).Some? {
        var r := EncodeRecord(f, v).value;
        assert EncodeEach(f, [v]) == Some([r] + []) && [r] + [] == [r];
        OnlyFrom(fields, msg, [r]);
        assert Flatten([r]) == r + Flatten([]);
      }
    }
  }

  /** The submessage around it is sent, but nothing of it can be observed, so that its observable part
      is left out: the condition of EncodingIsCanonical is needed. */
  lemma UnknownMember()
    ensures var fields, msg := AroundChoice(), [Single(true, Msg(Unnamed()))];
            && WellFormed(fields) && Holds(fields, msg) && !Known(fields, msg)
            && Encode(fields, msg) != Some([]) && Encode(fields, Canon(fields, msg)) == Some([])
  {
    var fields, msg := AroundChoice(), [Single(true, Msg(Unnamed()))];
    var f := fields[0];
    UnnamedInside();
    assert WellFormedField(f) && HoldsValue(f, msg[0].val) && HoldsSlot(fields, 0, msg[0]);
    assert !KnownValue(f, msg[0].val) && !KnownSlot(fields, 0, Get(msg, 0));
    EncodeSucceeds(fields, msg);
    SentOrNot(fields, msg);
    SentOrNot(fields, Canon(fields, msg));
    assert Canon(fields, msg)[0] == Single(true, CanonValue(f, msg[0].val));
    assert ZeroItem(f, CanonValue(f, msg[0].val)) && !ZeroItem(f, msg[0].val);
  }
}
