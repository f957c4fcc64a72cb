/** What decoding a second message into a struct makes of it. */
module Merge {
  import opened Descriptor
  import opened Leaf
  import opened DecodeSpec
  import opened EncodeSpec
  import opened Message

  // ----- The merged struct, and whether it has room for both messages

  /** Submessages are merged, everything else is replaced. */
  function MergedValue(f: Field, prior: Value, v: Value): Value
    decreases f, 0
  {
    if f.ltype.Submessage? && f.ptr.SubFields? && v.Msg? then
      Msg(Merged(f.ptr.fields, PriorSlots(prior, f.ptr.fields), v.slots))
    else CanonLeaf(f, v)
  }

  /** A singular field that the encoder leaves out. */
  predicate Omitted(f: Field, slot: Slot) {
    f.htype.Optional? && slot.Single? && (if Implicit(f) then ZeroItem(f, slot.val) else !slot.has)
  }

  /** Present fields are merged, arrays appended, and oneofs replaced, even by the same member.
      Fixed-count arrays have no room for more and are replaced. */
  function MergedSlot(fields: seq<Field>, i: nat, prior: Slot, slot: Slot): Slot
    requires i < |fields|
    decreases fields, 0
  {
    var f := fields[i];
    if Leader(fields, i) != i then prior
    else match slot
      case Single(_, v) => if Omitted(f, slot) then prior else Single(true, MergedValue(f, ItemOf(prior), v))
      case Array(items) =>
        if FixedCount(f) then Array(CanonItems(f, items)) else Array(ItemsOf(prior) + CanonItems(f, items))
      case Union(which, v) =>
        (match Chosen(fields, i, which)
         case None => prior
         case Some(j) => Union(which, CanonValue(fields[j], v)))
      case Shared => prior
  }

  function Merged(fields: seq<Field>, prior: seq<Slot>, msg: seq<Slot>): (m: seq<Slot>)
    ensures |m| == |fields|
    decreases fields, 1
  {
    seq(|fields|, i requires 0 <= i < |fields| => MergedSlot(fields, i, Get(prior, i), Get(msg, i)))
  }

  predicate FitsValue(f: Field, prior: Value, v: Value)
    decreases f, 0
  {
    f.ltype.Submessage? && f.ptr.SubFields? && v.Msg? ==> Fits(f.ptr.fields, PriorSlots(prior, f.ptr.fields), v.slots)
  }

  /** The items of both messages have room in the array. */
  predicate FitsSlot(fields: seq<Field>, i: nat, prior: Slot, slot: Slot)
    requires i < |fields|
    decreases fields, 0
  {
    var f := fields[i];
    Leader(fields, i) == i ==>
      match slot
      case Single(_, v) => Omitted(f, slot) || FitsValue(f, ItemOf(prior), v)
      case Array(items) => FixedCount(f) || |ItemsOf(prior)| + |items| <= f.arraySize
      case _ => true
  }

  predicate FitsFrom(fields: seq<Field>, prior: seq<Slot>, msg: seq<Slot>, i: nat)
    decreases fields, 1
  {
    forall j | 0 <= j < |fields| :: j < i || FitsSlot(fields, j, Get(prior, j), Get(msg, j))
  }

  /** At every depth where structs are merged. */
  predicate Fits(fields: seq<Field>, prior: seq<Slot>, msg: seq<Slot>)
    decreases fields, 2
  {
    FitsFrom(fields, prior, msg, 0)
  }

  // ----- Merging into the defaults

  /** Into the defaults there is always room, and what comes of it is the observable message. */
  lemma {:induction false} MergedIntoDefaults(fields: seq<Field>, msg: seq<Slot>)
    requires WellFormed(fields) && Holds(fields, msg)
    ensures Fits(fields, Defaults(fields), msg)
    ensures Merged(fields, Defaults(fields), msg) == Canon(fields, msg)
    decreases fields, 1
  {
    forall i | 0 <= i < |fields|
      ensures FitsSlot(fields, i, Defaults(fields)[i], msg[i])
      ensures Merged(fields, Defaults(fields), msg)[i] == Canon(fields, msg)[i]
    {
      assert HoldsSlot(fields, i, msg[i]) && WellFormedField(fields[i]);
      MergedIntoDefault(fields, i, msg[i]);
    }
  }

  lemma {:induction false} MergedIntoDefault(fields: seq<Field>, i: nat, slot: Slot)
    requires WellFormed(fields) && i < |fields| && WellFormedField(fields[i]) && HoldsSlot(fields, i, slot)
    ensures FitsSlot(fields, i, DefaultSlot(fields, i), slot)
    ensures MergedSlot(fields, i, DefaultSlot(fields, i), slot) == CanonSlot(fields, i, slot)
    decreases fields, 0
  {
    var f := fields[i];
    match slot
    case Single(has, v) =>
      if Omitted(f, slot) {
        if Implicit(f) {
          ZeroIsDefault(f, v);
        }
      } else {
        NewMergedValue(f, v, DefaultValue(f));
      }
    case Array(items) => assert [] + CanonItems(f, items) == CanonItems(f, items);
    case _ =>
  }

  /** A value that there is nothing to merge with. */
  lemma {:induction false} NewMergedValue(f: Field, v: Value, prior: Value)
    requires WellFormedField(f) && HoldsValue(f, v) && (prior == Garbage || prior == DefaultValue(f))
    ensures FitsValue(f, prior, v) && MergedValue(f, prior, v) == CanonValue(f, v)
    decreases f, 2
  {
    if f.ltype.Submessage? {
      MergedIntoDefaults(f.ptr.fields, v.slots);
    }
  }

  // ----- Defaults are within bounds

  lemma {:induction false} DefaultsBounded(fields: seq<Field>)
    requires WellFormed(fields)
    ensures Bounded(fields, Defaults(fields), Whole)
    decreases fields, 1
  {
    forall i | 0 <= i < |fields| ensures BoundedSlot(fields, i, DefaultSlot(fields, i), Whole) {
      assert WellFormedField(fields[i]);
      DefaultBounded(fields[i]);
      NoTagZero(fields, i);
    }
  }

  lemma {:induction false} DefaultBounded(f: Field)
    requires WellFormedField(f)
    ensures BoundedValue(f, DefaultValue(f), Whole)
    decreases f, 0
  {
    if f.ltype.Submessage? {
      DefaultsBounded(f.ptr.fields);
    }
  }
}
