/** The encoder and the decoder on one buffer. */
module EndToEnd {
  import opened Basics
  import opened Conformance
  import opened Descriptor
  import opened EncodeSpec
  import opened Message
  import opened RoundTrip
  import opened Framing
  import opened InputStream
  import opened OutputStream
  import opened PbEncode
  import opened PbDecode

  /** Well-formed descriptors meet what the iterator and the recursions of both sides need. */
  lemma {:induction false} WellFormedIsUsable(fields: seq<Field>)
    requires WellFormed(fields)
    ensures Walkable(fields) && Navigable(fields)
    decreases fields, 1
  {
    forall i | 0 <= i < |fields| ensures WalkableField(fields[i]) && NavigableField(fields[i]) {
      assert WellFormedField(fields[i]);
      FieldIsUsable(fields[i]);
    }
    assert forall i :: 0 <= i < |fields| ==> WellFormedField(fields[i]);
  }

  lemma {:induction false} FieldIsUsable(f: Field)
    requires WellFormedField(f)
    ensures WalkableField(f) && NavigableField(f)
    decreases f, 0
  {
    if f.ltype.Submessage? {
      WellFormedIsUsable(f.ptr.fields);
    }
  }

  /** pb_encode into a buffer, of which it writes the bytes of the message only. */
  method EncodeInto(fields: seq<Field>, msg: seq<Slot>, buf: array<byte>) returns (ok: bool, size: nat)
    requires Walkable(fields) && Small(Encode(fields, msg))
    modifies buf
    ensures ok <==> |Encode(fields, msg).value| <= buf.Length
    ensures ok ==> size == |Encode(fields, msg).value|
                   && buf[..size] == Encode(fields, msg).value && buf[size..] == old(buf[size..])
  {
    size := 0;
    ok, size := GetEncodedSize(fields, msg);
    if !ok || size > buf.Length {
      return false, size;
    }
    var sink := new OStream.FromBuffer(buf, size);
    ok := EncodeMessage(sink, fields, msg);
    assert sink.Now().output == Encode(fields, msg).value;
  }

  /** pb_encode into a buffer, and pb_decode of the bytes written there: it works exactly when the
      message fits the buffer, and restores what can be observed of the message. */
  method EncodeThenDecode(fields: seq<Field>, msg: seq<Slot>, buf: array<byte>) returns (ok: bool, result: seq<Slot>)
    requires WellFormed(fields) && Holds(fields, msg)
    requires Encode(fields, msg).Some? ==> |Encode(fields, msg).value| < TWO_32
    modifies buf
    ensures Encode(fields, msg).Some?
    ensures ok <==> |Encode(fields, msg).value| <= buf.Length
    ensures ok ==> Conforms(fields, msg, buf[..|Encode(fields, msg).value|]) && result == Canon(fields, msg)
    ensures ok ==> buf[|Encode(fields, msg).value|..] == old(buf[|Encode(fields, msg).value|..])
  {
    EncodeSucceeds(fields, msg);
    EncodesExactly(fields, msg, Encode(fields, msg).value);
    WellFormedIsUsable(fields);
    result := [];
    var size;
    ok, size := EncodeInto(fields, msg, buf);
    if ok {
      var source := new IStream(buf, size);
      MessageRoundTrip(fields, msg);
      ok, result := DecodeMessage(source, fields);
    }
  }
}
