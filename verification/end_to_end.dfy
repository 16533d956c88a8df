/** The encoder and the decoder as they stand, run one after the other. */
module EndToEnd {
  import opened Options
  import opened Wire
  import opened Descriptor
  import opened Encoding
  import opened Decoding
  import opened ScalarLaws
  import opened RoundTrip
  import opened RoundTripLaws
  import opened OutputStream
  import opened InputStream
  import opened Encoder
  import opened Decoder

  lemma {:induction false} GoodIsTable(d: Desc)
    requires GoodDesc(d)
    ensures Table(d)
    decreases d
  {
    forall i | 0 <= i < |d.fields|
      ensures d.fields[i].tag > 0 && !d.fields[i].kind.Extension?
              && (d.fields[i].kind.Submessage? ==> Table(d.fields[i].kind.sub))
    {
      assert GoodField(d.fields[i]);
      if d.fields[i].kind.Submessage? { GoodIsTable(d.fields[i].kind.sub); }
    }
  }

  // ---------- well-formed messages with small encodings satisfy the encoder ----------

  lemma {:induction false} ScalarTyped(f: Field, v: Value)
    requires GoodScalar(f, v) && EncodeScalar(f, v).Some? && |EncodeScalar(f, v).value| < TWO32
    ensures TypeOk(f, v)
  {
    hide Pow2, FitsSigned, EncodeVarint, Delimited;
    match f.kind
    case Bytes => DelimitedLength(v.bytes);
    case Str => StrnlenFull(v.chars, f.dataSize); DelimitedLength(v.chars);
    case FixedBytes => DelimitedLength(v.bytes);
    case _ =>
  }

  lemma {:induction false} ValueSane(f: Field, v: Value)
    requires GoodField(f) && GoodValue(f, v) && EncodeValue(f, v).Some? && |EncodeValue(f, v).value| < TWO32
    ensures SaneValue(f, v)
    decreases f, 0
  {
    hide GoodScalar, EncodeScalar, Encode, Delimited;
    if f.kind.Submessage? {
      DelimitedLength(Encode(f.kind.sub, v.slots).value);
      MessageSane(f.kind.sub, v.slots);
    } else {
      ScalarTyped(f, v);
    }
  }

  lemma {:induction false} ItemSane(f: Field, items: seq<Value>, k: nat)
    requires GoodField(f) && k < |items| && GoodValue(f, items[k])
    requires EncodeItems(f, items).Some? && |EncodeItems(f, items).value| < TWO32
    ensures SaneValue(f, items[k])
    decreases f, 1, k
  {
    hide GoodValue, EncodeValue, Key, SaneValue;
    if k == 0 {
      ValueSane(f, items[0]);
    } else {
      ItemSane(f, items[1..], k - 1);
    }
  }

  lemma {:induction false} PackedItemTyped(f: Field, v: Value)
    requires f.kind.Packable() && GoodScalar(f, v)
    ensures SaneValue(f, v)
  {
  }

  lemma {:induction false} SlotSane(f: Field, s: Slot)
    requires GoodField(f) && GoodSlot(f, s) && EncodeField(f, s).Some? && |EncodeField(f, s).value| < TWO32
    ensures SaneSlot(f, s)
    decreases f, 2
  {
    hide GoodValue, EncodeValue, EncodeItems, EncodePackedItems, Key, Delimited, SaneValue, IsZeroValue;
    if f.rule.Repeated? {
      forall k | 0 <= k < |s.items| ensures SaneValue(f, s.items[k]) {
        if f.kind.Packable() {
          PackedGood(f, s.items[k]);
          PackedItemTyped(f, s.items[k]);
        } else {
          ItemSane(f, s.items, k);
        }
      }
    } else if Present(f, s) {
      ValueSane(f, Val(s));
    }
  }

  lemma {:induction false} PackedGood(f: Field, v: Value)
    requires f.kind.Packable() && GoodValue(f, v)
    ensures GoodScalar(f, v)
  {
  }

  lemma {:induction false} PieceBound(d: Desc, m: Message, i: nat, j: nat)
    requires i <= j < |d.fields| && EncodeFrom(d, m, i).Some?
    ensures var e := EncodeField(d.fields[j], At(m, d.fields[j].slot));
      e.Some? && |e.value| <= |EncodeFrom(d, m, i).value|
    decreases j - i
  {
    hide EncodeField;
    if i < j { PieceBound(d, m, i + 1, j); }
  }

  lemma {:induction false} MessageSane(d: Desc, m: Message)
    requires GoodDesc(d) && GoodMessage(d, m) && Encode(d, m).Some? && |Encode(d, m).value| < TWO32
    ensures Sane(d, m)
    decreases d
  {
    hide SaneSlot, GoodSlot, EncodeField;
    forall i | 0 <= i < |d.fields| ensures SaneSlot(d.fields[i], At(m, d.fields[i].slot)) {
      assert GoodField(d.fields[i]);
      PieceBound(d, m, 0, i);
      SlotSane(d.fields[i], At(m, d.fields[i].slot));
    }
    assert forall i :: 0 <= i < |d.fields| ==> GoodField(d.fields[i]);
  }

  /** pb_encode into a buffer, then pb_decode of the bytes written: both succeed, the buffer holds
      the encoding, the decoder leaves no byte of it unread, and the message is restored if and only
      if no zero is lost to an explicit default. */
  method EncodeThenDecode(buf: array<byte>, d: Desc, m: Message)
    returns (encoded: bool, decoded: bool, written: nat, unread: nat, msg: Message)
    requires GoodDesc(d) && GoodMessage(d, m)
    requires Encode(d, m).Some? ==> |Encode(d, m).value| < TWO32 && |Encode(d, m).value| <= buf.Length <= TWO63
    modifies buf
    ensures encoded && decoded && unread == 0
    ensures written <= buf.Length && Encode(d, m) == Some(buf[..written])
    ensures Restored(d, m, msg) <==> ZeroesKept(d, m)
  {
    hide Encode, GoodDesc, GoodMessage, Sane, Table, Restored, Decode, ZeroesKept;
    MessageEncodable(d, m);
    MessageSane(d, m);
    GoodIsTable(d);
    var sized, size;
    encoded, written, sized, size := EncodeInto(buf, buf.Length, d, m);
    var stream := new IStream(buf[..written]);
    decoded, msg := PbDecode(stream, d);
    DecodeInvertsEncode(d, m);
    unread := stream.bytesLeft;
  }
}
