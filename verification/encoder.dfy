/** The encoder of pb_encode.c, proved to write the bytes of module Encoding, in both of its
    modes: the sizing pass and the writing pass. */
module Encoder {
  import opened Options
  import opened Wire
  import opened VarintLaws
  import opened Descriptor
  import opened Encoding
  import opened FieldIter
  import opened OutputStream

  // ---------- what the C types guarantee ----------

  /** The value has the C type of the field. */
  predicate TypeOk(f: Field, v: Value) {
    match f.kind
    case Bool => v.VBool?
    case Varint => v.VInt?
    case UVarint => v.VInt?
    case SVarint => v.VInt?
    case Fixed32 => v.VFixed?
    case Fixed64 => v.VFixed?
    case Bytes => v.VBytes? && |v.bytes| < SIZE_MOD
    case Str => v.VStr? && |v.chars| < SIZE_MOD
    case FixedBytes => v.VBytes? && |v.bytes| == f.dataSize < SIZE_MOD
    case Submessage(_) => v.VMsg?
    case Extension => false
  }

  /** ... and no submessage that is written takes more than half the address space. */
  predicate SaneValue(f: Field, v: Value)
    decreases f, 0
  {
    && TypeOk(f, v)
    && (f.kind.Submessage? ==>
          && Sane(f.kind.sub, v.slots)
          && (Encode(f.kind.sub, v.slots).Some? ==> |Encode(f.kind.sub, v.slots).value| < TWO63))
  }

  predicate SaneSlot(f: Field, s: Slot)
    decreases f, 1
  {
    if f.rule.Repeated? then
      && (f.FixedCount() ==> |Items(s)| == f.arraySize)
      && |Items(s)| <= PB_SIZE_MAX
      && forall k :: 0 <= k < |Items(s)| ==> SaneValue(f, Items(s)[k])
    else Present(f, s) ==> SaneValue(f, Val(s))
  }

  /** A structure that matches a table of static fields. */
  predicate Sane(d: Desc, m: Message)
    decreases d, 0
  {
    forall i :: 0 <= i < |d.fields| ==>
      && d.fields[i].atype.Static? && !d.fields[i].kind.Extension?
      && 0 < d.fields[i].tag < 0x2000_0000
      && SaneSlot(d.fields[i], At(m, d.fields[i].slot))
  }

  // ---------- scalars ----------

  /** The length loop of pb_enc_string. */
  method StringSize(chars: seq<byte>, max: nat) returns (size: nat)
    ensures size == Strnlen(chars, max)
  {
    size := 0;
    while size < max && size < |chars| && chars[size] != 0
      invariant size <= max && size <= |chars|
      invariant Strnlen(chars, max) == size + Strnlen(chars[size..], max - size)
    {
      assert chars[size..][1..] == chars[size + 1..];
      size := size + 1;
    }
  }

  /** pb_encode_string */
  method EncodeString(o: OStream, data: seq<byte>) returns (ok: bool)
    requires o.Valid() && |data| < SIZE_MOD
    modifies o, o.buf
    ensures o.Valid() && o.maxSize == old(o.maxSize)
    ensures Emits(ok, Some(Delimited(data)), o.sizing, o.maxSize, old(o.bytesWritten), o.bytesWritten,
        old(o.Output()), o.Output())
    ensures o.errmsg == SizeChanged ==> old(o.errmsg) == SizeChanged
  {
    hide Emits, EncodeVarint;
    ghost var n0, out0 := o.bytesWritten, o.Output();
    ghost var e1, e2 := Some(EncodeVarint(|data|)), Some(data);
    ok := o.WriteVarint(|data|);
    ghost var n1, out1 := o.bytesWritten, o.Output();
    if ok {
      ok := o.WriteBytes(data);
      EmitsThen(e1, e2, ok, o.sizing, o.maxSize, n0, n1, o.bytesWritten, out0, out1, o.Output());
    } else {
      EmitsStop(e1, e2, o.sizing, o.maxSize, n0, n1, out0, out1);
    }
  }

  /** The pb_enc_ functions for everything but submessages. */
  method EncodeScalarTo(o: OStream, f: Field, v: Value) returns (ok: bool)
    requires o.Valid() && TypeOk(f, v) && !f.kind.Submessage?
    modifies o, o.buf
    ensures o.Valid() && o.maxSize == old(o.maxSize)
    ensures Emits(ok, EncodeScalar(f, v), o.sizing, o.maxSize, old(o.bytesWritten), o.bytesWritten, old(o.Output()),
        o.Output())
    ensures o.errmsg == SizeChanged ==> old(o.errmsg) == SizeChanged
  {
    hide EncodeVarint, Delimited, LittleEndian, Strnlen;
    match f.kind
    case Bool =>
      ok := o.WriteVarint(if v.b then 1 else 0);
    case Varint =>
      if !IntWidth(f.dataSize) { o.SetError(BadValue); return false; }
      ok := o.WriteVarint(v.i % TWO64);
    case UVarint =>
      if !IntWidth(f.dataSize) { o.SetError(BadValue); return false; }
      ok := o.WriteVarint(v.i % TWO64);
    case SVarint =>
      if !IntWidth(f.dataSize) { o.SetError(BadValue); return false; }
      ok := o.WriteVarint(ZigZag(v.i));
    case Fixed32 =>
      ok := o.WriteBytes(LittleEndian(v.bits, 4));
    case Fixed64 =>
      ok := o.WriteBytes(LittleEndian(v.bits, 8));
    case Bytes =>
      if |v.bytes| > f.dataSize - BYTES_HEADER { o.SetError(BadValue); return false; }
      ok := EncodeString(o, v.bytes);
    case Str =>
      var size := StringSize(v.chars, f.dataSize);
      ok := EncodeString(o, v.chars[..size]);
    case FixedBytes =>
      ok := EncodeString(o, v.bytes);
  }

  // ---------- sequences of writes ----------

  lemma {:induction false} CatAssoc(a: Option<seq<byte>>, b: Option<seq<byte>>, c: Option<seq<byte>>)
    ensures Cat(Cat(a, b), c) == Cat(a, Cat(b, c))
  {
    if a.Some? && b.Some? && c.Some? {
      assert a.value + b.value + c.value == a.value + (b.value + c.value);
    }
  }

  lemma {:induction false} CatEmpty(a: Option<seq<byte>>)
    ensures Cat(Some([]), a) == a && Cat(a, Some([])) == a
  {
    if a.Some? {
      assert [] + a.value == a.value && a.value + [] == a.value;
    }
  }

  /** The next piece of a longer output: either it extends what is written, or the whole fails. */
  lemma {:induction false} EmitsNext(sofar: seq<byte>, e: Option<seq<byte>>, tail: Option<seq<byte>>,
      total: Option<seq<byte>>,
                                     ok: bool, sizing: bool, maxSize: nat, n0: nat, n1: nat, n2: nat,
                                     out0: seq<byte>, out1: seq<byte>, out2: seq<byte>)
    requires Emits(true, Some(sofar), sizing, maxSize, n0, n1, out0, out1)
    requires Emits(ok, e, sizing, maxSize, n1, n2, out1, out2)
    requires total == Cat(Some(sofar), Cat(e, tail))
    ensures ok ==> e.Some? && total == Cat(Some(sofar + e.value), tail)
                   && Emits(true, Some(sofar + e.value), sizing, maxSize, n0, n2, out0, out2)
    ensures !ok ==> Emits(false, total, sizing, maxSize, n0, n2, out0, out2)
  {
    hide Emits;
    EmitsThen(Some(sofar), e, ok, sizing, maxSize, n0, n1, n2, out0, out1, out2);
    CatAssoc(Some(sofar), e, tail);
    if ok {
      EmitsSome(e, sizing, maxSize, n1, n2, out1, out2);
    } else {
      EmitsStop(Cat(Some(sofar), e), tail, sizing, maxSize, n0, n2, out0, out2);
    }
  }

  lemma {:induction false} EmitsSome(e: Option<seq<byte>>, sizing: bool, maxSize: nat, n0: nat, n1: nat,
      out0: seq<byte>, out1: seq<byte>)
    requires Emits(true, e, sizing, maxSize, n0, n1, out0, out1)
    ensures e.Some?
  {
  }

  lemma {:induction false} EmitsNothing(sizing: bool, maxSize: nat, n: nat, out: seq<byte>)
    requires n < SIZE_MOD && (!sizing ==> n <= maxSize)
    ensures Emits(true, Some([]), sizing, maxSize, n, n, out, out)
  {
    assert out + [] == out;
  }

  /** pb_encode_tag */
  method EncodeKey(o: OStream, tag: nat, w: WireType) returns (ok: bool)
    requires o.Valid() && tag < 0x2000_0000
    modifies o, o.buf
    ensures o.Valid() && o.maxSize == old(o.maxSize)
    ensures Emits(ok, Some(Key(tag, w)), o.sizing, o.maxSize, old(o.bytesWritten), o.bytesWritten, old(o.Output()),
        o.Output())
    ensures o.errmsg == SizeChanged ==> old(o.errmsg) == SizeChanged
  {
    hide Emits, EncodeVarint;
    ok := o.WriteVarint(tag * 8 + WireCode(w));
  }

  // ---------- submessages ----------

  /** The writing pass of pb_encode_submessage, through a substream limited to the measured
      size. It never reports that the size changed. */
  method EncodeBody(o: OStream, d: Desc, m: Message, size: nat) returns (ok: bool)
    requires o.Valid() && !o.sizing && Sane(d, m) && Encode(d, m).Some? && size == |Encode(d, m).value| < TWO63
    modifies o, o.buf
    ensures o.Valid() && o.maxSize == old(o.maxSize)
    ensures Emits(ok, Encode(d, m), false, o.maxSize, old(o.bytesWritten), o.bytesWritten, old(o.Output()), o.Output())
    ensures o.errmsg == SizeChanged ==> old(o.errmsg) == SizeChanged
    decreases d, 2
  {
    hide Encode, Sane;
    if (o.bytesWritten + size) % SIZE_MOD > o.maxSize {
      o.SetError(StreamFull);
      return false;
    }
    var substream := new OStream.Sub(o, size);
    ok := PbEncode(substream, d, m);
    o.bytesWritten := o.bytesWritten + substream.bytesWritten;
    o.state := substream.state;
    var changed := substream.bytesWritten != size;
    var err := substream.errmsg;
    o.errmsg := if changed && err == NoError then SizeChanged else err;
    ok := ok && !changed;
  }

  /** pb_encode_submessage: measure, write the length, then write the body. */
  method EncodeSubmessage(o: OStream, d: Desc, m: Message) returns (ok: bool)
    requires o.Valid() && Sane(d, m) && (Encode(d, m).Some? ==> |Encode(d, m).value| < TWO63)
    modifies o, o.buf
    ensures o.Valid() && o.maxSize == old(o.maxSize)
    ensures Emits(ok, if Encode(d, m).Some? then Some(Delimited(Encode(d, m).value)) else None,
                  o.sizing, o.maxSize, old(o.bytesWritten), o.bytesWritten, old(o.Output()), o.Output())
    ensures o.errmsg == SizeChanged ==> old(o.errmsg) == SizeChanged
    decreases d, 3
  {
    hide EncodeVarint, Encode, Sane, Emits;
    ghost var n0, out0 := o.bytesWritten, o.Output();
    var size;
    var err;
    ok, size, err := Measure(d, m);
    if !ok {
      NothingEmitted(o.sizing, o.maxSize, n0, n0, out0, out0);
      o.errmsg := err;
      return;
    }
    ghost var body := Encode(d, m);
    ghost var header := Some(EncodeVarint(size));
    ok := o.WriteVarint(size);
    ghost var n1, out1 := o.bytesWritten, o.Output();
    assert Cat(header, body) == Some(Delimited(body.value));
    if !ok {
      EmitsStop(header, body, o.sizing, o.maxSize, n0, n1, out0, out1);
      return;
    }
    if o.sizing {
      ok := o.Write([], size);
      CountedEmit(body.value, o.maxSize, n1, o.bytesWritten, out1, o.Output());
    } else {
      ok := EncodeBody(o, d, m, size);
    }
    EmitsThen(header, body, ok, o.sizing, o.maxSize, n0, n1, o.bytesWritten, out0, out1, o.Output());
  }

  /** The sizing pass. */
  method Measure(d: Desc, m: Message) returns (ok: bool, size: nat, err: Err)
    requires Sane(d, m)
    ensures ok == Encode(d, m).Some? && err != SizeChanged
    ensures ok ==> size == |Encode(d, m).value| % SIZE_MOD
    decreases d, 2
  {
    hide Encode, Sane;
    var scratch := new byte[0];
    var stream := new OStream.Sizing(scratch);
    ok := PbEncode(stream, d, m);
    size := stream.bytesWritten;
    err := stream.errmsg;
  }

  method EncodeValueTo(o: OStream, f: Field, v: Value) returns (ok: bool)
    requires o.Valid() && SaneValue(f, v)
    modifies o, o.buf
    ensures o.Valid() && o.maxSize == old(o.maxSize)
    ensures Emits(ok, EncodeValue(f, v), o.sizing, o.maxSize, old(o.bytesWritten), o.bytesWritten, old(o.Output()),
        o.Output())
    ensures o.errmsg == SizeChanged ==> old(o.errmsg) == SizeChanged
    decreases f, 0
  {
    hide Emits, EncodeScalar, Encode, Delimited, Sane;
    if f.kind.Submessage? {
      ok := EncodeSubmessage(o, f.kind.sub, v.slots);
    } else {
      ok := EncodeScalarTo(o, f, v);
    }
  }

  /** pb_encode_tag_for_field, then the value. */
  method EncodeKeyedTo(o: OStream, f: Field, v: Value) returns (ok: bool)
    requires o.Valid() && SaneValue(f, v) && f.tag < 0x2000_0000
    modifies o, o.buf
    ensures o.Valid() && o.maxSize == old(o.maxSize)
    ensures Emits(ok, EncodeKeyed(f, v), o.sizing, o.maxSize, old(o.bytesWritten), o.bytesWritten, old(o.Output()),
        o.Output())
    ensures o.errmsg == SizeChanged ==> old(o.errmsg) == SizeChanged
    decreases f, 1
  {
    hide Emits, EncodeValue, Key, SaneValue;
    ghost var n0, out0 := o.bytesWritten, o.Output();
    ghost var key := Some(Key(f.tag, WireTypeOf(f.kind)));
    ok := EncodeKey(o, f.tag, WireTypeOf(f.kind));
    ghost var n1, out1 := o.bytesWritten, o.Output();
    if ok {
      ok := EncodeValueTo(o, f, v);
      EmitsThen(key, EncodeValue(f, v), ok, o.sizing, o.maxSize, n0, n1, o.bytesWritten, out0, out1, o.Output());
    } else {
      EmitsStop(key, EncodeValue(f, v), o.sizing, o.maxSize, n0, n1, out0, out1);
    }
  }

  // ---------- arrays ----------

  /** The loop over the elements of a packed array, in the sizing and in the writing pass. */
  method EncodePacked(o: OStream, f: Field, items: seq<Value>) returns (ok: bool)
    requires o.Valid() && f.kind.Packable() && forall k :: 0 <= k < |items| ==> TypeOk(f, items[k])
    modifies o, o.buf
    ensures o.Valid() && o.maxSize == old(o.maxSize)
    ensures Emits(ok, EncodePackedItems(f, items), o.sizing, o.maxSize, old(o.bytesWritten), o.bytesWritten,
        old(o.Output()), o.Output())
    ensures o.errmsg == SizeChanged ==> old(o.errmsg) == SizeChanged
  {
    hide Emits, EncodeScalar, TypeOk;
    ghost var n0, out0 := o.bytesWritten, o.Output();
    ghost var total := EncodePackedItems(f, items);
    ghost var sofar: seq<byte> := [];
    EmitsNothing(o.sizing, o.maxSize, n0, out0);
    CatEmpty(total);
    var i := 0;
    while i < |items|
      invariant 0 <= i <= |items| && o.Valid() && o.maxSize == old(o.maxSize)
      invariant Emits(true, Some(sofar), o.sizing, o.maxSize, n0, o.bytesWritten, out0, o.Output())
      invariant total == Cat(Some(sofar), EncodePackedItems(f, items[i..]))
      invariant o.errmsg == SizeChanged ==> old(o.errmsg) == SizeChanged
    {
      ghost var n1, out1 := o.bytesWritten, o.Output();
      ok := EncodeScalarTo(o, f, items[i]);
      assert items[i..][1..] == items[i + 1..];
      EmitsNext(sofar, EncodeScalar(f, items[i]), EncodePackedItems(f, items[i + 1..]), total, ok,
                o.sizing, o.maxSize, n0, n1, o.bytesWritten, out0, out1, o.Output());
      if !ok {
        return;
      }
      sofar := sofar + EncodeScalar(f, items[i]).value;
      i := i + 1;
    }
    CatEmpty(Some(sofar));
    ok := true;
  }

  lemma {:induction false} FixedLength(f: Field, items: seq<Value>, width: nat)
    requires (f.kind.Fixed32? && width == 4) || (f.kind.Fixed64? && width == 8)
    requires forall k :: 0 <= k < |items| ==> TypeOk(f, items[k])
    ensures EncodePackedItems(f, items).Some? && |EncodePackedItems(f, items).value| == width * |items|
    decreases |items|
  {
    if items != [] {
      FixedLength(f, items[1..], width);
      assert width * |items| == width + width * |items[1..]|;
    }
  }

  /** The size of a packed body: computed for fixed-width elements, measured for the others. */
  method PackedSize(f: Field, items: seq<Value>) returns (ok: bool, size: nat)
    requires f.kind.Packable() && |items| <= PB_SIZE_MAX && forall k :: 0 <= k < |items| ==> TypeOk(f, items[k])
    ensures ok == EncodePackedItems(f, items).Some?
    ensures ok ==> size == |EncodePackedItems(f, items).value| % SIZE_MOD
  {
    hide EncodePackedItems, EncodeScalar, TypeOk;
    if f.kind.Fixed32? {
      FixedLength(f, items, 4);
      return true, 4 * |items|;
    }
    if f.kind.Fixed64? {
      FixedLength(f, items, 8);
      return true, 8 * |items|;
    }
    var scratch := new byte[0];
    var sizestream := new OStream.Sizing(scratch);
    ok := EncodePacked(sizestream, f, items);
    size := sizestream.bytesWritten;
  }

  /** The packed branch of encode_array. */
  method EncodePackedArray(o: OStream, f: Field, items: seq<Value>) returns (ok: bool)
    requires o.Valid() && f.tag < 0x2000_0000 && f.kind.Packable()
    requires |items| <= PB_SIZE_MAX && forall k :: 0 <= k < |items| ==> TypeOk(f, items[k])
    modifies o, o.buf
    ensures o.Valid() && o.maxSize == old(o.maxSize)
    ensures Emits(ok, if EncodePackedItems(f, items).Some?
                      then Some(Key(f.tag, WtString) + Delimited(EncodePackedItems(f, items).value)) else None,
                  o.sizing, o.maxSize, old(o.bytesWritten), o.bytesWritten, old(o.Output()), o.Output())
    ensures o.errmsg == SizeChanged ==> old(o.errmsg) == SizeChanged
  {
    hide EncodeVarint, EncodePackedItems, Key, TypeOk, Emits;
    ghost var n0, out0 := o.bytesWritten, o.Output();
    ghost var key, body := Some(Key(f.tag, WtString)), EncodePackedItems(f, items);
    ok := EncodeKey(o, f.tag, WtString);
    ghost var n1, out1 := o.bytesWritten, o.Output();
    ghost var len := Some(if body.Some? then EncodeVarint(|body.value| % SIZE_MOD) else []);
    PackedTotal(key.value, body);
    if !ok {
      EmitsStop(key, Cat(len, body), o.sizing, o.maxSize, n0, n1, out0, out1);
      return;
    }
    var size;
    ok, size := PackedSize(f, items);
    if !ok {
      NothingEmitted(o.sizing, o.maxSize, n0, n1, out0, out1);
      return;
    }
    ok := o.WriteVarint(size);
    ghost var n2, out2 := o.bytesWritten, o.Output();
    EmitsNext(key.value, len, body, Cat(key, Cat(len, body)), ok, o.sizing, o.maxSize, n0, n1, n2, out0, out1, out2);
    if !ok {
      return;
    }
    if o.sizing {
      ok := o.Write([], size);
      CountedEmit(body.value, o.maxSize, n2, o.bytesWritten, out2, o.Output());
    } else {
      ok := EncodePacked(o, f, items);
    }
    EmitsThen(Some(key.value + len.value), body, ok, o.sizing, o.maxSize, n0, n2, o.bytesWritten, out0, out2,
        o.Output());
  }

  lemma {:induction false} PackedTotal(key: seq<byte>, body: Option<seq<byte>>)
    ensures (if body.Some? then Some(key + Delimited(body.value)) else None)
         == Cat(Some(key), Cat(Some(if body.Some? then EncodeVarint(|body.value| % SIZE_MOD) else []), body))
  {
  }

  lemma {:induction false} NothingEmitted(sizing: bool, maxSize: nat, n0: nat, n1: nat, out0: seq<byte>,
      out1: seq<byte>)
    ensures Emits(false, None, sizing, maxSize, n0, n1, out0, out1)
  {
  }

  /** A sizing stream may be told a length instead of being given the bytes. */
  lemma {:induction false} CountedEmit(body: seq<byte>, maxSize: nat, n0: nat, n1: nat, out0: seq<byte>,
      out1: seq<byte>)
    requires n1 == (n0 + |body| % SIZE_MOD) % SIZE_MOD
    ensures Emits(true, Some(body), true, maxSize, n0, n1, out0, out1)
  {
    ModAdd(|body|, n0);
  }

  /** The other branch of encode_array: every element with its key. */
  method EncodeItemsTo(o: OStream, f: Field, items: seq<Value>) returns (ok: bool)
    requires o.Valid() && f.tag < 0x2000_0000 && forall k :: 0 <= k < |items| ==> SaneValue(f, items[k])
    modifies o, o.buf
    ensures o.Valid() && o.maxSize == old(o.maxSize)
    ensures Emits(ok, EncodeItems(f, items), o.sizing, o.maxSize, old(o.bytesWritten), o.bytesWritten,
        old(o.Output()), o.Output())
    ensures o.errmsg == SizeChanged ==> old(o.errmsg) == SizeChanged
    decreases f, 2
  {
    hide Emits, EncodeKeyed, SaneValue;
    ghost var n0, out0 := o.bytesWritten, o.Output();
    ghost var total := EncodeItems(f, items);
    ghost var sofar: seq<byte> := [];
    EmitsNothing(o.sizing, o.maxSize, n0, out0);
    CatEmpty(total);
    var i := 0;
    while i < |items|
      invariant 0 <= i <= |items| && o.Valid() && o.maxSize == old(o.maxSize)
      invariant Emits(true, Some(sofar), o.sizing, o.maxSize, n0, o.bytesWritten, out0, o.Output())
      invariant total == Cat(Some(sofar), EncodeItems(f, items[i..]))
      invariant o.errmsg == SizeChanged ==> old(o.errmsg) == SizeChanged
    {
      ghost var n1, out1 := o.bytesWritten, o.Output();
      ok := EncodeKeyedTo(o, f, items[i]);
      assert items[i..][1..] == items[i + 1..];
      EmitsNext(sofar, EncodeKeyed(f, items[i]), EncodeItems(f, items[i + 1..]), total, ok,
                o.sizing, o.maxSize, n0, n1, o.bytesWritten, out0, out1, o.Output());
      if !ok {
        return;
      }
      sofar := sofar + EncodeKeyed(f, items[i]).value;
      i := i + 1;
    }
    CatEmpty(Some(sofar));
    ok := true;
  }

  // ---------- fields and messages ----------

  /** encode_basic_field, with encode_array. */
  method EncodeFieldTo(o: OStream, f: Field, s: Slot) returns (ok: bool)
    requires o.Valid() && f.tag < 0x2000_0000 && f.atype.Static? && !f.kind.Extension? && SaneSlot(f, s)
    modifies o, o.buf
    ensures o.Valid() && o.maxSize == old(o.maxSize)
    ensures Emits(ok, EncodeField(f, s), o.sizing, o.maxSize, old(o.bytesWritten), o.bytesWritten, old(o.Output()),
        o.Output())
    ensures o.errmsg == SizeChanged ==> old(o.errmsg) == SizeChanged
    decreases f, 3
  {
    hide Emits, EncodeKeyed, EncodeItems, EncodePackedItems, Key, Delimited, IsZeroValue;
    EmitsNothing(o.sizing, o.maxSize, o.bytesWritten, o.Output());
    if !Present(f, s) {
      return true;
    }
    if !f.rule.Repeated? {
      ok := EncodeKeyedTo(o, f, Val(s));
      return;
    }
    var items := Items(s);
    if |items| > f.arraySize {
      NothingEmitted(o.sizing, o.maxSize, o.bytesWritten, o.bytesWritten, o.Output(), o.Output());
      o.SetError(BadValue);
      return false;
    }
    if f.kind.Packable() {
      ok := EncodePackedArray(o, f, items);
    } else {
      ok := EncodeItemsTo(o, f, items);
    }
  }

  /** pb_encode */
  method PbEncode(o: OStream, d: Desc, m: Message) returns (ok: bool)
    requires o.Valid() && Sane(d, m)
    modifies o, o.buf
    ensures o.Valid() && o.maxSize == old(o.maxSize)
    ensures Emits(ok, Encode(d, m), o.sizing, o.maxSize, old(o.bytesWritten), o.bytesWritten, old(o.Output()),
        o.Output())
    ensures o.errmsg == SizeChanged ==> old(o.errmsg) == SizeChanged
    decreases d, 1
  {
    hide Emits, EncodeField, SaneSlot, DataAt, SizeAt, RequiredIndex;
    ghost var n0, out0 := o.bytesWritten, o.Output();
    ghost var total := Encode(d, m);
    ghost var sofar: seq<byte> := [];
    EmitsNothing(o.sizing, o.maxSize, n0, out0);
    CatEmpty(total);
    var iter := new Iter(d.fields, 0);
    if d.fields == [] {
      return true;
    }
    var more := true;
    while more
      invariant iter.Valid() && iter.fields == d.fields && o.Valid() && o.maxSize == old(o.maxSize)
      invariant Emits(true, Some(sofar), o.sizing, o.maxSize, n0, o.bytesWritten, out0, o.Output())
      invariant total == Cat(Some(sofar), if more then EncodeFrom(d, m, iter.pos) else Some([]))
      invariant o.errmsg == SizeChanged ==> old(o.errmsg) == SizeChanged
      decreases more, |d.fields| - iter.pos
    {
      ghost var n1, out1 := o.bytesWritten, o.Output();
      var i := iter.pos;
      var f := d.fields[i];
      var s := At(m, f.slot);
      ok := EncodeFieldTo(o, f, s);
      EmitsNext(sofar, EncodeField(f, s), EncodeFrom(d, m, i + 1), total, ok,
                o.sizing, o.maxSize, n0, n1, o.bytesWritten, out0, out1, o.Output());
      if !ok {
        return;
      }
      sofar := sofar + EncodeField(f, s).value;
      more := iter.Next();
    }
    CatEmpty(Some(sofar));
    ok := true;
  }

  /** pb_get_encoded_size */
  method GetEncodedSize(d: Desc, m: Message) returns (ok: bool, size: nat)
    requires Sane(d, m)
    ensures ok == Encode(d, m).Some?
    ensures ok ==> size == |Encode(d, m).value| % SIZE_MOD
  {
    var err;
    ok, size, err := Measure(d, m);
  }

  // ---------- sizing and writing agree ----------

  /** Encoding into an empty buffer of `max` bytes succeeds exactly when the sizing pass does
      and its count is at most `max`; it then leaves exactly that many bytes. */
  method EncodeInto(buf: array<byte>, max: nat, d: Desc, m: Message)
    returns (ok: bool, written: nat, sized: bool, size: nat)
    requires max <= buf.Length && max <= TWO63 && Sane(d, m)
    requires Encode(d, m).Some? ==> |Encode(d, m).value| < SIZE_MOD
    modifies buf
    ensures sized == Encode(d, m).Some? && (sized ==> size == |Encode(d, m).value|)
    ensures ok <==> sized && size <= max
    ensures ok ==> written == size <= buf.Length && Encode(d, m) == Some(buf[..written])
  {
    hide Encode, Sane;
    sized, size := GetEncodedSize(d, m);
    var stream := new OStream(buf, max);
    assert stream.Output() == [];
    ok := PbEncode(stream, d, m);
    written := stream.bytesWritten;
    if ok {
      assert stream.Output() == [] + Encode(d, m).value == Encode(d, m).value;
      assert stream.state == written;
    }
  }
}
