/** A counted repeated scalar field decodes to the same array however its elements are
    spread over packed records and single records. */
module PackedLaws {
  import opened Options
  import opened Wire
  import opened Descriptor
  import opened Encoding
  import opened Decoding
  import opened ScalarLaws
  import opened RoundTrip
  import opened RoundTripLaws

  /** One record of the field: a single element, or a packed run of elements. */
  datatype Chunk = Single(v: Value) | Packed(vs: seq<Value>)

  function Elements(chunks: seq<Chunk>): seq<Value> {
    if chunks == [] then []
    else (if chunks[0].Single? then [chunks[0].v] else chunks[0].vs) + Elements(chunks[1..])
  }

  predicate GoodChunk(f: Field, c: Chunk) {
    match c
    case Single(v) => GoodScalar(f, v)
    case Packed(vs) =>
      && (forall k :: 0 <= k < |vs| ==> GoodScalar(f, vs[k]))
      && EncodePackedItems(f, vs).Some? && |EncodePackedItems(f, vs).value| < TWO32
  }

  function ChunkBytes(f: Field, c: Chunk): seq<byte>
    requires GoodChunk(f, c)
  {
    match c
    case Single(v) => ScalarEncodable(f, v); Key(f.tag, WireTypeOf(f.kind)) + EncodeScalar(f, v).value
    case Packed(vs) => Key(f.tag, WtString) + Delimited(EncodePackedItems(f, vs).value)
  }

  function ChunksBytes(f: Field, chunks: seq<Chunk>): seq<byte>
    requires forall k :: 0 <= k < |chunks| ==> GoodChunk(f, chunks[k])
  {
    if chunks == [] then [] else ChunkBytes(f, chunks[0]) + ChunksBytes(f, chunks[1..])
  }

  predicate CountedScalar(d: Desc, i: nat) {
    && GoodDesc(d) && i < |d.fields|
    && d.fields[i].rule.Repeated? && d.fields[i].sizeOffset != 0 && d.fields[i].kind.Packable()
  }

  // ---------- too many elements ----------

  lemma {:induction false} PackedOverflows(f: Field, items: seq<Value>, arr: seq<Value>, n: nat)
    requires f.kind.Packable() && n <= f.arraySize < n + |items|
    requires forall k :: 0 <= k < |items| ==> GoodScalar(f, items[k])
    requires EncodePackedItems(f, items).Some? && |EncodePackedItems(f, items).value| < TWO32
    ensures ReadPacked(f, EncodePackedItems(f, items).value, arr, n) == Overflow
    decreases |items|
  {
    hide ReadScalar, EncodeScalar, GoodScalar;
    var tail := EncodePackedItems(f, items[1..]).value;
    ScalarRoundTrip(f, items[0], tail);
    if n < f.arraySize {
      PackedOverflows(f, items[1..], Store(arr, n, items[0]), n + 1);
    } else {
      assert |EncodePackedItems(f, items).value| > |tail|;
    }
  }

  lemma {:induction false} RunRejected(d: Desc, i: nat, w: WireType, payload: seq<byte>, st: State)
    requires GoodDesc(d) && i < |d.fields| && ReadEntry(d.fields, i, WireCode(w), payload, st) == Failed
    ensures Run(d, Key(d.fields[i].tag, w) + payload, st) == LoopFail
  {
    hide Key, ReadEntry, Step;
    StepKnown(d, i, w, payload, st);
    KeyNonEmpty(d.fields[i].tag, w);
  }

  lemma {:induction false} ChunkOverflows(d: Desc, i: nat, c: Chunk, st: State, rest: seq<byte>)
    requires CountedScalar(d, i) && GoodChunk(d.fields[i], c)
    requires var arr := At(st.msg, d.fields[i].slot);
      arr.Many? && |arr.items| <= d.fields[i].arraySize < |arr.items| + |Elements([c])|
    ensures Run(d, ChunkBytes(d.fields[i], c) + rest, st) == LoopFail
  {
    hide Run, Key, Delimited, EncodePackedItems, ReadPacked, GoodScalar, EncodeScalar;
    var f := d.fields[i];
    var arr := At(st.msg, f.slot).items;
    match c
    case Single(v) =>
      ScalarEncodable(f, v);
      var payload := EncodeScalar(f, v).value + rest;
      assert ChunkBytes(f, c) + rest == Key(f.tag, WireTypeOf(f.kind)) + payload;
      PackableKeyed(f);
      RunRejected(d, i, WireTypeOf(f.kind), payload, st);
    case Packed(vs) =>
      assert Elements([c]) == vs;
      var body := EncodePackedItems(f, vs).value;
      PackedOverflows(f, vs, arr, |arr|);
      WindowInverts(body, rest);
      var payload := Delimited(body) + rest;
      assert ChunkBytes(f, c) + rest == Key(f.tag, WtString) + payload;
      RunRejected(d, i, WtString, payload, st);
  }

  // ---------- the law ----------

  /** The array after a record that fits. */
  lemma {:induction false} ChunkFits(d: Desc, i: nat, c: Chunk, st: State, arr: seq<Value>, rest: seq<byte>)
    requires CountedScalar(d, i) && GoodChunk(d.fields[i], c)
    requires At(st.msg, d.fields[i].slot) == Many(arr)
    requires |arr| + |Elements([c])| <= d.fields[i].arraySize
    ensures Run(d, ChunkBytes(d.fields[i], c) + rest, st)
         == Run(d, rest, AfterEntry(d, i, st, Many(arr + Elements([c])), 0))
  {
    hide Run, Key, Delimited, EncodePackedItems, GoodScalar, EncodeScalar, Fill;
    var f := d.fields[i];
    match c
    case Single(v) =>
      SmallScalar(f, v);
      assert EncodeKeyed(f, v) == Some(ChunkBytes(f, c)) && |ChunkBytes(f, c)| < TWO32 by {
        assert GoodField(f);
        KeySmall(f.tag, WireTypeOf(f.kind));
      }
      ItemRecord(d, i, st, arr, |arr|, v, rest);
      assert RestoreValue(f, v) == v && Elements([c]) == [v];
    case Packed(vs) =>
      assert Elements([c]) == vs;
      FillAppends(arr, vs);
      PackedRecord(d, i, st, arr, |arr|, vs, rest);
  }

  lemma {:induction false} KeySmall(tag: nat, w: WireType)
    requires 1 <= tag < 0x2000_0000
    ensures |Key(tag, w)| <= 10
  {
    VarintLaws.EncodedLength64(tag * 8 + WireCode(w));
  }

  lemma {:induction false} SmallScalar(f: Field, v: Value)
    requires f.kind.Packable() && GoodScalar(f, v)
    ensures EncodeScalar(f, v).Some? && |EncodeScalar(f, v).value| <= 10
  {
    hide Pow2, EncodeVarint;
    match f.kind
    case Bool => VarintLaws.EncodedLength64(if v.b then 1 else 0);
    case Varint => VarintLaws.EncodedLength64(v.i % TWO64);
    case UVarint => VarintLaws.EncodedLength64(v.i % TWO64);
    case SVarint => FitsInt64(v.i, f.dataSize); ZigZagRoundTrip(v.i); VarintLaws.EncodedLength64(ZigZag(v.i));
    case Fixed32 =>
    case Fixed64 =>
  }

  /** The records of the field append exactly their elements; decoding fails exactly when
      there are too many of them. */
  lemma {:induction false} SplitIrrelevant(d: Desc, i: nat, chunks: seq<Chunk>, st: State, arr: seq<Value>,
      rest: seq<byte>)
    requires CountedScalar(d, i) && chunks != []
    requires forall k :: 0 <= k < |chunks| ==> GoodChunk(d.fields[i], chunks[k])
    requires At(st.msg, d.fields[i].slot) == Many(arr) && |arr| <= d.fields[i].arraySize && |st.msg| == d.size
    ensures Run(d, ChunksBytes(d.fields[i], chunks) + rest, st)
         == if |arr| + |Elements(chunks)| <= d.fields[i].arraySize
            then Run(d, rest, AfterEntry(d, i, st, Many(arr + Elements(chunks)), 0))
            else LoopFail
    decreases |chunks|
  {
    hide Run, ChunkBytes, GoodChunk;
    var f := d.fields[i];
    var c, tail := chunks[0], chunks[1..];
    assert GoodField(f);
    var bytes := ChunksBytes(f, tail) + rest;
    assert ChunksBytes(f, chunks) + rest == ChunkBytes(f, c) + bytes;
    assert Elements(chunks) == Elements([c]) + Elements(tail);
    if |arr| + |Elements([c])| > f.arraySize {
      ChunkOverflows(d, i, c, st, bytes);
    } else {
      ChunkFits(d, i, c, st, arr, bytes);
      var arr1 := arr + Elements([c]);
      var st1 := AfterEntry(d, i, st, Many(arr1), 0);
      if tail == [] {
        assert bytes == rest && arr1 == arr + Elements(chunks);
      } else {
        SplitIrrelevant(d, i, tail, st1, arr1, rest);
        assert arr1 + Elements(tail) == arr + Elements(chunks);
        assert AfterEntry(d, i, st1, Many(arr + Elements(chunks)), 0) == AfterEntry(d, i, st,
            Many(arr + Elements(chunks)), 0);
      }
    }
  }

  /** Two ways of writing the same elements decode alike, in any message around them. */
  lemma {:induction false} PackedOrNot(d: Desc, i: nat, one: seq<Chunk>, other: seq<Chunk>, st: State, rest: seq<byte>)
    requires CountedScalar(d, i) && one != [] && other != [] && Elements(one) == Elements(other)
    requires forall k :: 0 <= k < |one| ==> GoodChunk(d.fields[i], one[k])
    requires forall k :: 0 <= k < |other| ==> GoodChunk(d.fields[i], other[k])
    requires var s := At(st.msg, d.fields[i].slot);
      s.Many? && |s.items| <= d.fields[i].arraySize && |st.msg| == d.size
    ensures Run(d, ChunksBytes(d.fields[i], one) + rest, st) == Run(d, ChunksBytes(d.fields[i], other) + rest, st)
  {
    hide Run, ChunksBytes, Elements, GoodChunk;
    var arr := At(st.msg, d.fields[i].slot).items;
    SplitIrrelevant(d, i, one, st, arr, rest);
    SplitIrrelevant(d, i, other, st, arr, rest);
  }
}
