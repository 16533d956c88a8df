/** What decoding rejects: messages without a required field, arrays without a count member that are
    incomplete or too long, and truncated input. */
module RejectLaws {
  import opened Options
  import opened Wire
  import opened VarintLaws
  import opened Descriptor
  import opened Encoding
  import opened Decoding
  import opened ScalarLaws
  import opened RoundTrip
  import opened RoundTripLaws
  import opened RecordLaws
  import opened PackedLaws
  import opened DefaultLaws

  // ---------- required fields ----------

  lemma {:induction false} StepMeets(d: Desc, s: seq<byte>, st: State, i: nat)
    requires GoodDesc(d) && i < |d.fields| && Step(d, s, st).Next?
    ensures i in Step(d, s, st).st.met <==>
      i in st.met || (ReadKey(s).KeyGot? && ReadKey(s).tag == d.fields[i].tag)
  {
    hide ReadKey, ReadField, SkipField, Find, Varint32, GoodField;
    FindUnique(d, i);
    var key := ReadKey(s);
    if Find(d.fields, key.tag).Some? {
      Found(d, key.tag);
      var j := Find(d.fields, key.tag).value;
      TrackKeepsMet(d.fields, st, j);
    }
  }

  lemma {:induction false} TrackKeepsMet(fs: seq<Field>, st: State, i: nat)
    requires i < |fs|
    ensures TrackFixed(fs, st, i).Some? ==> TrackFixed(fs, st, i).value.met == st.met
  {
  }

  /** The entries met are those whose field numbers were read. */
  lemma {:induction false} RunMeets(d: Desc, s: seq<byte>, st: State, i: nat)
    requires GoodDesc(d) && i < |d.fields| && Run(d, s, st).Done?
    ensures i in Run(d, s, st).st.met <==> i in st.met || d.fields[i].tag in Tags(d, s, st)
    decreases |s|
  {
    hide Step, ReadKey, GoodDesc;
    if s != [] && Step(d, s, st).Next? {
      StepMeets(d, s, st, i);
      NextHasKey(d, s, st);
      RunMeets(d, Step(d, s, st).rest, Step(d, s, st).st, i);
    }
  }

  lemma {:induction false} NextHasKey(d: Desc, s: seq<byte>, st: State)
    requires Step(d, s, st).Next?
    ensures ReadKey(s).KeyGot?
  {
    hide ReadKey, ReadEntry, SkipField, Find;
  }

  /** The required fields in front of entry `i`. */
  ghost function RequiredBefore(fs: seq<Field>, i: nat): set<nat>
    requires i <= |fs|
  {
    set j: nat | j < i && fs[j].rule.Required?
  }

  lemma {:induction false} IndexCounts(fs: seq<Field>, i: nat)
    requires i <= |fs|
    ensures RequiredIndex(fs, i) == |RequiredBefore(fs, i)|
  {
    if i > 0 {
      IndexCounts(fs, i - 1);
      var rest := RequiredBefore(fs, i - 1);
      assert RequiredBefore(fs, i) == if fs[i - 1].rule.Required? then rest + {i - 1} else rest;
    }
  }

  /** Without arrays that need a complete count, an input that the loop can read is accepted exactly
      if it mentions each of the first 64 required fields of the table. */
  lemma {:induction false} RequiredExactly(d: Desc, m: Message, s: seq<byte>)
    requires GoodDesc(d) && NoFixedCount(d)
    ensures Decode(d, m, s).Got? <==>
      && Run(d, s, Start(m)).Done?
      && forall i :: 0 <= i < |d.fields| && d.fields[i].rule.Required? && |RequiredBefore(d.fields, i)| < 64
           ==> d.fields[i].tag in Tags(d, s, Start(m))
  {
    hide Run, GoodDesc, NoFixedCount, Tags, RequiredIndex, RequiredBefore;
    if Run(d, s, Start(m)).Done? {
      NeverFixed(d, s, Start(m));
      forall i | 0 <= i < |d.fields|
        ensures i in Run(d, s, Start(m)).st.met <==> d.fields[i].tag in Tags(d, s, Start(m))
        ensures RequiredIndex(d.fields, i) == |RequiredBefore(d.fields, i)|
      {
        RunMeets(d, s, Start(m), i);
        IndexCounts(d.fields, i);
      }
    }
  }

  // ---------- arrays without a count member ----------

  predicate FixedScalar(d: Desc, i: nat) {
    && GoodDesc(d) && i < |d.fields|
    && d.fields[i].FixedCount() && d.fields[i].kind.Packable()
  }

  lemma {:induction false} FixedChunkFits(d: Desc, i: nat, c: Chunk, st: State, arr: seq<Value>, n: nat,
                                          rest: seq<byte>)
    requires FixedScalar(d, i) && GoodChunk(d.fields[i], c) && Holds(d, i, st, arr, n)
    requires n + |Elements([c])| <= d.fields[i].arraySize
    ensures Run(d, ChunkBytes(d.fields[i], c) + rest, st)
         == Run(d, rest, AfterEntry(d, i, st, Many(Fill(arr, n, Elements([c]))), n + |Elements([c])|))
  {
    hide Run, Key, Delimited, EncodePackedItems, GoodScalar, EncodeScalar;
    var f := d.fields[i];
    match c
    case Single(v) =>
      SmallScalar(f, v);
      assert EncodeKeyed(f, v) == Some(ChunkBytes(f, c)) && |ChunkBytes(f, c)| < TWO32 by {
        assert GoodField(f);
        KeySmall(f.tag, WireTypeOf(f.kind));
      }
      ItemRecord(d, i, st, arr, n, v, rest);
      assert RestoreValue(f, v) == v && Elements([c]) == [v];
      assert Fill(arr, n, [v]) == Store(arr, n, v);
    case Packed(vs) =>
      assert Elements([c]) == vs;
      PackedRecord(d, i, st, arr, n, vs, rest);
  }

  lemma {:induction false} FixedChunkOverflows(d: Desc, i: nat, c: Chunk, st: State, arr: seq<Value>, n: nat,
                                               rest: seq<byte>)
    requires FixedScalar(d, i) && GoodChunk(d.fields[i], c) && Holds(d, i, st, arr, n)
    requires n <= d.fields[i].arraySize < n + |Elements([c])|
    ensures Run(d, ChunkBytes(d.fields[i], c) + rest, st) == LoopFail
  {
    hide Run, Key, Delimited, EncodePackedItems, ReadPacked, GoodScalar, EncodeScalar;
    var f := d.fields[i];
    assert GoodField(f);
    match c
    case Single(v) =>
      ScalarEncodable(f, v);
      var payload := EncodeScalar(f, v).value + rest;
      assert ChunkBytes(f, c) + rest == Key(f.tag, WireTypeOf(f.kind)) + payload;
      PackableKeyed(f);
      RunRejected(d, i, WireTypeOf(f.kind), payload, st);
    case Packed(vs) =>
      assert Elements([c]) == vs;
      var body := EncodePackedItems(f, vs).value;
      PackedOverflows(f, vs, arr, n);
      WindowInverts(body, rest);
      var payload := Delimited(body) + rest;
      assert ChunkBytes(f, c) + rest == Key(f.tag, WtString) + payload;
      RunRejected(d, i, WtString, payload, st);
  }

  /** The records of the array store its elements one after the other, as long as there is room. */
  lemma {:induction false} FixedChunks(d: Desc, i: nat, chunks: seq<Chunk>, st: State, arr: seq<Value>, n: nat)
    requires FixedScalar(d, i) && Holds(d, i, st, arr, n) && n <= d.fields[i].arraySize && |st.msg| == d.size
    requires forall k :: 0 <= k < |chunks| ==> GoodChunk(d.fields[i], chunks[k])
    ensures var r := Run(d, ChunksBytes(d.fields[i], chunks), st);
      if n + |Elements(chunks)| <= d.fields[i].arraySize then
        && r.Done? && r.rest == [] && !r.terminated
        && At(r.st.msg, d.fields[i].slot) == Many(Fill(arr, n, Elements(chunks)))
        && r.st.fixed == Some(i) && r.st.count == n + |Elements(chunks)|
      else r == LoopFail
    decreases |chunks|
  {
    hide Run, ChunkBytes, GoodChunk, GoodDesc;
    var f := d.fields[i];
    if chunks == [] {
      NothingToRead(d, st);
    } else {
      var c, tail := chunks[0], chunks[1..];
      var bytes := ChunksBytes(f, tail);
      assert ChunksBytes(f, chunks) == ChunkBytes(f, c) + bytes;
      assert Elements(chunks) == Elements([c]) + Elements(tail);
      if n + |Elements([c])| > f.arraySize {
        FixedChunkOverflows(d, i, c, st, arr, n, bytes);
      } else {
        FixedChunkFits(d, i, c, st, arr, n, bytes);
        var arr1 := Fill(arr, n, Elements([c]));
        SlotInside(d, i);
        FillConcat(arr, n, Elements([c]), Elements(tail));
        FixedChunks(d, i, tail, AfterEntry(d, i, st, Many(arr1), n + |Elements([c])|), arr1, n + |Elements([c])|);
      }
    }
  }

  lemma {:induction false} SlotInside(d: Desc, i: nat)
    requires GoodDesc(d) && i < |d.fields|
    ensures d.fields[i].slot < d.size
  {
  }

  lemma {:induction false} NothingToRead(d: Desc, st: State)
    ensures Run(d, [], st) == Done(st, [], false)
  {
  }

  lemma {:induction false} FillConcat(arr: seq<Value>, n: nat, vs: seq<Value>, ws: seq<Value>)
    ensures Fill(Fill(arr, n, vs), n + |vs|, ws) == Fill(arr, n, vs + ws)
    decreases |vs|
  {
    if vs == [] {
      assert vs + ws == ws;
    } else {
      FillConcat(Store(arr, n, vs[0]), n + 1, vs[1..], ws);
      assert (vs + ws)[1..] == vs[1..] + ws;
    }
  }

  /** An input that holds nothing but records of one array without a count member is accepted exactly
      if they have exactly as many elements as the array; it then holds those. */
  lemma {:induction false} FixedCountExact(d: Desc, i: nat, chunks: seq<Chunk>, m: Message, arr: seq<Value>)
    requires FixedScalar(d, i) && NoRequired(d) && chunks != [] && |m| == d.size
    requires At(m, d.fields[i].slot) == Many(arr) && |arr| == d.fields[i].arraySize
    requires forall k :: 0 <= k < |chunks| ==> GoodChunk(d.fields[i], chunks[k])
    ensures var r := Decode(d, m, ChunksBytes(d.fields[i], chunks));
      && (r.Got? <==> |Elements(chunks)| == d.fields[i].arraySize)
      && (r.Got? ==> At(r.v, d.fields[i].slot) == Many(Elements(chunks)))
  {
    hide Run, GoodChunk, GoodDesc, ChunksBytes;
    var f := d.fields[i];
    var bytes := ChunksBytes(f, chunks);
    var st := Track(d, i, Start(m));
    FirstKey(d, i, chunks, Start(m));
    FixedChunks(d, i, chunks, st, arr, 0);
    if |Elements(chunks)| == f.arraySize {
      FillOverwrites(arr, 0, Elements(chunks));
      assert arr[..0] + Elements(chunks) == Elements(chunks);
    }
  }

  /** Reading the first of these records starts the array. */
  lemma {:induction false} FirstKey(d: Desc, i: nat, chunks: seq<Chunk>, st: State)
    requires FixedScalar(d, i) && chunks != [] && FixedComplete(d.fields, st) && st.fixed != Some(i)
    requires forall k :: 0 <= k < |chunks| ==> GoodChunk(d.fields[i], chunks[k])
    ensures Run(d, ChunksBytes(d.fields[i], chunks), st) == Run(d, ChunksBytes(d.fields[i], chunks), Track(d, i, st))
  {
    hide Run, Key, Delimited, EncodePackedItems, EncodeScalar, GoodScalar, GoodDesc;
    var f := d.fields[i];
    var rest := ChunksBytes(f, chunks[1..]);
    match chunks[0]
    case Single(v) =>
      ScalarEncodable(f, v);
      var payload := EncodeScalar(f, v).value + rest;
      assert ChunksBytes(f, chunks) == Key(f.tag, WireTypeOf(f.kind)) + payload;
      RunTracked(d, i, WireTypeOf(f.kind), payload, st);
    case Packed(vs) =>
      var payload := Delimited(EncodePackedItems(f, vs).value) + rest;
      assert ChunksBytes(f, chunks) == Key(f.tag, WtString) + payload;
      RunTracked(d, i, WtString, payload, st);
  }

  /** Going on to another such array before the last one is complete is refused. */
  lemma {:induction false} SwitchIncomplete(d: Desc, i: nat, w: WireType, payload: seq<byte>, st: State)
    requires GoodDesc(d) && i < |d.fields| && d.fields[i].FixedCount()
    requires st.fixed.Some? && st.fixed.value < |d.fields| && st.fixed.value != i
    requires st.count != d.fields[st.fixed.value].arraySize
    ensures Run(d, Key(d.fields[i].tag, w) + payload, st) == LoopFail
  {
    hide Run, Key, GoodDesc;
    RunRejected(d, i, w, payload, st);
  }

  // ---------- truncated input ----------

  /** A proper part of a record is no record. */
  lemma {:induction false} PartOfRecord(d: Desc, s: seq<byte>, st: State, k: nat)
    requires Step(d, s, st).Next? && 0 < k < |s| - |Step(d, s, st).rest|
    ensures Step(d, s[..k], st).Failed?
  {
    hide Step, ReadKey;
    var r := Step(d, s[..k], st);
    if r.Next? {
      NextStays(d, s, st, k);
    } else if r.Stopped? {
      StoppedKey(d, s, st);
      StoppedKey(d, s[..k], st);
      EndKeyStays(s, k);
    }
  }

  lemma {:induction false} NextStays(d: Desc, s: seq<byte>, st: State, k: nat)
    requires k <= |s| && Step(d, s[..k], st).Next?
    ensures Step(d, s, st) == Next(Step(d, s[..k], st).st, Step(d, s[..k], st).rest + s[k..])
  {
    hide Step;
    var r := Step(d, s[..k], st);
    var t := r.rest + s[k..];
    StepLocal(d, s[..k], st, t);
    assert Read(s[..k], r.rest) + t == s;
  }

  lemma {:induction false} EndKeyStays(s: seq<byte>, k: nat)
    requires k <= |s| && ReadKey(s[..k]).KeyEnd?
    ensures ReadKey(s).KeyEnd?
  {
    hide ReadKey;
    var rest := ReadKey(s[..k]).rest;
    KeyLocal(s[..k], rest + s[k..]);
    assert Read(s[..k], rest) + (rest + s[k..]) == s;
  }

  /** The loop stops exactly at a key that is zero. */
  lemma {:induction false} StoppedKey(d: Desc, s: seq<byte>, st: State)
    ensures Step(d, s, st).Stopped? <==> ReadKey(s).KeyEnd?
  {
    hide ReadKey, ReadEntry, SkipField, Find, Varint32;
  }

  lemma {:induction false} RunTruncated(d: Desc, s: seq<byte>, st: State, k: nat)
    requires Run(d, s, st).Done? && !Run(d, s, st).terminated && k <= |s| && !Boundary(d, s, st, k)
    ensures Run(d, s[..k], st) == LoopFail
    decreases |s|
  {
    hide Step;
    var r := Step(d, s, st);
    var n := |s| - |r.rest|;
    if k < n {
      PartOfRecord(d, s, st, k);
    } else {
      RunTruncated(d, r.rest, r.st, k - n);
      StepLocal(d, s, st, r.rest[..k - n]);
      assert s[..k] == Read(s, r.rest) + r.rest[..k - n];
    }
  }

  /** An input cut off anywhere but between two records is rejected. */
  lemma {:induction false} TruncatedRejected(d: Desc, m: Message, s: seq<byte>, k: nat)
    requires Run(d, s, Start(m)).Done? && !Run(d, s, Start(m)).terminated && k <= |s|
    requires !Boundary(d, s, Start(m), k)
    ensures Decode(d, m, s[..k]).Fail?
  {
    hide Run, Boundary;
    RunTruncated(d, s, Start(m), k);
  }

  /** A zero key ends the message, wherever it stands between two records. */
  lemma {:induction false} ZeroKeyEnds(d: Desc, s: seq<byte>, st: State, k: nat, t: seq<byte>)
    requires Boundary(d, s, st, k)
    ensures k <= |s| && Run(d, s[..k] + ([0] + t), st) == Done(StateAt(d, s, st, k), t, true)
  {
    hide Boundary, StateAt, ReadEntry, Find;
    RunSplit(d, s, st, k, [0] + t);
    assert ([0] + t)[1..] == t;
    assert ReadKey([0] + t) == KeyEnd(t);
  }

  /** A record of an unknown field with a wire type that is none of the four is refused. */
  lemma {:induction false} BadWireType(d: Desc, s: seq<byte>, st: State)
    requires ReadKey(s).KeyGot? && ReadKey(s).tag > 0 && Find(d.fields, ReadKey(s).tag).None?
    requires ReadKey(s).wt == 3 || ReadKey(s).wt == 4 || ReadKey(s).wt >= 6
    ensures Run(d, s, st) == LoopFail
  {
    hide ReadKey, Find;
  }
}
