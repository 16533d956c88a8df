/** What the encoder writes can be skipped by a reader that does not know the field: the wire type
    in each key announces exactly the bytes that follow. A table that lacks some fields of another
    therefore reads its messages, and restores the fields it has. */
module ForwardLaws {
  import opened Options
  import opened Wire
  import opened Descriptor
  import opened Encoding
  import opened Decoding
  import opened ScalarLaws
  import opened RoundTrip
  import opened RoundTripLaws
  import opened RecordLaws

  // ---------- one record ----------

  lemma {:induction false} VarintSkips(v: nat, rest: seq<byte>)
    ensures Decoding.SkipVarint(EncodeVarint(v) + rest) == Got((), rest)
  {
    var s := EncodeVarint(v) + rest;
    if v > 127 {
      VarintSkips(v / 128, rest);
      assert s[1..] == EncodeVarint(v / 128) + rest;
    } else {
      assert s[1..] == rest;
    }
  }

  lemma {:induction false} FixedSkips(s: seq<byte>, n: nat)
    requires |s| == n
    ensures Skip(s, n) == Got((), [])
  {
  }

  lemma {:induction false} DelimitedSkips(body: seq<byte>)
    requires |body| < TWO32
    ensures SkipField(2, Delimited(body)) == Got((), [])
  {
    hide Window, Delimited;
    WindowInverts(body, []);
    assert Delimited(body) + [] == Delimited(body);
  }

  /** The encoding of a scalar is what its wire type says. */
  lemma {:induction false} ScalarSkips(f: Field, v: Value)
    requires GoodScalar(f, v) && EncodeScalar(f, v).Some? && |EncodeScalar(f, v).value| < TWO32
    ensures SkipField(WireCode(WireTypeOf(f.kind)), EncodeScalar(f, v).value) == Got((), [])
  {
    hide Window, Delimited, Decoding.SkipVarint, EncodeVarint, Pow2, FitsSigned, ZigZag;
    var e := EncodeScalar(f, v).value;
    match f.kind
    case Bool => VarintWhole(if v.b then 1 else 0);
    case Varint => VarintWhole(v.i % TWO64);
    case UVarint => VarintWhole(v.i % TWO64);
    case SVarint => VarintWhole(ZigZag(v.i));
    case Fixed32 => FixedSkips(e, 4);
    case Fixed64 => FixedSkips(e, 8);
    case Bytes => DelimitedLength(v.bytes); DelimitedSkips(v.bytes);
    case Str =>
      StrnlenFull(v.chars, f.dataSize);
      DelimitedLength(v.chars);
      DelimitedSkips(v.chars);
    case FixedBytes => DelimitedLength(v.bytes); DelimitedSkips(v.bytes);
  }

  lemma {:induction false} VarintWhole(v: nat)
    ensures SkipField(0, EncodeVarint(v)) == Got((), [])
  {
    VarintSkips(v, []);
    assert EncodeVarint(v) + [] == EncodeVarint(v);
  }

  lemma {:induction false} ValueSkips(f: Field, v: Value)
    requires GoodField(f) && GoodValue(f, v) && EncodeValue(f, v).Some? && |EncodeValue(f, v).value| < TWO32
    ensures SkipField(WireCode(WireTypeOf(f.kind)), EncodeValue(f, v).value) == Got((), [])
  {
    hide Window, Delimited, EncodeScalar, GoodScalar, Encode, SkipField;
    if f.kind.Submessage? {
      var body := Encode(f.kind.sub, v.slots).value;
      DelimitedLength(body);
      DelimitedSkips(body);
    } else {
      ScalarSkips(f, v);
    }
  }

  /** A key and a payload of its wire type. */
  lemma {:induction false} RecordSkips(tag: nat, w: WireType, payload: seq<byte>)
    requires 1 <= tag < 0x2000_0000 && SkipField(WireCode(w), payload) == Got((), [])
    ensures UnknownRecord(Desc([], 0), Key(tag, w) + payload) && ReadKey(Key(tag, w) + payload).tag == tag
  {
    hide Key, ReadKey, SkipField;
    KeyInverts(tag, w, payload);
  }

  /** A single value with its key is one whole record to a reader that knows no field at all. */
  lemma {:induction false} ValueIsRecord(f: Field, v: Value)
    requires GoodField(f) && GoodValue(f, v) && EncodeKeyed(f, v).Some? && |EncodeKeyed(f, v).value| < TWO32
    ensures UnknownRecord(Desc([], 0), EncodeKeyed(f, v).value) && ReadKey(EncodeKeyed(f, v).value).tag == f.tag
  {
    hide Key, EncodeValue, GoodValue, UnknownRecord, ReadKey, SkipField;
    ValueSkips(f, v);
    RecordSkips(f.tag, WireTypeOf(f.kind), EncodeValue(f, v).value);
  }

  /** And so is a whole array of packable elements: one record, however many there are. */
  lemma {:induction false} PackedIsRecord(f: Field, items: seq<Value>)
    requires GoodField(f) && f.kind.Packable() && items != []
    requires EncodeArray(f, items).Some? && |EncodeArray(f, items).value| < TWO32
    ensures UnknownRecord(Desc([], 0), EncodeArray(f, items).value)
    ensures ReadKey(EncodeArray(f, items).value).tag == f.tag
  {
    hide Key, Delimited, EncodePackedItems, UnknownRecord, ReadKey, SkipField;
    var body := EncodePackedItems(f, items).value;
    DelimitedLength(body);
    DelimitedSkips(body);
    RecordSkips(f.tag, WtString, Delimited(body));
  }

  lemma {:induction false} UnknownToAny(d: Desc, u: seq<byte>)
    requires UnknownRecord(Desc([], 0), u) && Find(d.fields, ReadKey(u).tag).None?
    ensures UnknownRecord(d, u)
  {
    hide ReadKey, SkipField, Find;
  }

  // ---------- one field ----------

  lemma {:induction false} ItemsSkip(d: Desc, f: Field, items: seq<Value>, st: State, rest: seq<byte>)
    requires GoodField(f) && forall k :: 0 <= k < |items| ==> GoodValue(f, items[k])
    requires EncodeItems(f, items).Some? && |EncodeItems(f, items).value| < TWO32
    requires Find(d.fields, f.tag).None?
    ensures Run(d, EncodeItems(f, items).value + rest, st) == Run(d, rest, st)
    decreases |items|
  {
    hide Run, EncodeKeyed, GoodValue, UnknownRecord, ReadKey, Find;
    if items == [] {
      assert EncodeItems(f, items).value + rest == rest;
    } else {
      var head, tail := EncodeKeyed(f, items[0]).value, EncodeItems(f, items[1..]).value;
      assert EncodeItems(f, items).value + rest == head + (tail + rest);
      ValueIsRecord(f, items[0]);
      UnknownToAny(d, head);
      UnknownSkipped(d, head, st, tail + rest);
      ItemsSkip(d, f, items[1..], st, rest);
    }
  }

  /** Whatever the encoder writes for a field, a table without that field passes over it. */
  lemma {:induction false} FieldSkips(d: Desc, f: Field, s: Slot, st: State, rest: seq<byte>)
    requires GoodField(f) && GoodSlot(f, s) && Find(d.fields, f.tag).None?
    requires EncodeField(f, s).Some? && |EncodeField(f, s).value| < TWO32
    ensures Run(d, EncodeField(f, s).value + rest, st) == Run(d, rest, st)
  {
    hide Run, EncodeKeyed, EncodePackedItems, EncodeItems, GoodValue, UnknownRecord, ReadKey, Find, Key, Delimited,
        IsZeroValue;
    var e := EncodeField(f, s).value;
    if !Present(f, s) {
      assert e + rest == rest;
    } else if f.rule.Repeated? && !f.kind.Packable() {
      ItemsSkip(d, f, s.items, st, rest);
    } else {
      if f.rule.Repeated? {
        PackedIsRecord(f, s.items);
      } else {
        ValueIsRecord(f, Val(s));
      }
      UnknownToAny(d, e);
      UnknownSkipped(d, e, st, rest);
    }
  }

  // ---------- a table that lacks some fields ----------

  /** The fields of `keep`, from entry `i` on. */
  function Kept(fs: seq<Field>, keep: set<nat>, i: nat): seq<Field>
    decreases |fs| - i
  {
    if i >= |fs| then [] else (if i in keep then [fs[i]] else []) + Kept(fs, keep, i + 1)
  }

  function SubTable(d: Desc, keep: set<nat>): Desc {
    Desc(Kept(d.fields, keep, 0), d.size)
  }

  /** Where the kept fields come from. */
  lemma {:induction false} KeptFrom(fs: seq<Field>, keep: set<nat>, i: nat, k: nat) returns (j: nat)
    requires k < |Kept(fs, keep, i)|
    ensures i <= j < |fs| && j in keep && Kept(fs, keep, i)[k] == fs[j]
    decreases |fs| - i
  {
    if i in keep && k == 0 {
      j := i;
    } else {
      j := KeptFrom(fs, keep, i + 1, if i in keep then k - 1 else k);
    }
  }

  lemma {:induction false} KeptInOrder(fs: seq<Field>, keep: set<nat>, i: nat, k: nat, l: nat) returns (j: nat, m: nat)
    requires k < l < |Kept(fs, keep, i)|
    ensures i <= j < m < |fs| && Kept(fs, keep, i)[k] == fs[j] && Kept(fs, keep, i)[l] == fs[m]
    decreases |fs| - i
  {
    if i in keep && k == 0 {
      j := i;
      m := KeptFrom(fs, keep, i + 1, l - 1);
    } else if i in keep {
      j, m := KeptInOrder(fs, keep, i + 1, k - 1, l - 1);
    } else {
      j, m := KeptInOrder(fs, keep, i + 1, k, l);
    }
  }

  lemma {:induction false} SubTableGood(d: Desc, keep: set<nat>, m: Message)
    requires GoodDesc(d) && GoodMessage(d, m)
    ensures GoodDesc(SubTable(d, keep)) && GoodMessage(SubTable(d, keep), m)
  {
    hide GoodField, GoodSlot, Kept;
    var e := SubTable(d, keep);
    forall k | 0 <= k < |e.fields|
      ensures GoodField(e.fields[k]) && e.fields[k].slot < e.size && GoodSlot(e.fields[k], At(m, e.fields[k].slot))
    {
      var j := KeptFrom(d.fields, keep, 0, k);
    }
    forall k, l | 0 <= k < l < |e.fields|
      ensures e.fields[k].tag != e.fields[l].tag
      ensures e.fields[k].slot == e.fields[l].slot ==> e.fields[k].rule.Oneof? && e.fields[l].rule.Oneof?
    {
      var j, n := KeptInOrder(d.fields, keep, 0, k, l);
    }
  }

  lemma {:induction false} DroppedIsUnknown(d: Desc, keep: set<nat>, i: nat)
    requires GoodDesc(d) && i < |d.fields| && i !in keep
    ensures Find(SubTable(d, keep).fields, d.fields[i].tag).None?
  {
    hide GoodField, Kept, Find;
    var fs := SubTable(d, keep).fields;
    var r := Find(fs, d.fields[i].tag);
    if r.Some? {
      FindHit(fs, d.fields[i].tag);
      var j := KeptFrom(d.fields, keep, 0, r.value);
    }
  }

  lemma {:induction false} FindHit(fs: seq<Field>, tag: nat)
    requires Find(fs, tag).Some?
    ensures Find(fs, tag).value < |fs| && fs[Find(fs, tag).value].tag == tag
  {
  }

  lemma {:induction false} KeptTail(fs: seq<Field>, keep: set<nat>, i: nat, all: seq<Field>, j: nat)
    requires i < |fs| && j <= |all| && all[j..] == Kept(fs, keep, i)
    ensures i in keep ==> j < |all| && all[j] == fs[i] && all[j + 1..] == Kept(fs, keep, i + 1)
    ensures i !in keep ==> all[j..] == Kept(fs, keep, i + 1)
  {
    if i in keep {
      assert all[j..][0] == fs[i] && all[j..][1..] == Kept(fs, keep, i + 1);
      assert all[j + 1..] == all[j..][1..];
    }
  }

  /** The entries from `j` on have not been met, and the array tracked last is complete. */
  predicate Ready(e: Desc, st: State, j: nat) {
    Fresh(e, st.msg, j) && FixedComplete(e.fields, st) && (st.fixed.Some? ==> st.fixed.value < j)
  }

  /** What is left of the encoding under the smaller table: the kept field at `j`, in both. */
  lemma {:induction false} KeptFieldAlike(e: Desc, m: Message, j: nat, st: State, x: seq<byte>, y: seq<byte>)
    requires GoodDesc(e) && GoodMessage(e, m) && j < |e.fields| && Ready(e, st, j)
    requires var s := At(m, e.fields[j].slot);
      EncodeField(e.fields[j], s).Some? && |EncodeField(e.fields[j], s).value| < TWO32
    requires forall st': State :: Ready(e, st', j + 1) ==> Run(e, x, st') == Run(e, y, st')
    ensures var b := EncodeField(e.fields[j], At(m, e.fields[j].slot)).value;
      Run(e, b + x, st) == Run(e, b + y, st)
  {
    hide Run, EncodeField, RestoreSlot, Present;
    var f, s := e.fields[j], At(m, e.fields[j].slot);
    if Present(f, s) {
      FieldInverts(e, m, j, st, x);
      FieldInverts(e, m, j, st, y);
      RestoreSlotUnion(f, s);
      FreshAfter(e, st.msg, j, RestoreSlot(f, s));
      assert Ready(e, AfterEntry(e, j, st, RestoreSlot(f, s), f.arraySize), j + 1);
    } else {
      AbsentEmpty(e, m, j);
      FreshNext(e, st.msg, j);
      var b := EncodeField(f, s).value;
      assert b + x == x && b + y == y;
    }
  }

  lemma {:induction false} FreshNext(e: Desc, m: Message, j: nat)
    requires Fresh(e, m, j)
    ensures Fresh(e, m, j + 1)
  {
  }

  lemma {:induction false} SkipsDropped(d: Desc, keep: set<nat>, m: Message, i: nat, j: nat, st: State)
    requires GoodDesc(d) && GoodMessage(d, m) && GoodDesc(SubTable(d, keep)) && GoodMessage(SubTable(d, keep), m)
    requires i <= |d.fields| && j <= |SubTable(d, keep).fields|
    requires SubTable(d, keep).fields[j..] == Kept(d.fields, keep, i)
    requires Ready(SubTable(d, keep), st, j)
    requires EncodeFrom(d, m, i).Some? && |EncodeFrom(d, m, i).value| < TWO32
    ensures var e := SubTable(d, keep);
      EncodeFrom(e, m, j).Some? && |EncodeFrom(e, m, j).value| <= |EncodeFrom(d, m, i).value|
      && Run(e, EncodeFrom(d, m, i).value, st) == Run(e, EncodeFrom(e, m, j).value, st)
    decreases |d.fields| - i
  {
    hide Run, EncodeField, GoodDesc, GoodMessage, Ready, Kept, SubTable;
    var e := SubTable(d, keep);
    if i == |d.fields| {
      KeptNone(d.fields, keep);
      assert j == |e.fields|;
    } else {
      KeptTail(d.fields, keep, i, e.fields, j);
      var f := d.fields[i];
      var b, x := EncodeField(f, At(m, f.slot)).value, EncodeFrom(d, m, i + 1).value;
      if i in keep {
        forall st': State | Ready(e, st', j + 1)
          ensures EncodeFrom(e, m, j + 1).Some? && |EncodeFrom(e, m, j + 1).value| <= |x|
          ensures Run(e, x, st') == Run(e, EncodeFrom(e, m, j + 1).value, st')
        {
          SkipsDropped(d, keep, m, i + 1, j + 1, st');
        }
        NextEncodable(d, keep, m, j + 1);
        KeptShorter(d, keep, m, i + 1, j + 1);
        var y := EncodeFrom(e, m, j + 1).value;
        KeptFieldAlike(e, m, j, st, x, y);
      } else {
        SkipsDropped(d, keep, m, i + 1, j, st);
        FieldGood(d, m, i);
        DroppedIsUnknown(d, keep, i);
        FieldSkips(e, f, At(m, f.slot), st, x);
      }
    }
  }

  lemma {:induction false} FieldGood(d: Desc, m: Message, i: nat)
    requires GoodDesc(d) && GoodMessage(d, m) && i < |d.fields|
    ensures GoodField(d.fields[i]) && GoodSlot(d.fields[i], At(m, d.fields[i].slot))
  {
  }

  lemma {:induction false} KeptNone(fs: seq<Field>, keep: set<nat>)
    ensures Kept(fs, keep, |fs|) == []
  {
  }

  lemma {:induction false} NextEncodable(d: Desc, keep: set<nat>, m: Message, j: nat)
    requires GoodDesc(SubTable(d, keep)) && GoodMessage(SubTable(d, keep), m)
    ensures EncodeFrom(SubTable(d, keep), m, j).Some?
  {
    FieldsEncodable(SubTable(d, keep), m, j);
  }

  /** The smaller table writes no more. */
  lemma {:induction false} KeptShorter(d: Desc, keep: set<nat>, m: Message, i: nat, j: nat)
    requires i <= |d.fields| && j <= |SubTable(d, keep).fields|
    requires SubTable(d, keep).fields[j..] == Kept(d.fields, keep, i)
    requires EncodeFrom(d, m, i).Some? && EncodeFrom(SubTable(d, keep), m, j).Some?
    ensures |EncodeFrom(SubTable(d, keep), m, j).value| <= |EncodeFrom(d, m, i).value|
    decreases |d.fields| - i
  {
    hide EncodeField, Kept, SubTable;
    var e := SubTable(d, keep);
    if i == |d.fields| {
      KeptNone(d.fields, keep);
      assert j == |e.fields|;
    } else {
      KeptTail(d.fields, keep, i, e.fields, j);
      KeptShorter(d, keep, m, i + 1, if i in keep then j + 1 else j);
    }
  }

  /** A reader whose table has only some of the writer's fields reads the message as if only those
      had been written: it succeeds, consumes every byte and restores the fields it has. */
  lemma {:induction false} OlderReader(d: Desc, keep: set<nat>, m: Message)
    requires GoodDesc(d) && GoodMessage(d, m)
    ensures var e := SubTable(d, keep);
      && Encode(d, m).Some?
      && (|Encode(d, m).value| < TWO32 ==>
            var r := DecodeFresh(e, Encode(d, m).value);
            r.Got? && r.rest == [] && (Restored(e, m, r.v) <==> ZeroesKept(e, m)))
  {
    hide Run, EncodeFrom, GoodDesc, GoodMessage, Default, Restored, ZeroesKept, Kept, Ready;
    MessageEncodable(d, m);
    SubTableGood(d, keep, m);
    var e := SubTable(d, keep);
    if |Encode(d, m).value| < TWO32 {
      StartFresh(e);
      SkipsDropped(d, keep, m, 0, 0, Start(Default(e)));
      DecodeInvertsEncode(e, m);
    }
  }

  lemma {:induction false} StartFresh(d: Desc)
    requires GoodDesc(d)
    ensures Ready(d, Start(Default(d)), 0)
  {
    DefaultFresh(d);
  }
}
