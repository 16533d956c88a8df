/** No input makes the decoder store a value its field cannot hold, or more elements than an array
    has. */
module BoundsLaws {
  import opened Options
  import opened Wire
  import opened Descriptor
  import opened Encoding
  import opened Decoding
  import opened ScalarLaws
  import opened RoundTrip

  // ---------- what fits ----------

  /** The integer types of one, two, four and eight bytes. */
  predicate InSigned(i: int, n: nat) {
    || (n == 1 && -0x80 <= i < 0x80)
    || (n == 2 && -0x8000 <= i < 0x8000)
    || (n == 4 && -0x8000_0000 <= i < 0x8000_0000)
    || (n == 8 && -0x8000_0000_0000_0000 <= i < 0x8000_0000_0000_0000)
  }

  predicate InUnsigned(i: int, n: nat) {
    || (n == 1 && 0 <= i < 0x100)
    || (n == 2 && 0 <= i < 0x1_0000)
    || (n == 4 && 0 <= i < 0x1_0000_0000)
    || (n == 8 && 0 <= i < 0x1_0000_0000_0000_0000)
  }

  predicate ScalarInBounds(f: Field, v: Value) {
    match f.kind
    case Bool => v.VBool?
    case Varint => v.VInt? && InSigned(v.i, f.dataSize)
    case UVarint => v.VInt? && InUnsigned(v.i, f.dataSize)
    case SVarint => v.VInt? && InSigned(v.i, f.dataSize)
    case Fixed32 => v.VFixed? && v.bits < 0x1_0000_0000
    case Fixed64 => v.VFixed? && v.bits < 0x1_0000_0000_0000_0000
    case Bytes => v.VBytes? && |v.bytes| + 4 <= f.dataSize
    case Str => v.VStr? && |v.chars| + 1 <= f.dataSize
    case FixedBytes => v.VBytes? && |v.bytes| == f.dataSize
    case Submessage(_) => false
    case Extension => false
  }

  predicate ValueInBounds(f: Field, v: Value)
    decreases f, 0
  {
    if f.kind.Submessage? then v.VMsg? && InBounds(f.kind.sub, v.slots) else ScalarInBounds(f, v)
  }

  predicate SlotInBounds(f: Field, s: Slot)
    decreases f, 1
  {
    match f.rule
    case Repeated =>
      s.Many? && |s.items| <= f.arraySize
      && forall k :: 0 <= k < |s.items| ==> s.items[k] == Junk || ValueInBounds(f, s.items[k])
    case Oneof => s.Union? && (s.which == f.tag ==> ValueInBounds(f, s.v))
    case _ => s.One? && ValueInBounds(f, s.v)
  }

  /** The structure holds values of its types; elements that were never set may be anything. */
  predicate InBounds(d: Desc, m: Message)
    decreases d, 0
  {
    |m| == d.size && forall i :: 0 <= i < |d.fields| ==> SlotInBounds(d.fields[i], At(m, d.fields[i].slot))
  }

  /** The default values of the table fit its fields, at any nesting. */
  predicate DefaultsFit(d: Desc)
    decreases d
  {
    InBounds(d, Default(d))
    && forall i :: 0 <= i < |d.fields| && d.fields[i].kind.Submessage? ==> DefaultsFit(d.fields[i].kind.sub)
  }

  // ---------- scalars ----------

  lemma {:induction false} SignedFits(i: int, n: nat)
    requires IntWidth(n) && FitsSigned(i, n)
    ensures InSigned(i, n)
  {
    hide Pow2;
    Widths();
    assert 8 * n == 8 || 8 * n == 16 || 8 * n == 32 || 8 * n == 64;
  }

  lemma {:induction false} UnsignedFits(i: int, n: nat)
    requires IntWidth(n) && 0 <= i < Pow2(8 * n)
    ensures InUnsigned(i, n)
  {
    hide Pow2;
    Widths();
    assert 8 * n == 8 || 8 * n == 16 || 8 * n == 32 || 8 * n == 64;
  }

  lemma {:induction false} Signed64Fits(u: nat)
    ensures InSigned(Signed(u, 64), 8)
  {
    hide Pow2;
    Widths();
  }

  lemma {:induction false} WordFits(s: seq<byte>)
    ensures FromLittleEndian(s) < Pow256(|s|)
  {
    if s != [] { WordFits(s[1..]); }
  }

  lemma {:induction false} ReadInBounds(f: Field, s: seq<byte>)
    requires ReadScalar(f, s).Got? && !f.kind.Submessage? && !f.kind.Extension?
    ensures ScalarInBounds(f, ReadScalar(f, s).v)
  {
    hide Varint32, Varint64, Window, Pow2, Signed, FitsSigned, InSigned, InUnsigned, FromLittleEndian, UnZigZag;
    match f.kind
    case Varint =>
      var u := Varint64(s).v;
      if f.dataSize == 8 { Signed64Fits(u); } else { SignedFits(Signed(u, 32), f.dataSize); }
    case UVarint => UnsignedFits(Varint64(s).v, f.dataSize);
    case SVarint => SignedFits(UnZigZag(Varint64(s).v), f.dataSize);
    case Fixed32 => WordFits(s[..4]); assert Pow256(4) == 0x1_0000_0000;
    case Fixed64 => WordFits(s[..8]); assert Pow256(8) == 0x1_0000_0000_0000_0000;
    case _ =>
  }

  // ---------- arrays ----------

  predicate ItemsInBounds(f: Field, items: seq<Value>) {
    |items| <= f.arraySize
    && forall k :: 0 <= k < |items| ==> items[k] == Junk || ValueInBounds(f, items[k])
  }

  lemma {:induction false} StoreInBounds(f: Field, items: seq<Value>, n: nat, v: Value)
    requires ItemsInBounds(f, items) && ValueInBounds(f, v) && n < f.arraySize
    ensures ItemsInBounds(f, Store(items, n, v))
  {
    hide ValueInBounds;
  }

  lemma {:induction false} PackedInBounds(f: Field, w: seq<byte>, items: seq<Value>, n: nat)
    requires f.kind.Packable() && ItemsInBounds(f, items) && ReadPacked(f, w, items, n).Filled?
    ensures ItemsInBounds(f, ReadPacked(f, w, items, n).items)
    decreases |w|
  {
    hide ReadScalar, ItemsInBounds;
    if w != [] {
      ReadInBounds(f, w);
      var r := ReadScalar(f, w);
      StoreInBounds(f, items, n, r.v);
      PackedInBounds(f, r.rest, Store(items, n, r.v), n + 1);
    }
  }

  // ---------- fields and messages ----------

  predicate Nested(f: Field) {
    GoodField(f) && (f.kind.Submessage? ==> DefaultsFit(f.kind.sub))
  }

  lemma {:induction false} ValueRead(f: Field, prior: Value, s: seq<byte>)
    requires Nested(f) && ReadValue(f, prior, s).Got?
    requires f.kind.Submessage? && !f.rule.Repeated? ==> InBounds(f.kind.sub, Slots(prior))
    ensures ValueInBounds(f, ReadValue(f, prior, s).v)
    decreases |s|, 0
  {
    hide Window, Decode, Default, InBounds, ReadScalar, GoodDesc;
    if f.kind.Submessage? {
      var w := Window(s).v;
      SubFits(f.kind.sub);
      DecodedInBounds(f.kind.sub, if f.rule.Repeated? then Default(f.kind.sub) else Slots(prior), w);
    } else {
      ReadInBounds(f, s);
    }
  }

  lemma {:induction false} SubFits(d: Desc)
    requires DefaultsFit(d)
    ensures InBounds(d, Default(d))
  {
  }

  lemma {:induction false} UnionNamed(f: Field, wt: nat, s: seq<byte>, slot: Slot, n: nat)
    requires f.rule.Oneof? && ReadField(f, wt, s, slot, n).Stored?
    ensures Which(ReadField(f, wt, s, slot, n).slot) == f.tag
  {
    hide ReadValue, DefaultValue;
  }

  lemma {:induction false} FieldRead(f: Field, wt: nat, s: seq<byte>, slot: Slot, n: nat)
    requires Nested(f) && ReadField(f, wt, s, slot, n).Stored?
    requires SlotInBounds(f, slot)
    ensures SlotInBounds(f, ReadField(f, wt, s, slot, n).slot)
    decreases |s|, 1
  {
    hide Window, ReadValue, ReadPacked, Default, ValueInBounds, DefaultsFit, GoodField;
    match f.rule
    case Repeated =>
      if wt == 2 && f.kind.Packable() {
        PackedInBounds(f, Window(s).v, slot.items, n);
      } else {
        ValueRead(f, Junk, s);
        StoreInBounds(f, slot.items, n, ReadValue(f, Junk, s).v);
      }
    case Oneof =>
      var prior := if f.kind.Submessage? && Which(slot) != f.tag then DefaultValue(f) else Val(slot);
      PriorFits(f, prior);
      ValueRead(f, prior, s);
    case _ =>
      PriorFits(f, Val(slot));
      ValueRead(f, Val(slot), s);
  }

  lemma {:induction false} PriorFits(f: Field, prior: Value)
    requires Nested(f)
    requires f.kind.Submessage? && !(prior == DefaultValue(f)) ==> ValueInBounds(f, prior)
    ensures f.kind.Submessage? ==> InBounds(f.kind.sub, Slots(prior))
  {
    hide InBounds, Default, GoodField;
    if f.kind.Submessage? { SubFits(f.kind.sub); }
  }

  lemma {:induction false} EntryRead(d: Desc, i: nat, wt: nat, s: seq<byte>, st: State)
    requires GoodDesc(d) && DefaultsFit(d) && i < |d.fields| && InBounds(d, st.msg)
    requires ReadEntry(d.fields, i, wt, s, st).Next?
    ensures InBounds(d, ReadEntry(d.fields, i, wt, s, st).st.msg)
    decreases |s|, 2
  {
    hide ReadField, ValueInBounds, GoodField, Default, TrackFixed, GoodDesc;
    var f := d.fields[i];
    var st1 := TrackFixed(d.fields, st, i).value;
    TrackKeepsMsg(d.fields, st, i);
    EntryNested(d, i);
    var slot := At(st.msg, f.slot);
    var n := if f.FixedCount() then st1.count else |Items(slot)|;
    FieldRead(f, wt, s, slot, n);
    if f.rule.Oneof? { UnionNamed(f, wt, s, slot, n); }
    SlotReplaced(d, i, st.msg, ReadField(f, wt, s, slot, n).slot);
  }

  lemma {:induction false} EntryNested(d: Desc, i: nat)
    requires GoodDesc(d) && DefaultsFit(d) && i < |d.fields|
    ensures Nested(d.fields[i])
  {
  }

  lemma {:induction false} SlotReplaced(d: Desc, i: nat, m: Message, s: Slot)
    requires GoodDesc(d) && i < |d.fields| && InBounds(d, m) && SlotInBounds(d.fields[i], s)
    requires d.fields[i].rule.Oneof? ==> Which(s) == d.fields[i].tag
    ensures InBounds(d, Put(m, d.fields[i].slot, s))
  {
    hide ValueInBounds, GoodField;
    var m' := Put(m, d.fields[i].slot, s);
    forall j | 0 <= j < |d.fields| ensures SlotInBounds(d.fields[j], At(m', d.fields[j].slot)) {
      if j != i && d.fields[j].slot == d.fields[i].slot {
        BothUnions(d, i, j);
      }
    }
  }

  lemma {:induction false} BothUnions(d: Desc, i: nat, j: nat)
    requires GoodDesc(d) && i < |d.fields| && j < |d.fields| && i != j && d.fields[i].slot == d.fields[j].slot
    ensures d.fields[i].rule.Oneof? && d.fields[j].rule.Oneof? && d.fields[i].tag != d.fields[j].tag
  {
    hide GoodField;
  }

  lemma {:induction false} TrackKeepsMsg(fs: seq<Field>, st: State, i: nat)
    requires i < |fs|
    ensures TrackFixed(fs, st, i).Some? ==> TrackFixed(fs, st, i).value.msg == st.msg
  {
  }

  lemma {:induction false} StepRead(d: Desc, s: seq<byte>, st: State)
    requires GoodDesc(d) && DefaultsFit(d) && InBounds(d, st.msg) && Step(d, s, st).Next?
    ensures InBounds(d, Step(d, s, st).st.msg)
    decreases |s|, 3
  {
    hide ReadKey, ReadEntry, SkipField, Find, Varint32, GoodDesc, DefaultsFit, InBounds;
    var key := ReadKey(s);
    if d.fields != [] && Find(d.fields, key.tag).Some? {
      FindInside(d.fields, key.tag);
      EntryRead(d, Find(d.fields, key.tag).value, key.wt, key.rest, st);
    } else if d.fields == [] {
      NothingFound(d.fields, key.tag);
    }
  }

  lemma {:induction false} FindInside(fs: seq<Field>, tag: nat)
    requires Find(fs, tag).Some?
    ensures Find(fs, tag).value < |fs|
  {
  }

  lemma {:induction false} NothingFound(fs: seq<Field>, tag: nat)
    requires fs == []
    ensures Find(fs, tag).None?
  {
  }

  lemma {:induction false} RunRead(d: Desc, s: seq<byte>, st: State)
    requires GoodDesc(d) && DefaultsFit(d) && InBounds(d, st.msg) && Run(d, s, st).Done?
    ensures InBounds(d, Run(d, s, st).st.msg)
    decreases |s|, 4
  {
    hide Step, GoodDesc, DefaultsFit, InBounds;
    if s != [] && Step(d, s, st).Next? {
      StepRead(d, s, st);
      RunRead(d, Step(d, s, st).rest, Step(d, s, st).st);
    }
  }

  /** Whatever the input, a structure within its bounds is decoded into one. */
  lemma {:induction false} DecodedInBounds(d: Desc, m: Message, s: seq<byte>)
    requires GoodDesc(d) && DefaultsFit(d) && InBounds(d, m) && Decode(d, m, s).Got?
    ensures InBounds(d, Decode(d, m, s).v)
    decreases |s|, 5
  {
    hide Run, GoodDesc, DefaultsFit, InBounds;
    RunRead(d, s, Start(m));
  }
}
