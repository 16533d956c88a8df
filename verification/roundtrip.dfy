/** pb_decode inverts pb_encode: for every well-formed table and message, at any nesting. */
module RoundTrip {
  import opened Options
  import opened Wire
  import opened Descriptor
  import opened Encoding
  import opened Decoding
  import opened ScalarLaws

  // ---------- well-formed tables and messages ----------

  /** What the generator guarantees of one entry. */
  predicate GoodField(f: Field)
    decreases f
  {
    && 1 <= f.tag < 0x2000_0000
    && f.atype.Static?
    && !f.kind.Extension?
    && (f.rule.Oneof? ==> f.sizeOffset != 0)
    && f.arraySize <= PB_SIZE_MAX
    && (f.kind.Submessage? ==> GoodDesc(f.kind.sub))
  }

  predicate GoodDesc(d: Desc)
    decreases d
  {
    && (forall i :: 0 <= i < |d.fields| ==> GoodField(d.fields[i]) && d.fields[i].slot < d.size)
    && (forall i, j :: 0 <= i < j < |d.fields| ==> d.fields[i].tag != d.fields[j].tag)
    && (forall i, j :: 0 <= i < j < |d.fields| && d.fields[i].slot == d.fields[j].slot
          ==> d.fields[i].rule.Oneof? && d.fields[j].rule.Oneof?)
  }

  predicate GoodValue(f: Field, v: Value)
    decreases f, 0
  {
    if f.kind.Submessage? then v.VMsg? && GoodMessage(f.kind.sub, v.slots) else GoodScalar(f, v)
  }

  predicate GoodSlot(f: Field, s: Slot)
    decreases f, 1
  {
    match f.rule
    case Required => s.One? && GoodValue(f, s.v)
    case Optional => s.One? && (f.sizeOffset == 0 || s.has ==> GoodValue(f, s.v))
    case Repeated =>
      && s.Many?
      && (if f.sizeOffset == 0 then |s.items| == f.arraySize else |s.items| <= f.arraySize)
      && forall k :: 0 <= k < |s.items| ==> GoodValue(f, s.items[k])
    case Oneof => s.Union? && (s.which == f.tag ==> GoodValue(f, s.v))
  }

  predicate GoodMessage(d: Desc, m: Message)
    decreases d, 0
  {
    && |m| == d.size
    && forall i :: 0 <= i < |d.fields| ==> GoodSlot(d.fields[i], At(m, d.fields[i].slot))
  }

  // ---------- zeroes that are not written ----------

  predicate ValueKept(f: Field, v: Value)
    decreases f, 0
  {
    f.kind.Submessage? ==> ZeroesKept(f.kind.sub, Slots(v))
  }

  /** A proto3 scalar that is left out because it is zero must be its own default. */
  predicate SlotKept(f: Field, s: Slot)
    decreases f, 1
  {
    match f.rule
    case Required => ValueKept(f, Val(s))
    case Optional =>
      if f.sizeOffset != 0 then Has(s) ==> ValueKept(f, Val(s))
      else ValueKept(f, Val(s))
           && (!f.kind.Submessage? && IsZeroValue(f, Val(s)) ==> DefaultValue(f) == Val(s))
    case Repeated => forall k :: 0 <= k < |Items(s)| ==> ValueKept(f, Items(s)[k])
    case Oneof => Which(s) == f.tag ==> ValueKept(f, Val(s))
  }

  /** No written part of the message holds a zero that its table would turn into something
      else: explicit defaults on fields without a `has_` member are the only danger. */
  predicate ZeroesKept(d: Desc, m: Message)
    decreases d, 0
  {
    forall i :: 0 <= i < |d.fields| ==> SlotKept(d.fields[i], At(m, d.fields[i].slot))
  }

  /** No field without a `has_` member has an explicit default, at any depth. */
  predicate NoImplicitDefaults(d: Desc)
    decreases d
  {
    forall i :: 0 <= i < |d.fields| ==>
      && (d.fields[i].Implicit() ==> d.fields[i].dflt.None?)
      && (d.fields[i].kind.Submessage? ==> NoImplicitDefaults(d.fields[i].kind.sub))
  }

  // ---------- absent fields ----------

  /** A value all of whose bytes are zero. */
  predicate ZeroContents(f: Field, v: Value) {
    match f.kind
    case Bool => v == VBool(false)
    case Varint => v == VInt(0)
    case UVarint => v == VInt(0)
    case SVarint => v == VInt(0)
    case Fixed32 => v == VFixed(0)
    case Fixed64 => v == VFixed(0)
    case Bytes => v == VBytes([])
    case Str => v == VStr([])
    case FixedBytes => v.VBytes? && |v.bytes| == f.dataSize && forall k :: 0 <= k < f.dataSize ==> v.bytes[k] == 0
    case Submessage(_) => false
    case Extension => false
  }

  /** The slot says that the field is absent, and holds its explicit default, or zeros without one.
      A submessage is absent throughout. */
  predicate AbsentSlot(f: Field, s: Slot)
    decreases f, 1
  {
    match f.rule
    case Repeated => s.Many? && (f.sizeOffset != 0 ==> s.items == [])
    case Oneof => s.Union? && s.which == 0
    case _ =>
      && s.One? && !s.has
      && if f.kind.Submessage? then s.v.VMsg? && AllAbsent(f.kind.sub, s.v.slots)
         else if f.dflt.Some? then s.v == f.dflt.value
         else ZeroContents(f, s.v)
  }

  predicate AllAbsent(d: Desc, m: Message)
    decreases d, 0
  {
    |m| == d.size && forall i :: 0 <= i < |d.fields| ==> AbsentSlot(d.fields[i], At(m, d.fields[i].slot))
  }

  // ---------- what it means to get a message back ----------

  /** `r` is the value `v`; submessages up to their own absent fields. */
  predicate ValueRestored(f: Field, v: Value, r: Value)
    decreases f, 0
  {
    if f.kind.Submessage? then r.VMsg? && Restored(f.kind.sub, Slots(v), r.slots) else r == v
  }

  /** The field has its value again, or is absent again. */
  predicate SlotRestored(f: Field, s: Slot, r: Slot)
    decreases f, 1
  {
    match f.rule
    case Required => r.One? && ValueRestored(f, Val(s), r.v)
    case Optional =>
      if f.sizeOffset == 0 then r.One? && ValueRestored(f, Val(s), r.v)
      else if Has(s) then r.One? && r.has && ValueRestored(f, Val(s), r.v)
      else AbsentSlot(f, r)
    case Repeated =>
      && r.Many? && |r.items| == |Items(s)|
      && forall k :: 0 <= k < |r.items| ==> ValueRestored(f, Items(s)[k], r.items[k])
    case Oneof =>
      if Which(s) == f.tag then r.Union? && r.which == f.tag && ValueRestored(f, Val(s), r.v)
      else Which(r) != f.tag && (Which(s) == 0 ==> r == Union(0, Junk))
  }

  predicate Restored(d: Desc, m: Message, r: Message)
    decreases d, 0
  {
    && |r| == d.size
    && forall i :: 0 <= i < |d.fields|
         ==> SlotRestored(d.fields[i], At(m, d.fields[i].slot), At(r, d.fields[i].slot))
  }

  // ---------- what the decoder builds from an encoding ----------

  function RestoreValue(f: Field, v: Value): Value
    decreases f, 0
  {
    if f.kind.Submessage? then VMsg(Restore(f.kind.sub, Slots(v))) else v
  }

  function RestoreItems(f: Field, items: seq<Value>): (r: seq<Value>)
    ensures |r| == |items|
    decreases f, 1, |items|
  {
    if items == [] then [] else [RestoreValue(f, items[0])] + RestoreItems(f, items[1..])
  }

  function RestoreSlot(f: Field, s: Slot): Slot
    decreases f, 2
  {
    match f.rule
    case Required => One(false, RestoreValue(f, Val(s)))
    case Optional => One(f.sizeOffset != 0, RestoreValue(f, Val(s)))
    case Repeated => Many(RestoreItems(f, Items(s)))
    case Oneof => Union(f.tag, RestoreValue(f, Val(s)))
  }

  function RestoreFrom(d: Desc, m: Message, i: nat, acc: Message): (r: Message)
    ensures |r| == |acc|
    decreases d, 0, |d.fields| - i
  {
    if i >= |d.fields| then acc
    else
      var f, s := d.fields[i], At(m, d.fields[i].slot);
      RestoreFrom(d, m, i + 1, if Present(f, s) then Put(acc, f.slot, RestoreSlot(f, s)) else acc)
  }

  function Restore(d: Desc, m: Message): Message
    decreases d, 1
  {
    RestoreFrom(d, m, 0, Default(d))
  }

  // ---------- finding the entry ----------

  lemma {:induction false} FindUnique(d: Desc, i: nat)
    requires GoodDesc(d) && i < |d.fields|
    ensures Find(d.fields, d.fields[i].tag) == Some(i)
  {
    assert GoodField(d.fields[i]);
  }

  // ---------- defaults ----------

  lemma {:induction false} SetDefaultsUntouched(d: Desc, i: nat, m: Message, k: nat)
    requires forall j :: i <= j < |d.fields| ==> d.fields[j].slot != k
    ensures At(SetDefaults(d, i, m), k) == At(m, k)
    decreases |d.fields| - i
  {
    if i < |d.fields| {
      SetDefaultsUntouched(d, i + 1, Put(m, d.fields[i].slot, DefaultSlot(d.fields[i])), k);
    }
  }

  lemma {:induction false} SetDefaultsAt(d: Desc, i: nat, m: Message, j: nat)
    requires GoodDesc(d) && i <= j < |d.fields| && |m| == d.size
    ensures At(SetDefaults(d, i, m), d.fields[j].slot) == DefaultSlot(d.fields[j])
    decreases |d.fields| - i
  {
    hide DefaultSlot;
    var m' := Put(m, d.fields[i].slot, DefaultSlot(d.fields[i]));
    if i < j {
      SetDefaultsAt(d, i + 1, m', j);
    } else if exists l :: i < l < |d.fields| && d.fields[l].slot == d.fields[i].slot {
      var l :| i < l < |d.fields| && d.fields[l].slot == d.fields[i].slot;
      SetDefaultsAt(d, i + 1, m', l);
      DefaultOneof(d.fields[i]);
      DefaultOneof(d.fields[l]);
    } else {
      SetDefaultsUntouched(d, i + 1, m', d.fields[i].slot);
    }
  }

  lemma {:induction false} DefaultOneof(f: Field)
    requires f.rule.Oneof?
    ensures DefaultSlot(f) == Union(0, Junk)
  {
  }

  lemma {:induction false} DefaultAt(d: Desc, j: nat)
    requires GoodDesc(d) && j < |d.fields|
    ensures At(Default(d), d.fields[j].slot) == DefaultSlot(d.fields[j])
  {
    SetDefaultsAt(d, 0, seq(d.size, _ => One(false, Junk)), j);
  }

  /** Default contents are those of an absent field. */
  lemma {:induction false} DefaultIsAbsent(f: Field)
    requires GoodField(f)
    ensures AbsentSlot(f, DefaultSlot(f))
    decreases f, 1
  {
    if f.kind.Submessage? { DefaultsAreAbsent(f.kind.sub); }
  }

  /** A message set to defaults is absent throughout, at any nesting. */
  lemma {:induction false} DefaultsAreAbsent(d: Desc)
    requires GoodDesc(d)
    ensures AllAbsent(d, Default(d))
    decreases d, 0
  {
    hide AbsentSlot, DefaultSlot;
    forall i | 0 <= i < |d.fields| ensures AbsentSlot(d.fields[i], At(Default(d), d.fields[i].slot)) {
      DefaultAt(d, i);
      assert GoodField(d.fields[i]);
      DefaultIsAbsent(d.fields[i]);
    }
  }

  /** The entries from `i` on have not been met yet. */
  predicate Fresh(d: Desc, m: Message, i: nat) {
    && |m| == d.size
    && forall j :: i <= j < |d.fields| ==> FreshSlot(d.fields[j], At(m, d.fields[j].slot))
  }

  predicate FreshSlot(f: Field, s: Slot) {
    if f.rule.Oneof? then s.Union? && s.which != f.tag else s == DefaultSlot(f)
  }

  lemma {:induction false} DefaultFresh(d: Desc)
    requires GoodDesc(d)
    ensures Fresh(d, Default(d), 0)
  {
    forall j | 0 <= j < |d.fields| ensures FreshSlot(d.fields[j], At(Default(d), d.fields[j].slot)) {
      DefaultAt(d, j);
      assert GoodField(d.fields[j]);
    }
  }

  lemma {:induction false} FreshAfter(d: Desc, m: Message, i: nat, s: Slot)
    requires GoodDesc(d) && i < |d.fields| && Fresh(d, m, i)
    requires d.fields[i].rule.Oneof? ==> s.Union? && s.which == d.fields[i].tag
    ensures Fresh(d, Put(m, d.fields[i].slot, s), i + 1)
  {
    forall j | i + 1 <= j < |d.fields|
      ensures FreshSlot(d.fields[j], At(Put(m, d.fields[i].slot, s), d.fields[j].slot))
    {
      assert FreshSlot(d.fields[j], At(m, d.fields[j].slot));
    }
  }
}
