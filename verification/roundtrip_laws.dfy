/** The proof that decoding an encoding restores the message, field by field. */
module RoundTripLaws {
  import opened Options
  import opened Wire
  import opened Descriptor
  import opened Encoding
  import opened Decoding
  import opened ScalarLaws
  import opened RoundTrip

  // ---------- well-formed messages have an encoding ----------

  lemma {:induction false} ScalarEncodable(f: Field, v: Value)
    requires GoodScalar(f, v)
    ensures EncodeScalar(f, v).Some?
  {
  }

  lemma {:induction false} PackedEncodable(f: Field, items: seq<Value>)
    requires forall k :: 0 <= k < |items| ==> GoodScalar(f, items[k])
    ensures EncodePackedItems(f, items).Some?
  {
    if items != [] {
      ScalarEncodable(f, items[0]);
      PackedEncodable(f, items[1..]);
    }
  }

  lemma {:induction false} ValueEncodable(f: Field, v: Value)
    requires GoodField(f) && GoodValue(f, v)
    ensures EncodeValue(f, v).Some?
    decreases f, 0
  {
    if f.kind.Submessage? {
      MessageEncodable(f.kind.sub, v.slots);
    } else {
      ScalarEncodable(f, v);
    }
  }

  lemma {:induction false} ItemsEncodable(f: Field, items: seq<Value>)
    requires GoodField(f) && forall k :: 0 <= k < |items| ==> GoodValue(f, items[k])
    ensures EncodeItems(f, items).Some?
    decreases f, 1, |items|
  {
    if items != [] {
      ValueEncodable(f, items[0]);
      ItemsEncodable(f, items[1..]);
    }
  }

  lemma {:induction false} FieldEncodable(f: Field, s: Slot)
    requires GoodField(f) && GoodSlot(f, s)
    ensures EncodeField(f, s).Some?
    decreases f, 2
  {
    if Present(f, s) {
      if f.rule.Repeated? {
        if f.kind.Packable() {
          PackedEncodable(f, s.items);
        } else {
          ItemsEncodable(f, s.items);
        }
      } else {
        ValueEncodable(f, Val(s));
      }
    }
  }

  lemma {:induction false} FieldsEncodable(d: Desc, m: Message, i: nat)
    requires GoodDesc(d) && GoodMessage(d, m)
    ensures EncodeFrom(d, m, i).Some?
    decreases d, 0, |d.fields| - i
  {
    if i < |d.fields| {
      FieldEncodable(d.fields[i], At(m, d.fields[i].slot));
      FieldsEncodable(d, m, i + 1);
    }
  }

  lemma {:induction false} MessageEncodable(d: Desc, m: Message)
    requires GoodDesc(d) && GoodMessage(d, m)
    ensures Encode(d, m).Some?
    decreases d, 1
  {
    FieldsEncodable(d, m, 0);
  }

  // ---------- arrays ----------

  /** Storing `vs` one after the other, starting at element `n`. */
  function Fill(arr: seq<Value>, n: nat, vs: seq<Value>): seq<Value>
    decreases |vs|
  {
    if vs == [] then arr else Fill(Store(arr, n, vs[0]), n + 1, vs[1..])
  }

  lemma {:induction false} FillAppends(arr: seq<Value>, vs: seq<Value>)
    ensures Fill(arr, |arr|, vs) == arr + vs
    decreases |vs|
  {
    if vs != [] {
      FillAppends(arr + [vs[0]], vs[1..]);
      assert arr + [vs[0]] + vs[1..] == arr + vs;
    }
  }

  lemma {:induction false} FillOverwrites(arr: seq<Value>, n: nat, vs: seq<Value>)
    requires n + |vs| == |arr|
    ensures Fill(arr, n, vs) == arr[..n] + vs
    decreases |vs|
  {
    if vs != [] {
      FillOverwrites(arr[n := vs[0]], n + 1, vs[1..]);
      assert arr[n := vs[0]][..n + 1] + vs[1..] == arr[..n] + vs;
    }
  }

  /** Reading a packed body fills the array with its elements. */
  lemma {:induction false} PackedInverts(f: Field, items: seq<Value>, arr: seq<Value>, n: nat)
    requires f.kind.Packable() && n + |items| <= f.arraySize
    requires forall k :: 0 <= k < |items| ==> GoodScalar(f, items[k])
    requires EncodePackedItems(f, items).Some? && |EncodePackedItems(f, items).value| < TWO32
    ensures ReadPacked(f, EncodePackedItems(f, items).value, arr, n) == Filled(Fill(arr, n, items), n + |items|)
    decreases |items|
  {
    hide ReadScalar, EncodeScalar, GoodScalar;
    if items != [] {
      var tail := EncodePackedItems(f, items[1..]).value;
      ScalarRoundTrip(f, items[0], tail);
      PackedInverts(f, items[1..], Store(arr, n, items[0]), n + 1);
    }
  }

  // ---------- one record ----------

  lemma {:induction false} ValueInverts(f: Field, v: Value, prior: Value, rest: seq<byte>)
    requires GoodField(f) && GoodValue(f, v)
    requires EncodeValue(f, v).Some? && |EncodeValue(f, v).value| < TWO32
    requires f.kind.Submessage? && !f.rule.Repeated? ==> Slots(prior) == Default(f.kind.sub)
    ensures ReadValue(f, prior, EncodeValue(f, v).value + rest) == Got(RestoreValue(f, v), rest)
    decreases f, 0
  {
    hide Window, Delimited, Decode, Encode, Default, Restore, ReadScalar, EncodeScalar;
    if f.kind.Submessage? {
      var body := Encode(f.kind.sub, v.slots).value;
      DelimitedLength(body);
      WindowInverts(body, rest);
      MessageInverts(f.kind.sub, v.slots);
    } else {
      ScalarRoundTrip(f, v, rest);
    }
  }

  /** The state after reading entry `i` into slot contents `slot`. */
  function AfterEntry(d: Desc, i: nat, st: State, slot: Slot, count: nat): State
    requires i < |d.fields|
  {
    State(Put(st.msg, d.fields[i].slot, slot), st.met + {i},
          if d.fields[i].FixedCount() then Some(i) else st.fixed,
          if d.fields[i].FixedCount() then count else st.count)
  }

  /** A record whose key names entry `i` is handled by that entry. */
  lemma {:induction false} StepKnown(d: Desc, i: nat, w: WireType, payload: seq<byte>, st: State)
    requires GoodDesc(d) && i < |d.fields|
    ensures Step(d, Key(d.fields[i].tag, w) + payload, st) == ReadEntry(d.fields, i, WireCode(w), payload, st)
  {
    hide Key, ReadKey, ReadEntry, Find;
    assert GoodField(d.fields[i]);
    KeyInverts(d.fields[i].tag, w, payload);
    FindUnique(d, i);
  }

  lemma {:induction false} RunKnown(d: Desc, i: nat, w: WireType, payload: seq<byte>, st: State, st': State,
      rest: seq<byte>)
    requires GoodDesc(d) && i < |d.fields|
    requires ReadEntry(d.fields, i, WireCode(w), payload, st) == Next(st', rest)
    ensures Run(d, Key(d.fields[i].tag, w) + payload, st) == Run(d, rest, st')
  {
    hide Key, ReadEntry, Step;
    StepKnown(d, i, w, payload, st);
    assert Key(d.fields[i].tag, w) + payload != [] by {
      KeyNonEmpty(d.fields[i].tag, w);
    }
  }

  lemma {:induction false} KeyNonEmpty(tag: nat, w: WireType)
    ensures |Key(tag, w)| >= 1
  {
  }

  lemma {:induction false} DefaultSingular(f: Field)
    ensures f.rule.Required? || f.rule.Optional? ==> DefaultSlot(f) == One(false, DefaultValue(f))
    ensures f.kind.Submessage? ==> DefaultValue(f) == VMsg(Default(f.kind.sub))
  {
  }

  lemma {:induction false} SingularInverts(d: Desc, m: Message, i: nat, st: State, rest: seq<byte>)
    requires GoodDesc(d) && i < |d.fields| && Fresh(d, st.msg, i) && !d.fields[i].rule.Repeated?
    requires var s := At(m, d.fields[i].slot);
      GoodSlot(d.fields[i], s) && Present(d.fields[i], s) &&
      EncodeField(d.fields[i], s).Some? && |EncodeField(d.fields[i], s).value| < TWO32
    ensures var f, s := d.fields[i], At(m, d.fields[i].slot);
      Run(d, EncodeField(f, s).value + rest, st) == Run(d, rest, AfterEntry(d, i, st, RestoreSlot(f, s), 0))
    decreases d.fields[i], 1
  {
    hide Run, Key, EncodeValue, ReadValue, RestoreValue, GoodValue, Default, IsZeroValue;
    var f, s := d.fields[i], At(m, d.fields[i].slot);
    assert GoodField(f);
    var slot := At(st.msg, f.slot);
    assert FreshSlot(f, slot);
    var key, body := Key(f.tag, WireTypeOf(f.kind)), EncodeValue(f, Val(s)).value;
    assert EncodeField(f, s) == EncodeKeyed(f, Val(s)) == Some(key + body);
    assert EncodeField(f, s).value + rest == key + (body + rest);
    DefaultSingular(f);
    var prior := if f.rule.Oneof? && f.kind.Submessage? then DefaultValue(f) else Val(slot);
    ValueInverts(f, Val(s), prior, rest);
    RunKnown(d, i, WireTypeOf(f.kind), body + rest, st, AfterEntry(d, i, st, RestoreSlot(f, s), 0), rest);
  }

  // ---------- arrays, record by record ----------

  /** The array without a count member becomes the tracked one. */
  function Track(d: Desc, i: nat, st: State): State
    requires i < |d.fields|
  {
    if d.fields[i].FixedCount() then st.(fixed := Some(i), count := 0) else st
  }

  /** The slot of entry `i` holds `arr`, of which `n` elements count. */
  predicate Holds(d: Desc, i: nat, st: State, arr: seq<Value>, n: nat)
    requires i < |d.fields|
  {
    && At(st.msg, d.fields[i].slot) == Many(arr)
    && if d.fields[i].FixedCount() then st.fixed == Some(i) && st.count == n else n == |arr|
  }

  lemma {:induction false} PackedRecord(d: Desc, i: nat, st: State, arr: seq<Value>, n: nat, items: seq<Value>,
      rest: seq<byte>)
    requires GoodDesc(d) && i < |d.fields| && d.fields[i].rule.Repeated? && d.fields[i].kind.Packable()
    requires Holds(d, i, st, arr, n) && n + |items| <= d.fields[i].arraySize
    requires forall k :: 0 <= k < |items| ==> GoodScalar(d.fields[i], items[k])
    requires EncodePackedItems(d.fields[i], items).Some? && |EncodePackedItems(d.fields[i], items).value| < TWO32
    ensures Run(d, Key(d.fields[i].tag, WtString) + Delimited(EncodePackedItems(d.fields[i], items).value) + rest, st)
         == Run(d, rest, AfterEntry(d, i, st, Many(Fill(arr, n, items)), n + |items|))
  {
    hide Run, Key, EncodePackedItems, ReadPacked, Window, Delimited, Fill, GoodScalar;
    var f := d.fields[i];
    assert GoodField(f);
    var body := EncodePackedItems(f, items).value;
    PackedInverts(f, items, arr, n);
    WindowInverts(body, rest);
    var payload := Delimited(body) + rest;
    assert Key(f.tag, WtString) + Delimited(body) + rest == Key(f.tag, WtString) + payload;
    RunKnown(d, i, WtString, payload, st, AfterEntry(d, i, st, Many(Fill(arr, n, items)), n + |items|), rest);
  }

  lemma {:induction false} ItemRecord(d: Desc, i: nat, st: State, arr: seq<Value>, n: nat, v: Value, rest: seq<byte>)
    requires GoodDesc(d) && i < |d.fields| && d.fields[i].rule.Repeated?
    requires Holds(d, i, st, arr, n) && n < d.fields[i].arraySize
    requires GoodValue(d.fields[i], v)
    requires EncodeKeyed(d.fields[i], v).Some? && |EncodeKeyed(d.fields[i], v).value| < TWO32
    ensures Run(d, EncodeKeyed(d.fields[i], v).value + rest, st)
         == Run(d, rest, AfterEntry(d, i, st, Many(Store(arr, n, RestoreValue(d.fields[i], v))), n + 1))
    decreases d.fields[i], 1
  {
    hide Run, Key, EncodeValue, ReadValue, RestoreValue, GoodValue;
    var f := d.fields[i];
    assert GoodField(f);
    var key, body := Key(f.tag, WireTypeOf(f.kind)), EncodeValue(f, v).value;
    assert EncodeKeyed(f, v).value + rest == key + (body + rest);
    ValueInverts(f, v, Junk, rest);
    PackableKeyed(f);
    RunKnown(d, i, WireTypeOf(f.kind), body + rest, st,
             AfterEntry(d, i, st, Many(Store(arr, n, RestoreValue(f, v))), n + 1), rest);
  }

  /** Single values of packable kinds never carry the wire type of packed arrays. */
  lemma {:induction false} PackableKeyed(f: Field)
    ensures f.kind.Packable() ==> WireCode(WireTypeOf(f.kind)) != 2
  {
  }

  lemma {:induction false} ItemsInvert(d: Desc, i: nat, st: State, arr: seq<Value>, n: nat, todo: seq<Value>,
      rest: seq<byte>)
    requires GoodDesc(d) && i < |d.fields| && d.fields[i].rule.Repeated? && |st.msg| == d.size
    requires Holds(d, i, st, arr, n) && n + |todo| <= d.fields[i].arraySize && todo != []
    requires forall k :: 0 <= k < |todo| ==> GoodValue(d.fields[i], todo[k])
    requires EncodeItems(d.fields[i], todo).Some? && |EncodeItems(d.fields[i], todo).value| < TWO32
    ensures Run(d, EncodeItems(d.fields[i], todo).value + rest, st)
         == Run(d, rest, AfterEntry(d, i, st, Many(Fill(arr, n, RestoreItems(d.fields[i], todo))), n + |todo|))
    decreases d.fields[i], 2, |todo|
  {
    hide Run, EncodeKeyed, RestoreValue, GoodValue;
    var f := d.fields[i];
    assert GoodField(f);
    var head, tail := EncodeKeyed(f, todo[0]).value, EncodeItems(f, todo[1..]).value;
    assert EncodeItems(f, todo).value + rest == head + (tail + rest);
    ItemRecord(d, i, st, arr, n, todo[0], tail + rest);
    var arr1 := Store(arr, n, RestoreValue(f, todo[0]));
    var st1 := AfterEntry(d, i, st, Many(arr1), n + 1);
    assert RestoreItems(f, todo) == [RestoreValue(f, todo[0])] + RestoreItems(f, todo[1..]);
    assert RestoreItems(f, todo)[1..] == RestoreItems(f, todo[1..]);
    if todo[1..] == [] {
      assert tail + rest == rest;
    } else {
      ItemsInvert(d, i, st1, arr1, n + 1, todo[1..], rest);
      var arr2 := Fill(arr1, n + 1, RestoreItems(f, todo[1..]));
      assert AfterEntry(d, i, st1, Many(arr2), n + 1 + |todo[1..]|)
          == AfterEntry(d, i, st, Many(arr2), n + |todo|);
    }
  }

  /** Starting a new array without a count member is what TrackFixed allows. */
  lemma {:induction false} RunTracked(d: Desc, i: nat, w: WireType, payload: seq<byte>, st: State)
    requires GoodDesc(d) && i < |d.fields|
    requires FixedComplete(d.fields, st) && st.fixed != Some(i)
    ensures Run(d, Key(d.fields[i].tag, w) + payload, st)
         == Run(d, Key(d.fields[i].tag, w) + payload, Track(d, i, st))
  {
    hide Key, ReadField, Step;
    StepKnown(d, i, w, payload, st);
    StepKnown(d, i, w, payload, Track(d, i, st));
    KeyNonEmpty(d.fields[i].tag, w);
    assert ReadEntry(d.fields, i, WireCode(w), payload, st)
        == ReadEntry(d.fields, i, WireCode(w), payload, Track(d, i, st));
  }

  lemma {:induction false} ArrayInverts(d: Desc, i: nat, st: State, items: seq<Value>, rest: seq<byte>)
    requires GoodDesc(d) && i < |d.fields| && d.fields[i].rule.Repeated? && Fresh(d, st.msg, i)
    requires FixedComplete(d.fields, st) && st.fixed != Some(i)
    requires GoodSlot(d.fields[i], Many(items)) && items != []
    requires EncodeArray(d.fields[i], items).Some? && |EncodeArray(d.fields[i], items).value| < TWO32
    ensures Run(d, EncodeArray(d.fields[i], items).value + rest, st)
         == Run(d, rest, AfterEntry(d, i, st, Many(RestoreItems(d.fields[i], items)), |items|))
    decreases d.fields[i], 3
  {
    hide Run, Key, Delimited, EncodePackedItems, EncodeKeyed, GoodValue, RestoreValue;
    var f := d.fields[i];
    assert GoodField(f);
    assert FreshSlot(f, At(st.msg, f.slot));
    var arr := DefaultSlot(f).items;
    var st1 := Track(d, i, st);
    assert Holds(d, i, st1, arr, 0);
    FilledFromDefault(f, RestoreItems(f, items));
    if f.kind.Packable() {
      ScalarItems(f, items);
      var body := Delimited(EncodePackedItems(f, items).value);
      DelimitedLength(EncodePackedItems(f, items).value);
      assert Key(f.tag, WtString) + body + rest == Key(f.tag, WtString) + (body + rest);
      RunTracked(d, i, WtString, body + rest, st);
      PackedRecord(d, i, st1, arr, 0, items, rest);
    } else {
      var w := WireTypeOf(f.kind);
      var payload := FirstRecord(f, items, rest);
      RunTracked(d, i, w, payload, st);
      ItemsInvert(d, i, st1, arr, 0, items, rest);
    }
  }

  lemma {:induction false} FirstRecord(f: Field, items: seq<Value>, rest: seq<byte>) returns (payload: seq<byte>)
    requires items != [] && EncodeItems(f, items).Some?
    ensures EncodeItems(f, items).value + rest == Key(f.tag, WireTypeOf(f.kind)) + payload
  {
    hide Key, EncodeValue;
    var body, tail := EncodeValue(f, items[0]).value, EncodeItems(f, items[1..]).value;
    payload := body + tail + rest;
  }

  lemma {:induction false} ScalarItems(f: Field, items: seq<Value>)
    requires f.kind.Packable() && forall k :: 0 <= k < |items| ==> GoodValue(f, items[k])
    ensures forall k :: 0 <= k < |items| ==> GoodScalar(f, items[k])
    ensures RestoreItems(f, items) == items
    decreases |items|
  {
    if items != [] {
      ScalarItems(f, items[1..]);
    }
  }

  /** A whole array read into default contents replaces them. */
  lemma {:induction false} FilledFromDefault(f: Field, vs: seq<Value>)
    requires f.rule.Repeated? && (f.sizeOffset == 0 ==> |vs| == f.arraySize)
    ensures Fill(DefaultSlot(f).items, 0, vs) == vs
  {
    if f.sizeOffset == 0 {
      FillOverwrites(DefaultSlot(f).items, 0, vs);
    } else {
      FillAppends([], vs);
    }
  }

  // ---------- the whole message ----------

  lemma {:induction false} FieldInverts(d: Desc, m: Message, i: nat, st: State, rest: seq<byte>)
    requires GoodDesc(d) && GoodMessage(d, m) && i < |d.fields| && Fresh(d, st.msg, i)
    requires FixedComplete(d.fields, st) && st.fixed != Some(i)
    requires var s := At(m, d.fields[i].slot);
      Present(d.fields[i], s) &&
      EncodeField(d.fields[i], s).Some? && |EncodeField(d.fields[i], s).value| < TWO32
    ensures var f, s := d.fields[i], At(m, d.fields[i].slot);
      Run(d, EncodeField(f, s).value + rest, st)
      == Run(d, rest, AfterEntry(d, i, st, RestoreSlot(f, s), f.arraySize))
    decreases d.fields[i], 4
  {
    hide Run, EncodeArray, EncodeKeyed, RestoreValue, GoodValue, RestoreItems, IsZeroValue;
    var f, s := d.fields[i], At(m, d.fields[i].slot);
    assert GoodSlot(f, s);
    if f.rule.Repeated? {
      ArrayInverts(d, i, st, s.items, rest);
    } else {
      SingularInverts(d, m, i, st, rest);
    }
  }

  /** The entries from `i` on that the encoder writes. */
  function PresentFrom(d: Desc, m: Message, i: nat): set<nat> {
    set j | i <= j < |d.fields| && Present(d.fields[j], At(m, d.fields[j].slot))
  }

  lemma {:induction false} FieldsInvert(d: Desc, m: Message, i: nat, st: State)
    requires GoodDesc(d) && GoodMessage(d, m) && Fresh(d, st.msg, i)
    requires FixedComplete(d.fields, st) && (st.fixed.Some? ==> st.fixed.value < i)
    requires EncodeFrom(d, m, i).Some? && |EncodeFrom(d, m, i).value| < TWO32
    ensures var r := Run(d, EncodeFrom(d, m, i).value, st);
      && r.Done? && r.rest == [] && !r.terminated
      && r.st.msg == RestoreFrom(d, m, i, st.msg)
      && r.st.met == st.met + PresentFrom(d, m, i)
      && FixedComplete(d.fields, r.st)
    decreases d, 0, |d.fields| - i
  {
    hide EncodeField, RestoreSlot, Step, Present;
    if i < |d.fields| {
      var f, s := d.fields[i], At(m, d.fields[i].slot);
      var rest := EncodeFrom(d, m, i + 1).value;
      if Present(f, s) {
        FieldInverts(d, m, i, st, rest);
        var st1 := AfterEntry(d, i, st, RestoreSlot(f, s), f.arraySize);
        RestoreSlotUnion(f, s);
        FreshAfter(d, st.msg, i, RestoreSlot(f, s));
        FieldsInvert(d, m, i + 1, st1);
        assert PresentFrom(d, m, i) == {i} + PresentFrom(d, m, i + 1);
      } else {
        AbsentEmpty(d, m, i);
        assert EncodeFrom(d, m, i).value == rest;
        FieldsInvert(d, m, i + 1, st);
        assert PresentFrom(d, m, i) == PresentFrom(d, m, i + 1);
      }
    }
  }

  lemma {:induction false} RestoreSlotUnion(f: Field, s: Slot)
    ensures f.rule.Oneof? ==> RestoreSlot(f, s).Union? && RestoreSlot(f, s).which == f.tag
  {
  }

  lemma {:induction false} AbsentEmpty(d: Desc, m: Message, i: nat)
    requires i < |d.fields| && !Present(d.fields[i], At(m, d.fields[i].slot))
    requires EncodeField(d.fields[i], At(m, d.fields[i].slot)).Some?
    ensures EncodeField(d.fields[i], At(m, d.fields[i].slot)).value == []
  {
  }

  lemma {:induction false} MessageInverts(d: Desc, m: Message)
    requires GoodDesc(d) && GoodMessage(d, m)
    requires Encode(d, m).Some? && |Encode(d, m).value| < TWO32
    ensures Decode(d, Default(d), Encode(d, m).value) == Got(Restore(d, m), [])
    decreases d, 1
  {
    hide Run, EncodeFrom, RestoreFrom, Default, Present;
    DefaultFresh(d);
    FieldsInvert(d, m, 0, Start(Default(d)));
    var met := PresentFrom(d, m, 0);
    forall i | 0 <= i < |d.fields| && d.fields[i].rule.Required? ensures i in met {
      RequiredPresent(d.fields[i], At(m, d.fields[i].slot));
    }
  }

  lemma {:induction false} RequiredPresent(f: Field, s: Slot)
    requires f.rule.Required?
    ensures Present(f, s)
  {
  }

  // ---------- the restored message is the original ----------

  lemma {:induction false} FoldUntouched(d: Desc, m: Message, i: nat, acc: Message, k: nat)
    requires forall j :: i <= j < |d.fields| && d.fields[j].slot == k
               ==> !Present(d.fields[j], At(m, d.fields[j].slot))
    ensures At(RestoreFrom(d, m, i, acc), k) == At(acc, k)
    decreases |d.fields| - i
  {
    hide Present, RestoreSlot;
    if i < |d.fields| {
      var f, s := d.fields[i], At(m, d.fields[i].slot);
      FoldUntouched(d, m, i + 1, if Present(f, s) then Put(acc, f.slot, RestoreSlot(f, s)) else acc, k);
    }
  }

  lemma {:induction false} FoldPresent(d: Desc, m: Message, i: nat, acc: Message, j: nat)
    requires GoodDesc(d) && i <= j < |d.fields| && |acc| == d.size
    requires Present(d.fields[j], At(m, d.fields[j].slot))
    ensures At(RestoreFrom(d, m, i, acc), d.fields[j].slot)
         == RestoreSlot(d.fields[j], At(m, d.fields[j].slot))
    decreases |d.fields| - i
  {
    hide Present, RestoreSlot;
    var f, s := d.fields[i], At(m, d.fields[i].slot);
    var acc' := if Present(f, s) then Put(acc, f.slot, RestoreSlot(f, s)) else acc;
    if i < j {
      FoldPresent(d, m, i + 1, acc', j);
    } else {
      forall l | i + 1 <= l < |d.fields| && d.fields[l].slot == f.slot
        ensures !Present(d.fields[l], At(m, d.fields[l].slot))
      {
        OneOfThem(f, d.fields[l], s);
      }
      FoldUntouched(d, m, i + 1, acc', f.slot);
    }
  }

  /** At most one member of a union is present. */
  lemma {:induction false} OneOfThem(f: Field, g: Field, s: Slot)
    requires f.rule.Oneof? && g.rule.Oneof? && f.tag != g.tag && Present(f, s)
    ensures !Present(g, s)
  {
  }

  lemma {:induction false} ValueSame(f: Field, v: Value)
    requires GoodField(f) && GoodValue(f, v)
    ensures ValueRestored(f, v, RestoreValue(f, v)) <==> ValueKept(f, v)
    decreases f, 0
  {
    if f.kind.Submessage? {
      MessageSame(f.kind.sub, v.slots);
    }
  }

  lemma {:induction false} ItemsSame(f: Field, items: seq<Value>, k: nat)
    requires GoodField(f) && k < |items| && GoodValue(f, items[k])
    ensures ValueRestored(f, items[k], RestoreItems(f, items)[k]) <==> ValueKept(f, items[k])
    decreases f, 1, k
  {
    if k == 0 {
      ValueSame(f, items[0]);
    } else {
      ItemsSame(f, items[1..], k - 1);
    }
  }

  lemma {:induction false} PresentSame(f: Field, s: Slot)
    requires GoodField(f) && GoodSlot(f, s) && Present(f, s)
    ensures SlotRestored(f, s, RestoreSlot(f, s)) <==> SlotKept(f, s)
    decreases f, 2
  {
    hide GoodValue, ValueRestored, RestoreValue, IsZeroValue, ValueKept, DefaultValue;
    if f.rule.Repeated? {
      forall k | 0 <= k < |s.items|
        ensures ValueRestored(f, s.items[k], RestoreItems(f, s.items)[k]) <==> ValueKept(f, s.items[k])
      {
        ItemsSame(f, s.items, k);
      }
    } else {
      ValueSame(f, Val(s));
    }
  }

  /** A field left out because it is zero is restored by its default, if that is zero too. */
  lemma {:induction false} ZeroValueSame(f: Field, v: Value)
    requires GoodField(f) && f.Implicit() && GoodValue(f, v) && IsZeroValue(f, v)
    ensures ValueRestored(f, v, DefaultValue(f))
       <==> ValueKept(f, v) && (!f.kind.Submessage? ==> DefaultValue(f) == v)
    decreases f, 0
  {
    hide GoodScalar;
    if f.kind.Submessage? {
      ZeroMessageSame(f.kind.sub, v.slots);
    }
  }

  lemma {:induction false} ZeroSlotSame(f: Field, s: Slot)
    requires GoodField(f) && GoodSlot(f, s) && IsZeroSlot(f, s)
    ensures SlotRestored(f, s, DefaultSlot(f)) <==> SlotKept(f, s)
    decreases f, 1
  {
    hide GoodValue, ValueRestored, IsZeroValue, ValueKept, DefaultValue, AbsentSlot;
    if f.Implicit() {
      ZeroValueSame(f, Val(s));
    }
    DefaultIsAbsent(f);
  }

  lemma {:induction false} AllZeroAt(d: Desc, m: Message, i: nat, j: nat)
    requires AllZero(d, m, i) && i <= j < |d.fields|
    ensures IsZeroSlot(d.fields[j], At(m, d.fields[j].slot))
    decreases |d.fields| - i
  {
    if i < j { AllZeroAt(d, m, i + 1, j); }
  }

  lemma {:induction false} ZeroMessageSame(d: Desc, m: Message)
    requires GoodDesc(d) && GoodMessage(d, m) && AllZero(d, m, 0)
    ensures Restored(d, m, Default(d)) <==> ZeroesKept(d, m)
    decreases d, 0
  {
    hide SlotRestored, GoodSlot, IsZeroSlot, GoodField, SlotKept;
    forall j | 0 <= j < |d.fields|
      ensures SlotRestored(d.fields[j], At(m, d.fields[j].slot), At(Default(d), d.fields[j].slot))
         <==> SlotKept(d.fields[j], At(m, d.fields[j].slot))
    {
      DefaultAt(d, j);
      AllZeroAt(d, m, 0, j);
      ZeroSlotSame(d.fields[j], At(m, d.fields[j].slot));
    }
  }

  lemma {:induction false} AbsentSame(d: Desc, m: Message, j: nat)
    requires GoodDesc(d) && GoodMessage(d, m) && j < |d.fields|
    requires !Present(d.fields[j], At(m, d.fields[j].slot))
    ensures SlotRestored(d.fields[j], At(m, d.fields[j].slot), At(Restore(d, m), d.fields[j].slot))
       <==> SlotKept(d.fields[j], At(m, d.fields[j].slot))
    decreases d.fields[j], 3
  {
    hide GoodValue, ValueRestored, IsZeroValue, RestoreFrom, DefaultValue, ValueKept, AbsentSlot;
    var f, s := d.fields[j], At(m, d.fields[j].slot);
    assert GoodField(f) && GoodSlot(f, s);
    DefaultAt(d, j);
    if l :| 0 <= l < |d.fields| && d.fields[l].slot == f.slot && Present(d.fields[l], s) {
      FoldPresent(d, m, 0, Default(d), l);
      assert GoodField(d.fields[l]);
    } else {
      FoldUntouched(d, m, 0, Default(d), f.slot);
      assert At(Restore(d, m), f.slot) == DefaultSlot(f);
      DefaultIsAbsent(f);
      if f.Implicit() { ZeroValueSame(f, Val(s)); }
    }
  }

  /** The message that is read back is the original exactly when its zeroes are kept. */
  lemma {:induction false} MessageSame(d: Desc, m: Message)
    requires GoodDesc(d) && GoodMessage(d, m)
    ensures Restored(d, m, Restore(d, m)) <==> ZeroesKept(d, m)
    decreases d
  {
    hide SlotRestored, GoodSlot, Present, RestoreSlot, RestoreFrom, SlotKept;
    forall j | 0 <= j < |d.fields|
      ensures SlotRestored(d.fields[j], At(m, d.fields[j].slot), At(Restore(d, m), d.fields[j].slot))
         <==> SlotKept(d.fields[j], At(m, d.fields[j].slot))
    {
      var f, s := d.fields[j], At(m, d.fields[j].slot);
      if Present(f, s) {
        FoldPresent(d, m, 0, Default(d), j);
        PresentSame(f, s);
      } else {
        AbsentSame(d, m, j);
      }
    }
  }

  // ---------- tables whose zeroes are always kept ----------

  lemma {:induction false} ZeroIsZero(f: Field, v: Value)
    requires !f.kind.Submessage? && GoodScalar(f, v) && IsZeroValue(f, v) && f.dflt.None?
    ensures DefaultValue(f) == v
  {
    hide Pow2, FitsSigned;
    if f.kind.FixedBytes? { assert Zero(f).bytes == v.bytes; }
  }

  lemma {:induction false} SafeValue(f: Field, v: Value)
    requires f.kind.Submessage? ==> NoImplicitDefaults(f.kind.sub)
    requires GoodValue(f, v)
    ensures ValueKept(f, v)
    decreases f, 0
  {
    if f.kind.Submessage? { SafeTable(f.kind.sub, v.slots); }
  }

  lemma {:induction false} SafeSlot(f: Field, s: Slot)
    requires f.kind.Submessage? ==> NoImplicitDefaults(f.kind.sub)
    requires f.Implicit() ==> f.dflt.None?
    requires GoodSlot(f, s)
    ensures SlotKept(f, s)
    decreases f, 1
  {
    hide ValueKept, GoodScalar, IsZeroValue, DefaultValue, NoImplicitDefaults;
    if f.rule.Repeated? {
      forall k | 0 <= k < |s.items| ensures ValueKept(f, s.items[k]) { SafeValue(f, s.items[k]); }
    } else if GoodValue(f, Val(s)) {
      SafeValue(f, Val(s));
      if f.Implicit() && !f.kind.Submessage? && IsZeroValue(f, s.v) { ZeroIsZero(f, s.v); }
    }
  }

  /** Without explicit defaults on fields that have no `has_` member, nothing can be lost. */
  lemma {:induction false} SafeTable(d: Desc, m: Message)
    requires NoImplicitDefaults(d) && GoodMessage(d, m)
    ensures ZeroesKept(d, m)
    decreases d
  {
    hide SlotKept, GoodSlot;
    forall i | 0 <= i < |d.fields| ensures SlotKept(d.fields[i], At(m, d.fields[i].slot)) {
      SafeSlot(d.fields[i], At(m, d.fields[i].slot));
    }
  }

  // ---------- the theorem ----------

  /** Decoding what was encoded succeeds and consumes every byte; it restores the message
      exactly when no zero is lost to an explicit default. */
  lemma {:induction false} DecodeInvertsEncode(d: Desc, m: Message)
    requires GoodDesc(d) && GoodMessage(d, m)
    ensures Encode(d, m).Some?
    ensures |Encode(d, m).value| < TWO32 ==>
      var r := DecodeFresh(d, Encode(d, m).value);
      r.Got? && r.rest == [] && (Restored(d, m, r.v) <==> ZeroesKept(d, m))
    ensures NoImplicitDefaults(d) ==> ZeroesKept(d, m)
  {
    MessageEncodable(d, m);
    if |Encode(d, m).value| < TWO32 {
      MessageInverts(d, m);
      MessageSame(d, m);
    }
    if NoImplicitDefaults(d) { SafeTable(d, m); }
  }

  /** A field without a `has_` member and with default 5: the value 0 is not written and comes
      back as 5. */
  lemma {:induction false} ZeroLost()
    ensures var d := Desc([Field(1, Varint, Optional, Static, 0, 0, 4, 0, 0, Some(VInt(5)))], 1);
      && GoodDesc(d) && GoodMessage(d, [One(false, VInt(0))])
      && Encode(d, [One(false, VInt(0))]) == Some([])
      && DecodeFresh(d, []) == Got([One(false, VInt(5))], [])
  {
    var f := Field(1, Varint, Optional, Static, 0, 0, 4, 0, 0, Some(VInt(5)));
    var d := Desc([f], 1);
    var m := [One(false, VInt(0))];
    hide Pow2, FitsSigned, Run, Decode, Default;
    ZeroFits(4);
    assert GoodField(f) && GoodValue(f, VInt(0)) && GoodSlot(f, m[0]);
    assert GoodDesc(d) && GoodMessage(d, m);
    assert EncodeField(f, m[0]) == Some([]);
    assert At(m, d.fields[0].slot) == m[0] && EncodeFrom(d, m, 1) == Some([]);
    assert EncodeFrom(d, m, 0).value == [];
    assert DefaultSlot(f) == One(false, VInt(5));
    DefaultAt(d, 0);
    assert Default(d) == [One(false, VInt(5))];
    EmptyInput(d);
  }

  lemma {:induction false} ZeroFits(n: nat)
    ensures FitsSigned(0, n)
  {
  }

  lemma {:induction false} EmptyInput(d: Desc)
    requires forall i :: 0 <= i < |d.fields| ==> !d.fields[i].rule.Required?
    ensures DecodeFresh(d, []) == Got(Default(d), [])
  {
  }
}
