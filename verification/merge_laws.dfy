/** Repeated records of one field: singular scalars are replaced, singular submessages are merged,
    elements of repeated submessages stay apart, and switching a union starts afresh. */
module MergeLaws {
  import opened Options
  import opened Wire
  import opened Descriptor
  import opened Encoding
  import opened Decoding
  import opened ScalarLaws
  import opened RoundTrip
  import opened RoundTripLaws
  import opened RecordLaws
  import opened PackedLaws

  /** The record of a submessage with the given contents. */
  function SubRecord(f: Field, w: seq<byte>): seq<byte> {
    Key(f.tag, WtString) + Delimited(w)
  }

  predicate SubField(d: Desc, i: nat) {
    GoodDesc(d) && i < |d.fields| && d.fields[i].kind.Submessage? && GoodField(d.fields[i])
  }

  /** What a singular submessage is decoded into: what the slot holds, unless the union holds
      another member. */
  function Prior(f: Field, slot: Slot): Message
    requires f.kind.Submessage?
  {
    if f.rule.Oneof? && Which(slot) != f.tag then Default(f.kind.sub) else Slots(Val(slot))
  }

  function Holding(f: Field, slot: Slot, v: Value): Slot {
    match f.rule
    case Oneof => Union(f.tag, v)
    case Optional => One(f.sizeOffset != 0 || Has(slot), v)
    case _ => One(Has(slot), v)
  }

  /** One record of a singular submessage. */
  lemma {:induction false} SingularRecord(d: Desc, i: nat, w: seq<byte>, st: State, rest: seq<byte>)
    requires SubField(d, i) && !d.fields[i].rule.Repeated? && |w| < TWO32
    ensures var f, slot := d.fields[i], At(st.msg, d.fields[i].slot);
      Run(d, SubRecord(f, w) + rest, st) ==
        match Decode(f.kind.sub, Prior(f, slot), w)
        case Fail => LoopFail
        case Got(m, _) => Run(d, rest, AfterEntry(d, i, st, Holding(f, slot, VMsg(m)), 0))
  {
    hide Run, Key, Delimited, Window, Decode, Default, GoodDesc, GoodField;
    var f, slot := d.fields[i], At(st.msg, d.fields[i].slot);
    var payload := Delimited(w) + rest;
    assert SubRecord(f, w) + rest == Key(f.tag, WtString) + payload;
    WindowInverts(w, rest);
    StaticField(d, i);
    SingularValue(f, slot, w, payload, |Items(slot)|, rest);
    var r := Decode(f.kind.sub, Prior(f, slot), w);
    if r.Fail? {
      RunRejected(d, i, WtString, payload, st);
    } else {
      RunKnown(d, i, WtString, payload, st, AfterEntry(d, i, st, Holding(f, slot, VMsg(r.v)), 0), rest);
    }
  }

  lemma {:induction false} StaticField(d: Desc, i: nat)
    requires GoodDesc(d) && i < |d.fields|
    ensures d.fields[i].atype.Static? && d.fields[i].slot < d.size
  {
    assert GoodField(d.fields[i]);
  }

  lemma {:induction false} SingularValue(f: Field, slot: Slot, w: seq<byte>, payload: seq<byte>, n: nat,
                                         rest: seq<byte>)
    requires f.kind.Submessage? && !f.rule.Repeated? && f.atype.Static? && Window(payload) == Got(w, rest)
    ensures ReadField(f, 2, payload, slot, n) ==
      match Decode(f.kind.sub, Prior(f, slot), w)
      case Fail => Rejected
      case Got(m, _) => Stored(Holding(f, slot, VMsg(m)), n, rest)
  {
    hide Window, Decode, Default;
    DefaultSingular(f);
  }

  /** Two records of a singular submessage are one record with both contents: the second is
      decoded into the result of the first. */
  lemma {:induction false} NestedMerge(d: Desc, i: nat, s: seq<byte>, t: seq<byte>, st: State, rest: seq<byte>)
    requires SubField(d, i) && !d.fields[i].rule.Repeated? && |st.msg| == d.size && |s + t| < TWO32
    requires NoRequired(d.fields[i].kind.sub) && NoFixedCount(d.fields[i].kind.sub)
    requires var f := d.fields[i];
      var r := Run(f.kind.sub, s, Start(Prior(f, At(st.msg, f.slot)))); r.Done? && !r.terminated
    ensures var f := d.fields[i];
      Run(d, SubRecord(f, s) + (SubRecord(f, t) + rest), st) == Run(d, SubRecord(f, s + t) + rest, st)
  {
    hide Run, SubRecord, Decode, Default, GoodDesc, GoodField, NoRequired, NoFixedCount;
    var f, slot := d.fields[i], At(st.msg, d.fields[i].slot);
    var prior := Prior(f, slot);
    MergeByConcatenation(f.kind.sub, s, t, prior);
    var m1 := Decode(f.kind.sub, prior, s).v;
    var st1 := AfterEntry(d, i, st, Holding(f, slot, VMsg(m1)), 0);
    SingularRecord(d, i, s, st, SubRecord(f, t) + rest);
    StaticField(d, i);
    assert At(st1.msg, f.slot) == Holding(f, slot, VMsg(m1));
    assert Prior(f, At(st1.msg, f.slot)) == m1;
    SingularRecord(d, i, t, st1, rest);
    SingularRecord(d, i, s + t, st, rest);
    var r := Decode(f.kind.sub, m1, t);
    if r.Got? {
      assert AfterEntry(d, i, st1, Holding(f, Holding(f, slot, VMsg(m1)), VMsg(r.v)), 0)
          == AfterEntry(d, i, st, Holding(f, slot, VMsg(r.v)), 0);
    }
  }

  /** When a union changes to a submessage, nothing of its earlier contents is left. */
  lemma {:induction false} UnionSwitch(d: Desc, i: nat, w: seq<byte>, st: State, rest: seq<byte>)
    requires SubField(d, i) && d.fields[i].rule.Oneof? && |w| < TWO32
    requires Which(At(st.msg, d.fields[i].slot)) != d.fields[i].tag
    ensures var f := d.fields[i];
      Run(d, SubRecord(f, w) + rest, st) ==
        match DecodeFresh(f.kind.sub, w)
        case Fail => LoopFail
        case Got(m, _) => Run(d, rest, AfterEntry(d, i, st, Union(f.tag, VMsg(m)), 0))
  {
    hide Run, SubRecord, Decode, Default, GoodDesc, GoodField;
    SingularRecord(d, i, w, st, rest);
  }

  lemma {:induction false} ElementValue(f: Field, items: seq<Value>, w: seq<byte>, payload: seq<byte>, rest: seq<byte>)
    requires f.kind.Submessage? && f.rule.Repeated? && f.atype.Static? && Window(payload) == Got(w, rest)
    ensures ReadField(f, 2, payload, Many(items), |items|) ==
      match DecodeFresh(f.kind.sub, w)
      case Fail => Rejected
      case Got(m, _) =>
        if |items| >= f.arraySize then Rejected else Stored(Many(items + [VMsg(m)]), |items| + 1, rest)
  {
    hide Window, Decode, Default;
  }

  lemma {:induction false} ScalarValue(f: Field, slot: Slot, v: Value, wt: nat, payload: seq<byte>, n: nat,
                                       rest: seq<byte>)
    requires !f.kind.Submessage? && !f.rule.Repeated? && f.atype.Static? && ReadScalar(f, payload) == Got(v, rest)
    ensures ReadField(f, wt, payload, slot, n) == Stored(Holding(f, slot, v), n, rest)
  {
    hide ReadScalar;
  }

  /** Elements of a repeated submessage are decoded afresh, each one for itself, and only while
      there is room. */
  lemma {:induction false} ElementsApart(d: Desc, i: nat, w: seq<byte>, st: State, items: seq<Value>, rest: seq<byte>)
    requires SubField(d, i) && d.fields[i].rule.Repeated? && d.fields[i].sizeOffset != 0 && |w| < TWO32
    requires At(st.msg, d.fields[i].slot) == Many(items)
    ensures var f := d.fields[i];
      Run(d, SubRecord(f, w) + rest, st) ==
        match DecodeFresh(f.kind.sub, w)
        case Fail => LoopFail
        case Got(m, _) =>
          if |items| >= f.arraySize then LoopFail
          else Run(d, rest, AfterEntry(d, i, st, Many(items + [VMsg(m)]), 0))
  {
    hide Run, Key, Delimited, Window, Decode, Default, GoodDesc, GoodField;
    var f := d.fields[i];
    var payload := Delimited(w) + rest;
    assert SubRecord(f, w) + rest == Key(f.tag, WtString) + payload;
    WindowInverts(w, rest);
    StaticField(d, i);
    ElementValue(f, items, w, payload, rest);
    var r := DecodeFresh(f.kind.sub, w);
    if r.Fail? || |items| >= f.arraySize {
      RunRejected(d, i, WtString, payload, st);
    } else {
      assert items + [VMsg(r.v)] == Store(items, |items|, VMsg(r.v));
      RunKnown(d, i, WtString, payload, st, AfterEntry(d, i, st, Many(items + [VMsg(r.v)]), 0), rest);
    }
  }

  /** A record of a singular scalar replaces whatever the slot held. */
  lemma {:induction false} ScalarReplaces(d: Desc, i: nat, v: Value, st: State, rest: seq<byte>)
    requires GoodDesc(d) && i < |d.fields| && !d.fields[i].kind.Submessage? && !d.fields[i].rule.Repeated?
    requires GoodScalar(d.fields[i], v)
    requires EncodeKeyed(d.fields[i], v).Some? && |EncodeKeyed(d.fields[i], v).value| < TWO32
    ensures var f, slot := d.fields[i], At(st.msg, d.fields[i].slot);
      Run(d, EncodeKeyed(f, v).value + rest, st) == Run(d, rest, AfterEntry(d, i, st, Holding(f, slot, v), 0))
  {
    hide Run, Key, EncodeScalar, ReadScalar, GoodDesc, GoodScalar;
    var f, slot := d.fields[i], At(st.msg, d.fields[i].slot);
    var w := WireTypeOf(f.kind);
    var body := EncodeScalar(f, v).value;
    assert EncodeKeyed(f, v).value + rest == Key(f.tag, w) + (body + rest);
    ScalarRoundTrip(f, v, rest);
    StaticField(d, i);
    ScalarValue(f, slot, v, WireCode(w), body + rest, |Items(slot)|, rest);
    RunKnown(d, i, w, body + rest, st, AfterEntry(d, i, st, Holding(f, slot, v), 0), rest);
  }

  /** The last of two records of a singular scalar wins. */
  lemma {:induction false} LastOneWins(d: Desc, i: nat, v: Value, u: Value, st: State, rest: seq<byte>)
    requires GoodDesc(d) && i < |d.fields| && !d.fields[i].kind.Submessage? && !d.fields[i].rule.Repeated?
    requires GoodScalar(d.fields[i], v) && GoodScalar(d.fields[i], u) && |st.msg| == d.size
    requires EncodeKeyed(d.fields[i], v).Some? && |EncodeKeyed(d.fields[i], v).value| < TWO32
    requires EncodeKeyed(d.fields[i], u).Some? && |EncodeKeyed(d.fields[i], u).value| < TWO32
    ensures var f := d.fields[i];
      Run(d, EncodeKeyed(f, v).value + (EncodeKeyed(f, u).value + rest), st)
      == Run(d, EncodeKeyed(f, u).value + rest, st)
  {
    hide Run, EncodeKeyed, GoodDesc, GoodScalar;
    var f, slot := d.fields[i], At(st.msg, d.fields[i].slot);
    var st1 := AfterEntry(d, i, st, Holding(f, slot, v), 0);
    ScalarReplaces(d, i, v, st, EncodeKeyed(f, u).value + rest);
    ScalarReplaces(d, i, u, st1, rest);
    ScalarReplaces(d, i, u, st, rest);
    StaticField(d, i);
    assert AfterEntry(d, i, st1, Holding(f, Holding(f, slot, v), u), 0) == AfterEntry(d, i, st, Holding(f, slot, u), 0);
  }
}
