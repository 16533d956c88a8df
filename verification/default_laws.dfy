/** What an input does not mention is left alone, and absent fields hold their defaults. */
module DefaultLaws {
  import opened Options
  import opened Wire
  import opened Descriptor
  import opened Encoding
  import opened Decoding
  import opened RoundTrip

  /** The field numbers of the records that the loop reads. */
  ghost function Tags(d: Desc, s: seq<byte>, st: State): set<nat>
    decreases |s|
  {
    if s == [] then {}
    else
      match Step(d, s, st)
      case Next(st', rest) => {(if ReadKey(s).KeyGot? then ReadKey(s).tag else 0)} + Tags(d, rest, st')
      case _ => {}
  }

  /** No field kept at slot `k` is mentioned. */
  ghost predicate Unmentioned(d: Desc, s: seq<byte>, st: State, k: nat) {
    forall j :: 0 <= j < |d.fields| && d.fields[j].slot == k ==> d.fields[j].tag !in Tags(d, s, st)
  }

  lemma {:induction false} StepElsewhere(d: Desc, s: seq<byte>, st: State, k: nat)
    requires Step(d, s, st).Next?
    requires forall j :: 0 <= j < |d.fields| && d.fields[j].slot == k
               ==> !(ReadKey(s).KeyGot? && ReadKey(s).tag == d.fields[j].tag)
    ensures ReadKey(s).KeyGot? && At(Step(d, s, st).st.msg, k) == At(st.msg, k)
  {
    hide ReadKey, ReadField, SkipField, Find, Varint32, TrackFixed;
    var key := ReadKey(s);
    if Find(d.fields, key.tag).Some? {
      Found(d, key.tag);
      TrackKeeps(d.fields, st, Find(d.fields, key.tag).value);
    }
  }

  lemma {:induction false} Found(d: Desc, tag: nat)
    requires Find(d.fields, tag).Some?
    ensures Find(d.fields, tag).value < |d.fields| && d.fields[Find(d.fields, tag).value].tag == tag
  {
  }

  lemma {:induction false} TrackKeeps(fs: seq<Field>, st: State, i: nat)
    requires i < |fs|
    ensures TrackFixed(fs, st, i).Some? ==> TrackFixed(fs, st, i).value.msg == st.msg
  {
  }

  lemma {:induction false} RunElsewhere(d: Desc, s: seq<byte>, st: State, k: nat)
    requires Run(d, s, st).Done? && Unmentioned(d, s, st, k)
    ensures At(Run(d, s, st).st.msg, k) == At(st.msg, k)
    decreases |s|
  {
    hide Step, ReadKey;
    if s != [] && Step(d, s, st).Next? {
      var r := Step(d, s, st);
      forall j | 0 <= j < |d.fields| && d.fields[j].slot == k
        ensures !(ReadKey(s).KeyGot? && ReadKey(s).tag == d.fields[j].tag) && d.fields[j].tag !in Tags(d, r.rest, r.st)
      {
        assert d.fields[j].tag !in Tags(d, s, st);
      }
      StepElsewhere(d, s, st, k);
      RunElsewhere(d, r.rest, r.st, k);
    }
  }

  /** Decoding into any structure leaves the slots alone whose fields the input does not mention. */
  lemma {:induction false} Untouched(d: Desc, m: Message, s: seq<byte>, k: nat)
    requires Decode(d, m, s).Got? && Unmentioned(d, s, Start(m), k)
    ensures At(Decode(d, m, s).v, k) == At(m, k)
  {
    hide Run;
    RunElsewhere(d, s, Start(m), k);
  }

  /** In a freshly decoded message, a field that the input does not mention, nor another member of
      its union, is absent: its has member is false, its count or which member 0, and its value the
      explicit default, or zero without one; a submessage is so at any nesting. */
  lemma {:induction false} AbsentHoldsDefault(d: Desc, s: seq<byte>, i: nat)
    requires GoodDesc(d) && i < |d.fields| && DecodeFresh(d, s).Got?
    requires Unmentioned(d, s, Start(Default(d)), d.fields[i].slot)
    ensures AbsentSlot(d.fields[i], At(DecodeFresh(d, s).v, d.fields[i].slot))
  {
    hide Decode, AbsentSlot, Default, Unmentioned;
    Untouched(d, Default(d), s, d.fields[i].slot);
    DefaultsAreAbsent(d);
  }

  /** The same, spelled out for a singular field that is no submessage. */
  lemma {:induction false} AbsentScalar(d: Desc, s: seq<byte>, i: nat)
    requires GoodDesc(d) && i < |d.fields| && DecodeFresh(d, s).Got?
    requires (d.fields[i].rule.Required? || d.fields[i].rule.Optional?) && !d.fields[i].kind.Submessage?
    requires Unmentioned(d, s, Start(Default(d)), d.fields[i].slot)
    ensures var f := d.fields[i];
      var slot := At(DecodeFresh(d, s).v, f.slot);
      && slot.One? && !slot.has
      && (f.dflt.Some? ==> slot.v == f.dflt.value)
      && (f.dflt.None? ==> ZeroContents(f, slot.v))
  {
    hide Decode, Default, Unmentioned, GoodDesc, ZeroContents;
    AbsentHoldsDefault(d, s, i);
  }
}
