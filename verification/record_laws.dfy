/** Records are independent of what follows them. From this: unknown fields are
    transparent, and decoding a concatenation is decoding its parts in turn. */
module RecordLaws {
  import opened Options
  import opened Wire
  import opened VarintLaws
  import opened Descriptor
  import opened Encoding
  import opened Decoding

  /** The part of `s` in front of its suffix `rest`. */
  function Read(s: seq<byte>, rest: seq<byte>): seq<byte> {
    if |rest| <= |s| then s[..|s| - |rest|] else []
  }

  predicate Suffix(rest: seq<byte>, s: seq<byte>) {
    |rest| <= |s| && s[|s| - |rest|..] == rest
  }

  // ---------- every reader looks only at what it consumes ----------

  lemma {:induction false} Chain(s: seq<byte>, mid: seq<byte>, rest: seq<byte>, t: seq<byte>)
    requires Suffix(mid, s) && Suffix(rest, mid)
    ensures Suffix(rest, s)
    ensures Read(s, rest) + t == Read(s, mid) + (Read(mid, rest) + t)
  {
    var n, k := |s| - |mid|, |mid| - |rest|;
    assert mid[..k] == s[n..n + k];
    assert s[..n + k] == s[..n] + s[n..n + k];
    assert mid[k..] == s[n + k..];
  }

  lemma {:induction false} SkipVarintLocal(s: seq<byte>, t: seq<byte>)
    requires SkipVarint(s).Got?
    ensures var r := SkipVarint(s); Suffix(r.rest, s) && SkipVarint(Read(s, r.rest) + t) == Got((), t)
    decreases |s|
  {
    var r := SkipVarint(s);
    if s[0] >= 128 {
      SkipVarintLocal(s[1..], t);
      assert (Read(s, r.rest) + t)[1..] == Read(s[1..], r.rest) + t;
    } else {
      assert (Read(s, r.rest) + t)[1..] == t;
    }
  }

  lemma {:induction false} SkipLocal(s: seq<byte>, n: nat, t: seq<byte>)
    requires n <= |s|
    ensures Suffix(s[n..], s) && Read(s, s[n..]) == s[..n]
    ensures Skip(s[..n] + t, n) == Got((), t)
    ensures (s[..n] + t)[..n] == s[..n] && (s[..n] + t)[n..] == t
  {
  }

  lemma {:induction false} WindowLocal(s: seq<byte>, t: seq<byte>)
    requires Window(s).Got?
    ensures var r := Window(s); Suffix(r.rest, s) && Window(Read(s, r.rest) + t) == Got(r.v, t)
  {
    hide Varint32;
    var v := Varint32(s);
    var r := Window(s);
    var u := Read(v.rest, r.rest) + t;
    Local32(s, u);
    SkipLocal(v.rest, v.v, t);
    Chain(s, v.rest, r.rest, t);
  }

  lemma {:induction false} SkipFieldLocal(wt: nat, s: seq<byte>, t: seq<byte>)
    requires SkipField(wt, s).Got?
    ensures var r := SkipField(wt, s); Suffix(r.rest, s) && SkipField(wt, Read(s, r.rest) + t) == Got((), t)
  {
    hide SkipVarint, Window, Skip;
    if wt == 0 { SkipVarintLocal(s, t); }
    else if wt == 1 { SkipLocal(s, 8, t); }
    else if wt == 2 { WindowLocal(s, t); }
    else { SkipLocal(s, 4, t); }
  }

  lemma {:induction false} ScalarLocal(f: Field, s: seq<byte>, t: seq<byte>)
    requires ReadScalar(f, s).Got?
    ensures var r := ReadScalar(f, s); Suffix(r.rest, s) && ReadScalar(f, Read(s, r.rest) + t) == Got(r.v, t)
  {
    hide Varint32, Varint64, Window, NarrowVarint, NarrowUVarint, NarrowSVarint, FromWindow, FromLittleEndian;
    match f.kind
    case Bool => Local32(s, t);
    case Varint => Local64(s, t);
    case UVarint => Local64(s, t);
    case SVarint => Local64(s, t);
    case Fixed32 => SkipLocal(s, 4, t);
    case Fixed64 => SkipLocal(s, 8, t);
    case _ => WindowLocal(s, t);
  }

  lemma {:induction false} ValueLocal(f: Field, prior: Value, s: seq<byte>, t: seq<byte>)
    requires ReadValue(f, prior, s).Got?
    ensures var r := ReadValue(f, prior, s);
      Suffix(r.rest, s) && ReadValue(f, prior, Read(s, r.rest) + t) == Got(r.v, t)
  {
    hide Window, Decode, ReadScalar, Default;
    if f.kind.Submessage? { WindowLocal(s, t); } else { ScalarLocal(f, s, t); }
  }

  lemma {:induction false} FieldLocal(f: Field, wt: nat, s: seq<byte>, slot: Slot, n: nat, t: seq<byte>)
    requires ReadField(f, wt, s, slot, n).Stored?
    ensures var r := ReadField(f, wt, s, slot, n);
      Suffix(r.rest, s) && ReadField(f, wt, Read(s, r.rest) + t, slot, n) == Stored(r.slot, r.n, t)
  {
    hide Window, ReadPacked, ReadValue, DefaultValue, Store;
    if f.rule.Repeated? && wt == 2 && f.kind.Packable() {
      WindowLocal(s, t);
    } else if f.rule.Repeated? {
      ValueLocal(f, Junk, s, t);
    } else if f.rule.Oneof? && f.kind.Submessage? && Which(slot) != f.tag {
      ValueLocal(f, DefaultValue(f), s, t);
    } else {
      ValueLocal(f, Val(slot), s, t);
    }
  }

  lemma {:induction false} EntryLocal(fs: seq<Field>, i: nat, wt: nat, s: seq<byte>, st: State, t: seq<byte>)
    requires i < |fs| && ReadEntry(fs, i, wt, s, st).Next?
    ensures var r := ReadEntry(fs, i, wt, s, st);
      Suffix(r.rest, s) && ReadEntry(fs, i, wt, Read(s, r.rest) + t, st) == Next(r.st, t)
  {
    hide ReadField, TrackFixed;
    var f, st1 := fs[i], TrackFixed(fs, st, i).value;
    var slot := At(st1.msg, f.slot);
    FieldLocal(f, wt, s, slot, if f.FixedCount() then st1.count else |Items(slot)|, t);
  }

  lemma {:induction false} KeyLocal(s: seq<byte>, t: seq<byte>)
    requires !ReadKey(s).KeyFail?
    ensures var r := ReadKey(s);
      && Suffix(r.rest, s)
      && ReadKey(Read(s, r.rest) + t) == if r.KeyEnd? then KeyEnd(t) else KeyGot(r.tag, r.wt, t)
  {
    hide Varint32;
    Local32(s, t);
  }

  /** One record decodes the same whatever comes after it. */
  lemma {:induction false} StepLocal(d: Desc, s: seq<byte>, st: State, t: seq<byte>)
    requires Step(d, s, st).Next?
    ensures var r := Step(d, s, st);
      Suffix(r.rest, s) && Step(d, Read(s, r.rest) + t, st) == Next(r.st, t)
  {
    hide ReadKey, ReadEntry, SkipField, Find, Varint32;
    var k := ReadKey(s);
    var r := Step(d, s, st);
    if d.fields == [] && k.tag == 0 {
      Local32(k.rest, t);
    } else if Find(d.fields, k.tag).None? {
      SkipFieldLocal(k.wt, k.rest, t);
    } else {
      EntryLocal(d.fields, Find(d.fields, k.tag).value, k.wt, k.rest, st, t);
    }
    KeyLocal(s, Read(k.rest, r.rest) + t);
    Chain(s, k.rest, r.rest, t);
  }

  // ---------- field boundaries ----------

  /** The first `k` bytes of `s` are whole records, read from state `st`. */
  predicate Boundary(d: Desc, s: seq<byte>, st: State, k: nat)
    decreases |s|
  {
    k == 0
    || (s != [] && Step(d, s, st).Next? && |s| - |Step(d, s, st).rest| <= k
        && Boundary(d, Step(d, s, st).rest, Step(d, s, st).st, k - (|s| - |Step(d, s, st).rest|)))
  }

  /** The state after those records. */
  function StateAt(d: Desc, s: seq<byte>, st: State, k: nat): State
    requires Boundary(d, s, st, k)
    decreases |s|
  {
    if k == 0 then st
    else StateAt(d, Step(d, s, st).rest, Step(d, s, st).st, k - (|s| - |Step(d, s, st).rest|))
  }

  /** Whole records read the same in front of any other input. */
  lemma {:induction false} RunSplit(d: Desc, s: seq<byte>, st: State, k: nat, t: seq<byte>)
    requires Boundary(d, s, st, k)
    ensures k <= |s| && Run(d, s[..k] + t, st) == Run(d, t, StateAt(d, s, st, k))
    decreases |s|
  {
    hide Step;
    if k == 0 {
      assert s[..k] + t == t;
    } else {
      var r := Step(d, s, st);
      var n := |s| - |r.rest|;
      RunSplit(d, r.rest, r.st, k - n, t);
      var t' := r.rest[..k - n] + t;
      StepLocal(d, s, st, t');
      assert r.rest[..k - n] == s[n..k];
      assert s[..k] + t == Read(s, r.rest) + t';
    }
  }

  // ---------- unknown fields ----------

  /** One well-formed record with a tag the table does not declare. */
  predicate UnknownRecord(d: Desc, u: seq<byte>) {
    var k := ReadKey(u);
    && k.KeyGot?
    && (d.fields == [] ==> k.tag != 0)
    && Find(d.fields, k.tag).None?
    && SkipField(k.wt, k.rest) == Got((), [])
  }

  lemma {:induction false} UnknownSkipped(d: Desc, u: seq<byte>, st: State, t: seq<byte>)
    requires UnknownRecord(d, u)
    ensures Run(d, u + t, st) == Run(d, t, st)
  {
    hide ReadKey, ReadEntry, SkipField, Find;
    assert Step(d, u, st) == Next(st, []);
    StepLocal(d, u, st, t);
    assert Read(u, []) == u;
  }

  /** An unknown record inserted at any field boundary changes nothing. */
  lemma {:induction false} UnknownTransparent(d: Desc, s: seq<byte>, m: Message, k: nat, u: seq<byte>)
    requires Boundary(d, s, Start(m), k) && UnknownRecord(d, u)
    ensures k <= |s| && Decode(d, m, s[..k] + u + s[k..]) == Decode(d, m, s)
  {
    hide Run, Boundary, UnknownRecord;
    RunSplit(d, s, Start(m), k, []);
    RunSplit(d, s, Start(m), k, u + s[k..]);
    RunSplit(d, s, Start(m), k, s[k..]);
    assert s[..k] + (u + s[k..]) == s[..k] + u + s[k..];
    assert s[..k] + s[k..] == s;
    UnknownSkipped(d, u, StateAt(d, s, Start(m), k), s[k..]);
  }

  // ---------- concatenation ----------

  lemma {:induction false} RunToEnd(d: Desc, s: seq<byte>, st: State)
    requires Run(d, s, st).Done? && !Run(d, s, st).terminated
    ensures Boundary(d, s, st, |s|) && StateAt(d, s, st, |s|) == Run(d, s, st).st
    decreases |s|
  {
    hide Step;
    if s != [] {
      RunToEnd(d, Step(d, s, st).rest, Step(d, s, st).st);
    }
  }

  /** The loop on a concatenation, whatever the table. */
  lemma {:induction false} RunConcat(d: Desc, s: seq<byte>, t: seq<byte>, st: State)
    requires Run(d, s, st).Done? && !Run(d, s, st).terminated
    ensures Run(d, s + t, st) == Run(d, t, Run(d, s, st).st)
  {
    hide Run, Boundary, StateAt;
    RunToEnd(d, s, st);
    RunSplit(d, s, st, |s|, t);
    assert s[..|s|] == s;
  }

  predicate NoRequired(d: Desc) {
    forall i :: 0 <= i < |d.fields| ==> !d.fields[i].rule.Required?
  }

  predicate NoFixedCount(d: Desc) {
    forall i :: 0 <= i < |d.fields| ==> !d.fields[i].FixedCount()
  }

  lemma {:induction false} EntryMet(fs: seq<Field>, i: nat, wt: nat, s: seq<byte>, st: State, met: set<nat>)
    requires i < |fs|
    ensures var r, r' := ReadEntry(fs, i, wt, s, st), ReadEntry(fs, i, wt, s, st.(met := met));
      && r.Next? == r'.Next?
      && (r.Next? ==> r' == Next(r.st.(met := met + {i}), r.rest) && r.st.met == st.met + {i})
  {
    hide ReadField;
  }

  lemma {:induction false} StepMet(d: Desc, s: seq<byte>, st: State, met: set<nat>)
    ensures var r, r' := Step(d, s, st), Step(d, s, st.(met := met));
      && (!r.Next? ==> r' == r)
      && (r.Next? ==> r'.Next? && r' == Next(r.st.(met := r'.st.met), r.rest)
                      && r'.st.met + st.met == r.st.met + met)
  {
    hide ReadKey, ReadEntry, SkipField, Find, Varint32;
    var k := ReadKey(s);
    if k.KeyGot? && Find(d.fields, k.tag).Some? {
      EntryMet(d.fields, Find(d.fields, k.tag).value, k.wt, k.rest, st, met);
    }
  }

  /** The entries met so far influence only the final check. */
  lemma {:induction false} MetIrrelevant(d: Desc, s: seq<byte>, st: State, met: set<nat>)
    ensures var r, r' := Run(d, s, st), Run(d, s, st.(met := met));
      && r.Done? == r'.Done?
      && (r.Done? ==> r' == Done(r.st.(met := r'.st.met), r.rest, r.terminated))
    decreases |s|
  {
    hide Step;
    if s != [] {
      StepMet(d, s, st, met);
      var r := Step(d, s, st);
      if r.Next? {
        MetIrrelevant(d, r.rest, r.st, Step(d, s, st.(met := met)).st.met);
      }
    }
  }

  lemma {:induction false} StepNeverFixed(d: Desc, s: seq<byte>, st: State)
    requires NoFixedCount(d)
    ensures Step(d, s, st).Next? ==> Step(d, s, st).st.fixed == st.fixed && Step(d, s, st).st.count == st.count
  {
    hide ReadKey, ReadField, SkipField, Find, Varint32;
    var k := ReadKey(s);
    if k.KeyGot? && Find(d.fields, k.tag).Some? {
      var i := Find(d.fields, k.tag).value;
      assert !d.fields[i].FixedCount();
      assert TrackFixed(d.fields, st, i) == Some(st);
    }
  }

  lemma {:induction false} NeverFixed(d: Desc, s: seq<byte>, st: State)
    requires NoFixedCount(d)
    ensures Run(d, s, st).Done? ==> Run(d, s, st).st.fixed == st.fixed && Run(d, s, st).st.count == st.count
    decreases |s|
  {
    hide Step;
    if s != [] {
      StepNeverFixed(d, s, st);
      var r := Step(d, s, st);
      if r.Next? { NeverFixed(d, r.rest, r.st); }
    }
  }

  /** Decoding a concatenation merges: it is decoding the first part, then the second
      part into the result. */
  lemma {:induction false} MergeByConcatenation(d: Desc, s: seq<byte>, t: seq<byte>, m: Message)
    requires NoRequired(d) && NoFixedCount(d)
    requires Run(d, s, Start(m)).Done? && !Run(d, s, Start(m)).terminated
    ensures Decode(d, m, s).Got? && Decode(d, m, s + t) == Decode(d, Decode(d, m, s).v, t)
  {
    hide Run;
    var st := Run(d, s, Start(m)).st;
    NeverFixed(d, s, Start(m));
    RunConcat(d, s, t, Start(m));
    MetIrrelevant(d, t, Start(st.msg), st.met);
    assert Start(st.msg).(met := st.met) == st;
  }
}
