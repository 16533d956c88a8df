/** The decoder of pb_decode.c, proved to compute the functions of module Decoding. */
module Decoder {
  import opened Options
  import opened Wire
  import opened Descriptor
  import opened Encoding
  import opened Decoding
  import opened FieldIter
  import opened RequiredBitmap
  import opened InputStream

  /** What the decoder relies on in a table: non-zero tags, all different, no extensions. */
  predicate Table(d: Desc)
    decreases d
  {
    && (forall i :: 0 <= i < |d.fields| ==>
          d.fields[i].tag > 0 && !d.fields[i].kind.Extension?
          && (d.fields[i].kind.Submessage? ==> Table(d.fields[i].kind.sub)))
    && (forall i, j :: 0 <= i < j < |d.fields| ==> d.fields[i].tag != d.fields[j].tag)
  }

  predicate FieldTable(f: Field) {
    f.kind.Submessage? ==> Table(f.kind.sub)
  }

  // ---------- scalars ----------

  /** The pb_dec_ functions for everything but submessages. */
  method DecodeScalar(s: IStream, f: Field) returns (ok: bool, v: Value)
    requires s.Valid() && !f.kind.Submessage? && !f.kind.Extension?
    modifies s
    ensures s.Valid() && s.End() == old(s.End())
    ensures var r := ReadScalar(f, old(s.Rest())); ok == r.Got? && (ok ==> v == r.v && s.Rest() == r.rest)
  {
    hide Varint32, Varint64, Pow2, Signed, FitsSigned, UnZigZag, FromLittleEndian;
    v := Junk;
    var u, eof, data;
    if f.kind.Bool? {
      ok, u, eof := s.DecodeVarint32();
      v := VBool(ok && u != 0);
    } else if f.kind.Varint? || f.kind.UVarint? || f.kind.SVarint? {
      ok, u := s.DecodeVarint();
      if ok {
        ok, v := Narrow(f, u);
      }
    } else if f.kind.Fixed32? {
      ok, data := s.Read(4);
      v := VFixed(if ok then FromLittleEndian(data) else 0);
    } else if f.kind.Fixed64? {
      ok, data := s.Read(8);
      v := VFixed(if ok then FromLittleEndian(data) else 0);
    } else {
      ok, v := DecodeBlob(s, f);
    }
  }

  /** A C cast to the signed or unsigned type of `n` bytes. */
  function CastSigned(i: int, n: nat): int {
    Signed(i % Pow2(8 * n), 8 * n)
  }

  function CastUnsigned(u: nat, n: nat): nat {
    u % Pow2(8 * n)
  }

  /** A cast keeps exactly the values that the type holds. */
  lemma {:induction false} CastKeeps(i: int, n: nat)
    ensures CastSigned(i, n) == i <==> FitsSigned(i, n)
    ensures i >= 0 ==> (CastUnsigned(i, n) == i <==> i < Pow2(8 * n))
  {
    hide Pow2;
    SignedKeeps(i, 8 * n, Pow2(8 * n));
  }

  lemma {:induction false} SignedKeeps(i: int, bits: nat, m: int)
    requires m == Pow2(bits)
    ensures Signed(i % m, bits) == i <==> -m <= 2 * i < m
    ensures 0 <= i ==> (i % m == i <==> i < m)
  {
    hide Pow2;
    Remainder(i, m);
    Remainder(i % m, m);
  }

  lemma {:induction false} Remainder(i: int, m: int)
    requires m > 0
    ensures 0 <= i % m < m
    ensures 0 <= i < m ==> i % m == i
    ensures -m <= i < 0 ==> i % m == i + m
  {
    if 0 <= i < m {
      ModUnique(i, 0, m, i);
    } else if -m <= i < 0 {
      assert i % m == (i + m) % m;
      ModUnique(i + m, 0, m, i + m);
    }
  }

  /** Casting to the field's width while checking for overflow: accepted exactly when the value is
      in the range of the field's type, and then unchanged. */
  method Narrow(f: Field, u: nat) returns (ok: bool, v: Value)
    requires f.kind.Varint? || f.kind.UVarint? || f.kind.SVarint?
    ensures var r := if f.kind.Varint? then NarrowVarint(f, u)
                     else if f.kind.UVarint? then NarrowUVarint(f, u) else NarrowSVarint(f, u);
      ok == r.Some? && (ok ==> v == r.value)
  {
    hide Signed, FitsSigned, UnZigZag, Pow2, CastSigned, CastUnsigned;
    v := Junk;
    if !IntWidth(f.dataSize) {
      return false, v;
    }
    if f.kind.UVarint? {
      var clamped := CastUnsigned(u, f.dataSize);
      CastKeeps(u, f.dataSize);
      return clamped == u, VInt(clamped);
    }
    var svalue;
    if f.kind.SVarint? {
      svalue := UnZigZag(u);
    } else if f.dataSize == 8 {
      svalue := Signed(u, 64);
      Int64Fits(u);
    } else {
      svalue := Signed(u, 32);
    }
    var clamped := CastSigned(svalue, f.dataSize);
    CastKeeps(svalue, f.dataSize);
    return clamped == svalue, VInt(clamped);
  }

  lemma {:induction false} Int64Fits(u: nat)
    ensures FitsSigned(Signed(u, 64), 8)
  {
    hide Pow2;
    assert 0 <= u % Pow2(64) < Pow2(64);
  }

  /** pb_dec_bytes, pb_dec_string, pb_dec_fixed_length_bytes: the size is checked before
      any byte is read. */
  method DecodeBlob(s: IStream, f: Field) returns (ok: bool, v: Value)
    requires s.Valid() && (f.kind.Bytes? || f.kind.Str? || f.kind.FixedBytes?)
    modifies s
    ensures s.Valid() && s.End() == old(s.End())
    ensures var r := ReadScalar(f, old(s.Rest())); ok == r.Got? && (ok ==> v == r.v && s.Rest() == r.rest)
  {
    hide Varint32;
    v := Junk;
    var size, eof, data;
    ok, size, eof := s.DecodeVarint32();
    if !ok {
      return;
    }
    if f.kind.FixedBytes? && size == 0 {
      return true, VBytes(seq(f.dataSize, _ => 0));
    }
    if f.kind.Bytes? && size + BYTES_HEADER > f.dataSize {
      return false, v;
    }
    if f.kind.Str? {
      var allocSize := (size + 1) % TWO32;
      if allocSize < size || allocSize > f.dataSize {
        return false, v;
      }
    }
    if f.kind.FixedBytes? && size != f.dataSize {
      return false, v;
    }
    ok, data := s.Read(size);
    v := if f.kind.Str? then VStr(data) else VBytes(data);
  }

  // ---------- fields ----------

  /** The packed-array loop. It stops at the end of the window or when the array is full. */
  method DecodePacked(sub: IStream, f: Field, items: seq<Value>, n: nat)
    returns (status: bool, items': seq<Value>, n': nat)
    requires sub.Valid() && f.kind.Packable()
    modifies sub
    ensures sub.Valid() && sub.End() == old(sub.End())
    ensures var r := ReadPacked(f, old(sub.Rest()), items, n);
      && ((status && sub.bytesLeft == 0) <==> r.Filled?)
      && (r.Filled? ==> items' == r.items && n' == r.n)
  {
    hide ReadScalar, Store;
    status, items', n' := true, items, n;
    while sub.bytesLeft > 0 && n' < f.arraySize
      invariant sub.Valid() && sub.End() == old(sub.End())
      invariant ReadPacked(f, old(sub.Rest()), items, n) == ReadPacked(f, sub.Rest(), items', n')
      decreases sub.bytesLeft
    {
      var got, v := DecodeScalar(sub, f);
      if !got {
        return false, items', n';
      }
      items' := Store(items', n', v);
      n' := n' + 1;
    }
  }

  /** pb_dec_submessage, and the scalars. */
  method DecodeValue(s: IStream, f: Field, prior: Value) returns (ok: bool, v: Value)
    requires s.Valid() && FieldTable(f) && !f.kind.Extension?
    modifies s
    ensures s.Valid() && s.End() <= old(s.End())
    ensures var r := ReadValue(f, prior, old(s.Rest()));
      ok == r.Got? && (ok ==> v == r.v && s.Rest() == r.rest && s.End() == old(s.End()))
    decreases s.bytesLeft, 0
  {
    hide Window, Decode, Default, ReadScalar, Table;
    v := Junk;
    if !f.kind.Submessage? {
      ok, v := DecodeScalar(s, f);
      return;
    }
    var sub, m;
    ok, sub := s.MakeSubstream();
    if !ok {
      return;
    }
    if f.rule.Repeated? {
      ok, m := PbDecode(sub, f.kind.sub);
    } else {
      ok, m := PbDecodeNoinit(sub, f.kind.sub, Slots(prior));
    }
    var closed := s.CloseSubstream(sub);
    v := VMsg(m);
  }

  /** decode_static_field */
  method DecodeField(s: IStream, f: Field, wt: nat, slot: Slot, n: nat) returns (ok: bool, slot': Slot, n': nat)
    requires s.Valid() && FieldTable(f) && !f.kind.Extension?
    modifies s
    ensures s.Valid() && s.End() <= old(s.End())
    ensures var r := ReadField(f, wt, old(s.Rest()), slot, n);
      ok == r.Stored? && (ok ==> slot' == r.slot && n' == r.n && s.Rest() == r.rest && s.End() == old(s.End()))
    decreases s.bytesLeft, 1
  {
    hide Window, ReadValue, ReadPacked, DefaultValue, Store;
    slot', n' := slot, n;
    var v;
    if !f.atype.Static? {
      return false, slot, n;
    }
    match f.rule
    case Required =>
      ok, v := DecodeValue(s, f, Val(slot));
      slot' := One(Has(slot), v);
    case Optional =>
      ok, v := DecodeValue(s, f, Val(slot));
      slot' := One(f.sizeOffset != 0 || Has(slot), v);
    case Repeated =>
      if wt == 2 && f.kind.Packable() {
        var sub, items;
        ok, sub := s.MakeSubstream();
        if !ok {
          return;
        }
        ok, items, n' := DecodePacked(sub, f, Items(slot), n);
        if sub.bytesLeft != 0 {
          return false, slot, n;
        }
        var closed := s.CloseSubstream(sub);
        slot' := Many(items);
      } else {
        if n >= f.arraySize {
          return false, slot, n;
        }
        ok, v := DecodeValue(s, f, Junk);
        slot', n' := Many(Store(Items(slot), n, v)), n + 1;
      }
    case Oneof =>
      var prior := Val(slot);
      if f.kind.Submessage? && Which(slot) != f.tag {
        prior := DefaultValue(f);
      }
      ok, v := DecodeValue(s, f, prior);
      slot' := Union(f.tag, v);
  }

  // ---------- messages ----------

  /** The cyclic search from any entry finds the one entry with the tag. */
  lemma {:induction false} SearchFinds(d: Desc, tag: nat, found: bool, pos: nat)
    requires Table(d) && d.fields != []
    requires found <==> exists j :: 0 <= j < |d.fields| && Matches(d.fields[j], tag)
    requires found ==> pos < |d.fields| && Matches(d.fields[pos], tag)
    ensures Find(d.fields, tag) == if found then Some(pos) else None
  {
  }

  /** The rest of a turn of the loop, once the iterator stands on the entry. */
  method DecodeEntry(s: IStream, d: Desc, iter: Iter, seen: array<nat>, wt: nat, msg: Message,
                     fixedField: Option<nat>, fixedCount: nat, ghost met: set<nat>)
    returns (ok: bool, msg': Message, fixedField': Option<nat>, fixedCount': nat)
    requires s.Valid() && Table(d) && iter.Valid() && iter.fields == d.fields != []
    requires Shows(seen, Seen(d.fields, met))
    requires fixedField.Some? ==> fixedField.value < |d.fields|
    requires iter.pSize.LocalCounter? ==> fixedField == Some(iter.pos)
    modifies s, iter`pSize, seen
    ensures s.Valid() && iter.Valid() && s.End() <= old(s.End())
    ensures var r := ReadEntry(d.fields, iter.pos, wt, old(s.Rest()), State(msg, met, fixedField, fixedCount));
      && ok == r.Next?
      && (ok ==>
            && r.st == State(msg', met + {iter.pos}, fixedField', fixedCount')
            && s.Rest() == r.rest && s.End() == old(s.End())
            && Shows(seen, Seen(d.fields, r.st.met))
            && (fixedField'.Some? ==> fixedField'.value < |d.fields|)
            && (iter.pSize.LocalCounter? ==> fixedField' == Some(iter.pos)))
    decreases s.bytesLeft, 2
  {
    hide ReadField, Word, Seen, Table, DataAt, RequiredIndex;
    msg', fixedField', fixedCount' := msg, fixedField, fixedCount;
    var i := iter.pos;
    var f := d.fields[i];
    if f.rule.Repeated? && iter.pSize == InStruct(iter.pData) {
      if fixedField != Some(i) {
        if fixedField.Some? && fixedCount != d.fields[fixedField.value].arraySize {
          return false, msg, fixedField, fixedCount;
        }
        fixedField' := Some(i);
        fixedCount' := 0;
      }
      iter.pSize := LocalCounter;
    }
    assert iter.pSize.LocalCounter? <==> f.FixedCount();
    if f.rule.Required? && iter.requiredIndex < PB_MAX_REQUIRED_FIELDS {
      Mark(seen, iter.requiredIndex, Seen(d.fields, met));
    }
    SeenAdd(d.fields, met, i);
    var slot := At(msg, f.slot);
    var n := if iter.pSize.LocalCounter? then fixedCount' else |Items(slot)|;
    TableEntry(d, i);
    ok, slot, n := DecodeField(s, f, wt, slot, n);
    if !ok {
      return;
    }
    msg' := Put(msg, f.slot, slot);
    if iter.pSize.LocalCounter? {
      fixedCount' := n;
    }
  }

  lemma {:induction false} RunTurn(d: Desc, s: seq<byte>, st: State)
    requires s != []
    ensures Run(d, s, st) == match Step(d, s, st)
      case Failed => LoopFail
      case Stopped(rest) => Done(st, rest, true)
      case Next(st', rest) => Run(d, rest, st')
  {
    hide Step;
  }

  lemma {:induction false} RunEnd(d: Desc, st: State)
    ensures Run(d, [], st) == Done(st, [], false)
  {
  }

  /** One turn of the loop. */
  method DecodeRecord(s: IStream, d: Desc, iter: Iter, seen: array<nat>, msg: Message,
                      fixedField: Option<nat>, fixedCount: nat, ghost met: set<nat>)
    returns (ok: bool, eof: bool, msg': Message, fixedField': Option<nat>, fixedCount': nat, ghost met': set<nat>)
    requires s.Valid() && s.bytesLeft > 0 && Table(d) && iter.Valid() && iter.fields == d.fields
    requires Shows(seen, Seen(d.fields, met))
    requires fixedField.Some? ==> fixedField.value < |d.fields|
    requires iter.pSize.LocalCounter? ==> fixedField == Some(iter.pos)
    modifies s, iter, seen
    ensures s.Valid() && iter.Valid() && s.End() <= old(s.End())
    ensures var r := Step(d, old(s.Rest()), State(msg, met, fixedField, fixedCount));
      && ok == r.Next?
      && (!ok ==> eof == r.Stopped?)
      && (ok ==> r.st == State(msg', met', fixedField', fixedCount'))
      && (!ok && eof ==> msg' == msg && met' == met && fixedField' == fixedField && fixedCount' == fixedCount)
      && (ok || eof ==>
            && s.Rest() == r.rest && s.End() == old(s.End())
            && Shows(seen, Seen(d.fields, met'))
            && (fixedField'.Some? ==> fixedField'.value < |d.fields|)
            && (iter.pSize.LocalCounter? ==> fixedField' == Some(iter.pos)))
    decreases s.bytesLeft, 3
  {
    hide ReadKey, ReadEntry, Decoding.SkipField, Find, Word, Seen, Varint32, DataAt, SizeAt, Table, RequiredIndex;
    msg', fixedField', fixedCount', met' := msg, fixedField, fixedCount, met;
    var tag, wt;
    ok, tag, wt, eof := s.DecodeTag();
    if !ok {
      return;
    }
    eof := false;
    var found, steps := iter.Find(tag);
    if d.fields == [] {
      NotListed(d, tag);
    } else {
      SearchFinds(d, tag, found, iter.pos);
    }
    if !found {
      ok := s.SkipField(wt);
    } else if d.fields == [] {
      var u, e;
      ok, u, e := s.DecodeVarint32();
    } else {
      ok, msg', fixedField', fixedCount' :=
        DecodeEntry(s, d, iter, seen, wt, msg, fixedField, fixedCount, met);
      met' := met + {iter.pos};
    }
  }

  /** pb_decode_noinit */
  method PbDecodeNoinit(s: IStream, d: Desc, dest: Message) returns (ok: bool, msg: Message)
    requires s.Valid() && Table(d)
    modifies s
    ensures s.Valid() && s.End() <= old(s.End())
    ensures var r := Decode(d, dest, old(s.Rest()));
      ok == r.Got? && (ok ==> msg == r.v && s.Rest() == r.rest && s.End() == old(s.End()))
    decreases s.bytesLeft, 4
  {
    hide Step, Word, Seen, DataAt, SizeAt, Table, RequiredMet, Run, RequiredIndex;
    var iter := new Iter(d.fields, 0);
    var seen := new nat[2] [0, 0];
    msg := dest;
    var fixedField: Option<nat> := None;
    var fixedCount: nat := 0;
    ghost var met: set<nat> := {};
    ghost var start := s.Rest();
    EmptyBitmap(d.fields);
    while s.bytesLeft > 0
      invariant s.Valid() && s.End() == old(s.End()) && s.bytesLeft <= old(s.bytesLeft)
      invariant iter.Valid() && iter.fields == d.fields
      invariant Shows(seen, Seen(d.fields, met))
      invariant fixedField.Some? ==> fixedField.value < |d.fields|
      invariant iter.pSize.LocalCounter? ==> fixedField == Some(iter.pos)
      invariant Run(d, start, Decoding.Start(dest)) == Run(d, s.Rest(), State(msg, met, fixedField, fixedCount))
      decreases s.bytesLeft
    {
      RunTurn(d, s.Rest(), State(msg, met, fixedField, fixedCount));
      var eof;
      ok, eof, msg, fixedField, fixedCount, met :=
        DecodeRecord(s, d, iter, seen, msg, fixedField, fixedCount, met);
      if !ok {
        if eof {
          break;
        }
        return;
      }
    }
    if s.bytesLeft == 0 {
      RunEnd(d, State(msg, met, fixedField, fixedCount));
    }
    if fixedField.Some? && fixedCount != d.fields[fixedField.value].arraySize {
      return false, msg;
    }
    ok := CheckRequired(iter, seen, met);
  }

  lemma {:induction false} TableEntry(d: Desc, i: nat)
    requires Table(d) && i < |d.fields|
    ensures FieldTable(d.fields[i]) && !d.fields[i].kind.Extension?
  {
  }

  lemma {:induction false} NotListed(d: Desc, tag: nat)
    requires d.fields == []
    ensures Find(d.fields, tag) == None
  {
  }

  lemma {:induction false} EmptyBitmap(fs: seq<Field>)
    ensures Seen(fs, {}) == {} && Word({}, 0, 32) == 0 && Word({}, 32, 32) == 0
  {
    WordTop({}, 0, 0, 32);
    WordTop({}, 32, 0, 32);
  }

  /** pb_field_set_to_default on a static field. */
  method SetFieldToDefault(f: Field) returns (slot: Slot)
    ensures slot == DefaultSlot(f)
    decreases f, 0
  {
    hide DefaultSlot, Default;
    DefaultSlots(f);
    match f.rule
    case Repeated =>
      slot := Many(if f.sizeOffset == 0 then seq(f.arraySize, _ => Junk) else []);
    case Oneof =>
      slot := Union(0, Junk);
    case _ =>
      if f.kind.Submessage? {
        var m := SetToDefaults(f.kind.sub);
        slot := One(false, VMsg(m));
      } else {
        slot := One(false, if f.dflt.Some? then f.dflt.value else Zero(f));
      }
  }

  lemma {:induction false} DefaultSlots(f: Field)
    ensures f.rule.Repeated? ==> DefaultSlot(f) == Many(if f.sizeOffset == 0 then seq(f.arraySize, _ => Junk) else [])
    ensures f.rule.Oneof? ==> DefaultSlot(f) == Union(0, Junk)
    ensures f.rule.Required? || f.rule.Optional? ==> DefaultSlot(f) == One(false, DefaultValue(f))
  {
  }

  /** pb_message_set_to_defaults, on a structure with any contents. */
  method SetToDefaults(d: Desc) returns (msg: Message)
    ensures msg == Default(d)
    decreases d, 1
  {
    hide DefaultSlot, DataAt, SizeAt, RequiredIndex;
    msg := seq(d.size, _ => One(false, Junk));
    if d.fields == [] {
      return;
    }
    var iter := new Iter(d.fields, 0);
    var more := true;
    while more
      invariant iter.Valid() && iter.fields == d.fields
      invariant if more then SetDefaults(d, iter.pos, msg) == Default(d) else msg == Default(d)
      decreases more, |d.fields| - iter.pos
    {
      var f := d.fields[iter.pos];
      var slot := SetFieldToDefault(f);
      msg := Put(msg, f.slot, slot);
      more := iter.Next();
    }
  }

  /** pb_decode */
  method PbDecode(s: IStream, d: Desc) returns (ok: bool, msg: Message)
    requires s.Valid() && Table(d)
    modifies s
    ensures s.Valid() && s.End() <= old(s.End())
    ensures var r := DecodeFresh(d, old(s.Rest()));
      ok == r.Got? && (ok ==> msg == r.v && s.Rest() == r.rest && s.End() == old(s.End()))
    decreases s.bytesLeft, 5
  {
    msg := SetToDefaults(d);
    ok, msg := PbDecodeNoinit(s, d, msg);
  }
}
