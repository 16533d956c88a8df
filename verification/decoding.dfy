/** What pb_decode makes of its input, as a function of the table, the bytes of the
    current window and the structure it starts from. */
module Decoding {
  import opened Options
  import opened Wire
  import opened Descriptor
  import opened Encoding

  // ---------- keys, skipping, windows ----------

  datatype KeyResult = KeyFail | KeyEnd(rest: seq<byte>) | KeyGot(tag: nat, wt: nat, rest: seq<byte>)

  /** pb_decode_tag: a zero key ends the message. */
  function ReadKey(s: seq<byte>): (r: KeyResult)
    ensures !r.KeyFail? ==> |r.rest| < |s|
    ensures r.KeyGot? ==> 0 <= r.wt < 8
  {
    match Varint32(s)
    case Fail => KeyFail
    case Got(k, rest) => if k == 0 then KeyEnd(rest) else KeyGot(k / 8, k % 8, rest)
  }

  function SkipVarint(s: seq<byte>): (r: Parse<()>)
    ensures r.Got? ==> |r.rest| < |s|
    decreases |s|
  {
    if s == [] then Fail
    else if s[0] >= 128 then SkipVarint(s[1..])
    else Got((), s[1..])
  }

  function Skip(s: seq<byte>, n: nat): (r: Parse<()>)
    ensures r.Got? <==> n <= |s|
    ensures r.Got? ==> r.rest == s[n..]
  {
    if n <= |s| then Got((), s[n..]) else Fail
  }

  /** pb_make_string_substream followed by pb_close_string_substream: the window, and
      what the parent sees after it. */
  function Window(s: seq<byte>): (r: Parse<seq<byte>>)
    ensures r.Got? ==> |r.v| + |r.rest| < |s|
  {
    match Varint32(s)
    case Fail => Fail
    case Got(n, t) => if n <= |t| then Got(t[..n], t[n..]) else Fail
  }

  function SkipField(wt: nat, s: seq<byte>): (r: Parse<()>)
    ensures r.Got? ==> |r.rest| < |s|
  {
    if wt == 0 then SkipVarint(s)
    else if wt == 1 then Skip(s, 8)
    else if wt == 2 then match Window(s) case Fail => Fail case Got(_, rest) => Got((), rest)
    else if wt == 5 then Skip(s, 4)
    else Fail
  }

  // ---------- single values ----------

  function Signed(u: nat, bits: nat): int {
    var m := Pow2(bits);
    if 2 * (u % m) < m then u % m else u % m - m
  }

  predicate FitsSigned(i: int, bytes: nat) {
    -(Pow2(8 * bytes) as int) <= 2 * i < Pow2(8 * bytes)
  }

  function UnZigZag(u: nat): int {
    if u % 2 == 1 then -(u / 2) - 1 else u / 2
  }

  function FromLittleEndian(s: seq<byte>): nat {
    if s == [] then 0 else s[0] + 256 * FromLittleEndian(s[1..])
  }

  function ReadFixed(s: seq<byte>, n: nat): (r: Parse<Value>)
    ensures r.Got? ==> n <= |s| && r.rest == s[n..]
  {
    if n <= |s| then Got(VFixed(FromLittleEndian(s[..n])), s[n..]) else Fail
  }

  /** pb_dec_varint: values for fields of up to 32 bits pass through int32_t first. */
  function NarrowVarint(f: Field, u: nat): Option<Value> {
    if !IntWidth(f.dataSize) then None
    else if f.dataSize == 8 then Some(VInt(Signed(u, 64)))
    else
      var i := Signed(u, 32);
      if FitsSigned(i, f.dataSize) then Some(VInt(i)) else None
  }

  function NarrowUVarint(f: Field, u: nat): Option<Value> {
    if IntWidth(f.dataSize) && u < Pow2(8 * f.dataSize) then Some(VInt(u)) else None
  }

  function NarrowSVarint(f: Field, u: nat): Option<Value> {
    if IntWidth(f.dataSize) && FitsSigned(UnZigZag(u), f.dataSize) then Some(VInt(UnZigZag(u))) else None
  }

  function Narrowed(p: Parse<nat>, v: Option<Value>): (r: Parse<Value>) {
    if p.Got? && v.Some? then Got(v.value, p.rest) else Fail
  }

  /** pb_dec_bytes, pb_dec_string and pb_dec_fixed_length_bytes on a window.
      An empty window fills a fixed-length field with zeros. */
  function FromWindow(f: Field, w: seq<byte>): Option<Value> {
    match f.kind
    case Bytes => if |w| + BYTES_HEADER <= f.dataSize then Some(VBytes(w)) else None
    case Str => if |w| + 1 < TWO32 && |w| + 1 <= f.dataSize then Some(VStr(w)) else None
    case FixedBytes =>
      if |w| == 0 then Some(VBytes(seq(f.dataSize, _ => 0)))
      else if |w| == f.dataSize then Some(VBytes(w))
      else None
    case _ => None
  }

  function ReadScalar(f: Field, s: seq<byte>): (r: Parse<Value>)
    ensures r.Got? ==> |r.rest| < |s|
  {
    match f.kind
    case Bool => (match Varint32(s) case Fail => Fail case Got(u, rest) => Got(VBool(u != 0), rest))
    case Varint =>
      var p := Varint64(s);
      if p.Got? then Narrowed(p, NarrowVarint(f, p.v)) else Fail
    case UVarint =>
      var p := Varint64(s);
      if p.Got? then Narrowed(p, NarrowUVarint(f, p.v)) else Fail
    case SVarint =>
      var p := Varint64(s);
      if p.Got? then Narrowed(p, NarrowSVarint(f, p.v)) else Fail
    case Fixed32 => ReadFixed(s, 4)
    case Fixed64 => ReadFixed(s, 8)
    case _ =>
      match Window(s)
      case Fail => Fail
      case Got(w, rest) =>
        match FromWindow(f, w)
        case None => Fail
        case Some(v) => Got(v, rest)
  }

  // ---------- arrays ----------

  /** Writing element `n` of an array. */
  function Store(items: seq<Value>, n: nat, v: Value): seq<Value> {
    if n < |items| then items[n := v] else items + [v]
  }

  datatype Filled = Overflow | Filled(items: seq<Value>, n: nat)

  /** The packed-array loop over a window. */
  function ReadPacked(f: Field, w: seq<byte>, items: seq<Value>, n: nat): Filled
    decreases |w|
  {
    if w == [] then Filled(items, n)
    else if n >= f.arraySize then Overflow
    else
      match ReadScalar(f, w)
      case Fail => Overflow
      case Got(v, w') => ReadPacked(f, w', Store(items, n, v), n + 1)
  }

  // ---------- messages ----------

  /** The state of the loop of pb_decode_noinit. `met` holds the entries met so far;
      `fixed` and `count` track the array without a count member that is being read. */
  datatype State = State(msg: Message, met: set<nat>, fixed: Option<nat>, count: nat)

  datatype Outcome =
    | Failed
    | Stopped(rest: seq<byte>)
    | Next(st: State, rest: seq<byte>)

  datatype Loop = LoopFail | Done(st: State, rest: seq<byte>, terminated: bool)

  datatype Stored = Rejected | Stored(slot: Slot, n: nat, rest: seq<byte>)

  /** One value of the field. `prior` is what its cell held, for submessages to merge into. */
  function ReadValue(f: Field, prior: Value, s: seq<byte>): (r: Parse<Value>)
    ensures r.Got? ==> |r.rest| < |s|
    decreases |s|, 0
  {
    if f.kind.Submessage? then
      match Window(s)
      case Fail => Fail
      case Got(w, rest) =>
        match Decode(f.kind.sub, if f.rule.Repeated? then Default(f.kind.sub) else Slots(prior), w)
        case Fail => Fail
        case Got(m, _) => Got(VMsg(m), rest)
    else ReadScalar(f, s)
  }

  /** decode_static_field. `n` is the number of elements the array holds. */
  function ReadField(f: Field, wt: nat, s: seq<byte>, slot: Slot, n: nat): (r: Stored)
    ensures r.Stored? ==> |r.rest| < |s|
    decreases |s|, 1
  {
    if !f.atype.Static? then Rejected
    else
      match f.rule
      case Required =>
        (match ReadValue(f, Val(slot), s)
         case Fail => Rejected
         case Got(v, rest) => Stored(One(Has(slot), v), n, rest))
      case Optional =>
        (match ReadValue(f, Val(slot), s)
         case Fail => Rejected
         case Got(v, rest) => Stored(One(f.sizeOffset != 0 || Has(slot), v), n, rest))
      case Repeated =>
        if wt == 2 && f.kind.Packable() then
          match Window(s)
          case Fail => Rejected
          case Got(w, rest) =>
            match ReadPacked(f, w, Items(slot), n)
            case Overflow => Rejected
            case Filled(items, n') => Stored(Many(items), n', rest)
        else if n >= f.arraySize then Rejected
        else
          (match ReadValue(f, Junk, s)
           case Fail => Rejected
           case Got(v, rest) => Stored(Many(Store(Items(slot), n, v)), n + 1, rest))
      case Oneof =>
        var prior := if f.kind.Submessage? && Which(slot) != f.tag then DefaultValue(f) else Val(slot);
        match ReadValue(f, prior, s)
        case Fail => Rejected
        case Got(v, rest) => Stored(Union(f.tag, v), n, rest)
  }

  /** Switching to an array without a count member: the previous one must be complete. */
  function TrackFixed(fs: seq<Field>, st: State, i: nat): Option<State>
    requires i < |fs|
  {
    if !fs[i].FixedCount() || st.fixed == Some(i) then Some(st)
    else if FixedComplete(fs, st) then Some(st.(fixed := Some(i), count := 0))
    else None
  }

  predicate FixedComplete(fs: seq<Field>, st: State) {
    st.fixed.Some? && st.fixed.value < |fs| ==> st.count == fs[st.fixed.value].arraySize
  }

  /** The body of the loop once the entry is known. */
  function ReadEntry(fs: seq<Field>, i: nat, wt: nat, s: seq<byte>, st: State): (r: Outcome)
    requires i < |fs|
    ensures !r.Stopped?
    ensures r.Next? ==> |r.rest| < |s|
    decreases |s|, 2
  {
    var f := fs[i];
    match TrackFixed(fs, st, i)
    case None => Failed
    case Some(st1) =>
      var slot := At(st1.msg, f.slot);
      match ReadField(f, wt, s, slot, if f.FixedCount() then st1.count else |Items(slot)|)
      case Rejected => Failed
      case Stored(slot', n, rest) =>
        Next(State(Put(st1.msg, f.slot, slot'), st1.met + {i}, st1.fixed,
                   if f.FixedCount() then n else st1.count), rest)
  }

  /** One turn of the loop. Key number 0 leads to the terminator entry of an empty table,
      which reads like a required bool without a slot. */
  function Step(d: Desc, s: seq<byte>, st: State): (r: Outcome)
    ensures !r.Failed? ==> |r.rest| < |s|
    decreases |s|, 3
  {
    match ReadKey(s)
    case KeyFail => Failed
    case KeyEnd(rest) => Stopped(rest)
    case KeyGot(tag, wt, t) =>
      if d.fields == [] && tag == 0 then
        match Varint32(t) case Fail => Failed case Got(_, rest) => Next(st, rest)
      else
        match Find(d.fields, tag)
        case None => (match SkipField(wt, t) case Fail => Failed case Got(_, rest) => Next(st, rest))
        case Some(i) => ReadEntry(d.fields, i, wt, t, st)
  }

  /** The loop of pb_decode_noinit. */
  function Run(d: Desc, s: seq<byte>, st: State): (r: Loop)
    ensures r.Done? ==> |r.rest| <= |s|
    ensures r.Done? && !r.terminated ==> r.rest == []
    decreases |s|, 4
  {
    if s == [] then Done(st, [], false)
    else
      match Step(d, s, st)
      case Failed => LoopFail
      case Stopped(rest) => Done(st, rest, true)
      case Next(st', rest) => Run(d, rest, st')
  }

  const PB_MAX_REQUIRED_FIELDS := 64

  /** Every one of the first 64 required fields of the table was met. */
  predicate RequiredMet(fs: seq<Field>, met: set<nat>) {
    forall i :: 0 <= i < |fs| && fs[i].rule.Required? && RequiredIndex(fs, i) < PB_MAX_REQUIRED_FIELDS
      ==> i in met
  }

  function Start(m: Message): State {
    State(m, {}, None, 0)
  }

  /** pb_decode_noinit */
  function Decode(d: Desc, m: Message, s: seq<byte>): (r: Parse<Message>)
    ensures r.Got? ==> |r.rest| <= |s|
    decreases |s|, 5
  {
    match Run(d, s, Start(m))
    case LoopFail => Fail
    case Done(st, rest, _) =>
      if FixedComplete(d.fields, st) && RequiredMet(d.fields, st.met) then Got(st.msg, rest) else Fail
  }

  /** pb_decode */
  function DecodeFresh(d: Desc, s: seq<byte>): (r: Parse<Message>)
  {
    Decode(d, Default(d), s)
  }
}
