/** nanopb's field descriptor table (`pb_field_t`) and the messages it describes.

    A C structure is a sequence of slots. A slot holds what one field, or one union of
    oneof fields, keeps in the structure: its value cells and its `has_`, `_count` or
    `which_` cell. Contents that the library leaves unspecified are `Junk`. */
module Descriptor {
  import opened Options
  import opened Wire

  /** LTYPE: how one value is represented. */
  datatype Kind =
    | Bool
    | Varint
    | UVarint
    | SVarint
    | Fixed32
    | Fixed64
    | Bytes
    | Str
    | Submessage(sub: Desc)
    | Extension
    | FixedBytes
  {
    predicate Packable() {
      Bool? || Varint? || UVarint? || SVarint? || Fixed32? || Fixed64?
    }
  }

  /** HTYPE: the repetition rule. */
  datatype Rule = Required | Optional | Repeated | Oneof

  /** ATYPE: where the data lives. */
  datatype Alloc = Static | Pointer | Callback

  /** One entry of the table. `dataOffset`, `sizeOffset`, `dataSize` and `arraySize` are the
      C members of that name, `slot` names the storage they lead to, and `dflt` is the
      explicit default, if the table gives one. */
  datatype Field = Field(tag: nat, kind: Kind, rule: Rule, atype: Alloc,
                         dataOffset: nat, sizeOffset: int, dataSize: nat, arraySize: nat,
                         slot: nat, dflt: Option<Value>)
  {
    /** A static array without a `_count` member. */
    predicate FixedCount() {
      rule.Repeated? && sizeOffset == 0
    }

    /** A proto3 singular field, which has no `has_` member. */
    predicate Implicit() {
      rule.Optional? && sizeOffset == 0
    }
  }

  /** A message type: its table, without the terminator entry, and its number of slots. */
  datatype Desc = Desc(fields: seq<Field>, size: nat)

  datatype Value =
    | Junk
    | VBool(b: bool)
    | VInt(i: int)
    | VFixed(bits: nat)
    | VBytes(bytes: seq<byte>)
    | VStr(chars: seq<byte>)
    | VMsg(slots: Message)

  datatype Slot =
    | One(has: bool, v: Value)
    | Many(items: seq<Value>)
    | Union(which: nat, v: Value)

  type Message = seq<Slot>

  const PB_SIZE_MAX := 0xFFFF_FFFF
  /** offsetof(pb_bytes_array_t, bytes) */
  const BYTES_HEADER := 4
  /** Number of values of size_t. */
  const SIZE_MOD := TWO64

  // ---------- reading and writing slots ----------

  function At(m: Message, k: nat): Slot {
    if k < |m| then m[k] else One(false, Junk)
  }

  function Put(m: Message, k: nat, s: Slot): (r: Message)
    ensures |r| == |m|
  {
    if k < |m| then m[k := s] else m
  }

  function Val(s: Slot): Value {
    match s
    case One(_, v) => v
    case Union(_, v) => v
    case Many(_) => Junk
  }

  function Items(s: Slot): seq<Value> {
    if s.Many? then s.items else []
  }

  function Which(s: Slot): nat {
    if s.Union? then s.which else 0
  }

  predicate Has(s: Slot) {
    s.One? && s.has
  }

  function Slots(v: Value): Message {
    if v.VMsg? then v.slots else []
  }

  // ---------- default values ----------

  function Zero(f: Field): Value {
    match f.kind
    case Bool => VBool(false)
    case Varint => VInt(0)
    case UVarint => VInt(0)
    case SVarint => VInt(0)
    case Fixed32 => VFixed(0)
    case Fixed64 => VFixed(0)
    case Bytes => VBytes([])
    case Str => VStr([])
    case FixedBytes => VBytes(seq(f.dataSize, _ => 0))
    case Submessage(_) => Junk
    case Extension => Junk
  }

  function DefaultValue(f: Field): Value
    decreases f, 0
  {
    if f.kind.Submessage? then VMsg(Default(f.kind.sub))
    else if f.dflt.Some? then f.dflt.value
    else Zero(f)
  }

  function DefaultSlot(f: Field): Slot
    decreases f, 1
  {
    match f.rule
    case Required => One(false, DefaultValue(f))
    case Optional => One(false, DefaultValue(f))
    case Repeated => Many(if f.sizeOffset == 0 then seq(f.arraySize, _ => Junk) else [])
    case Oneof => Union(0, Junk)
  }

  /** The loop of pb_message_set_to_defaults, from entry `i` on. */
  function SetDefaults(d: Desc, i: nat, m: Message): (r: Message)
    ensures |r| == |m|
    decreases d, 0, |d.fields| - i
  {
    if i >= |d.fields| then m
    else SetDefaults(d, i + 1, Put(m, d.fields[i].slot, DefaultSlot(d.fields[i])))
  }

  function Default(d: Desc): (r: Message)
    ensures |r| == d.size
    decreases d, 1
  {
    SetDefaults(d, 0, seq(d.size, _ => One(false, Junk)))
  }

  // ---------- the table ----------

  /** The entry a tag leads to. */
  function FindFrom(fs: seq<Field>, tag: nat, i: nat): (r: Option<nat>)
    ensures r.Some? ==> i <= r.value < |fs| && fs[r.value].tag == tag && !fs[r.value].kind.Extension?
    ensures r.Some? ==> forall j :: i <= j < r.value ==> fs[j].tag != tag || fs[j].kind.Extension?
    ensures r.None? ==> forall j :: i <= j < |fs| ==> fs[j].tag != tag || fs[j].kind.Extension?
    decreases |fs| - i
  {
    if i >= |fs| then None
    else if fs[i].tag == tag && !fs[i].kind.Extension? then Some(i)
    else FindFrom(fs, tag, i + 1)
  }

  function Find(fs: seq<Field>, tag: nat): (r: Option<nat>)
    ensures r.Some? ==> r.value < |fs| && fs[r.value].tag == tag && !fs[r.value].kind.Extension?
    ensures r.None? ==> forall j :: 0 <= j < |fs| ==> fs[j].tag != tag || fs[j].kind.Extension?
  {
    FindFrom(fs, tag, 0)
  }

  /** The number of required fields before entry `i`. */
  function RequiredIndex(fs: seq<Field>, i: nat): nat
    requires i <= |fs|
  {
    if i == 0 then 0
    else RequiredIndex(fs, i - 1) + (if fs[i - 1].rule.Required? then 1 else 0)
  }
}
