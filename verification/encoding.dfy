/** What pb_encode produces, as a function of the table and the message.
    `None` stands for the errors that do not depend on the output stream. */
module Encoding {
  import opened Options
  import opened Wire
  import opened Descriptor

  datatype WireType = WtVarint | Wt64 | WtString | Wt32

  function WireCode(w: WireType): nat {
    match w
    case WtVarint => 0
    case Wt64 => 1
    case WtString => 2
    case Wt32 => 5
  }

  /** The wire type of one value of the field, packed or not chosen by the caller. */
  function WireTypeOf(k: Kind): WireType {
    match k
    case Bool => WtVarint
    case Varint => WtVarint
    case UVarint => WtVarint
    case SVarint => WtVarint
    case Fixed32 => Wt32
    case Fixed64 => Wt64
    case Bytes => WtString
    case Str => WtString
    case Submessage(_) => WtString
    case FixedBytes => WtString
    case Extension => WtVarint
  }

  function Key(tag: nat, w: WireType): seq<byte> {
    EncodeVarint(tag * 8 + WireCode(w))
  }

  function LittleEndian(v: nat, n: nat): (s: seq<byte>)
    ensures |s| == n
  {
    if n == 0 then [] else [v % 256] + LittleEndian(v / 256, n - 1)
  }

  /** `~(value << 1)` for negative values, `value << 1` for the others, in 64 bits. */
  function ZigZag(i: int): nat {
    if i < 0 then TWO64 - 1 - (2 * i) % TWO64 else (2 * i) % TWO64
  }

  /** The characters before the first zero byte, at most `max` of them. */
  function Strnlen(s: seq<byte>, max: nat): (n: nat)
    ensures n <= |s| && n <= max
    ensures forall i :: 0 <= i < n ==> s[i] != 0
    ensures n < |s| && n < max ==> s[n] == 0
  {
    if max == 0 || s == [] || s[0] == 0 then 0
    else 1 + Strnlen(s[1..], max - 1)
  }

  predicate IntWidth(n: nat) {
    n == 1 || n == 2 || n == 4 || n == 8
  }

  /** A length-delimited body. The length is a size_t. */
  function Delimited(body: seq<byte>): seq<byte> {
    EncodeVarint(|body| % SIZE_MOD) + body
  }

  function EncodeScalar(f: Field, v: Value): Option<seq<byte>> {
    match (f.kind, v)
    case (Bool, VBool(b)) => Some(EncodeVarint(if b then 1 else 0))
    case (Varint, VInt(i)) => if IntWidth(f.dataSize) then Some(EncodeVarint(i % TWO64)) else None
    case (UVarint, VInt(i)) => if IntWidth(f.dataSize) then Some(EncodeVarint(i % TWO64)) else None
    case (SVarint, VInt(i)) => if IntWidth(f.dataSize) then Some(EncodeVarint(ZigZag(i))) else None
    case (Fixed32, VFixed(n)) => Some(LittleEndian(n, 4))
    case (Fixed64, VFixed(n)) => Some(LittleEndian(n, 8))
    case (Bytes, VBytes(b)) => if |b| > f.dataSize - BYTES_HEADER then None else Some(Delimited(b))
    case (Str, VStr(c)) => Some(Delimited(c[..Strnlen(c, f.dataSize)]))
    case (FixedBytes, VBytes(b)) => if |b| == f.dataSize then Some(Delimited(b)) else None
    case _ => None
  }

  function EncodeValue(f: Field, v: Value): Option<seq<byte>>
    decreases f, 0
  {
    if f.kind.Submessage? then
      match Encode(f.kind.sub, Slots(v))
      case None => None
      case Some(body) => Some(Delimited(body))
    else EncodeScalar(f, v)
  }

  function Cat(a: Option<seq<byte>>, b: Option<seq<byte>>): Option<seq<byte>> {
    if a.Some? && b.Some? then Some(a.value + b.value) else None
  }

  /** The elements of a packed array, without their keys. */
  function EncodePackedItems(f: Field, items: seq<Value>): Option<seq<byte>> {
    if items == [] then Some([])
    else Cat(EncodeScalar(f, items[0]), EncodePackedItems(f, items[1..]))
  }

  function EncodeKeyed(f: Field, v: Value): Option<seq<byte>>
    decreases f, 1
  {
    Cat(Some(Key(f.tag, WireTypeOf(f.kind))), EncodeValue(f, v))
  }

  /** The elements of an array that cannot be packed, each with its key. */
  function EncodeItems(f: Field, items: seq<Value>): Option<seq<byte>>
    decreases f, 2, |items|
  {
    if items == [] then Some([])
    else Cat(EncodeKeyed(f, items[0]), EncodeItems(f, items[1..]))
  }

  function EncodeArray(f: Field, items: seq<Value>): Option<seq<byte>>
    decreases f, 3
  {
    if items == [] then Some([])
    else if |items| > f.arraySize then None
    else if f.kind.Packable() then
      match EncodePackedItems(f, items)
      case None => None
      case Some(body) => Some(Key(f.tag, WtString) + Delimited(body))
    else EncodeItems(f, items)
  }

  /** pb_check_proto3_default_value on the field's own value. */
  predicate IsZeroValue(f: Field, v: Value)
    decreases f, 4
  {
    match f.kind
    case Bytes => v.VBytes? && v.bytes == []
    case Str => v.VStr? && (v.chars == [] || v.chars[0] == 0)
    case FixedBytes => f.dataSize == 0
    case Submessage(sub) => AllZero(sub, Slots(v), 0)
    case Bool => v == VBool(false)
    case Varint => v == VInt(0)
    case UVarint => v == VInt(0)
    case SVarint => v == VInt(0)
    case Fixed32 => v == VFixed(0)
    case Fixed64 => v == VFixed(0)
    case Extension => true
  }

  /** pb_check_proto3_default_value on a field of a submessage. */
  predicate IsZeroSlot(f: Field, s: Slot)
    decreases f, 5
  {
    match f.rule
    case Required => false
    case Repeated => f.sizeOffset != 0 && Items(s) == []
    case Oneof => Which(s) == 0
    case Optional => if f.sizeOffset != 0 then !Has(s) else IsZeroValue(f, Val(s))
  }

  predicate AllZero(d: Desc, m: Message, i: nat)
    decreases d, 0, |d.fields| - i
  {
    i >= |d.fields| || (IsZeroSlot(d.fields[i], At(m, d.fields[i].slot)) && AllZero(d, m, i + 1))
  }

  /** Whether the encoder writes the field at all. */
  predicate Present(f: Field, s: Slot)
    decreases f, 5
  {
    match f.rule
    case Required => true
    case Optional => if f.sizeOffset != 0 then Has(s) else !IsZeroValue(f, Val(s))
    case Repeated => Items(s) != []
    case Oneof => Which(s) == f.tag
  }

  /** encode_basic_field. A field without a count member always has `arraySize` elements. */
  function EncodeField(f: Field, s: Slot): Option<seq<byte>>
    decreases f, 6
  {
    if !f.atype.Static? || f.kind.Extension? then None
    else if !Present(f, s) then Some([])
    else if f.rule.Repeated? then
      if f.FixedCount() && |Items(s)| != f.arraySize then None
      else EncodeArray(f, Items(s))
    else EncodeKeyed(f, Val(s))
  }

  /** The loop of pb_encode, from entry `i` on. */
  function EncodeFrom(d: Desc, m: Message, i: nat): Option<seq<byte>>
    decreases d, 0, |d.fields| - i
  {
    if i >= |d.fields| then Some([])
    else Cat(EncodeField(d.fields[i], At(m, d.fields[i].slot)), EncodeFrom(d, m, i + 1))
  }

  function Encode(d: Desc, m: Message): Option<seq<byte>>
    decreases d, 1
  {
    EncodeFrom(d, m, 0)
  }
}
