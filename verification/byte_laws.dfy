/** The bytes themselves: digits of varints and fixed words, what each field width makes of any
    varint, which windows each kind of blob takes, and which fields are written at all. */
module ByteLaws {
  import opened Options
  import opened Wire
  import opened VarintLaws
  import opened Descriptor
  import opened Encoding
  import opened Decoding
  import opened ScalarLaws
  import opened RoundTrip
  import opened BoundsLaws

  // ---------- digits ----------

  function Pow128(k: nat): nat {
    if k == 0 then 1 else 128 * Pow128(k - 1)
  }

  lemma {:induction false} Pow128Positive(k: nat)
    ensures Pow128(k) > 0
  {
    if k > 0 { Pow128Positive(k - 1); }
  }

  lemma {:induction false} Commutes(a: nat, b: nat)
    ensures a * b == b * a
  {
  }

  /** Dividing twice is dividing by the product. */
  lemma {:induction false} DivDiv(v: nat, b: nat, p: nat)
    requires b > 0 && p > 0
    ensures b * p > 0 && v / (b * p) == (v / b) / p
  {
    Commutes(p, b);
    MulLess(0, p, b);
    Split(v / b, p);
    DivProduct(v, b, p, v / b, (v / b) / p, (v / b) % p, p * b);
  }

  lemma {:induction false} Split(v: nat, b: nat)
    requires b > 0
    ensures v == (v / b) * b + v % b && v % b < b
  {
  }

  lemma {:induction false} DivProduct(v: nat, b: nat, p: nat, q: nat, q': nat, r': nat, m: nat)
    requires b > 0 && m == p * b && m > 0 && q == v / b && q == q' * p + r' && r' < p
    ensures v / m == q'
  {
    Split(v, b);
    MulLess(r', p, b);
    Distribute(q', p, r', b);
    AddUp(v, q * b, v % b, q' * m, r' * b);
    ModUnique(v, q', m, r' * b + v % b);
  }

  lemma {:induction false} AddUp(v: nat, qb: nat, r: nat, qm: nat, rb: nat)
    requires v == qb + r && qb == qm + rb
    ensures v == qm + (rb + r)
  {
  }

  /** The encoding of `v` is its base-128 digits, least significant first, as few as possible, with
      the top bit set on all but the last. */
  lemma {:induction false} VarintDigits(v: nat, k: nat)
    requires k < |EncodeVarint(v)|
    ensures Pow128(k) > 0 && EncodeVarint(v)[k] % 128 == v / Pow128(k) % 128
    ensures EncodeVarint(v)[k] >= 128 <==> k + 1 < |EncodeVarint(v)|
    ensures k > 0 && k + 1 == |EncodeVarint(v)| ==> EncodeVarint(v)[k] > 0
    decreases v
  {
    if k > 0 {
      assert EncodeVarint(v)[1..] == EncodeVarint(v / 128);
      VarintDigits(v / 128, k - 1);
      DivDiv(v, 128, Pow128(k - 1));
      if k == 1 && |EncodeVarint(v / 128)| == 1 { assert EncodeVarint(v)[1] == v / 128; }
    }
  }

  /** Byte `k` of a fixed word is its base-256 digit `k`. */
  lemma {:induction false} LittleEndianDigits(v: nat, n: nat, k: nat)
    requires k < n
    ensures Pow256(k) > 0 && LittleEndian(v, n)[k] == v / Pow256(k) % 256
  {
    if k > 0 {
      LittleEndianDigits(v / 256, n - 1, k - 1);
      DivDiv(v, 256, Pow256(k - 1));
    }
  }

  // ---------- varints that are not as short as possible ----------

  /** The number that a varint's groups spell. */
  function Groups(s: seq<byte>): nat {
    if s == [] then 0 else s[0] % 128 + 128 * Groups(s[1..])
  }

  /** All bytes but the last say that another follows. */
  predicate Whole(s: seq<byte>) {
    s != [] && s[|s| - 1] < 128 && forall k :: 0 <= k < |s| - 1 ==> s[k] >= 128
  }

  lemma {:induction false} GroupSum(acc: nat, c: nat, g: nat, p: nat, w: nat)
    requires w > 0
    ensures acc + (c + 128 * g) * p == (acc + (c % w) * p + g * (128 * p)) + (c / w) * (w * p)
  {
    SplitAt(c, w, p);
    Distribute(g, 128, c, p);
    Commutes(g, 128);
  }

  /** The word after one more group, and what the groups above it add. */
  lemma {:induction false} GroupStep(acc: nat, c: nat, g: nat, k: nat)
    requires k < 64 && acc < Pow2(k) && c < 128
    ensures var acc' := Or(acc, Shl(c, k, TWO64));
      && acc' < Pow2(k + 7)
      && (acc' + g * Pow2(k + 7)) % TWO64 == (acc + (c + 128 * g) * Pow2(k)) % TWO64
  {
    hide Or, Shl, Pow2;
    var w := Pow2(64 - k);
    Truncated64(acc, c, k);
    AccBound(acc, c, k);
    NextGroup(k);
    FullWord(k);
    GroupSum(acc, c, g, Pow2(k), w);
    DropMultiple(acc + (c % w) * Pow2(k) + g * (128 * Pow2(k)), c / w);
  }

  lemma {:induction false} FullWord(k: nat)
    requires k <= 64
    ensures Pow2(64 - k) * Pow2(k) == TWO64
  {
    hide Pow2;
    Pow2Values();
    Pow2Add(64 - k, k);
  }

  lemma {:induction false} DropMultiple(x: nat, q: nat)
    ensures (x + q * TWO64) % TWO64 == x % TWO64
  {
    ModUnique(x + q * TWO64, x / TWO64 + q, TWO64, x % TWO64);
  }

  /** One turn of the 64-bit reader on any byte. */
  lemma {:induction false} ReadGroup(s: seq<byte>, k: nat, acc: nat, rest: seq<byte>)
    requires s != [] && k < 64
    ensures Varint64From(s + rest, k, acc) ==
      var acc' := Or(acc, Shl(s[0] % 128, k, TWO64));
      if s[0] >= 128 then Varint64From(s[1..] + rest, k + 7, acc') else Got(acc', s[1..] + rest)
  {
    hide Or, Shl;
    assert (s + rest)[1..] == s[1..] + rest;
  }

  lemma {:induction false} GroupsRead(s: seq<byte>, k: nat, acc: nat, rest: seq<byte>)
    requires Whole(s) && acc < Pow2(k) && k + 7 * (|s| - 1) < 64
    ensures Varint64From(s + rest, k, acc) == Got((acc + Groups(s) * Pow2(k)) % TWO64, rest)
    decreases |s|
  {
    hide Or, Shl, Pow2, Varint64From;
    var c := s[0] % 128;
    ReadGroup(s, k, acc, rest);
    if |s| > 1 {
      GroupStep(acc, c, Groups(s[1..]), k);
      GroupsRead(s[1..], k + 7, Or(acc, Shl(c, k, TWO64)), rest);
    } else {
      assert s[1..] == [] && s[1..] + rest == rest;
      LastGroup(acc, c, k);
    }
  }

  lemma {:induction false} LastGroup(acc: nat, c: nat, k: nat)
    requires k < 64 && acc < Pow2(k) && c < 128
    ensures Or(acc, Shl(c, k, TWO64)) == (acc + c * Pow2(k)) % TWO64
  {
    hide Or, Shl, Pow2;
    GroupStep(acc, c, 0, k);
    WordSmall(acc, c, k);
  }

  lemma {:induction false} WordSmall(acc: nat, c: nat, k: nat)
    requires k < 64 && acc < Pow2(k)
    ensures Or(acc, Shl(c, k, TWO64)) < TWO64
  {
    hide Or, Shl, Pow2;
    var w := Pow2(64 - k);
    Truncated64(acc, c, k);
    FullWord(k);
    MulLess(c % w, w, Pow2(k));
  }

  lemma {:induction false} TooLong(s: seq<byte>, k: nat, acc: nat)
    requires k < 70 && |s| >= (70 - k + 6) / 7 && forall j :: 0 <= j < (70 - k + 6) / 7 ==> s[j] >= 128
    ensures Varint64From(s, k, acc) == Fail
    decreases 70 - k
  {
    hide Or, Shl;
    if k < 63 {
      TooLong(s[1..], k + 7, Or(acc, Shl(s[0] % 128, k, TWO64)));
    }
  }

  /** The 64-bit reader on all inputs that hold a whole varint: up to ten bytes spell a number, taken
      modulo 2^64, and longer ones are refused. */
  lemma {:induction false} Reader64Exact(s: seq<byte>, rest: seq<byte>)
    requires Whole(s)
    ensures Varint64(s + rest) == if |s| <= 10 then Got(Groups(s) % 0x1_0000_0000_0000_0000, rest) else Fail
  {
    hide Or, Shl;
    assert Pow2(0) == 1;
    if |s| <= 10 {
      GroupsRead(s, 0, 0, rest);
    } else {
      TooLong(s + rest, 0, 0);
    }
  }

  /** Skipping takes a varint of any length. */
  lemma {:induction false} SkipsAnyVarint(s: seq<byte>, rest: seq<byte>)
    requires Whole(s)
    ensures Decoding.SkipVarint(s + rest) == Got((), rest)
    decreases |s|
  {
    assert (s + rest)[1..] == s[1..] + rest;
    if |s| > 1 {
      SkipsAnyVarint(s[1..], rest);
    } else {
      assert s[1..] + rest == rest;
    }
  }

  lemma {:induction false} ZeroGroups(n: nat, bitpos: nat, acc: nat, rest: seq<byte>)
    ensures Varint32From(seq(n, _ => 128) + ([0] + rest), bitpos, acc) == Got(acc, rest)
  {
    hide Shl;
    var zeros: seq<byte> := seq(n, _ => 128);
    NothingShifted(bitpos);
    OrNothing(acc);
    if n == 0 {
      assert zeros + ([0] + rest) == [0] + rest && ([0] + rest)[1..] == rest;
    } else {
      ZeroGroups(n - 1, (bitpos + 7) % 256, acc, rest);
      assert (zeros + ([0] + rest))[1..] == seq(n - 1, _ => 128) + ([0] + rest);
    }
  }

  lemma {:induction false} NothingShifted(k: nat)
    ensures Shl(0, k, TWO32) == 0
  {
  }

  lemma {:induction false} OrNothing(a: nat)
    ensures Or(a, 0) == a
  {
  }

  /** The 32-bit reader takes any number of empty groups behind a value: it has no length limit. */
  lemma {:induction false} Reader32Unlimited(v: nat, n: nat, rest: seq<byte>)
    requires v < 128
    ensures Varint32([v + 128] + (seq(n, _ => 128) + ([0] + rest))) == Got(v, rest)
  {
    var tail: seq<byte> := seq(n, _ => 128) + ([0] + rest);
    ZeroGroups(n, 7, v, rest);
    assert ([v + 128] + tail)[1..] == tail;
  }

  lemma {:induction false} LongVarint(v: nat, n: nat)
    requires n >= 1 && v >= Pow2(7 * (n - 1)) && (n > 1 || v >= 0)
    ensures |EncodeVarint(v)| >= n
    decreases n
  {
    if n > 1 {
      NextGroup(7 * (n - 2));
      assert 7 * (n - 2) + 7 == 7 * (n - 1);
      HundredTwentyEight(n - 2);
      LongVarint(v / 128, n - 1);
    }
  }

  lemma {:induction false} HundredTwentyEight(k: nat)
    ensures Pow2(7 * k) >= 1
  {
  }

  /** A negative number takes ten bytes in an integer field of any width, the same ten in all. */
  lemma {:induction false} NegativeTakesTen(f: Field, i: int)
    requires f.kind.Varint? && IntWidth(f.dataSize) && -0x8000_0000_0000_0000 <= i < 0
    ensures EncodeScalar(f, VInt(i)) == Some(EncodeVarint(0x1_0000_0000_0000_0000 + i))
    ensures |EncodeVarint(0x1_0000_0000_0000_0000 + i)| == 10
  {
    hide EncodeVarint;
    Images(i);
    Pow2Values();
    EncodedLength64(TWO64 + i);
    LongVarint(TWO64 + i, 10);
  }

  // ---------- what a field makes of a varint ----------

  lemma {:induction false} Signed32(u: nat)
    ensures -0x8000_0000 <= Signed(u, 32) < 0x8000_0000 && (u - Signed(u, 32)) % 0x1_0000_0000 == 0
  {
    hide Pow2;
    Widths();
  }

  lemma {:induction false} Signed64(u: nat)
    ensures -TWO63 <= Signed(u, 64) < TWO63 && (u - Signed(u, 64)) % 0x1_0000_0000_0000_0000 == 0
  {
    hide Pow2;
    Widths();
  }

  lemma {:induction false} InSignedFits(i: int, n: nat)
    requires IntWidth(n)
    ensures FitsSigned(i, n) <==> InSigned(i, n)
    ensures 0 <= i ==> (i < Pow2(8 * n) <==> InUnsigned(i, n))
  {
    hide Pow2;
    Widths();
    assert 8 * n == 8 || 8 * n == 16 || 8 * n == 32 || 8 * n == 64;
  }

  /** A signed integer field takes any varint modulo 2^32, or modulo 2^64 if it is eight bytes wide,
      as the integer of that width around zero, and refuses what is then too large for it. So
      negative numbers may come in five bytes or in ten. */
  lemma {:induction false} SignedFieldReads(f: Field, u: nat, rest: seq<byte>)
    requires f.kind.Varint? && IntWidth(f.dataSize) && u < TWO64
    ensures exists i: int ::
      && (if f.dataSize == 8 then InSigned(i, 8) && (u - i) % 0x1_0000_0000_0000_0000 == 0
          else InSigned(i, 4) && (u - i) % 0x1_0000_0000 == 0)
      && ReadScalar(f, EncodeVarint(u) + rest) == if InSigned(i, f.dataSize) then Got(VInt(i), rest) else Fail
  {
    hide Varint64, EncodeVarint, Signed, FitsSigned;
    RoundTrip64(u, rest);
    var i := if f.dataSize == 8 then Signed(u, 64) else Signed(u, 32);
    Signed64(u);
    Signed32(u);
    InSignedFits(i, f.dataSize);
    assert ReadScalar(f, EncodeVarint(u) + rest) == if InSigned(i, f.dataSize) then Got(VInt(i), rest) else Fail;
  }

  /** An unsigned field takes exactly the varints in its range, unchanged. */
  lemma {:induction false} UnsignedFieldReads(f: Field, u: nat, rest: seq<byte>)
    requires f.kind.UVarint? && IntWidth(f.dataSize) && u < TWO64
    ensures ReadScalar(f, EncodeVarint(u) + rest) == if InUnsigned(u, f.dataSize) then Got(VInt(u), rest) else Fail
  {
    hide Varint64, EncodeVarint, Pow2;
    RoundTrip64(u, rest);
    InSignedFits(u, f.dataSize);
  }

  /** A zig-zag field takes the number that stands for the varint, if it is in range. */
  lemma {:induction false} ZigZagFieldReads(f: Field, u: nat, rest: seq<byte>)
    requires f.kind.SVarint? && IntWidth(f.dataSize) && u < TWO64
    ensures var i := if u % 2 == 0 then u / 2 else -1 - u / 2;
      ReadScalar(f, EncodeVarint(u) + rest) == if InSigned(i, f.dataSize) then Got(VInt(i), rest) else Fail
  {
    hide Varint64, EncodeVarint, FitsSigned;
    RoundTrip64(u, rest);
    InSignedFits(UnZigZag(u), f.dataSize);
  }

  /** Every 32-bit varint but 0 is true. */
  lemma {:induction false} BoolFieldReads(f: Field, u: nat, rest: seq<byte>)
    requires f.kind.Bool? && u < TWO32
    ensures ReadScalar(f, EncodeVarint(u) + rest) == Got(VBool(u != 0), rest)
  {
    hide Varint32, EncodeVarint;
    RoundTrip32(u, rest);
  }

  /** Which windows the blobs take: bytes with a header of four bytes in front, strings with one byte
      behind, fixed-length bytes as they are or, if empty, as zeros. */
  lemma {:induction false} BlobFieldReads(f: Field, w: seq<byte>, rest: seq<byte>)
    requires (f.kind.Bytes? || f.kind.Str? || f.kind.FixedBytes?) && |w| < TWO32
    ensures ReadScalar(f, Delimited(w) + rest) ==
      if f.kind.Bytes? then (if |w| + 4 <= f.dataSize then Got(VBytes(w), rest) else Fail)
      else if f.kind.Str? then
        (if |w| + 1 <= f.dataSize && |w| + 1 < 0x1_0000_0000 then Got(VStr(w), rest) else Fail)
      else if |w| == 0 then Got(VBytes(seq(f.dataSize, _ => 0)), rest)
      else if |w| == f.dataSize then Got(VBytes(w), rest)
      else Fail
  {
    hide Window, Delimited;
    WindowInverts(w, rest);
  }

  // ---------- which fields are written ----------

  /** A has-less number is written exactly if it is not zero, a string if it has characters, bytes
      if there are any. Fixed-length bytes are written even if all are zero. */
  lemma {:induction false} ImplicitWritten(f: Field, s: Slot)
    requires GoodField(f) && f.Implicit() && GoodSlot(f, s) && !f.kind.Submessage?
    ensures EncodeField(f, s) == Some([]) <==>
      match f.kind
      case FixedBytes => f.dataSize == 0
      case _ => ZeroContents(f, Val(s))
  {
    hide Pow2, Key, EncodeScalar, GoodScalar;
    ScalarOf(f, Val(s));
    if Present(f, s) { KeyedNonEmpty(f, Val(s)); }
  }

  /** The field of a submessage holds nothing that would have to be written. */
  predicate EmptyField(f: Field, s: Slot)
    decreases f, 1
  {
    match f.rule
    case Required => false
    case Repeated => f.sizeOffset != 0 && Items(s) == []
    case Oneof => Which(s) == 0
    case Optional =>
      if f.sizeOffset != 0 then !Has(s)
      else
        match f.kind
        case Submessage(sub) => NothingIn(sub, Slots(Val(s)))
        case FixedBytes => f.dataSize == 0
        case _ => ZeroContents(f, Val(s))
  }

  predicate NothingIn(d: Desc, m: Message)
    decreases d, 0
  {
    forall i :: 0 <= i < |d.fields| ==> EmptyField(d.fields[i], At(m, d.fields[i].slot))
  }

  lemma {:induction false} EmptyIsZero(f: Field, s: Slot)
    requires GoodField(f) && GoodSlot(f, s)
    ensures IsZeroSlot(f, s) <==> EmptyField(f, s)
    decreases f, 1
  {
    hide Pow2, GoodScalar, AllZero;
    if f.Implicit() {
      if f.kind.Submessage? {
        NothingIsZero(f.kind.sub, s.v.slots);
      } else {
        ScalarOf(f, s.v);
      }
    }
  }

  lemma {:induction false} AllZeroEach(d: Desc, m: Message, i: nat)
    requires i <= |d.fields|
    ensures AllZero(d, m, i) <==> forall j :: i <= j < |d.fields| ==> IsZeroSlot(d.fields[j], At(m, d.fields[j].slot))
    decreases |d.fields| - i
  {
    hide IsZeroSlot;
    if i < |d.fields| { AllZeroEach(d, m, i + 1); }
  }

  lemma {:induction false} NothingIsZero(d: Desc, m: Message)
    requires GoodDesc(d) && GoodMessage(d, m)
    ensures AllZero(d, m, 0) <==> NothingIn(d, m)
    decreases d, 0
  {
    hide IsZeroSlot, GoodSlot, GoodField, EmptyField;
    AllZeroEach(d, m, 0);
    forall i | 0 <= i < |d.fields|
      ensures IsZeroSlot(d.fields[i], At(m, d.fields[i].slot)) <==> EmptyField(d.fields[i], At(m, d.fields[i].slot))
    {
      EmptyIsZero(d.fields[i], At(m, d.fields[i].slot));
    }
  }

  /** A has-less submessage is written exactly if some field of it, at any nesting, is not empty:
      required fields and arrays without a count member never are. */
  lemma {:induction false} ImplicitSubmessageWritten(f: Field, s: Slot)
    requires GoodField(f) && f.Implicit() && GoodSlot(f, s) && f.kind.Submessage? && EncodeField(f, s).Some?
    ensures EncodeField(f, s) == Some([]) <==> NothingIn(f.kind.sub, Slots(Val(s)))
  {
    hide Encode, AllZero, NothingIn, GoodDesc, GoodMessage, Delimited, Key;
    NothingIsZero(f.kind.sub, s.v.slots);
    SomeKey(f.tag, WireTypeOf(f.kind));
  }

  lemma {:induction false} SomeKey(tag: nat, w: WireType)
    ensures |Key(tag, w)| > 0
  {
  }

  lemma {:induction false} ScalarOf(f: Field, v: Value)
    requires GoodScalar(f, v)
    ensures f.kind.Str? ==> v.VStr? && 0 !in v.chars
    ensures f.kind.Bytes? || f.kind.FixedBytes? ==> v.VBytes?
    ensures f.kind.Bool? ==> v.VBool?
    ensures EncodeScalar(f, v).Some?
  {
  }

  lemma {:induction false} KeyedNonEmpty(f: Field, v: Value)
    requires !f.kind.Submessage? && EncodeScalar(f, v).Some?
    ensures EncodeKeyed(f, v).Some? && |EncodeKeyed(f, v).value| > 0
  {
  }

  /** Absent fields that say so, by a has, count or which member, are not written. */
  lemma {:induction false} AbsentNotWritten(f: Field, s: Slot)
    requires GoodField(f) && AbsentSlot(f, s) && !f.rule.Required? && f.sizeOffset != 0
    ensures EncodeField(f, s) == Some([])
  {
    hide IsZeroValue;
  }

  /** An array with more elements than it has room for is refused. */
  lemma {:induction false} TooManyRefused(f: Field, s: Slot)
    requires f.rule.Repeated? && |Items(s)| > f.arraySize
    ensures EncodeField(f, s).None?
  {
  }

  /** The encoder refuses a value of the field's type only if it is too many bytes for the field, or
      the table gives an integer a width that no type has. */
  lemma {:induction false} ScalarRefused(f: Field, v: Value)
    requires match f.kind
      case Bool => v.VBool?
      case Varint => v.VInt?
      case UVarint => v.VInt?
      case SVarint => v.VInt?
      case Fixed32 => v.VFixed?
      case Fixed64 => v.VFixed?
      case Bytes => v.VBytes?
      case Str => v.VStr?
      case FixedBytes => v.VBytes? && |v.bytes| == f.dataSize
      case _ => false
    ensures EncodeScalar(f, v).None? <==>
      || (f.kind.Bytes? && |v.bytes| + 4 > f.dataSize)
      || ((f.kind.Varint? || f.kind.UVarint? || f.kind.SVarint?) && f.dataSize !in {1, 2, 4, 8})
  {
    hide Delimited, EncodeVarint, LittleEndian, ZigZag, Strnlen;
  }
}
