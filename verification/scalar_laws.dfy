/** Every well-formed scalar is read back from its encoding, whatever follows it. */
module ScalarLaws {
  import opened Options
  import opened Wire
  import opened VarintLaws
  import opened Descriptor
  import opened Encoding
  import opened Decoding

  /** A value the C type of the field can hold and the library can represent. */
  predicate GoodScalar(f: Field, v: Value) {
    match f.kind
    case Bool => v.VBool?
    case Varint => v.VInt? && IntWidth(f.dataSize) && FitsSigned(v.i, f.dataSize)
    case UVarint => v.VInt? && IntWidth(f.dataSize) && 0 <= v.i < Pow2(8 * f.dataSize)
    case SVarint => v.VInt? && IntWidth(f.dataSize) && FitsSigned(v.i, f.dataSize)
    case Fixed32 => v.VFixed? && v.bits < TWO32
    case Fixed64 => v.VFixed? && v.bits < TWO64
    case Bytes => v.VBytes? && |v.bytes| + BYTES_HEADER <= f.dataSize
    case Str => v.VStr? && |v.chars| + 1 <= f.dataSize && 0 !in v.chars
    case FixedBytes => v.VBytes? && |v.bytes| == f.dataSize
    case Submessage(_) => false
    case Extension => false
  }

  // ---------- integers ----------

  lemma {:induction false} Widths()
    ensures Pow2(8) == 0x100 && Pow2(16) == 0x1_0000
    ensures Pow2(32) == TWO32 && Pow2(64) == TWO64
  {
    Pow2Values();
    Pow2Add(4, 4);
    Pow2Add(8, 8);
  }

  /** The unsigned image of a signed value, cut to a narrower word, is still its image. */
  lemma {:induction false} Images(i: int)
    ensures (i % TWO64) % TWO32 == i % TWO32
    ensures -TWO31 <= i < TWO31 ==> i % TWO32 == if i < 0 then i + TWO32 else i
    ensures -TWO63 <= i < TWO63 ==> i % TWO64 == if i < 0 then i + TWO64 else i
  {
    var q := i / TWO64;
    assert i == q * TWO64 + i % TWO64;
    assert i % TWO32 == ((q * TWO32) * TWO32 + i % TWO64) % TWO32;
  }

  lemma {:induction false} NarrowVarintInverts(f: Field, i: int)
    requires IntWidth(f.dataSize) && FitsSigned(i, f.dataSize)
    ensures NarrowVarint(f, i % TWO64) == Some(VInt(i))
  {
    hide Pow2;
    Widths();
    Images(i);
    assert 8 * f.dataSize == 8 || 8 * f.dataSize == 16 || 8 * f.dataSize == 32 || 8 * f.dataSize == 64;
    if f.dataSize == 8 {
      assert Signed(i % TWO64, 64) == i;
    } else {
      assert Signed(i % TWO64, 32) == i;
    }
  }

  lemma {:induction false} NarrowUVarintInverts(f: Field, i: int)
    requires IntWidth(f.dataSize) && 0 <= i < Pow2(8 * f.dataSize)
    ensures i % TWO64 == i && NarrowUVarint(f, i) == Some(VInt(i))
  {
    hide Pow2;
    Widths();
    assert 8 * f.dataSize == 8 || 8 * f.dataSize == 16 || 8 * f.dataSize == 32 || 8 * f.dataSize == 64;
  }

  /** Zig-zag maps the signed 64-bit integers one to one onto the unsigned ones. */
  lemma {:induction false} ZigZagRoundTrip(i: int)
    requires -TWO63 <= i < TWO63
    ensures ZigZag(i) == (if i < 0 then -2 * i - 1 else 2 * i) < TWO64
    ensures UnZigZag(ZigZag(i)) == i
  {
    if i < 0 {
      assert (2 * i) % TWO64 == 2 * i + TWO64;
    }
  }

  lemma {:induction false} UnZigZagRoundTrip(u: nat)
    requires u < TWO64
    ensures -TWO63 <= UnZigZag(u) < TWO63 && ZigZag(UnZigZag(u)) == u
  {
    ZigZagRoundTrip(UnZigZag(u));
  }

  lemma {:induction false} FitsInt64(i: int, n: nat)
    requires IntWidth(n) && FitsSigned(i, n)
    ensures -TWO63 <= i < TWO63
  {
    hide Pow2;
    Widths();
    assert 8 * n == 8 || 8 * n == 16 || 8 * n == 32 || 8 * n == 64;
  }

  // ---------- fixed words ----------

  function Pow256(n: nat): nat {
    if n == 0 then 1 else 256 * Pow256(n - 1)
  }

  lemma {:induction false} LittleEndianInverts(v: nat, n: nat)
    requires v < Pow256(n)
    ensures FromLittleEndian(LittleEndian(v, n)) == v
  {
    if n > 0 {
      LittleEndianInverts(v / 256, n - 1);
      assert LittleEndian(v, n)[1..] == LittleEndian(v / 256, n - 1);
    }
  }

  lemma {:induction false} FixedInverts(v: nat, n: nat, rest: seq<byte>)
    requires v < Pow256(n)
    ensures ReadFixed(LittleEndian(v, n) + rest, n) == Got(VFixed(v), rest)
  {
    LittleEndianInverts(v, n);
    var s := LittleEndian(v, n) + rest;
    assert s[..n] == LittleEndian(v, n) && s[n..] == rest;
  }

  // ---------- length-delimited values ----------

  lemma {:induction false} WindowInverts(body: seq<byte>, rest: seq<byte>)
    requires |body| < TWO32
    ensures Window(Delimited(body) + rest) == Got(body, rest)
  {
    hide EncodeVarint, Varint32;
    var n := EncodeVarint(|body|);
    RoundTrip32(|body|, body + rest);
    assert Delimited(body) + rest == n + (body + rest);
    assert (body + rest)[..|body|] == body && (body + rest)[|body|..] == rest;
  }

  lemma {:induction false} StrnlenFull(c: seq<byte>, max: nat)
    requires 0 !in c && |c| <= max
    ensures c[..Strnlen(c, max)] == c
  {
    if c != [] {
      StrnlenFull(c[1..], max - 1);
      assert c[1..][..Strnlen(c[1..], max - 1)] == c[1..];
    }
  }

  // ---------- keys ----------

  lemma {:induction false} KeyInverts(tag: nat, w: WireType, rest: seq<byte>)
    requires 1 <= tag < 0x2000_0000
    ensures ReadKey(Key(tag, w) + rest) == KeyGot(tag, WireCode(w), rest)
  {
    hide EncodeVarint, Varint32;
    RoundTrip32(tag * 8 + WireCode(w), rest);
  }

  // ---------- scalars ----------

  /** The reader of each scalar kind inverts its writer. */
  lemma {:induction false} ScalarRoundTrip(f: Field, v: Value, rest: seq<byte>)
    requires GoodScalar(f, v)
    requires EncodeScalar(f, v).Some? ==> |EncodeScalar(f, v).value| < TWO32
    ensures EncodeScalar(f, v).Some?
    ensures ReadScalar(f, EncodeScalar(f, v).value + rest) == Got(v, rest)
  {
    hide Varint32, Varint64, EncodeVarint, Pow2, Window, Delimited, Signed, FitsSigned, ZigZag, UnZigZag, NarrowVarint;
    match f.kind
    case Bool => RoundTrip32(if v.b then 1 else 0, rest);
    case Varint => NarrowVarintInverts(f, v.i); RoundTrip64(v.i % TWO64, rest);
    case UVarint => NarrowUVarintInverts(f, v.i); RoundTrip64(v.i % TWO64, rest);
    case SVarint =>
      FitsInt64(v.i, f.dataSize);
      ZigZagRoundTrip(v.i);
      RoundTrip64(ZigZag(v.i), rest);
    case Fixed32 =>
      assert Pow256(4) == TWO32;
      FixedInverts(v.bits, 4, rest);
    case Fixed64 =>
      assert Pow256(8) == TWO64;
      FixedInverts(v.bits, 8, rest);
    case Bytes => DelimitedLength(v.bytes); WindowInverts(v.bytes, rest);
    case Str =>
      StrnlenFull(v.chars, f.dataSize);
      DelimitedLength(v.chars);
      WindowInverts(v.chars, rest);
    case FixedBytes =>
      DelimitedLength(v.bytes);
      WindowInverts(v.bytes, rest);
      assert FromWindow(f, v.bytes).value.bytes == v.bytes;
  }

  /** A char array of `data_size` holds a string with its terminator, or fills it with none. The
      encoder writes both; the decoder takes back exactly the terminated one, as long as its size
      with the terminator is a 32-bit number. */
  lemma {:induction false} StringTerminated(f: Field, chars: seq<byte>, rest: seq<byte>)
    requires f.kind.Str? && 0 !in chars && |chars| <= f.dataSize && |chars| < TWO32
    ensures EncodeScalar(f, VStr(chars)) == Some(Delimited(chars))
    ensures ReadScalar(f, Delimited(chars) + rest)
         == if |chars| < f.dataSize && |chars| + 1 < TWO32 then Got(VStr(chars), rest) else Fail
  {
    hide Window, Delimited;
    StrnlenFull(chars, f.dataSize);
    WindowInverts(chars, rest);
  }

  lemma {:induction false} DelimitedLength(body: seq<byte>)
    ensures |Delimited(body)| > |body|
  {
  }
}
