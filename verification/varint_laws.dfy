/** Laws of the varint codecs: exact round trips of both readers, their agreement on
    arbitrary input, and the zig-zag mapping. */
module VarintLaws {
  import opened Wire

  // ---------- small helpers ----------

  lemma {:induction false} Pow2Mono(a: nat, b: nat)
    requires a <= b
    ensures Pow2(a) <= Pow2(b)
  {
    Pow2Add(b - a, a);
    MulLess(0, Pow2(b - a), Pow2(a));
  }

  lemma {:induction false} Pow2Strict(a: nat, b: nat)
    requires Pow2(a) < Pow2(b)
    ensures a < b
  {
    if b <= a { Pow2Mono(b, a); }
  }

  lemma {:induction false} Below64(k: nat)
    requires Pow2(k) < TWO64
    ensures k < 64
  {
    Pow2Values();
    Pow2Strict(k, 64);
  }

  /** A byte holding seven bits and the continuation flag. */
  function GroupByte(g: nat, more: bool): byte
    requires g < 128
  {
    if more then g + 128 else g
  }

  lemma {:induction false} VarintUnfold(v: nat, rest: seq<byte>)
    ensures EncodeVarint(v) + rest
         == [GroupByte(v % 128, v > 127)] + (if v > 127 then EncodeVarint(v / 128) + rest else rest)
  {
  }

  lemma {:induction false} Read64(g: nat, more: bool, tail: seq<byte>, bitpos: nat, acc: nat)
    requires g < 128 && bitpos < 64
    ensures Varint64From([GroupByte(g, more)] + tail, bitpos, acc)
         == var acc' := Or(acc, Shl(g, bitpos, TWO64));
            if more then Varint64From(tail, bitpos + 7, acc') else Got(acc', tail)
  {
    hide Or, Shl;
    assert ([GroupByte(g, more)] + tail)[1..] == tail;
  }

  lemma {:induction false} Read32(g: nat, more: bool, tail: seq<byte>, bitpos: nat, acc: nat)
    requires g < 128
    ensures Varint32From([GroupByte(g, more)] + tail, bitpos, acc)
         == if bitpos >= 32 && g != 0
               && (acc < TWO31 || !(if bitpos < 63 then g == 127 && more else g == 1 && !more))
            then Fail
            else
              var acc' := if bitpos >= 32 then acc else Or(acc, Shl(g, bitpos, TWO32));
              if more then Varint32From(tail, (bitpos + 7) % 256, acc')
              else if (bitpos + 7) % 256 == 35 && g >= 16 then Fail
              else Got(acc', tail)
  {
    hide Or, Shl;
    assert ([GroupByte(g, more)] + tail)[1..] == tail;
  }

  /** The value a group and the groups above it contribute. */
  lemma {:induction false} SplitGroup(v: nat, p: nat)
    ensures v * p == (v % 128) * p + (v / 128) * (128 * p)
  {
    var q, r := v / 128, v % 128;
    Distribute(q, 128, r, p);
  }

  /** Storing a group where there is room for it. */
  lemma {:induction false} StoreGroup(acc: nat, g: nat, bitpos: nat, modulus: nat)
    requires g < 128 && acc < Pow2(bitpos) && g * Pow2(bitpos) < modulus
    ensures Or(acc, Shl(g, bitpos, modulus)) == acc + g * Pow2(bitpos)
    ensures acc + g * Pow2(bitpos) < Pow2(bitpos + 7) == 128 * Pow2(bitpos)
  {
    hide Or, Pow2;
    var p := Pow2(bitpos);
    ModUnique(g * p, 0, modulus, g * p);
    OrDisjoint(acc, bitpos, g);
    NextGroup(bitpos);
    MulLess(g, 128, p);
  }

  lemma {:induction false} NextGroup(bitpos: nat)
    ensures Pow2(bitpos + 7) == 128 * Pow2(bitpos)
  {
    Pow2Add(7, bitpos);
    assert Pow2(7) == 128;
  }

  // ---------- length ----------

  lemma {:induction false} EncodedLength(v: nat, n: nat)
    requires n >= 1 && v < Pow2(7 * n)
    ensures |EncodeVarint(v)| <= n
    decreases n
  {
    if v > 127 {
      assert Pow2(7) == 128;
      NextGroup(7 * (n - 1));
      EncodedLength(v / 128, n - 1);
    }
  }

  lemma {:induction false} EncodedLength64(v: nat)
    requires v < TWO64
    ensures 1 <= |EncodeVarint(v)| <= 10
  {
    Pow2Values();
    Pow2Mono(64, 70);
    EncodedLength(v, 10);
  }

  // ---------- 64-bit reader ----------

  /** The word `acc` with the bits of `v` put above position `k`. */
  function Above(acc: nat, v: nat, k: nat): nat {
    acc + v * Pow2(k)
  }

  /** One turn of the 64-bit reader on the encoding of `v`. */
  lemma {:induction false} Turn64(v: nat, k: nat, acc: nat)
    requires acc < Pow2(k) && Above(acc, v, k) < TWO64
    ensures Or(acc, Shl(v % 128, k, TWO64)) == Above(acc, v % 128, k) < Pow2(k + 7)
    ensures Above(Above(acc, v % 128, k), v / 128, k + 7) == Above(acc, v, k)
    ensures v > 127 ==> k + 7 < 64
  {
    hide Or, Shl, Pow2;
    var p := Pow2(k);
    SplitGroup(v, p);
    NextGroup(k);
    StoreGroup(acc, v % 128, k, TWO64);
    if v > 127 {
      MulLess(0, v / 128, 128 * p);
      Below64(k + 7);
    }
  }

  lemma {:induction false} RoundTrip64From(v: nat, bitpos: nat, acc: nat, rest: seq<byte>)
    requires bitpos < 64 && acc < Pow2(bitpos) && Above(acc, v, bitpos) < TWO64
    ensures Varint64From(EncodeVarint(v) + rest, bitpos, acc) == Got(Above(acc, v, bitpos), rest)
    decreases v
  {
    hide Or, Shl, Above, Pow2, Varint64From, EncodeVarint;
    VarintUnfold(v, rest);
    Read64(v % 128, v > 127, if v > 127 then EncodeVarint(v / 128) + rest else rest, bitpos, acc);
    Turn64(v, bitpos, acc);
    if v > 127 {
      RoundTrip64From(v / 128, bitpos + 7, Above(acc, v % 128, bitpos), rest);
    } else {
      assert v / 128 == 0 && v % 128 == v;
    }
  }

  /** Every 64-bit value is read back by the 64-bit reader, whatever follows it. */
  lemma {:induction false} RoundTrip64(v: nat, rest: seq<byte>)
    requires v < TWO64
    ensures Varint64(EncodeVarint(v) + rest) == Got(v, rest)
  {
    assert Pow2(0) == 1;
    RoundTrip64From(v, 0, 0, rest);
  }

  // ---------- 32-bit reader ----------

  /** The groups from `bitpos` on are all zeros or all ones, up to a final lone 1 in bit 63. */
  predicate SignTail(u: nat, bitpos: nat)
    decreases 63 - bitpos
  {
    if bitpos >= 63 then u == 1
    else (u % 128 == 0 || u % 128 == 127) && SignTail(u / 128, bitpos + 7)
  }

  /** What the 32-bit reader takes among canonical encodings: the 32-bit values, and
      64-bit values that look like a sign-extended negative. Bits 32 to 34 are not looked at. */
  predicate Accepts32(v: nat) {
    v < TWO32 || (v % TWO32 >= TWO31 && SignTail(v / (8 * TWO32), 35))
  }

  lemma {:induction false} SmallAccepted(v: nat)
    requires v < TWO32
    ensures Accepts32(v) && v % TWO32 == v
  {
  }

  lemma {:induction false} SignTailZero(bitpos: nat)
    requires bitpos <= 63
    ensures !SignTail(0, bitpos)
    decreases 63 - bitpos
  {
    if bitpos < 63 && bitpos + 7 <= 63 { SignTailZero(bitpos + 7); }
  }

  lemma {:induction false} TailBound(u: nat, bitpos: nat)
    requires bitpos in {35, 42, 49, 56, 63} && 1 <= u < Pow2(64 - bitpos)
    ensures bitpos == 63 ==> u == 1
    ensures bitpos < 63 ==> u / 128 < Pow2(64 - (bitpos + 7))
  {
    if bitpos == 63 {
      assert Pow2(1) == 2;
    } else {
      NextGroup(64 - (bitpos + 7));
    }
  }

  lemma {:induction false} Tail32(u: nat, bitpos: nat, acc: nat, rest: seq<byte>)
    requires bitpos in {35, 42, 49, 56, 63}
    requires 1 <= u < Pow2(64 - bitpos)
    ensures Varint32From(EncodeVarint(u) + rest, bitpos, acc)
         == if acc >= TWO31 && SignTail(u, bitpos) then Got(acc, rest) else Fail
    decreases u
  {
    hide Or, Shl, Pow2, Varint32From, EncodeVarint;
    VarintUnfold(u, rest);
    Read32(u % 128, u > 127, if u > 127 then EncodeVarint(u / 128) + rest else rest, bitpos, acc);
    TailBound(u, bitpos);
    if bitpos < 63 {
      if u <= 127 {
        SignTailZero(bitpos + 7);
      } else {
        Tail32(u / 128, bitpos + 7, acc, rest);
      }
    }
  }

  /** The word at bit position 28, in numbers. */
  lemma {:induction false} Parts28(v: nat, acc: nat)
    requires acc < 0x1000_0000
    ensures (acc + v * 0x1000_0000) / (8 * TWO32) == v / 128
    ensures v < 16 <==> acc + v * 0x1000_0000 < TWO32
  {
    ModUnique(acc + v * 0x1000_0000, v / 128, 8 * TWO32, acc + (v % 128) * 0x1000_0000);
  }

  lemma {:induction false} Bound29(w: nat)
    requires w < TWO64
    ensures w / (8 * TWO32) < 0x2000_0000
  {
  }

  /** The turn at bit position 28, the last one whose group reaches the word. */
  lemma {:induction false} Turn28(v: nat, acc: nat)
    requires acc < Pow2(28) && Above(acc, v, 28) < TWO64
    ensures Or(acc, Shl(v % 128, 28, TWO32)) == Above(acc, v, 28) % TWO32
    ensures v < 16 <==> Above(acc, v, 28) < TWO32
    ensures Above(acc, v, 28) / (8 * TWO32) == v / 128 < Pow2(29)
  {
    hide Or, Shl, Pow2, Above;
    Pow2Values();
    Pow2Next(28);
    Word28(v, acc);
    Above28(v, acc);
    Parts28(v, acc);
    Bound29(acc + v * 0x1000_0000);
  }

  lemma {:induction false} Above28(v: nat, acc: nat)
    ensures Above(acc, v, 28) == acc + v * 0x1000_0000
  {
    hide Pow2;
    Pow2Values();
  }

  lemma {:induction false} LowBits(v: nat)
    ensures (v % 128) % 16 == v % 16
  {
  }

  lemma {:induction false} Low28(v: nat, acc: nat)
    requires acc < 0x1000_0000
    ensures (acc + v * 0x1000_0000) % TWO32 == acc + (v % 16) * 0x1000_0000
  {
    var q, r := v / 16, v % 16;
    assert v == 16 * q + r;
    ModUnique(acc + v * 0x1000_0000, q, TWO32, acc + r * 0x1000_0000);
  }

  lemma {:induction false} Word28(v: nat, acc: nat)
    requires acc < Pow2(28)
    ensures Or(acc, Shl(v % 128, 28, TWO32)) == Above(acc, v, 28) % TWO32
  {
    hide Or, Shl, Pow2, Above;
    Pow2Values();
    Above28(v, acc);
    Low28(v, acc);
    LowBits(v);
    ShlTruncates(v % 128, 28, 32);
    OrDisjoint(acc, 28, v % 16);
  }

  lemma {:induction false} FifthGroup(v: nat, acc: nat, rest: seq<byte>)
    requires v >= 1 && acc < Pow2(28) && Above(acc, v, 28) < TWO64
    ensures Varint32From(EncodeVarint(v) + rest, 28, acc)
         == if Accepts32(Above(acc, v, 28)) then Got(Above(acc, v, 28) % TWO32, rest) else Fail
  {
    hide Or, Shl, Pow2, Above, SignTail, Varint32From, EncodeVarint;
    VarintUnfold(v, rest);
    Read32(v % 128, v > 127, if v > 127 then EncodeVarint(v / 128) + rest else rest, 28, acc);
    Turn28(v, acc);
    if v <= 127 {
      SignTailZero(35);
    } else {
      Tail32(v / 128, 35, Above(acc, v, 28) % TWO32, rest);
    }
  }

  /** The turns before that. */
  lemma {:induction false} TurnLow(v: nat, k: nat, acc: nat)
    requires k <= 21 && acc < Pow2(k) && Above(acc, v, k) < TWO64
    ensures Or(acc, Shl(v % 128, k, TWO32)) == Above(acc, v % 128, k) < Pow2(k + 7)
    ensures Above(Above(acc, v % 128, k), v / 128, k + 7) == Above(acc, v, k)
    ensures v <= 127 ==> Above(acc, v, k) < TWO32
  {
    hide Or, Shl, Pow2;
    var p := Pow2(k);
    SplitGroup(v, p);
    NextGroup(k);
    Pow2Mono(k + 7, 28);
    Pow2Values();
    MulLess(v % 128, 128, p);
    StoreGroup(acc, v % 128, k, TWO32);
  }

  lemma {:induction false} Head32(v: nat, bitpos: nat, acc: nat, rest: seq<byte>)
    requires bitpos in {7, 14, 21, 28}
    requires v >= 1 && acc < Pow2(bitpos) && Above(acc, v, bitpos) < TWO64
    ensures Varint32From(EncodeVarint(v) + rest, bitpos, acc)
         == if Accepts32(Above(acc, v, bitpos)) then Got(Above(acc, v, bitpos) % TWO32, rest) else Fail
    decreases v
  {
    hide Or, Shl, Pow2, Above, Accepts32, Varint32From, EncodeVarint;
    if bitpos == 28 {
      FifthGroup(v, acc, rest);
    } else {
      VarintUnfold(v, rest);
      Read32(v % 128, v > 127, if v > 127 then EncodeVarint(v / 128) + rest else rest, bitpos, acc);
      TurnLow(v, bitpos, acc);
      if v > 127 {
        Head32(v / 128, bitpos + 7, Above(acc, v % 128, bitpos), rest);
      } else {
        SmallAccepted(Above(acc, v, bitpos));
        assert v % 128 == v;
      }
    }
  }

  /** The 32-bit reader on canonical encodings, exactly. */
  lemma {:induction false} Exact32(v: nat, rest: seq<byte>)
    requires v < TWO64
    ensures Varint32(EncodeVarint(v) + rest)
         == if Accepts32(v) then Got(v % TWO32, rest) else Fail
  {
    hide Or, Shl, Varint32From, EncodeVarint, SignTail, Above;
    VarintUnfold(v, rest);
    if v > 127 {
      var s := [GroupByte(v % 128, true)] + (EncodeVarint(v / 128) + rest);
      assert s[1..] == EncodeVarint(v / 128) + rest;
      TwoGroups(v);
      Head32(v / 128, 7, v % 128, rest);
    } else {
      assert ([GroupByte(v % 128, false)] + rest)[1..] == rest;
    }
  }

  lemma {:induction false} TwoGroups(v: nat)
    ensures Pow2(7) == 128 && Above(v % 128, v / 128, 7) == v
  {
    assert Pow2(7) == 128;
  }

  /** In particular: 32-bit values and sign-extended negative int32 values are taken,
      every value from 2^32 up to 2^63 is refused. */
  lemma {:induction false} Accepts32Ranges(v: nat)
    requires v < TWO64
    ensures v < TWO32 ==> Accepts32(v)
    ensures TWO64 - TWO31 <= v ==> Accepts32(v)
    ensures TWO32 <= v < TWO63 ==> !Accepts32(v)
  {
    var u := v / (8 * TWO32);
    if TWO64 - TWO31 <= v {
      assert u == 0x1FFF_FFFF;
      OnesAreSign();
    } else if v < TWO63 {
      HighBitMissing(u);
    }
  }

  lemma {:induction false} OnesAreSign()
    ensures SignTail(0x1FFF_FFFF, 35)
  {
    assert SignTail(1, 63);
    assert SignTail(255, 56);
    assert SignTail(0x7FFF, 49);
    assert SignTail(0x3F_FFFF, 42);
  }

  lemma {:induction false} HighBitMissing(u: nat)
    requires u < 0x1000_0000
    ensures !SignTail(u, 35)
  {
    var u1, u2, u3 := u / 128, u / 128 / 128, u / 128 / 128 / 128;
    assert !SignTail(u3 / 128, 63);
    assert !SignTail(u3, 56);
    assert !SignTail(u2, 49);
    assert !SignTail(u1, 42);
  }

  lemma {:induction false} RoundTrip32(v: nat, rest: seq<byte>)
    requires v < TWO32
    ensures Varint32(EncodeVarint(v) + rest) == Got(v, rest)
  {
    hide Varint32, EncodeVarint;
    Exact32(v, rest);
  }

  // ---------- agreement of the readers on arbitrary input ----------

  lemma {:induction false} Truncated64(acc: nat, c: nat, k: nat)
    requires k < 64 && acc < Pow2(k)
    ensures Or(acc, Shl(c, k, TWO64)) == Above(acc, c % Pow2(64 - k), k)
  {
    hide Or, Shl;
    Pow2Values();
    ShlTruncates(c, k, 64);
    OrDisjoint(acc, k, c % Pow2(64 - k));
  }

  lemma {:induction false} MulAssoc(a: nat, b: nat, c: nat)
    ensures a * (b * c) == (a * b) * c
  {
  }

  lemma {:induction false} Multiples(acc: nat, h: nat)
    ensures (acc + h * TWO32) % TWO32 == acc % TWO32
  {
    ModUnique(acc + h * TWO32, acc / TWO32 + h, TWO32, acc % TWO32);
  }

  lemma {:induction false} HighGroupInvisible(acc: nat, c: nat, bitpos: nat)
    requires 32 <= bitpos < 64 && acc < Pow2(bitpos)
    ensures Or(acc, Shl(c, bitpos, TWO64)) % TWO32 == acc % TWO32
  {
    hide Or, Shl, Pow2;
    Truncated64(acc, c, bitpos);
    var c' := c % Pow2(64 - bitpos);
    Pow2Values();
    Pow2Add(bitpos - 32, 32);
    MulAssoc(c', Pow2(bitpos - 32), TWO32);
    Multiples(acc, c' * Pow2(bitpos - 32));
  }

  lemma {:induction false} LowGroupVisible(acc: nat, c: nat, bitpos: nat)
    requires bitpos < 32 && acc < Pow2(bitpos) && c < 128
    ensures Or(acc, Shl(c, bitpos, TWO32)) == Or(acc, Shl(c, bitpos, TWO64)) % TWO32
  {
    hide Or, Shl, Pow2;
    Pow2Values();
    var p, w := Pow2(bitpos), Pow2(32 - bitpos);
    Pow2Add(32 - bitpos, bitpos);
    NextGroup(bitpos);
    Pow2Mono(bitpos + 7, 63);
    MulLess(c, 128, p);
    StoreGroup(acc, c, bitpos, TWO64);
    ShlTruncates(c, bitpos, 32);
    OrDisjoint(acc, bitpos, c % w);
    MulLess(c % w, w, p);
    SplitAt(c, w, p);
    ModUnique(acc + c * p, c / w, TWO32, acc + (c % w) * p);
  }

  lemma {:induction false} SplitAt(c: nat, w: nat, p: nat)
    requires w > 0
    ensures c * p == (c / w) * (w * p) + (c % w) * p
  {
    Distribute(c / w, w, c % w, p);
  }

  lemma {:induction false} ModAtMost(c: nat, m: nat)
    requires m > 0
    ensures c % m <= c
  {
    if c < m { ModUnique(c, 0, m, c); }
  }

  lemma {:induction false} AccBound(acc: nat, c: nat, bitpos: nat)
    requires bitpos < 64 && acc < Pow2(bitpos) && c < 128
    ensures Or(acc, Shl(c, bitpos, TWO64)) < Pow2(bitpos + 7)
  {
    hide Or, Shl;
    Truncated64(acc, c, bitpos);
    ModAtMost(c, Pow2(64 - bitpos));
    MulLess(c % Pow2(64 - bitpos), 128, Pow2(bitpos));
    NextGroup(bitpos);
  }

  /** What one turn of both readers does to their words. */
  lemma {:induction false} TurnBoth(acc: nat, c: nat, bitpos: nat)
    requires bitpos < 64 && acc < Pow2(bitpos) && c < 128
    ensures var acc64 := Or(acc, Shl(c, bitpos, TWO64));
      acc64 < Pow2(bitpos + 7) &&
      acc64 % TWO32 == if bitpos >= 32 then acc % TWO32 else Or(acc % TWO32, Shl(c, bitpos, TWO32))
  {
    hide Or, Shl;
    AccBound(acc, c, bitpos);
    if bitpos >= 32 {
      HighGroupInvisible(acc, c, bitpos);
    } else {
      Pow2Mono(bitpos, 31);
      Pow2Values();
      LowGroupVisible(acc, c, bitpos);
    }
  }

  lemma {:induction false} AgreeFrom(s: seq<byte>, bitpos: nat, acc: nat)
    requires bitpos < 77 && acc < Pow2(bitpos)
    requires Varint64From(s, bitpos, acc).Got? && Varint32From(s, bitpos, acc % TWO32).Got?
    ensures Varint32From(s, bitpos, acc % TWO32).rest == Varint64From(s, bitpos, acc).rest
    ensures Varint32From(s, bitpos, acc % TWO32).v == Varint64From(s, bitpos, acc).v % TWO32
    decreases |s|
  {
    hide Or, Shl, Pow2;
    TurnBoth(acc, s[0] % 128, bitpos);
    if s[0] >= 128 {
      AgreeFrom(s[1..], bitpos + 7, Or(acc, Shl(s[0] % 128, bitpos, TWO64)));
    }
  }

  /** Whenever both readers accept an input, canonical or not, they read the same bytes
      and agree modulo 2^32. */
  lemma {:induction false} ReadersAgree(s: seq<byte>)
    requires Varint32(s).Got? && Varint64(s).Got?
    ensures Varint32(s).rest == Varint64(s).rest
    ensures Varint32(s).v == Varint64(s).v % TWO32
  {
    FirstGroup(s[0] % 128);
    if s[0] >= 128 {
      AgreeFrom(s[1..], 7, s[0] % 128);
    }
  }

  lemma {:induction false} FirstGroup(c: nat)
    requires c < 128
    ensures Or(0, Shl(c, 0, TWO64)) == c < Pow2(7) && c % TWO32 == c
  {
    assert Pow2(0) == 1 && Pow2(7) == 128;
  }

  // ---------- the readers look at nothing beyond what they consume ----------

  lemma {:induction false} Local64From(s: seq<byte>, bitpos: nat, acc: nat, t: seq<byte>)
    requires Varint64From(s, bitpos, acc).Got?
    ensures var r := Varint64From(s, bitpos, acc);
      r.rest == s[|s| - |r.rest|..] && Varint64From(s[..|s| - |r.rest|] + t, bitpos, acc) == Got(r.v, t)
    decreases |s|
  {
    hide Or, Shl;
    var r := Varint64From(s, bitpos, acc);
    var s' := s[..|s| - |r.rest|] + t;
    if s[0] >= 128 {
      Local64From(s[1..], bitpos + 7, Or(acc, Shl(s[0] % 128, bitpos, TWO64)), t);
      assert s'[1..] == s[1..][..|s| - 1 - |r.rest|] + t;
    } else {
      assert s'[1..] == t;
    }
  }

  lemma {:induction false} Local64(s: seq<byte>, t: seq<byte>)
    requires Varint64(s).Got?
    ensures var r := Varint64(s);
      r.rest == s[|s| - |r.rest|..] && Varint64(s[..|s| - |r.rest|] + t) == Got(r.v, t)
  {
    Local64From(s, 0, 0, t);
  }

  lemma {:induction false} Local32From(s: seq<byte>, bitpos: nat, acc: nat, t: seq<byte>)
    requires Varint32From(s, bitpos, acc).Got?
    ensures var r := Varint32From(s, bitpos, acc);
      r.rest == s[|s| - |r.rest|..] && Varint32From(s[..|s| - |r.rest|] + t, bitpos, acc) == Got(r.v, t)
    decreases |s|
  {
    hide Or, Shl;
    var r := Varint32From(s, bitpos, acc);
    var s' := s[..|s| - |r.rest|] + t;
    if s[0] >= 128 {
      var acc' := if bitpos >= 32 then acc else Or(acc, Shl(s[0] % 128, bitpos, TWO32));
      Local32From(s[1..], (bitpos + 7) % 256, acc', t);
      assert s'[1..] == s[1..][..|s| - 1 - |r.rest|] + t;
    } else {
      assert s'[1..] == t;
    }
  }

  lemma {:induction false} Local32(s: seq<byte>, t: seq<byte>)
    requires Varint32(s).Got?
    ensures var r := Varint32(s);
      r.rest == s[|s| - |r.rest|..] && Varint32(s[..|s| - |r.rest|] + t) == Got(r.v, t)
  {
    var r := Varint32(s);
    var s' := s[..|s| - |r.rest|] + t;
    if s[0] >= 128 {
      Local32From(s[1..], 7, s[0] % 128, t);
      assert s'[1..] == s[1..][..|s| - 1 - |r.rest|] + t;
    } else {
      assert s'[1..] == t;
    }
  }
}
