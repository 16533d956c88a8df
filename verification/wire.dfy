/** Base-128 varints, zig-zag integers and little-endian words of the wire format,
    as nanopb's two varint readers and its one varint writer treat them. */
module Wire {

  type byte = x: int | 0 <= x < 256

  const TWO31 := 0x8000_0000
  const TWO32 := 0x1_0000_0000
  const TWO63 := 0x8000_0000_0000_0000
  const TWO64 := 0x1_0000_0000_0000_0000

  /** The result of a reader: a value and the bytes it left unread. */
  datatype Parse<+T> = Fail | Got(v: T, rest: seq<byte>)

  function Pow2(k: nat): (r: nat)
    ensures r > 0
  {
    if k == 0 then 1 else 2 * Pow2(k - 1)
  }

  /** Bitwise or of two unsigned words. */
  function Or(a: nat, b: nat): nat {
    if a == 0 then b
    else if b == 0 then a
    else 2 * Or(a / 2, b / 2) + (if a % 2 == 1 || b % 2 == 1 then 1 else 0)
  }

  /** `c << k` in an unsigned word with `modulus` values. */
  function Shl(c: nat, k: nat, modulus: nat): nat
    requires modulus > 0
  {
    (c * Pow2(k)) % modulus
  }

  // ---------- writer ----------

  function EncodeVarint(v: nat): (s: seq<byte>)
    ensures |s| >= 1
  {
    if v <= 127 then [v] else [v % 128 + 128] + EncodeVarint(v / 128)
  }

  // ---------- 64-bit reader ----------

  function Varint64From(s: seq<byte>, bitpos: nat, acc: nat): (r: Parse<nat>)
    ensures r.Got? ==> |r.rest| < |s|
    decreases |s|
  {
    if bitpos >= 64 || s == [] then Fail
    else
      var acc' := Or(acc, Shl(s[0] % 128, bitpos, TWO64));
      if s[0] >= 128 then Varint64From(s[1..], bitpos + 7, acc')
      else Got(acc', s[1..])
  }

  function Varint64(s: seq<byte>): (r: Parse<nat>)
    ensures r.Got? ==> |r.rest| < |s|
  {
    Varint64From(s, 0, 0)
  }

  // ---------- 32-bit reader ----------

  /** Whether the reader gives up on a byte met at `bitpos` 32 or later: it tolerates
      zero groups, and all-ones groups once the top bit of the word is set. */
  predicate Overflows(b: byte, bitpos: nat, acc: nat) {
    bitpos >= 32 && b % 128 != 0 && (acc < TWO31 || b != (if bitpos < 63 then 255 else 1))
  }

  /** The loop of the 32-bit reader. `bitpos` is an 8-bit counter and wraps. */
  function Varint32From(s: seq<byte>, bitpos: nat, acc: nat): (r: Parse<nat>)
    ensures r.Got? ==> |r.rest| < |s|
    decreases |s|
  {
    if s == [] || Overflows(s[0], bitpos, acc) then Fail
    else
      var acc' := if bitpos >= 32 then acc else Or(acc, Shl(s[0] % 128, bitpos, TWO32));
      var bitpos' := (bitpos + 7) % 256;
      if s[0] >= 128 then Varint32From(s[1..], bitpos', acc')
      else if bitpos' == 35 && (s[0] / 16) % 8 != 0 then Fail
      else Got(acc', s[1..])
  }

  function Varint32(s: seq<byte>): (r: Parse<nat>)
    ensures r.Got? ==> |r.rest| < |s|
  {
    if s == [] then Fail
    else if s[0] < 128 then Got(s[0], s[1..])
    else Varint32From(s[1..], 7, s[0] % 128)
  }

  // ---------- arithmetic ----------

  lemma {:induction false} Pow2Next(k: nat)
    ensures Pow2(k + 1) == 2 * Pow2(k)
  {
  }

  lemma {:induction false} DoubleProduct(x: nat, y: nat)
    ensures 2 * (x * y) == (2 * x) * y
  {
  }

  lemma {:induction false} Pow2Add(a: nat, b: nat)
    ensures Pow2(a + b) == Pow2(a) * Pow2(b)
  {
    if a == 0 {
      assert Pow2(0) == 1;
    } else {
      hide Pow2;
      Pow2Add(a - 1, b);
      Pow2Next(a - 1);
      Pow2Next(a - 1 + b);
      DoubleProduct(Pow2(a - 1), Pow2(b));
    }
  }

  lemma Pow2Values()
    ensures Pow2(3) == 8 && Pow2(4) == 16 && Pow2(7) == 128
    ensures Pow2(28) == 0x1000_0000 && Pow2(31) == TWO31 && Pow2(32) == TWO32
    ensures Pow2(35) == 8 * TWO32
    ensures Pow2(63) == TWO63 && Pow2(64) == TWO64
  {
    SmallPowers();
    hide Pow2;
    Pow2Add(3, 4);
    Pow2Add(7, 7); Pow2Add(14, 14); Pow2Add(28, 3); Pow2Add(28, 4); Pow2Add(32, 3);
    Pow2Add(32, 32); Pow2Add(32, 31);
  }

  lemma SmallPowers()
    ensures Pow2(3) == 8 && Pow2(4) == 16
  {
  }

  lemma {:induction false} MulLess(a: nat, b: nat, c: nat)
    requires a < b && c > 0
    ensures a * c + c <= b * c
    decreases b
  {
    if a + 1 < b {
      MulLess(a, b - 1, c);
    }
    assert b * c == (b - 1) * c + c;
  }

  /** Or-ing in bits above position `k` of a word that has none there is addition. */
  lemma {:induction false} OrDisjoint(a: nat, k: nat, c: nat)
    requires a < Pow2(k)
    ensures Or(a, c * Pow2(k)) == a + c * Pow2(k)
  {
    if a == 0 || c * Pow2(k) == 0 {
    } else {
      assert k > 0;
      var h := c * Pow2(k - 1);
      assert c * Pow2(k) == 2 * h;
      OrDisjoint(a / 2, k - 1, c);
    }
  }

  lemma {:induction false} ModUnique(x: nat, q: nat, m: nat, r: nat)
    requires m > 0 && x == q * m + r && r < m
    ensures x % m == r && x / m == q
  {
    if x / m < q { MulLess(x / m, q, m); }
    if x / m > q { MulLess(q, x / m, m); }
  }

  lemma {:induction false} Distribute(q: nat, w: nat, r: nat, p: nat)
    ensures (q * w + r) * p == q * (w * p) + r * p
  {
  }

  lemma {:induction false} ScaledMod(c: nat, w: nat, p: nat)
    requires w > 0 && p > 0
    ensures w * p > 0 && (c * p) % (w * p) == (c % w) * p
  {
    var q, r := c / w, c % w;
    Distribute(q, w, r, p);
    MulLess(r, w, p);
    MulLess(0, w, p);
    ModUnique(c * p, q, w * p, r * p);
  }

  /** A truncated shift keeps the low bits of the shifted group. */
  lemma {:induction false} ShlTruncates(c: nat, k: nat, width: nat)
    requires k <= width
    ensures Shl(c, k, Pow2(width)) == (c % Pow2(width - k)) * Pow2(k)
  {
    Pow2Add(width - k, k);
    ScaledMod(c, Pow2(width - k), Pow2(k));
  }
}
