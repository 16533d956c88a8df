/** The bitmap of required fields met, kept in two 32-bit words. */
module RequiredBitmap {
  import opened Wire
  import opened VarintLaws
  import opened Descriptor
  import opened Decoding
  import opened FieldIter

  /** The word whose bit `k` says whether `lo + k` is in `s`, for `k` below `n`. */
  ghost function Word(s: set<nat>, lo: nat, n: nat): nat {
    if n == 0 then 0 else Word(s, lo, n - 1) + (if lo + n - 1 in s then Pow2(n - 1) else 0)
  }

  /** The indices, below the limit, of the required entries among `met`. */
  ghost function Seen(fs: seq<Field>, met: set<nat>): set<nat> {
    set i | i in met && i < |fs| && fs[i].rule.Required? && RequiredIndex(fs, i) < PB_MAX_REQUIRED_FIELDS
      :: RequiredIndex(fs, i)
  }

  // ---------- words ----------

  lemma {:induction false} WordBound(s: set<nat>, lo: nat, n: nat)
    ensures Word(s, lo, n) < Pow2(n)
  {
    if n > 0 { WordBound(s, lo, n - 1); }
  }

  /** A word is all ones exactly when every bit is. */
  lemma {:induction false} WordFull(s: set<nat>, lo: nat, n: nat)
    ensures Word(s, lo, n) == Pow2(n) - 1 <==> forall k :: lo <= k < lo + n ==> k in s
  {
    if n > 0 {
      WordBound(s, lo, n - 1);
      WordFull(s, lo, n - 1);
    }
  }

  lemma {:induction false} WordSame(s: set<nat>, t: set<nat>, lo: nat, n: nat)
    requires forall k :: lo <= k < lo + n ==> (k in s <==> k in t)
    ensures Word(s, lo, n) == Word(t, lo, n)
  {
    if n > 0 { WordSame(s, t, lo, n - 1); }
  }

  /** Bits that are not in the set do not show. */
  lemma {:induction false} WordTop(s: set<nat>, lo: nat, n: nat, m: nat)
    requires n <= m && forall k :: lo + n <= k < lo + m ==> k !in s
    ensures Word(s, lo, m) == Word(s, lo, n)
    decreases m
  {
    if n < m { WordTop(s, lo, n, m - 1); }
  }

  /** Or-ing a bit below an existing higher bit. */
  lemma {:induction false} OrBelow(a: nat, b: nat, k: nat)
    requires a < Pow2(k) && b < Pow2(k)
    ensures Or(a, b) < Pow2(k) && Or(a + Pow2(k), b) == Or(a, b) + Pow2(k)
  {
    if k > 0 && (a != 0 || b != 0) {
      OrBelow(a / 2, b / 2, k - 1);
      assert (a + Pow2(k)) / 2 == a / 2 + Pow2(k - 1);
    }
  }

  lemma {:induction false} OrSame(a: nat, k: nat)
    requires a < Pow2(k)
    ensures Or(a + Pow2(k), Pow2(k)) == a + Pow2(k)
  {
    if k > 0 {
      OrSame(a / 2, k - 1);
      assert (a + Pow2(k)) / 2 == a / 2 + Pow2(k - 1);
    }
  }

  lemma {:induction false} Pow2Below(i: nat, n: nat)
    requires i < n
    ensures Pow2(i) < Pow2(n)
    decreases n
  {
    if i + 1 < n { Pow2Below(i, n - 1); }
  }

  /** Setting bit `i` of the word adds the element it stands for. */
  lemma {:induction false} SetBit(s: set<nat>, lo: nat, n: nat, i: nat)
    requires i < n
    ensures Or(Word(s, lo, n), Pow2(i)) == Word(s + {lo + i}, lo, n)
    decreases n
  {
    hide Or, Pow2;
    var t := s + {lo + i};
    WordBound(s, lo, n - 1);
    if i == n - 1 {
      WordSame(s, t, lo, n - 1);
      if lo + i in s {
        OrSame(Word(s, lo, n - 1), n - 1);
      } else {
        OrDisjoint(Word(s, lo, n - 1), n - 1, 1);
      }
    } else {
      SetBit(s, lo, n - 1, i);
      if lo + n - 1 in s {
        Pow2Below(i, n - 1);
        OrBelow(Word(s, lo, n - 1), Pow2(i), n - 1);
      }
    }
  }

  /** `allbits >> (32 - r)` */
  lemma {:induction false} ShiftedOnes(r: nat)
    requires 0 < r < 32
    ensures (TWO32 - 1) / Pow2(32 - r) == Pow2(r) - 1
  {
    hide Pow2;
    Pow2Values();
    Pow2Add(r, 32 - r);
    var p := Pow2(32 - r);
    Distribute(1, Pow2(r) - 1, 1, p);
    MulLess(Pow2(r) - 1, Pow2(r), p);
    ModUnique(TWO32 - 1, Pow2(r) - 1, p, p - 1);
  }

  // ---------- the bitmap and the table ----------

  lemma {:induction false} SeenAdd(fs: seq<Field>, met: set<nat>, i: nat)
    requires i < |fs|
    ensures Seen(fs, met + {i}) ==
      if fs[i].rule.Required? && RequiredIndex(fs, i) < PB_MAX_REQUIRED_FIELDS
      then Seen(fs, met) + {RequiredIndex(fs, i)} else Seen(fs, met)
  {
    hide RequiredIndex;
  }

  /** Every index below the capped number of required fields was seen exactly when every
      one of the first 64 required fields was met. */
  lemma {:induction false} SeenAll(fs: seq<Field>, met: set<nat>, count: nat)
    requires count == (if RequiredIndex(fs, |fs|) < PB_MAX_REQUIRED_FIELDS then RequiredIndex(fs,
        |fs|) else PB_MAX_REQUIRED_FIELDS)
    ensures (forall k :: 0 <= k < count ==> k in Seen(fs, met)) <==> RequiredMet(fs, met)
    ensures forall k :: k in Seen(fs, met) ==> k < count
  {
    forall i | 0 <= i < |fs| && fs[i].rule.Required? ensures RequiredIndex(fs, i) < RequiredIndex(fs, |fs|) {
      RequiredIndexStrict(fs, i, |fs|);
    }
    if forall k :: 0 <= k < count ==> k in Seen(fs, met) {
      forall i | 0 <= i < |fs| && fs[i].rule.Required? && RequiredIndex(fs, i) < PB_MAX_REQUIRED_FIELDS
        ensures i in met
      {
        assert RequiredIndex(fs, i) in Seen(fs, met);
        var j :| j in met && j < |fs| && fs[j].rule.Required? && RequiredIndex(fs, j) == RequiredIndex(fs, i);
        if i < j { RequiredIndexStrict(fs, i, j); }
        if j < i { RequiredIndexStrict(fs, j, i); }
      }
    }
    if RequiredMet(fs, met) {
      forall k | 0 <= k < count ensures k in Seen(fs, met) {
        var i := RequiredIndexOnto(fs, |fs|, k);
      }
    }
  }

  // ---------- the code ----------

  ghost predicate Shows(seen: array<nat>, s: set<nat>)
    reads seen
  {
    seen.Length == 2 && seen[0] == Word(s, 0, 32) && seen[1] == Word(s, 32, 32)
  }

  /** Recording entry number `index` among the required ones. */
  method Mark(seen: array<nat>, index: nat, ghost s: set<nat>)
    requires index < PB_MAX_REQUIRED_FIELDS && Shows(seen, s)
    modifies seen
    ensures Shows(seen, s + {index})
  {
    hide Or, Word;
    var bit := index % 32;
    seen[index / 32] := Or(seen[index / 32], Pow2(bit));
    var lo := 32 * (index / 32);
    assert lo + bit == index && (lo == 0 || lo == 32);
    SetBit(s, lo, 32, bit);
    WordSame(s, s + {index}, 32 - lo, 32);
  }

  /** The final check. The iterator may stand anywhere; it is walked to the end of the table
      to learn the number of required fields, and the words are compared with it. */
  method CheckRequired(iter: Iter, seen: array<nat>, ghost met: set<nat>) returns (ok: bool)
    requires iter.Valid() && Shows(seen, Seen(iter.fields, met))
    modifies iter
    ensures ok <==> RequiredMet(iter.fields, met)
  {
    hide Or, Word, Seen, RequiredMet;
    var fs := iter.fields;
    var count := iter.requiredIndex;
    var lastRequired := fs != [] && fs[iter.pos].rule.Required?;
    var more := iter.Next();
    while more
      invariant iter.Valid() && (more <==> iter.pos > 0)
      invariant fs == [] ==> !more && count == 0
      invariant fs != [] ==> count == RequiredIndex(fs, if more then iter.pos - 1 else |fs| - 1)
      invariant fs != [] ==> lastRequired == fs[if more then iter.pos - 1 else |fs| - 1].rule.Required?
      decreases more, |fs| - iter.pos
    {
      count := iter.requiredIndex;
      lastRequired := fs[iter.pos].rule.Required?;
      more := iter.Next();
    }
    if lastRequired && fs != [] {
      count := count + 1;
    }
    assert count == RequiredIndex(fs, |fs|);
    if count > PB_MAX_REQUIRED_FIELDS {
      count := PB_MAX_REQUIRED_FIELDS;
    }
    SeenAll(fs, met, count);
    ok := WordsComplete(seen, count, Seen(fs, met));
  }

  /** Comparing whole words, then the remaining bits. */
  method WordsComplete(seen: array<nat>, count: nat, ghost s: set<nat>) returns (ok: bool)
    requires count <= PB_MAX_REQUIRED_FIELDS && Shows(seen, s) && forall k :: k in s ==> k < count
    ensures ok <==> forall k :: 0 <= k < count ==> k in s
  {
    hide Or, Word, Pow2;
    Pow2Values();
    WordFull(s, 0, 32);
    WordFull(s, 32, 32);
    var i := 0;
    while i < count / 32
      invariant 0 <= i <= count / 32
      invariant forall k :: 0 <= k < 32 * i ==> k in s
    {
      if seen[i] != TWO32 - 1 {
        return false;
      }
      i := i + 1;
    }
    var r := count % 32;
    if r != 0 {
      ShiftedOnes(r);
      var lo := 32 * (count / 32);
      WordTop(s, lo, r, 32);
      WordFull(s, lo, r);
      if seen[count / 32] != (TWO32 - 1) / Pow2(32 - r) {
        return false;
      }
    }
    return true;
  }
}
