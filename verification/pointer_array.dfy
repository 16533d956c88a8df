/** Dynamically allocated repeated fields: the allocation guard and the growth loop of the
    packed reader. */
module PointerArray {
  import opened Wire
  import opened Descriptor
  import opened Encoding
  import opened Decoding
  import opened InputStream
  import opened Decoder

  // ---------- the allocation guard ----------

  lemma {:induction false} DivisionGuard(a: nat, d: nat, max: nat)
    requires a > 0
    ensures max / a < d <==> a * d > max
  {
    var q, r := max / a, max % a;
    assert max == a * q + r;
    if q < d {
      MulLess(q, d, a);
    } else if d < q {
      MulLess(d, q, a);
    }
  }

  lemma {:induction false} HalfWidths(a: nat, d: nat)
    requires a < TWO32 && d < TWO32
    ensures a * d < SIZE_MOD
  {
    if a > 0 && d > 0 {
      MulLess(a, TWO32, d);
      MulLess(d, TWO32, TWO32);
    }
  }

  /** The checks of allocate_field: the division is skipped when both sizes are below half
      the width of size_t, and the guard is exact all the same. */
  method SizesAllowed(dataSize: nat, arraySize: nat) returns (ok: bool)
    requires dataSize < SIZE_MOD && arraySize < SIZE_MOD
    ensures ok <==> dataSize > 0 && arraySize > 0 && arraySize * dataSize < SIZE_MOD
  {
    if dataSize == 0 || arraySize == 0 {
      return false;
    }
    var checkLimit := TWO32;
    if dataSize >= checkLimit || arraySize >= checkLimit {
      var sizeMax := SIZE_MOD - 1;
      DivisionGuard(arraySize, dataSize, sizeMax);
      if sizeMax / arraySize < dataSize {
        return false;
      }
    } else {
      HalfWidths(arraySize, dataSize);
    }
    return true;
  }

  // ---------- the array ----------

  /** A repeated pointer field: the block its pointer leads to and its `_count`. */
  class Block {
    var cells: seq<Value>
    var count: nat

    ghost predicate Valid()
      reads this
    {
      count <= |cells| <= PB_SIZE_MAX
    }

    ghost function Contents(): seq<Value>
      requires Valid()
      reads this
    {
      cells[..count]
    }

    constructor ()
      ensures Valid() && Contents() == []
    {
      cells, count := [], 0;
    }

    /** allocate_field: the new block keeps the old contents as far as they fit. `grant` says
        which requests, in bytes, pb_realloc satisfies. */
    method Allocate(dataSize: nat, arraySize: nat, grant: nat -> bool) returns (ok: bool)
      requires Valid() && dataSize <= PB_SIZE_MAX && count <= arraySize <= PB_SIZE_MAX
      modifies this`cells
      ensures Valid() && Contents() == old(Contents())
      ensures ok <==> dataSize > 0 && arraySize > 0 && grant(arraySize * dataSize)
      ensures ok ==> |cells| == arraySize
      ensures !ok ==> cells == old(cells)
    {
      ok := SizesAllowed(dataSize, arraySize);
      HalfWidths(arraySize, dataSize);
      if !ok || !grant(arraySize * dataSize) {
        return false;
      }
      cells := seq(arraySize, i requires 0 <= i < arraySize reads this => if i < |cells| then cells[i] else Junk);
    }

    /** An element is stored only inside the block. */
    method StoreAt(k: nat, v: Value)
      requires Valid() && k < |cells|
      modifies this`cells
      ensures Valid() && cells == old(cells)[k := v]
    {
      cells := cells[k := v];
    }
  }

  /** The same field with room for every count. */
  function Unlimited(f: Field): Field {
    f.(arraySize := PB_SIZE_MAX)
  }

  lemma {:induction false} UnlimitedSize(f: Field)
    ensures Unlimited(f).arraySize == PB_SIZE_MAX
  {
  }

  lemma {:induction false} SameScalar(f: Field, s: seq<byte>)
    ensures ReadScalar(Unlimited(f), s) == ReadScalar(f, s)
  {
    hide Varint32, Varint64, Window, FromLittleEndian;
  }

  /** The packed branch of decode_pointer_field. The block grows by a guess of the elements
      that remain; at every point `count <= allocatedSize <= PB_SIZE_MAX`. When memory is granted
      the field ends up with exactly the elements of the window appended. */
  method DecodePackedPointer(s: IStream, f: Field, b: Block, grant: nat -> bool) returns (ok: bool)
    requires s.Valid() && b.Valid() && f.kind.Packable() && 0 < f.dataSize <= PB_SIZE_MAX
    modifies s, b
    ensures s.Valid() && b.Valid()
    ensures var w := Window(old(s.Rest()));
      && (w.Fail? ==> !ok)
      && (w.Got? ==>
            && s.Rest() == w.rest && s.End() == old(s.End())
            && var r := ReadPacked(Unlimited(f), w.v, old(b.Contents()), old(b.count));
              && (ok ==> r == Filled(b.Contents(), b.count))
              && ((forall n :: grant(n)) ==> ok == r.Filled?))
  {
    hide Window, ReadScalar, Store;
    var sub;
    ok, sub := s.MakeSubstream();
    if !ok {
      return;
    }
    ok := Fill(sub, f, b, grant);
    var closed := s.CloseSubstream(sub);
  }

  /** More storage for at least one element. The guess is rounded upwards, and given up near
      the largest count. */
  method Grow(b: Block, f: Field, bytesLeft: nat, allocatedSize: nat, grant: nat -> bool)
    returns (ok: bool, allocatedSize': nat)
    requires b.Valid() && 0 < f.dataSize <= PB_SIZE_MAX && bytesLeft > 0
    requires b.count == allocatedSize < PB_SIZE_MAX
    modifies b`cells
    ensures b.Valid() && b.Contents() == old(b.Contents())
    ensures allocatedSize < allocatedSize' <= PB_SIZE_MAX
    ensures ok ==> |b.cells| == allocatedSize'
    ensures (forall n :: grant(n)) ==> ok
  {
    var remain := (bytesLeft - 1) / f.dataSize + 1;
    if remain < PB_SIZE_MAX - allocatedSize {
      allocatedSize' := allocatedSize + remain;
    } else {
      allocatedSize' := allocatedSize + 1;
    }
    ok := b.Allocate(f.dataSize, allocatedSize', grant);
  }

  /** The growth loop. */
  method Fill(sub: IStream, f: Field, b: Block, grant: nat -> bool) returns (ok: bool)
    requires sub.Valid() && b.Valid() && f.kind.Packable() && 0 < f.dataSize <= PB_SIZE_MAX
    modifies sub, b
    ensures sub.Valid() && b.Valid() && sub.End() == old(sub.End())
    ensures var r := ReadPacked(Unlimited(f), old(sub.Rest()), old(b.Contents()), old(b.count));
      && (ok ==> r == Filled(b.Contents(), b.count))
      && ((forall n :: grant(n)) ==> ok == r.Filled?)
  {
    hide ReadScalar, Unlimited;
    var allocatedSize := b.count;
    assert Unlimited(f).arraySize == PB_SIZE_MAX by { UnlimitedSize(f); }
    while sub.bytesLeft > 0
      invariant sub.Valid() && b.Valid() && sub.End() == old(sub.End())
      invariant b.count <= allocatedSize <= |b.cells| && allocatedSize <= PB_SIZE_MAX
      invariant ReadPacked(Unlimited(f), old(sub.Rest()), old(b.Contents()), old(b.count))
             == ReadPacked(Unlimited(f), sub.Rest(), b.Contents(), b.count)
      decreases sub.bytesLeft
    {
      if b.count == PB_SIZE_MAX {
        return false;
      }
      if b.count + 1 > allocatedSize {
        var granted;
        granted, allocatedSize := Grow(b, f, sub.bytesLeft, allocatedSize, grant);
        if !granted {
          return false;
        }
      }
      ghost var before := b.Contents();
      SameScalar(f, sub.Rest());
      var got, v := DecodeScalar(sub, f);
      if !got {
        return false;
      }
      b.StoreAt(b.count, v);
      b.count := b.count + 1;
      assert b.Contents() == Store(before, |before|, v);
    }
    ok := true;
  }

  /** The unpacked branch: one more element. */
  method DecodeOnePointer(s: IStream, f: Field, b: Block, grant: nat -> bool) returns (ok: bool)
    requires s.Valid() && b.Valid() && f.kind.Packable() && 0 < f.dataSize <= PB_SIZE_MAX
    modifies s, b
    ensures s.Valid() && b.Valid() && s.End() == old(s.End())
    ensures var r := ReadScalar(f, old(s.Rest()));
      && (ok ==> r.Got? && b.Contents() == old(b.Contents()) + [r.v] && s.Rest() == r.rest)
      && ((forall n :: grant(n)) ==> ok == (r.Got? && old(b.count) < 0xFFFF_FFFF))
  {
    hide ReadScalar;
    if b.count == PB_SIZE_MAX {
      return false;
    }
    ok := b.Allocate(f.dataSize, b.count + 1, grant);
    if !ok {
      return;
    }
    ghost var before := b.Contents();
    var k := b.count;
    var v;
    b.count := b.count + 1;
    ok, v := DecodeScalar(s, f);
    if ok {
      b.StoreAt(k, v);
      assert b.Contents() == before + [v];
    }
  }
}
