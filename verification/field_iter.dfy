/** The wrapping field iterator. Wherever it is moved, its data pointer and its count of
    required fields are those of a fresh walk from the start of the table. */
module FieldIter {
  import opened Descriptor

  /** sizeof(void*) */
  const POINTER_SIZE := 8

  /** The bytes an entry takes in the structure. */
  function Extent(f: Field): nat {
    if f.atype.Static? && f.rule.Repeated? then f.dataSize * f.arraySize
    else if f.atype.Pointer? then POINTER_SIZE
    else f.dataSize
  }

  /** A further member of the union that the previous entry belongs to. */
  predicate Joined(prev: Field, f: Field) {
    prev.rule.Oneof? && f.rule.Oneof? && f.dataOffset == PB_SIZE_MAX
  }

  /** The data pointer of entry `k`, on a walk from the start. */
  function DataAt(fs: seq<Field>, base: int, k: nat): int
    requires k < |fs|
  {
    if k == 0 then base + fs[0].dataOffset
    else if Joined(fs[k - 1], fs[k]) then DataAt(fs, base, k - 1)
    else DataAt(fs, base, k - 1) + Extent(fs[k - 1]) + fs[k].dataOffset
  }

  /** The pointer to the has, count or which member of entry `k`. */
  function SizeAt(fs: seq<Field>, base: int, k: nat): int
    requires k < |fs|
  {
    if k > 0 && Joined(fs[k - 1], fs[k]) then SizeAt(fs, base, k - 1)
    else DataAt(fs, base, k) + fs[k].sizeOffset
  }

  /** Members of one union share their storage. */
  lemma {:induction false} UnionShares(fs: seq<Field>, base: int, i: nat, j: nat)
    requires i <= j < |fs| && forall k :: i < k <= j ==> Joined(fs[k - 1], fs[k])
    ensures DataAt(fs, base, i) == DataAt(fs, base, j) && SizeAt(fs, base, i) == SizeAt(fs, base, j)
    decreases j
  {
    if i < j { UnionShares(fs, base, i, j - 1); }
  }

  lemma {:induction false} DataGrows(fs: seq<Field>, base: int, i: nat, j: nat)
    requires i <= j < |fs|
    ensures DataAt(fs, base, i) <= DataAt(fs, base, j)
    decreases j
  {
    if i < j { DataGrows(fs, base, i, j - 1); }
  }

  /** Where an entry that starts a new member lies: its data behind the previous entry, which is an
      array of `arraySize` elements, a pointer of eight bytes, or a single value, with the gap the
      table gives; its has, count or which member at the offset the table gives. */
  lemma {:induction false} EntryPlaced(fs: seq<Field>, base: int, k: nat)
    requires k + 1 < |fs| && !Joined(fs[k], fs[k + 1])
    ensures var p, f := fs[k], fs[k + 1];
      var size := if p.atype.Static? && p.rule.Repeated? then p.dataSize * p.arraySize
                  else if p.atype.Pointer? then 8 else p.dataSize;
      && DataAt(fs, base, k + 1) == DataAt(fs, base, k) + size + f.dataOffset
      && SizeAt(fs, base, k + 1) == DataAt(fs, base, k + 1) + f.sizeOffset
  {
  }

  /** Every later entry starts no earlier than the end of an entry, unless that entry is followed
      by a further member of its own union. */
  lemma {:induction false} EntriesInOrder(fs: seq<Field>, base: int, i: nat, j: nat)
    requires i < j < |fs| && !Joined(fs[i], fs[i + 1])
    ensures DataAt(fs, base, i) + Extent(fs[i]) <= DataAt(fs, base, j)
  {
    DataGrows(fs, base, i + 1, j);
  }

  /** So no element of a static array reaches into a later entry. */
  lemma {:induction false} ElementsInside(fs: seq<Field>, base: int, i: nat, j: nat, k: nat)
    requires i < j < |fs| && !Joined(fs[i], fs[i + 1])
    requires fs[i].atype.Static? && fs[i].rule.Repeated? && k < fs[i].arraySize
    ensures DataAt(fs, base, i) + fs[i].dataSize * k + fs[i].dataSize <= DataAt(fs, base, j)
  {
    EntriesInOrder(fs, base, i, j);
    ElementEnd(fs[i].dataSize, k, fs[i].arraySize);
  }

  lemma {:induction false} ElementEnd(size: nat, k: nat, n: nat)
    requires k < n
    ensures size * k + size <= size * n
    decreases n
  {
    if k + 1 < n { ElementEnd(size, k, n - 1); }
    assert size * n == size * (n - 1) + size;
  }

  predicate Matches(f: Field, tag: nat) {
    f.tag == tag && !f.kind.Extension?
  }

  /** Where `pSize` points: into the structure, or at the decoder's counter for arrays
      without a count member. */
  datatype SizeRef = InStruct(offset: int) | LocalCounter

  class Iter {
    const fields: seq<Field>
    const base: int
    var pos: nat
    var pData: int
    var pSize: SizeRef
    var requiredIndex: nat

    /** An empty table leaves the iterator on the terminator. */
    ghost predicate Valid()
      reads this
    {
      if fields == [] then pos == 0 && pData == base && pSize == InStruct(base) && requiredIndex == 0
      else
        && pos < |fields|
        && pData == DataAt(fields, base, pos)
        && requiredIndex == RequiredIndex(fields, pos)
        && (pSize == InStruct(SizeAt(fields, base, pos)) || (pSize.LocalCounter? && fields[pos].FixedCount()))
    }

    /** pb_field_iter_begin */
    constructor (fields: seq<Field>, base: int)
      ensures Valid() && this.fields == fields && this.base == base
      ensures pos == 0 && pSize.InStruct?
    {
      this.fields := fields;
      this.base := base;
      pos := 0;
      requiredIndex := 0;
      var offset := if fields == [] then 0 else fields[0].dataOffset;
      var size := if fields == [] then 0 else fields[0].sizeOffset;
      pData := base + offset;
      pSize := InStruct(base + offset + size);
    }

    method Rewind()
      modifies this
      ensures Valid() && pos == 0 && pSize.InStruct?
    {
      pos := 0;
      requiredIndex := 0;
      if fields == [] {
        pData := base;
        pSize := InStruct(base);
      } else {
        pData := base + fields[0].dataOffset;
        pSize := InStruct(pData + fields[0].sizeOffset);
      }
    }

    /** pb_field_iter_next: false when it wrapped back to the first entry. */
    method Next() returns (more: bool)
      requires Valid()
      modifies this
      ensures Valid()
      ensures more <==> old(pos) + 1 < |fields|
      ensures pos == if more then old(pos) + 1 else 0
      ensures fields != [] ==> pSize.InStruct?
    {
      if fields == [] {
        return false;
      }
      var prev := fields[pos];
      if pos + 1 == |fields| {
        Rewind();
        return false;
      }
      pos := pos + 1;
      var f := fields[pos];
      if prev.rule.Oneof? && f.rule.Oneof? && f.dataOffset == PB_SIZE_MAX {
        return true;
      }
      var prevSize := prev.dataSize;
      if prev.atype.Static? && prev.rule.Repeated? {
        prevSize := prevSize * prev.arraySize;
      } else if prev.atype.Pointer? {
        prevSize := POINTER_SIZE;
      }
      if prev.rule.Required? {
        requiredIndex := requiredIndex + 1;
      }
      pData := pData + prevSize + f.dataOffset;
      pSize := InStruct(pData + f.sizeOffset);
      return true;
    }

    /** pb_field_iter_find: the first match at or after the current entry, cyclically, in at
        most one round. A search for tag 0 succeeds on the terminator of an empty table. */
    method Find(tag: nat) returns (found: bool, ghost steps: nat)
      requires Valid()
      modifies this
      ensures Valid() && steps <= |fields|
      ensures fields == [] ==> (found <==> tag == 0)
      ensures fields != [] ==> (found <==> exists j :: 0 <= j < |fields| && Matches(fields[j], tag))
      ensures found && fields != [] ==> Matches(fields[pos], tag)
      ensures found && old(pos) <= pos ==> forall j :: old(pos) <= j < pos ==> !Matches(fields[j], tag)
      ensures found && pos < old(pos) ==>
        forall j :: 0 <= j < |fields| && (j < pos || old(pos) <= j) ==> !Matches(fields[j], tag)
      ensures !found ==> pos == old(pos)
      ensures pSize.InStruct? || (pSize == old(pSize) && pos == old(pos))
    {
      steps := 0;
      if fields == [] {
        return tag == 0, 0;
      }
      var start := pos;
      if Matches(fields[pos], tag) {
        return true, 0;
      }
      var _ := Next();
      steps := 1;
      while pos != start
        invariant Valid() && 0 < steps <= |fields| && pSize.InStruct?
        invariant pos == if start + steps < |fields| then start + steps else start + steps - |fields|
        invariant start < pos ==> forall j :: start <= j < pos ==> !Matches(fields[j], tag)
        invariant pos <= start ==> forall j :: 0 <= j < |fields| && (j < pos || start <= j) ==> !Matches(fields[j], tag)
        decreases |fields| - steps
      {
        if Matches(fields[pos], tag) {
          return true, steps;
        }
        var _ := Next();
        steps := steps + 1;
      }
      return false, steps;
    }
  }

  // ---------- required fields ----------

  lemma {:induction false} RequiredIndexMono(fs: seq<Field>, i: nat, j: nat)
    requires i <= j <= |fs|
    ensures RequiredIndex(fs, i) <= RequiredIndex(fs, j)
    decreases j
  {
    if i < j { RequiredIndexMono(fs, i, j - 1); }
  }

  /** Distinct required fields have distinct indices below their number. */
  lemma {:induction false} RequiredIndexStrict(fs: seq<Field>, i: nat, j: nat)
    requires i < j <= |fs| && fs[i].rule.Required?
    ensures RequiredIndex(fs, i) < RequiredIndex(fs, j)
  {
    RequiredIndexMono(fs, i + 1, j);
  }

  /** Every number below that is the index of a required field. */
  lemma {:induction false} RequiredIndexOnto(fs: seq<Field>, n: nat, k: nat) returns (i: nat)
    requires n <= |fs| && k < RequiredIndex(fs, n)
    ensures i < n && fs[i].rule.Required? && RequiredIndex(fs, i) == k
    decreases n
  {
    if k < RequiredIndex(fs, n - 1) {
      i := RequiredIndexOnto(fs, n - 1, k);
    } else {
      i := n - 1;
    }
  }
}
