/** Releasing the memory a decoded message owns (the malloc build). */
module Release {
  import opened Descriptor

  /** A cell of a structure: data that owns nothing, an embedded message, or a pointer. */
  datatype Cell = Plain | Struct(slots: seq<Store>) | Ref(target: Target)

  /** What a pointer leads to: nothing, or an allocated block of cells. */
  datatype Target = Null | Block(id: nat, cells: seq<Cell>)

  /** The storage of a field or a union: its count or which member, and its data cells. */
  datatype Store = Store(size: nat, cells: seq<Cell>)

  type Structure = seq<Store>

  predicate Blob(k: Kind) {
    k.Str? || k.Bytes?
  }

  /** The number of elements pb_release_single_field visits. */
  function Count(f: Field, s: Store): nat {
    if !f.rule.Repeated? then 1
    else if f.atype.Static? then
      if f.sizeOffset == 0 || s.size > f.arraySize then f.arraySize else s.size
    else s.size
  }

  /** The field is a member of a union that currently holds another member. */
  predicate Inactive(f: Field, s: Store) {
    f.rule.Oneof? && s.size != f.tag
  }

  // ---------- ownership ----------

  ghost function OwnedByCell(f: Field, c: Cell): multiset<nat>
    decreases f, 0
  {
    if f.kind.Submessage? && c.Struct? then Owned(f.kind.sub, c.slots) else multiset{}
  }

  ghost function OwnedByCells(f: Field, cells: seq<Cell>, n: nat): multiset<nat>
    requires n <= |cells|
    decreases f, 1, n
  {
    if n == 0 then multiset{} else OwnedByCells(f, cells, n - 1) + OwnedByCell(f, cells[n - 1])
  }

  ghost function OwnedByBlob(c: Cell): multiset<nat> {
    if c.Ref? && c.target.Block? then multiset{c.target.id} else multiset{}
  }

  ghost function OwnedByBlobs(cells: seq<Cell>, n: nat): multiset<nat>
    requires n <= |cells|
  {
    if n == 0 then multiset{} else OwnedByBlobs(cells, n - 1) + OwnedByBlob(cells[n - 1])
  }

  /** What the elements behind a pointer or in a static field own. */
  ghost function OwnedInside(f: Field, cells: seq<Cell>, n: nat): multiset<nat>
    requires n <= |cells|
    decreases f, 2
  {
    if f.kind.Submessage? then OwnedByCells(f, cells, n)
    else if f.atype.Pointer? && f.rule.Repeated? && Blob(f.kind) then OwnedByBlobs(cells, n)
    else multiset{}
  }

  /** The blocks the field owns: its own block and those of its elements. */
  ghost function OwnedByField(f: Field, s: Store): multiset<nat>
    requires Fits(f, s)
    decreases f, 3
  {
    if Inactive(f, s) || f.atype.Callback? || f.kind.Extension? then multiset{}
    else if f.atype.Static? then OwnedInside(f, s.cells, Count(f, s))
    else if s.cells[0].target.Null? then multiset{}
    else multiset{s.cells[0].target.id} + OwnedInside(f, s.cells[0].target.cells, Count(f, s))
  }

  ghost function OwnedFrom(d: Desc, m: Structure, i: nat): multiset<nat>
    decreases d, 0, |d.fields| - i
  {
    if i >= |d.fields| then multiset{}
    else
      var f := d.fields[i];
      (if f.slot < |m| && Fits(f, m[f.slot]) then OwnedByField(f, m[f.slot]) else multiset{})
      + OwnedFrom(d, m, i + 1)
  }

  ghost function Owned(d: Desc, m: Structure): multiset<nat>
    decreases d, 1
  {
    OwnedFrom(d, m, 0)
  }

  // ---------- structures that match their table ----------

  /** The cells of the active field are there, and a null array is empty. */
  predicate Fits(f: Field, s: Store) {
    Inactive(f, s) || f.atype.Callback? || f.kind.Extension? ||
    if f.atype.Static? then Count(f, s) <= |s.cells|
    else
      && |s.cells| == 1 && s.cells[0].Ref?
      && (s.cells[0].target.Null? ==> f.rule.Repeated? ==> s.size == 0)
      && (s.cells[0].target.Block? ==> Count(f, s) <= |s.cells[0].target.cells|)
  }

  ghost predicate CellOk(f: Field, c: Cell)
    decreases f, 0
  {
    f.kind.Submessage? ==> c.Struct? && Matches(f.kind.sub, c.slots)
  }

  ghost predicate FieldOk(f: Field, s: Store)
    decreases f, 1
  {
    && Fits(f, s)
    && (Inactive(f, s) || f.atype.Callback? || f.kind.Extension? ||
        if f.atype.Static? then forall k :: 0 <= k < Count(f, s) ==> CellOk(f, s.cells[k])
        else s.cells[0].target.Block? ==>
          forall k :: 0 <= k < Count(f, s) ==> CellOk(f, s.cells[0].target.cells[k]))
  }

  ghost predicate Matches(d: Desc, m: Structure)
    decreases d
  {
    && Layout(d)
    && forall i :: 0 <= i < |d.fields| ==> d.fields[i].slot < |m| && FieldOk(d.fields[i], m[d.fields[i].slot])
  }

  /** Only members of a union share storage, and their tags differ. */
  predicate Layout(d: Desc) {
    forall i, j :: 0 <= i < j < |d.fields| && d.fields[i].slot == d.fields[j].slot
      ==> d.fields[i].rule.Oneof? && d.fields[j].rule.Oneof? && d.fields[i].tag != d.fields[j].tag
  }

  // ---------- the allocator ----------

  class Allocator {
    ghost var live: multiset<nat>

    constructor ()
      ensures live == multiset{}
    {
      live := multiset{};
    }

    /** free(): only a live block may be freed. */
    method Free(id: nat)
      requires id in live
      modifies this
      ensures live + multiset{id} == old(live)
    {
      live := live - multiset{id};
    }

    /** Using memory inside the given blocks: they must be live. */
    ghost method Access(held: multiset<nat>)
      requires held <= live
    {
    }

    /** pb_free of a pointer that may be null. */
    method FreePointer(t: Target)
      requires t.Block? ==> t.id in live
      modifies this
      ensures live + OwnedByBlob(Ref(t)) == old(live)
    {
      if t.Block? {
        Free(t.id);
      }
    }
  }

  // ---------- arithmetic of ownership ----------

  lemma {:induction false} CellsFrame(f: Field, cells: seq<Cell>, cells': seq<Cell>, n: nat)
    requires n <= |cells| && n <= |cells'| && forall k :: 0 <= k < n ==> cells'[k] == cells[k]
    ensures OwnedByCells(f, cells', n) == OwnedByCells(f, cells, n)
    decreases n
  {
    hide OwnedByCell;
    if n > 0 { CellsFrame(f, cells, cells', n - 1); }
  }

  lemma {:induction false} CellsNone(f: Field, cells: seq<Cell>, n: nat)
    requires n <= |cells| && forall k :: 0 <= k < n ==> OwnedByCell(f, cells[k]) == multiset{}
    ensures OwnedByCells(f, cells, n) == multiset{}
    decreases n
  {
    hide OwnedByCell;
    if n > 0 { CellsNone(f, cells, n - 1); }
  }

  lemma {:induction false} BlobsNone(cells: seq<Cell>, n: nat)
    requires n <= |cells| && forall k :: 0 <= k < n ==> OwnedByBlob(cells[k]) == multiset{}
    ensures OwnedByBlobs(cells, n) == multiset{}
    decreases n
  {
    hide OwnedByBlob;
    if n > 0 { BlobsNone(cells, n - 1); }
  }

  lemma {:induction false} FromFrame(d: Desc, m: Structure, m': Structure, i: nat)
    requires |m'| == |m|
    requires forall j :: i <= j < |d.fields| && d.fields[j].slot < |m| ==>
      var f := d.fields[j];
      m'[f.slot] == m[f.slot] || (Inactive(f, m[f.slot]) && Inactive(f, m'[f.slot]))
    ensures OwnedFrom(d, m', i) == OwnedFrom(d, m, i)
    decreases |d.fields| - i
  {
    if i < |d.fields| { FromFrame(d, m, m', i + 1); }
  }

  /** Freeing `x`, one part of what remains to be freed. */
  lemma {:induction false} FreedPart(start: multiset<nat>, live: multiset<nat>, live': multiset<nat>,
                                     held: multiset<nat>, rest: multiset<nat>, x: multiset<nat>, total: multiset<nat>)
    requires live' + x == live && held + (rest + x) <= live && start + (rest + x) == live + total
    ensures held + rest <= live' && start + rest == live' + total
  {
    assert forall e :: live'[e] + x[e] == live[e];
    forall e ensures start[e] + rest[e] == live'[e] + total[e] && held[e] + rest[e] <= live'[e] {
      assert (start + (rest + x))[e] == (live + total)[e];
      assert (held + (rest + x))[e] <= live[e];
    }
  }

  lemma {:induction false} CellsPrefix(f: Field, cells: seq<Cell>, k: nat, n: nat)
    requires k <= n <= |cells|
    ensures OwnedByCells(f, cells, k) <= OwnedByCells(f, cells, n)
    decreases n
  {
    hide OwnedByCell;
    if k < n { CellsPrefix(f, cells, k, n - 1); }
  }

  lemma {:induction false} BlobsPrefix(cells: seq<Cell>, k: nat, n: nat)
    requires k <= n <= |cells|
    ensures OwnedByBlobs(cells, k) <= OwnedByBlobs(cells, n)
    decreases n
  {
    hide OwnedByBlob;
    if k < n { BlobsPrefix(cells, k, n - 1); }
  }

  /** What is held, and what is owned and has not been freed yet, is live. */
  lemma {:induction false} StillLive(held: multiset<nat>, done: multiset<nat>, x: multiset<nat>, total: multiset<nat>,
                                     start: multiset<nat>, live: multiset<nat>)
    requires done + x <= total && held + total <= start && live + done == start
    ensures held + x <= live
  {
    forall e ensures held[e] + x[e] <= live[e] {
      assert (done + x)[e] <= total[e] && (held + total)[e] <= start[e];
      assert (live + done)[e] == start[e];
    }
  }

  lemma {:induction false} NowFreed(done: multiset<nat>, x: multiset<nat>,
                                    start: multiset<nat>, live: multiset<nat>, live': multiset<nat>)
    requires live + done == start && live' + x == live
    ensures live' + (done + x) == start
  {
    forall e ensures live'[e] + done[e] + x[e] == start[e] {
      assert (live' + x)[e] == live[e];
      assert (live + done)[e] == start[e];
    }
  }

  // ---------- the code ----------

  /** The loop over embedded messages or array elements. */
  method ReleaseCells(a: Allocator, ghost held: multiset<nat>, f: Field, cells: seq<Cell>, n: nat)
    returns (cells': seq<Cell>)
    requires f.kind.Submessage? && n <= |cells| && forall k :: 0 <= k < n ==> CellOk(f, cells[k])
    requires held + OwnedByCells(f, cells, n) <= a.live
    modifies a
    ensures a.live + OwnedByCells(f, cells, n) == old(a.live)
    ensures |cells'| == |cells| && OwnedByCells(f, cells', n) == multiset{}
    ensures forall k :: 0 <= k < n ==> CellOk(f, cells'[k])
    decreases f, 0
  {
    hide Matches, Owned;
    cells' := cells;
    var k := 0;
    while k < n
      invariant 0 <= k <= n && |cells'| == |cells|
      invariant forall j :: k <= j < n ==> cells'[j] == cells[j]
      invariant forall j :: 0 <= j < k ==> CellOk(f, cells'[j]) && OwnedByCell(f, cells'[j]) == multiset{}
      invariant a.live + OwnedByCells(f, cells, k) == old(a.live)
    {
      ghost var done, x := OwnedByCells(f, cells, k), OwnedByCell(f, cells[k]);
      assert OwnedByCells(f, cells, k + 1) == done + x;
      ghost var live := a.live;
      CellsPrefix(f, cells, k + 1, n);
      StillLive(held, done, x, OwnedByCells(f, cells, n), old(a.live), live);
      a.Access(held);
      var m := PbRelease(a, held, f.kind.sub, cells'[k].slots);
      cells' := cells'[k := Struct(m)];
      NowFreed(done, x, old(a.live), live, a.live);
      k := k + 1;
    }
    CellsNone(f, cells', n);
  }

  lemma {:induction false} PartOf(rest: multiset<nat>, x: multiset<nat>, live: multiset<nat>)
    requires rest + x <= live
    ensures x <= live
  {
    forall e ensures x[e] <= live[e] { assert (rest + x)[e] <= live[e]; }
  }

  lemma {:induction false} HeldPart(held: multiset<nat>, x: multiset<nat>, live: multiset<nat>)
    requires held + x <= live
    ensures held <= live
  {
    forall e ensures held[e] <= live[e] { assert (held + x)[e] <= live[e]; }
  }

  /** The loop over the entries of a repeated string or bytes field. */
  method ReleaseBlobs(a: Allocator, ghost held: multiset<nat>, cells: seq<Cell>, n: nat) returns (cells': seq<Cell>)
    requires n <= |cells| && held + OwnedByBlobs(cells, n) <= a.live
    modifies a
    ensures a.live + OwnedByBlobs(cells, n) == old(a.live)
    ensures |cells'| == |cells| && OwnedByBlobs(cells', n) == multiset{}
  {
    hide OwnedByBlob, OwnedByBlobs;
    cells' := cells;
    BlobsEmpty(cells);
    var k := 0;
    while k < n
      invariant 0 <= k <= n && |cells'| == |cells|
      invariant forall j :: k <= j < n ==> cells'[j] == cells[j]
      invariant forall j :: 0 <= j < k ==> OwnedByBlob(cells'[j]) == multiset{}
      invariant a.live + OwnedByBlobs(cells, k) == old(a.live)
    {
      ghost var done, x := OwnedByBlobs(cells, k), OwnedByBlob(cells[k]);
      BlobsNext(cells, k);
      ghost var live := a.live;
      BlobsPrefix(cells, k + 1, n);
      StillLive(held, done, x, OwnedByBlobs(cells, n), old(a.live), live);
      a.Access(held);
      PartOf(held, OwnedByBlob(cells[k]), live);
      ReleaseBlob(a, cells[k]);
      BlobTarget(Ref(Null));
      cells' := cells'[k := Ref(Null)];
      NowFreed(done, x, old(a.live), live, a.live);
      k := k + 1;
    }
    BlobsNone(cells', n);
  }

  lemma {:induction false} BlobsEmpty(cells: seq<Cell>)
    ensures OwnedByBlobs(cells, 0) == multiset{}
  {
  }

  lemma {:induction false} BlobsNext(cells: seq<Cell>, k: nat)
    requires k < |cells|
    ensures OwnedByBlobs(cells, k + 1) == OwnedByBlobs(cells, k) + OwnedByBlob(cells[k])
  {
    hide OwnedByBlob;
  }

  method ReleaseBlob(a: Allocator, c: Cell)
    requires OwnedByBlob(c) <= a.live
    modifies a
    ensures a.live + OwnedByBlob(c) == old(a.live)
  {
    if c.Ref? {
      assert c.target.Block? ==> c.target.id in OwnedByBlob(c);
      a.FreePointer(c.target);
    }
  }

  lemma {:induction false} BlobTarget(c: Cell)
    ensures OwnedByBlob(c) == if c.Ref? && c.target.Block? then multiset{c.target.id} else multiset{}
  {
  }

  /** The elements behind a pointer, if they own anything themselves. */
  method ReleaseInside(a: Allocator, ghost held: multiset<nat>, f: Field, cells: seq<Cell>, n: nat)
    returns (cells': seq<Cell>)
    requires n <= |cells| && forall k :: 0 <= k < n ==> CellOk(f, cells[k])
    requires held + OwnedInside(f, cells, n) <= a.live
    modifies a
    ensures a.live + OwnedInside(f, cells, n) == old(a.live)
    ensures |cells'| == |cells| && OwnedInside(f, cells', n) == multiset{}
    ensures forall k :: 0 <= k < n ==> CellOk(f, cells'[k])
    decreases f, 1
  {
    hide Matches, Owned, OwnedByCells, OwnedByBlobs;
    cells' := cells;
    if f.kind.Submessage? {
      cells' := ReleaseCells(a, held, f, cells, n);
    } else if f.atype.Pointer? && f.rule.Repeated? && Blob(f.kind) {
      cells' := ReleaseBlobs(a, held, cells, n);
    }
  }

  /** pb_release_single_field */
  method ReleaseField(a: Allocator, ghost held: multiset<nat>, f: Field, s: Store) returns (s': Store)
    requires FieldOk(f, s) && held + OwnedByField(f, s) <= a.live
    modifies a
    ensures FieldOk(f, s') && OwnedByField(f, s') == multiset{}
    ensures a.live + OwnedByField(f, s) == old(a.live)
    ensures f.rule.Oneof? ==> s'.size == s.size
    ensures Inactive(f, s) ==> s' == s
    decreases f, 2
  {
    hide Matches, OwnedInside, CellOk;
    HeldPart(held, OwnedByField(f, s), a.live);
    a.Access(held);
    s' := s;
    if Inactive(f, s) || f.atype.Callback? || f.kind.Extension? {
      return;
    }
    if f.atype.Static? {
      var cells := ReleaseInside(a, held, f, s.cells, Count(f, s));
      s' := s.(cells := cells);
      return;
    }
    var target := s.cells[0].target;
    if target.Block? {
      ghost var inside := OwnedInside(f, target.cells, Count(f, s));
      ghost var block := held + multiset{target.id};
      assert block + inside == held + (multiset{target.id} + inside);
      var cells := ReleaseInside(a, block, f, target.cells, Count(f, s));
      LeftLive(block, inside, old(a.live), a.live);
      PartOf(held, multiset{target.id}, a.live);
      assert target.id in multiset{target.id};
      a.FreePointer(target);
      assert a.live + multiset{target.id} + inside == a.live + (multiset{target.id} + inside);
    }
    s' := Store(if f.rule.Repeated? then 0 else s.size, [Ref(Null)]);
  }

  lemma {:induction false} LeftLive(rest: multiset<nat>, x: multiset<nat>, live: multiset<nat>, live': multiset<nat>)
    requires rest + x <= live && live' + x == live
    ensures rest <= live'
  {
    forall e ensures rest[e] <= live'[e] {
      assert (rest + x)[e] <= live[e];
      assert (live' + x)[e] == live[e];
    }
  }

  /** What holds of the entries when the loop of pb_release has passed entry `i`. */
  ghost predicate Passed(d: Desc, m: Structure, i: nat) {
    && Matches(d, m)
    && forall j :: 0 <= j < i && j < |d.fields| ==>
         && d.fields[j].slot < |m| && Fits(d.fields[j], m[d.fields[j].slot])
         && OwnedByField(d.fields[j], m[d.fields[j].slot]) == multiset{}
  }

  lemma {:induction false} PassedNext(d: Desc, m: Structure, i: nat, s1: Store)
    requires Passed(d, m, i) && i < |d.fields| && d.fields[i].slot < |m|
    requires var f := d.fields[i];
      && FieldOk(f, s1) && Fits(f, s1) && OwnedByField(f, s1) == multiset{}
      && (f.rule.Oneof? ==> s1.size == m[f.slot].size)
      && (Inactive(f, m[f.slot]) ==> s1 == m[f.slot])
    ensures Passed(d, m[d.fields[i].slot := s1], i + 1)
    ensures OwnedFrom(d, m[d.fields[i].slot := s1], i + 1) == OwnedFrom(d, m, i + 1)
  {
    hide FieldOk, OwnedByField, Fits;
    var f := d.fields[i];
    var m' := m[f.slot := s1];
    forall j | 0 <= j < |d.fields| && j != i
      ensures d.fields[j].slot < |m| && (m'[d.fields[j].slot] == m[d.fields[j].slot]
              || (Inactive(d.fields[j], m[d.fields[j].slot]) && Inactive(d.fields[j], m'[d.fields[j].slot])))
    {
    }
    forall j | 0 <= j < |d.fields|
      ensures d.fields[j].slot < |m'| && FieldOk(d.fields[j], m'[d.fields[j].slot])
      ensures j <= i ==> Fits(d.fields[j], m'[d.fields[j].slot]) && OwnedByField(d.fields[j],
          m'[d.fields[j].slot]) == multiset{}
    {
      if j != i && Inactive(d.fields[j], m'[d.fields[j].slot]) { InactiveOk(d.fields[j], m'[d.fields[j].slot]); }
    }
    FromFrame(d, m, m', i + 1);
  }

  /** pb_release: every block the message owns is freed, each one while it is live, and the
      message owns nothing afterwards. The blocks `held`, in which the message itself lies, must
      be live all along. */
  method PbRelease(a: Allocator, ghost held: multiset<nat>, d: Desc, m: Structure) returns (m': Structure)
    requires Matches(d, m) && held + Owned(d, m) <= a.live
    modifies a
    ensures Matches(d, m') && |m'| == |m|
    ensures Owned(d, m') == multiset{}
    ensures a.live + Owned(d, m) == old(a.live)
    decreases d, 2
  {
    hide FieldOk, OwnedByField, Fits;
    m' := m;
    ghost var total := Owned(d, m);
    var i := 0;
    while i < |d.fields|
      invariant 0 <= i <= |d.fields| && |m'| == |m| && Passed(d, m', i)
      invariant held + OwnedFrom(d, m', i) <= a.live
      invariant old(a.live) + OwnedFrom(d, m', i) == a.live + total
    {
      var f := d.fields[i];
      var s := m'[f.slot];
      FieldFits(f, s);
      ghost var live := a.live;
      ghost var rest, x := OwnedFrom(d, m', i + 1), OwnedByField(f, s);
      assert OwnedFrom(d, m', i) == rest + x;
      HeldRest(held, rest, x, live);
      var s1 := ReleaseField(a, held, f, s);
      FieldFits(f, s1);
      FreedPart(old(a.live), live, a.live, held, rest, x, total);
      PassedNext(d, m', i, s1);
      m' := m'[f.slot := s1];
      i := i + 1;
    }
    NothingOwned(d, m', 0);
  }

  lemma {:induction false} HeldRest(held: multiset<nat>, rest: multiset<nat>, x: multiset<nat>, live: multiset<nat>)
    requires held + (rest + x) <= live
    ensures held + x <= live
  {
    forall e ensures held[e] + x[e] <= live[e] { assert (held + (rest + x))[e] <= live[e]; }
  }

  lemma {:induction false} FieldFits(f: Field, s: Store)
    requires FieldOk(f, s)
    ensures Fits(f, s)
  {
  }

  lemma {:induction false} InactiveOk(f: Field, s: Store)
    requires Inactive(f, s)
    ensures FieldOk(f, s) && Fits(f, s) && OwnedByField(f, s) == multiset{}
  {
  }

  lemma {:induction false} NothingOwned(d: Desc, m: Structure, i: nat)
    requires forall j :: i <= j < |d.fields| ==>
      && d.fields[j].slot < |m| && Fits(d.fields[j], m[d.fields[j].slot])
      && OwnedByField(d.fields[j], m[d.fields[j].slot]) == multiset{}
    ensures OwnedFrom(d, m, i) == multiset{}
    decreases |d.fields| - i
  {
    hide OwnedByField, Fits;
    if i < |d.fields| { NothingOwned(d, m, i + 1); }
  }

  // ---------- releasing twice ----------

  /** A second release frees nothing. */
  method ReleaseTwice(a: Allocator, d: Desc, m: Structure) returns (m': Structure)
    requires Matches(d, m) && Owned(d, m) <= a.live
    modifies a
    ensures a.live + Owned(d, m) == old(a.live) && Owned(d, m') == multiset{}
  {
    hide Matches, Owned;
    m' := PbRelease(a, multiset{}, d, m);
    m' := PbRelease(a, multiset{}, d, m');
  }

  /** The elements of an array field. */
  function Elements(f: Field, s: Store): seq<Cell>
    requires Fits(f, s) && f.rule.Repeated? && !f.atype.Callback? && !f.kind.Extension?
  {
    if f.atype.Static? then s.cells else if s.cells[0].target.Null? then [] else s.cells[0].target.cells
  }

  function WithElement(f: Field, s: Store, k: nat, c: Cell): Store
    requires Fits(f, s) && f.rule.Repeated? && !f.atype.Callback? && !f.kind.Extension? && k < |Elements(f, s)|
  {
    if f.atype.Static? then s.(cells := s.cells[k := c])
    else s.(cells := [Ref(Block(s.cells[0].target.id, s.cells[0].target.cells[k := c]))])
  }

  lemma {:induction false} SwapAdd(a: multiset<nat>, b: multiset<nat>, p: multiset<nat>, q: multiset<nat>,
      x: multiset<nat>)
    requires a + p == b + q
    ensures (a + x) + p == (b + x) + q && (x + a) + p == (x + b) + q
  {
    forall e ensures a[e] + p[e] == b[e] + q[e] { assert (a + p)[e] == (b + q)[e]; }
  }

  lemma {:induction false} CellsReplace(f: Field, cells: seq<Cell>, n: nat, k: nat, c: Cell)
    requires k < n <= |cells|
    ensures OwnedByCells(f, cells[k := c], n) + OwnedByCell(f, cells[k])
         == OwnedByCells(f, cells, n) + OwnedByCell(f, c)
    decreases n
  {
    hide OwnedByCell;
    if k == n - 1 {
      CellsFrame(f, cells, cells[k := c], n - 1);
      SwapAdd(OwnedByCell(f, c), OwnedByCell(f, cells[k]), OwnedByCell(f, cells[k]), OwnedByCell(f, c),
          OwnedByCells(f, cells, n - 1));
    } else {
      CellsReplace(f, cells, n - 1, k, c);
      SwapAdd(OwnedByCells(f, cells[k := c], n - 1), OwnedByCells(f, cells, n - 1),
              OwnedByCell(f, cells[k]), OwnedByCell(f, c), OwnedByCell(f, cells[n - 1]));
    }
  }

  lemma {:induction false} FieldReplace(f: Field, s: Store, k: nat, c: Cell)
    requires FieldOk(f, s) && f.rule.Repeated? && f.kind.Submessage? && !f.atype.Callback?
    requires k < Count(f, s) && k < |Elements(f, s)| && CellOk(f, c)
    ensures FieldOk(f, WithElement(f, s, k, c))
    ensures OwnedByField(f, WithElement(f, s, k, c)) + OwnedByCell(f, Elements(f, s)[k])
         == OwnedByField(f, s) + OwnedByCell(f, c)
  {
    hide CellOk, OwnedByCell, OwnedByCells;
    var cells, n := Elements(f, s), Count(f, s);
    CellsReplace(f, cells, n, k, c);
    if f.atype.Pointer? {
      SwapAdd(OwnedByCells(f, cells[k := c], n), OwnedByCells(f, cells, n),
              OwnedByCell(f, cells[k]), OwnedByCell(f, c), multiset{s.cells[0].target.id});
    }
  }

  lemma {:induction false} FromReplace(d: Desc, m: Structure, j: nat, i: nat, s: Store)
    requires Layout(d) && j <= i < |d.fields| && d.fields[i].slot < |m| && !d.fields[i].rule.Oneof?
    requires Fits(d.fields[i], m[d.fields[i].slot]) && Fits(d.fields[i], s)
    ensures OwnedFrom(d, m[d.fields[i].slot := s], j) + OwnedByField(d.fields[i], m[d.fields[i].slot])
         == OwnedFrom(d, m, j) + OwnedByField(d.fields[i], s)
    decreases i - j
  {
    hide Fits, OwnedByField;
    var f := d.fields[i];
    var m' := m[f.slot := s];
    var p, q := OwnedByField(f, m[f.slot]), OwnedByField(f, s);
    if j == i {
      FromFrame(d, m, m', i + 1);
      SwapAdd(q, p, p, q, OwnedFrom(d, m, i + 1));
    } else {
      FromReplace(d, m, j + 1, i, s);
      var g := d.fields[j];
      var x := if g.slot < |m| && Fits(g, m[g.slot]) then OwnedByField(g, m[g.slot]) else multiset{};
      assert g.slot != f.slot;
      assert OwnedFrom(d, m', j) == x + OwnedFrom(d, m', j + 1);
      SwapAdd(OwnedFrom(d, m', j + 1), OwnedFrom(d, m, j + 1), p, q, x);
    }
  }

  /** An element of a repeated submessage field: the entry of the table and the index. */
  datatype Element = Element(entry: nat, index: nat)

  ghost predicate HasElement(d: Desc, m: Structure, e: Element) {
    && e.entry < |d.fields| && d.fields[e.entry].slot < |m|
    && var f, s := d.fields[e.entry], m[d.fields[e.entry].slot];
       && f.rule.Repeated? && f.kind.Submessage? && !f.atype.Callback? && FieldOk(f, s)
       && e.index < Count(f, s) && e.index < |Elements(f, s)| && CellOk(f, Elements(f, s)[e.index])
  }

  /** Elements inside each other, the outermost first. */
  ghost predicate HasPath(d: Desc, m: Structure, path: seq<Element>)
    decreases |path|
  {
    path == [] ||
    (HasElement(d, m, path[0]) &&
     var f := d.fields[path[0].entry];
     HasPath(f.kind.sub, Elements(f, m[f.slot])[path[0].index].slots, path[1..]))
  }

  /** A failed array element is released by the innermost pb_decode, then the element around it by
      the next one, and so on outwards to the whole message: together they free what the message
      owned, each block once. */
  method ReleaseInnerThenOuter(a: Allocator, d: Desc, m: Structure, path: seq<Element>) returns (m': Structure)
    requires Matches(d, m) && Owned(d, m) <= a.live && HasPath(d, m, path)
    modifies a
    ensures Matches(d, m') && Owned(d, m') == multiset{}
    ensures a.live + Owned(d, m) == old(a.live)
    decreases |path|
  {
    hide Matches, Owned, OwnedFrom;
    if path == [] {
      m' := PbRelease(a, multiset{}, d, m);
      return;
    }
    var i, k := path[0].entry, path[0].index;
    var f, s := d.fields[i], m[d.fields[i].slot];
    var elem := Elements(f, s)[k];
    ghost var inner := Owned(f.kind.sub, elem.slots);
    ghost var live := a.live;
    InnerSplit(d, m, i, k, elem);
    FirstPart(d, m, i, k, elem, live);
    var released := ReleaseInnerThenOuter(a, f.kind.sub, elem.slots, path[1..]);
    var m1 := m[f.slot := WithElement(f, s, k, Struct(released))];
    InnerSplit(d, m, i, k, Struct(released));
    LeftLive(Owned(d, m1), inner, live, a.live);
    m' := PbRelease(a, multiset{}, d, m1);
    assert a.live + Owned(d, m1) + inner == a.live + (Owned(d, m1) + inner);
  }

  lemma {:induction false} FirstPart(d: Desc, m: Structure, i: nat, k: nat, elem: Cell, live: multiset<nat>)
    requires Matches(d, m) && Owned(d, m) <= live && i < |d.fields| && d.fields[i].slot < |m|
    requires var f, s := d.fields[i], m[d.fields[i].slot];
      && f.rule.Repeated? && f.kind.Submessage? && !f.atype.Callback? && FieldOk(f, s)
      && k < Count(f, s) && k < |Elements(f, s)| && Elements(f, s)[k] == elem && CellOk(f, elem)
    ensures Owned(d.fields[i].kind.sub, elem.slots) <= live
  {
    hide OwnedFrom, Matches, FieldOk, Count, OwnedByField;
    var f, s := d.fields[i], m[d.fields[i].slot];
    FieldFits(f, s);
    FieldHolds(f, s, k);
    FromHolds(d, m, 0, i);
    assert OwnedByCell(f, elem) == Owned(f.kind.sub, elem.slots);
  }

  lemma {:induction false} CellsHold(f: Field, cells: seq<Cell>, n: nat, k: nat)
    requires k < n <= |cells|
    ensures OwnedByCell(f, cells[k]) <= OwnedByCells(f, cells, n)
    decreases n
  {
    hide OwnedByCell;
    if k < n - 1 { CellsHold(f, cells, n - 1, k); }
  }

  lemma {:induction false} FieldHolds(f: Field, s: Store, k: nat)
    requires FieldOk(f, s) && f.rule.Repeated? && f.kind.Submessage? && !f.atype.Callback?
    requires k < Count(f, s) && k < |Elements(f, s)|
    ensures OwnedByCell(f, Elements(f, s)[k]) <= OwnedByField(f, s)
  {
    hide OwnedByCell, OwnedByCells, CellOk;
    CellsHold(f, Elements(f, s), Count(f, s), k);
  }

  lemma {:induction false} FromHolds(d: Desc, m: Structure, j: nat, i: nat)
    requires j <= i < |d.fields| && d.fields[i].slot < |m| && Fits(d.fields[i], m[d.fields[i].slot])
    ensures OwnedByField(d.fields[i], m[d.fields[i].slot]) <= OwnedFrom(d, m, j)
    decreases i - j
  {
    hide Fits, OwnedByField;
    if j < i { FromHolds(d, m, j + 1, i); }
  }

  /** Exchanging one element exchanges what it owns. */
  lemma {:induction false} InnerSplit(d: Desc, m: Structure, i: nat, k: nat, c: Cell)
    requires Matches(d, m) && i < |d.fields| && d.fields[i].slot < |m|
    requires var f, s := d.fields[i], m[d.fields[i].slot];
      && f.rule.Repeated? && f.kind.Submessage? && !f.atype.Callback? && FieldOk(f, s)
      && k < Count(f, s) && k < |Elements(f, s)| && CellOk(f, Elements(f, s)[k]) && CellOk(f, c)
    ensures var f, s := d.fields[i], m[d.fields[i].slot];
      var m1 := m[f.slot := WithElement(f, s, k, c)];
      && Matches(d, m1)
      && Owned(d, m1) + Owned(f.kind.sub, Elements(f, s)[k].slots) == Owned(d, m) + Owned(f.kind.sub, c.slots)
  {
    hide FieldOk, OwnedByField, OwnedFrom, Elements, WithElement, Count;
    var f, s := d.fields[i], m[d.fields[i].slot];
    FieldFits(f, s);
    var s1 := WithElement(f, s, k, c);
    FieldReplace(f, s, k, c);
    FieldFits(f, s1);
    FromReplace(d, m, 0, i, s1);
    var m1 := m[f.slot := s1];
    forall j | 0 <= j < |d.fields| ensures d.fields[j].slot < |m1| && FieldOk(d.fields[j], m1[d.fields[j].slot]) {
    }
    Exchange(OwnedFrom(d, m1, 0), OwnedFrom(d, m, 0), OwnedByField(f, s1), OwnedByField(f, s),
             OwnedByCell(f, c), OwnedByCell(f, Elements(f, s)[k]));
  }

  lemma {:induction false} Exchange(all1: multiset<nat>, all: multiset<nat>, field1: multiset<nat>,
      field: multiset<nat>,
                                    cell1: multiset<nat>, cell: multiset<nat>)
    requires all1 + field == all + field1 && field1 + cell == field + cell1
    ensures all1 + cell == all + cell1
  {
    forall e ensures all1[e] + cell[e] == all[e] + cell1[e] {
      assert (all1 + field)[e] == (all + field1)[e];
      assert (field1 + cell)[e] == (field + cell1)[e];
    }
  }

  // ---------- what a message owns, told by its pointers ----------

  /** The elements of a field: all of an array without a count member, otherwise those counted, but
      no more than a static array has. */
  function Length(f: Field, s: Store): nat {
    if !f.rule.Repeated? then 1
    else if f.atype.Pointer? then s.size
    else if f.sizeOffset == 0 then f.arraySize
    else if s.size <= f.arraySize then s.size
    else f.arraySize
  }

  ghost predicate PointsTo(c: Cell, id: nat) {
    c.Ref? && c.target.Block? && c.target.id == id
  }

  ghost predicate CellReaches(f: Field, c: Cell, id: nat)
    decreases f, 0
  {
    f.kind.Submessage? && c.Struct? && Reaches(f.kind.sub, c.slots, id)
  }

  /** The block is pointed to from one of the cells, or reached through a message in one. */
  ghost predicate CellsReach(f: Field, cells: seq<Cell>, n: nat, id: nat)
    requires n <= |cells|
    decreases f, 1
  {
    exists k :: 0 <= k < n &&
      (CellReaches(f, cells[k], id)
       || ((f.kind.Str? || f.kind.Bytes?) && f.atype.Pointer? && f.rule.Repeated? && PointsTo(cells[k], id)))
  }

  ghost predicate FieldReaches(f: Field, s: Store, id: nat)
    decreases f, 2
  {
    && (f.rule.Oneof? ==> s.size == f.tag)
    && !f.kind.Extension?
    && (f.atype.Static? ==> Length(f, s) <= |s.cells| && CellsReach(f, s.cells, Length(f, s), id))
    && (f.atype.Pointer? ==> |s.cells| == 1 && s.cells[0].Ref? && s.cells[0].target.Block?
                             && Length(f, s) <= |s.cells[0].target.cells|
                             && (s.cells[0].target.id == id
                                 || CellsReach(f, s.cells[0].target.cells, Length(f, s), id)))
    && !f.atype.Callback?
  }

  /** The block can be reached from the message along its pointers. */
  ghost predicate Reaches(d: Desc, m: Structure, id: nat)
    decreases d
  {
    exists i :: 0 <= i < |d.fields| && d.fields[i].slot < |m| && FieldReaches(d.fields[i], m[d.fields[i].slot], id)
  }

  lemma {:induction false} CellsOwn(f: Field, cells: seq<Cell>, n: nat, id: nat)
    requires n <= |cells| && f.kind.Submessage? && forall k :: 0 <= k < n ==> CellOk(f, cells[k])
    ensures id in OwnedByCells(f, cells, n) <==> exists k :: 0 <= k < n && CellReaches(f, cells[k], id)
    decreases f, 0, n
  {
    hide Matches, Reaches, Owned;
    if n > 0 {
      CellsOwn(f, cells, n - 1, id);
      OwnedExactly(f.kind.sub, cells[n - 1].slots, id);
    }
  }

  lemma {:induction false} BlobsOwn(cells: seq<Cell>, n: nat, id: nat)
    requires n <= |cells|
    ensures id in OwnedByBlobs(cells, n) <==> exists k :: 0 <= k < n && PointsTo(cells[k], id)
    decreases n
  {
    if n > 0 { BlobsOwn(cells, n - 1, id); }
  }

  lemma {:induction false} InsideOwns(f: Field, cells: seq<Cell>, n: nat, id: nat)
    requires n <= |cells| && forall k :: 0 <= k < n ==> CellOk(f, cells[k])
    ensures id in OwnedInside(f, cells, n) <==> CellsReach(f, cells, n, id)
    decreases f, 1
  {
    hide OwnedByCells, OwnedByBlobs, Reaches, PointsTo;
    if f.kind.Submessage? {
      CellsOwn(f, cells, n, id);
    } else {
      BlobsOwn(cells, n, id);
    }
  }

  lemma {:induction false} FieldOwns(f: Field, s: Store, id: nat)
    requires FieldOk(f, s)
    ensures Fits(f, s) && (id in OwnedByField(f, s) <==> FieldReaches(f, s, id))
    decreases f, 2
  {
    hide OwnedInside, CellsReach, CellOk;
    FieldFits(f, s);
    if !Inactive(f, s) && !f.atype.Callback? && !f.kind.Extension? {
      if f.atype.Static? {
        InsideOwns(f, s.cells, Length(f, s), id);
      } else if s.cells[0].target.Block? {
        InsideOwns(f, s.cells[0].target.cells, Length(f, s), id);
      }
    }
  }

  lemma {:induction false} FromOwns(d: Desc, m: Structure, i: nat, id: nat)
    requires Matches(d, m)
    ensures id in OwnedFrom(d, m, i) <==>
      exists j :: i <= j < |d.fields| && d.fields[j].slot < |m| && FieldReaches(d.fields[j], m[d.fields[j].slot], id)
    decreases d, 0, |d.fields| - i
  {
    hide FieldReaches, OwnedByField, FieldOk, Fits;
    if i < |d.fields| {
      FromOwns(d, m, i + 1, id);
      FieldOwns(d.fields[i], m[d.fields[i].slot], id);
    }
  }

  /** A message owns exactly the blocks that can be reached from it. */
  lemma {:induction false} OwnedExactly(d: Desc, m: Structure, id: nat)
    requires Matches(d, m)
    ensures id in Owned(d, m) <==> Reaches(d, m, id)
    decreases d, 1
  {
    FromOwns(d, m, 0, id);
  }
}
