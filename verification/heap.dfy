/** libuv's intrusive binary min-heap: a pointer tree whose shape is ruled by the number of
    elements. The ghost sequence `nodes` lists the tree level by level; the node at index `k`
    has its children at `2k + 1` and `2k + 2`. */
module Heap {

  class Node<K> {
    const key: K
    var left: Node?<K>
    var right: Node?<K>
    var parent: Node?<K>

    constructor (key: K)
      ensures this.key == key
    {
      this.key := key;
      left, right, parent := null, null, null;
    }
  }

  // ---------- the order ----------

  ghost predicate StrictWeakOrder<K(!new)>(less: (K, K) -> bool) {
    && (forall a :: !less(a, a))
    && (forall a, b, c :: less(a, b) && less(b, c) ==> less(a, c))
    && (forall a, b, c :: less(a, b) ==> less(a, c) || less(c, b))
  }

  function Up(k: nat): nat {
    if k == 0 then 0 else (k - 1) / 2
  }

  predicate InOrder<K>(less: (K, K) -> bool, nodes: seq<Node<K>>, k: nat)
    requires k < |nodes|
  {
    k == 0 || !less(nodes[k].key, nodes[Up(k)].key)
  }

  ghost predicate Ordered<K>(less: (K, K) -> bool, nodes: seq<Node<K>>) {
    forall k :: 0 <= k < |nodes| ==> InOrder(less, nodes, k)
  }

  /** The children of `i` are in order with the parent of `i`. */
  ghost predicate Bridged<K>(less: (K, K) -> bool, nodes: seq<Node<K>>, i: nat) {
    forall k :: 0 < k < |nodes| && Up(k) == i && 0 < i ==> !less(nodes[k].key, nodes[Up(i)].key)
  }

  /** In order but for the node at `i`, which may belong further up. */
  ghost predicate RisingAt<K>(less: (K, K) -> bool, nodes: seq<Node<K>>, i: nat) {
    && i < |nodes| && Bridged(less, nodes, i)
    && forall k :: 0 <= k < |nodes| && k != i ==> InOrder(less, nodes, k)
  }

  /** In order but for the node at `i`, which may belong further up or further down. */
  ghost predicate LooseAt<K>(less: (K, K) -> bool, nodes: seq<Node<K>>, i: nat) {
    && i < |nodes| && Bridged(less, nodes, i)
    && forall k :: 0 < k < |nodes| && k != i && Up(k) != i ==> InOrder(less, nodes, k)
  }

  function Swapped<T>(s: seq<T>, i: nat, j: nat): (r: seq<T>)
    requires i < |s| && j < |s|
    ensures |r| == |s|
  {
    s[i := s[j]][j := s[i]]
  }

  lemma {:induction false} SwapUp<K(!new)>(less: (K, K) -> bool, nodes: seq<Node<K>>, i: nat)
    requires StrictWeakOrder(less) && RisingAt(less, nodes, i) && i > 0
    requires less(nodes[i].key, nodes[Up(i)].key)
    ensures RisingAt(less, Swapped(nodes, Up(i), i), Up(i))
  {
    var p := Up(i);
    var s := Swapped(nodes, p, i);
    forall k | 0 <= k < |s| && k != p ensures InOrder(less, s, k) {
      assert InOrder(less, nodes, k) || k == i;
    }
    forall k | 0 < k < |s| && Up(k) == p && 0 < p ensures !less(s[k].key, s[Up(p)].key) {
      assert InOrder(less, nodes, p);
      assert k == i || InOrder(less, nodes, k);
    }
  }

  lemma {:induction false} SwapDown<K(!new)>(less: (K, K) -> bool, nodes: seq<Node<K>>, i: nat, c: nat)
    requires StrictWeakOrder(less) && LooseAt(less, nodes, i)
    requires 0 < c < |nodes| && Up(c) == i && less(nodes[c].key, nodes[i].key)
    requires forall k :: 0 < k < |nodes| && Up(k) == i ==> !less(nodes[k].key, nodes[c].key)
    ensures LooseAt(less, Swapped(nodes, i, c), c)
  {
    var s := Swapped(nodes, i, c);
    forall k | 0 < k < |s| && k != c && Up(k) != c ensures InOrder(less, s, k) {
      if k != i && Up(k) != i { assert InOrder(less, nodes, k); }
    }
    forall k | 0 < k < |s| && Up(k) == c ensures !less(s[k].key, s[Up(c)].key) {
      assert InOrder(less, nodes, k);
    }
  }

  /** The smaller of two children is in order with both of them. */
  lemma {:induction false} Settled<K(!new)>(less: (K, K) -> bool, nodes: seq<Node<K>>, i: nat)
    requires LooseAt(less, nodes, i)
    requires forall k :: 0 < k < |nodes| && Up(k) == i ==> !less(nodes[k].key, nodes[i].key)
    ensures RisingAt(less, nodes, i)
  {
    forall k | 0 <= k < |nodes| && k != i ensures InOrder(less, nodes, k) {
    }
  }

  lemma {:induction false} Risen<K(!new)>(less: (K, K) -> bool, nodes: seq<Node<K>>, i: nat)
    requires RisingAt(less, nodes, i) && InOrder(less, nodes, i)
    ensures Ordered(less, nodes)
  {
  }

  /** Taking the last node away and putting it in the place of another. */
  lemma {:induction false} Replaced<K(!new)>(less: (K, K) -> bool, nodes: seq<Node<K>>, i: nat)
    requires StrictWeakOrder(less) && Ordered(less, nodes) && i + 1 < |nodes|
    ensures LooseAt(less, nodes[..|nodes| - 1][i := nodes[|nodes| - 1]], i)
  {
    var s := nodes[..|nodes| - 1][i := nodes[|nodes| - 1]];
    forall k | 0 < k < |s| && k != i && Up(k) != i ensures InOrder(less, s, k) {
      assert InOrder(less, nodes, k);
    }
    forall k | 0 < k < |s| && Up(k) == i && 0 < i ensures !less(s[k].key, s[Up(i)].key) {
      assert InOrder(less, nodes, k) && InOrder(less, nodes, i);
    }
  }

  lemma {:induction false} Appended<K(!new)>(less: (K, K) -> bool, nodes: seq<Node<K>>, x: Node<K>)
    requires Ordered(less, nodes)
    ensures RisingAt(less, nodes + [x], |nodes|)
  {
    forall k | 0 <= k < |nodes| ensures InOrder(less, nodes + [x], k) {
      assert InOrder(less, nodes, k);
    }
  }

  lemma {:induction false} Shortened<K(!new)>(less: (K, K) -> bool, nodes: seq<Node<K>>)
    requires Ordered(less, nodes) && nodes != []
    ensures Ordered(less, nodes[..|nodes| - 1])
  {
    var s := nodes[..|nodes| - 1];
    forall k | 0 <= k < |s| ensures InOrder(less, s, k) {
      assert InOrder(less, nodes, k);
    }
  }

  /** The root is a least element. */
  lemma {:induction false} RootIsLeast<K(!new)>(less: (K, K) -> bool, nodes: seq<Node<K>>, k: nat)
    requires StrictWeakOrder(less) && Ordered(less, nodes) && k < |nodes|
    ensures !less(nodes[k].key, nodes[0].key)
    decreases k
  {
    if k > 0 {
      assert InOrder(less, nodes, k);
      RootIsLeast(less, nodes, Up(k));
    }
  }

  // ---------- paths ----------

  /** The slot reached from slot `s` by `k` turns, the first one in the lowest bit of `path`. */
  function Follow(s: nat, path: nat, k: nat): nat
    decreases k
  {
    if k == 0 then s else Follow(2 * s + path % 2, path / 2, k - 1)
  }

  lemma {:induction false} FollowGrows(s: nat, path: nat, k: nat)
    requires s > 0
    ensures Follow(s, path, k) >= s && (k > 0 ==> Follow(s, path, k) >= 2 * s)
    decreases k
  {
    if k > 0 { FollowGrows(2 * s + path % 2, path / 2, k - 1); }
  }

  lemma {:induction false} FollowNone(n: nat)
    ensures Follow(n, 0, 0) == n
  {
  }

  /** Taking the last bit of the slot as the first turn. */
  lemma {:induction false} FollowBit(n: nat, path: nat, k: nat)
    ensures Follow(n / 2, 2 * path + n % 2, k + 1) == Follow(n, path, k)
  {
    assert (2 * path + n % 2) / 2 == path && (2 * path + n % 2) % 2 == n % 2;
  }

  /** The path from the root to slot `n`: its binary digits below the leading one, the most
      significant first. */
  method PathTo(slot: nat) returns (path: nat, k: nat)
    requires slot >= 1
    ensures Follow(1, path, k) == slot
  {
    hide Follow;
    path, k := 0, 0;
    var n := slot;
    FollowNone(n);
    while n >= 2
      invariant n >= 1 && Follow(n, path, k) == slot
    {
      FollowBit(n, path, k);
      path, k, n := 2 * path + n % 2, k + 1, n / 2;
    }
  }

  // ---------- the tree ----------

  /** The node at index `j`, or null beyond the end. */
  function Get<K>(nodes: seq<Node<K>>, j: nat): Node?<K> {
    if j < |nodes| then nodes[j] else null
  }

  ghost predicate LinkedAt<K>(nodes: seq<Node<K>>, k: nat)
    requires k < |nodes|
    reads nodes[k]
  {
    && nodes[k].left == Get(nodes, 2 * k + 1)
    && nodes[k].right == Get(nodes, 2 * k + 2)
    && nodes[k].parent == if k == 0 then null else nodes[Up(k)]
  }

  /** The pointers form the complete binary tree that `nodes` lists. */
  ghost predicate Linked<K>(nodes: seq<Node<K>>)
    reads nodes
  {
    forall k :: 0 <= k < |nodes| ==> LinkedAt(nodes, k)
  }

  predicate Distinct<T(==)>(s: seq<T>) {
    forall i, j :: 0 <= i < j < |s| ==> s[i] != s[j]
  }

  ghost function Members<T>(s: seq<T>): set<T> {
    set x | x in s
  }

  lemma {:induction false} SwapMembers<T>(s: seq<T>, i: nat, j: nat)
    requires i < |s| && j < |s| && i != j
    ensures Members(Swapped(s, i, j)) == Members(s)
    ensures Distinct(s) ==> Distinct(Swapped(s, i, j))
  {
    var r := Swapped(s, i, j);
    forall x ensures x in r <==> x in s {
      if x in s {
        var k :| 0 <= k < |s| && s[k] == x;
        assert r[if k == i then j else if k == j then i else k] == x;
      }
    }
  }

  // ---------- pointer surgery, one field at a time ----------

  /** The pointer fields of the nodes of a list, as sequences. */
  datatype Links<K> = Links(left: seq<Node?<K>>, right: seq<Node?<K>>, parent: seq<Node?<K>>)

  ghost predicate Fields<K>(nodes: seq<Node<K>>, t: Links<K>)
    reads nodes
  {
    && Distinct(nodes) && |t.left| == |t.right| == |t.parent| == |nodes|
    && (forall k :: 0 <= k < |nodes| ==> nodes[k].left == t.left[k])
    && (forall k :: 0 <= k < |nodes| ==> nodes[k].right == t.right[k])
    && (forall k :: 0 <= k < |nodes| ==> nodes[k].parent == t.parent[k])
  }

  /** The pointers of the complete tree. */
  ghost function TreeLinks<K>(nodes: seq<Node<K>>): (t: Links<K>)
    ensures |t.left| == |t.right| == |t.parent| == |nodes|
  {
    Links(seq(|nodes|, k requires 0 <= k => Get(nodes, 2 * k + 1)),
          seq(|nodes|, k requires 0 <= k => Get(nodes, 2 * k + 2)),
          seq(|nodes|, k requires 0 <= k < |nodes| => if k == 0 then null else nodes[Up(k)]))
  }

  lemma {:induction false} LinkedFields<K>(nodes: seq<Node<K>>)
    requires Distinct(nodes)
    ensures Linked(nodes) <==> Fields(nodes, TreeLinks(nodes))
  {
    var t := TreeLinks(nodes);
    if Fields(nodes, t) {
      forall k | 0 <= k < |nodes| ensures LinkedAt(nodes, k) {
      }
    }
    if Linked(nodes) {
      forall k | 0 <= k < |nodes|
        ensures nodes[k].left == t.left[k] && nodes[k].right == t.right[k] && nodes[k].parent == t.parent[k]
      {
        assert LinkedAt(nodes, k);
      }
    }
  }

  method SetLeft<K>(x: Node<K>, v: Node?<K>, ghost k: nat, ghost nodes: seq<Node<K>>, ghost t: Links<K>)
    returns (ghost t': Links<K>)
    requires Fields(nodes, t) && k < |nodes| && nodes[k] == x
    modifies x`left
    ensures t' == t.(left := t.left[k := v]) && Fields(nodes, t') && x.left == v
  {
    x.left := v;
    t' := t.(left := t.left[k := v]);
  }

  method SetRight<K>(x: Node<K>, v: Node?<K>, ghost k: nat, ghost nodes: seq<Node<K>>, ghost t: Links<K>)
    returns (ghost t': Links<K>)
    requires Fields(nodes, t) && k < |nodes| && nodes[k] == x
    modifies x`right
    ensures t' == t.(right := t.right[k := v]) && Fields(nodes, t') && x.right == v
  {
    x.right := v;
    t' := t.(right := t.right[k := v]);
  }

  method SetParent<K>(x: Node<K>, v: Node?<K>, ghost k: nat, ghost nodes: seq<Node<K>>, ghost t: Links<K>)
    returns (ghost t': Links<K>)
    requires Fields(nodes, t) && k < |nodes| && nodes[k] == x
    modifies x`parent
    ensures t' == t.(parent := t.parent[k := v]) && Fields(nodes, t') && x.parent == v
  {
    x.parent := v;
    t' := t.(parent := t.parent[k := v]);
  }

  /** A node that may not exist gets a new parent. */
  method AdoptOne<K>(x: Node?<K>, v: Node?<K>, ghost k: nat, ghost nodes: seq<Node<K>>, ghost t: Links<K>)
    returns (ghost t': Links<K>)
    requires Fields(nodes, t) && x == Get(nodes, k)
    modifies nodes`parent
    ensures t' == Adopt(t, k, v) && Fields(nodes, t')
  {
    t' := t;
    if x != null {
      t' := SetParent(x, v, k, nodes, t);
    }
  }

  // ---------- exchanging two nodes, on the listing ----------

  /** Where the node that ends up at `k` came from. */
  function Origin(k: nat, p: nat, c: nat): nat {
    if k == p then c else if k == c then p else k
  }

  lemma {:induction false} GetSwapped<K>(nodes: seq<Node<K>>, p: nat, c: nat, j: nat)
    requires p < |nodes| && c < |nodes|
    ensures Get(Swapped(nodes, p, c), j) == Get(nodes, Origin(j, p, c))
  {
  }

  function Above<K>(nodes: seq<Node<K>>, k: nat, p: nat, c: nat): Node?<K> {
    if k == 0 then null else Get(nodes, Origin(Up(k), p, c))
  }

  /** What the surgery of heap_node_swap leaves in the nodes, listed in their old order. */
  ghost predicate SwapLinks<K>(nodes: seq<Node<K>>, p: nat, c: nat, t: Links<K>) {
    && p < |nodes| && c < |nodes| && |t.left| == |t.right| == |t.parent| == |nodes|
    && (forall k :: 0 <= k < |nodes| ==> t.left[k] == Get(nodes, Origin(2 * Origin(k, p, c) + 1, p, c)))
    && (forall k :: 0 <= k < |nodes| ==> t.right[k] == Get(nodes, Origin(2 * Origin(k, p, c) + 2, p, c)))
    && (forall k :: 0 <= k < |nodes| ==> t.parent[k] == Above(nodes, Origin(k, p, c), p, c))
  }

  lemma {:induction false} OriginBack<K>(nodes: seq<Node<K>>, p: nat, c: nat, k: nat)
    requires p < |nodes| && c < |nodes| && k < |nodes|
    ensures Origin(k, p, c) < |nodes| && Origin(Origin(k, p, c), p, c) == k
    ensures Swapped(nodes, p, c)[k] == nodes[Origin(k, p, c)]
    ensures Up(k) < |nodes|
  {
  }

  lemma {:induction false} SwapLinkedAt<K>(nodes: seq<Node<K>>, p: nat, c: nat, t: Links<K>, k: nat)
    requires Fields(nodes, t) && SwapLinks(nodes, p, c, t) && k < |nodes|
    ensures LinkedAt(Swapped(nodes, p, c), k)
  {
    hide Distinct, Get, Origin, Up, Swapped;
    var s := Swapped(nodes, p, c);
    var j := Origin(k, p, c);
    OriginBack(nodes, p, c, k);
    GetSwapped(nodes, p, c, 2 * k + 1);
    GetSwapped(nodes, p, c, 2 * k + 2);
    GetSwapped(nodes, p, c, Up(k));
    GetInside(s, Up(k));
    assert nodes[j].left == t.left[j] && nodes[j].right == t.right[j] && nodes[j].parent == t.parent[j];
  }

  /** It is the complete tree with the two nodes exchanged. */
  lemma {:induction false} SwapLinked<K>(nodes: seq<Node<K>>, p: nat, c: nat, t: Links<K>)
    requires Fields(nodes, t) && SwapLinks(nodes, p, c, t)
    ensures Linked(Swapped(nodes, p, c))
  {
    hide Fields, SwapLinks, LinkedAt;
    SwapLinksBounds(nodes, p, c, t);
    forall k | 0 <= k < |nodes| ensures LinkedAt(Swapped(nodes, p, c), k) {
      SwapLinkedAt(nodes, p, c, t, k);
    }
  }

  lemma {:induction false} SwapLinksBounds<K>(nodes: seq<Node<K>>, p: nat, c: nat, t: Links<K>)
    requires SwapLinks(nodes, p, c, t)
    ensures p < |nodes| && c < |nodes|
  {
  }

  lemma {:induction false} GetInside<K>(nodes: seq<Node<K>>, j: nat)
    requires j < |nodes|
    ensures Get(nodes, j) == nodes[j]
  {
  }

  // ---------- the surgery on the listing ----------

  function Adopt<K>(t: Links<K>, k: nat, v: Node?<K>): Links<K> {
    if k < |t.parent| then t.(parent := t.parent[k := v]) else t
  }

  ghost function Exchanged<K>(nodes: seq<Node<K>>, p: nat, c: nat): (t: Links<K>)
    requires p < |nodes| && c < |nodes|
    ensures |t.left| == |t.right| == |t.parent| == |nodes|
  {
    var t0 := TreeLinks(nodes);
    Links(t0.left[p := t0.left[c]][c := if c == 2 * p + 1 then nodes[p] else t0.left[p]],
          t0.right[p := t0.right[c]][c := if c == 2 * p + 1 then t0.right[p] else nodes[p]],
          t0.parent[c := t0.parent[p]][p := nodes[c]])
  }

  lemma {:induction false} ExchangedAtParent<K>(nodes: seq<Node<K>>, p: nat, c: nat)
    requires 0 < c < |nodes| && p == Up(c)
    ensures p < c
    ensures Exchanged(nodes, p, c).left[p] == Get(nodes, 2 * c + 1)
    ensures Exchanged(nodes, p, c).right[p] == Get(nodes, 2 * c + 2)
  {
  }

  /** Where the grandparent keeps the parent. */
  lemma {:induction false} AdoptedAtGrandparent<K>(nodes: seq<Node<K>>, p: nat, c: nat)
    requires Distinct(nodes) && 0 < c < |nodes| && p == Up(c) && 0 < p
    ensures Up(p) < p < c && (Adopted(nodes, p, c).left[Up(p)] == nodes[p] <==> p == 2 * Up(p) + 1)
  {
    hide Adopted;
    assert Adopted(nodes, p, c).left == Exchanged(nodes, p, c).left;
  }

  function Sibling(p: nat, c: nat): nat {
    if c == 2 * p + 1 then 2 * p + 2 else 2 * p + 1
  }

  ghost function Adopted<K>(nodes: seq<Node<K>>, p: nat, c: nat): (t: Links<K>)
    requires p < |nodes| && c < |nodes|
    ensures |t.left| == |t.right| == |t.parent| == |nodes|
    ensures t.left == Exchanged(nodes, p, c).left && t.right == Exchanged(nodes, p, c).right
  {
    Adopt(Adopt(Adopt(Exchanged(nodes, p, c), Sibling(p, c), nodes[c]), 2 * c + 1, nodes[p]), 2 * c + 2, nodes[p])
  }

  ghost function Rehung<K>(nodes: seq<Node<K>>, p: nat, c: nat): (t: Links<K>)
    requires p < |nodes| && c < |nodes|
    ensures |t.left| == |t.right| == |t.parent| == |nodes|
  {
    var t := Adopted(nodes, p, c);
    if p == 0 then t
    else if p == 2 * Up(p) + 1 then t.(left := t.left[Up(p) := nodes[c]])
    else t.(right := t.right[Up(p) := nodes[c]])
  }

  lemma {:induction false} RehungLeft<K>(nodes: seq<Node<K>>, p: nat, c: nat, k: nat)
    requires 0 < c < |nodes| && p == Up(c) && k < |nodes|
    ensures Rehung(nodes, p, c).left[k] == Get(nodes, Origin(2 * Origin(k, p, c) + 1, p, c))
  {
  }

  lemma {:induction false} RehungRight<K>(nodes: seq<Node<K>>, p: nat, c: nat, k: nat)
    requires 0 < c < |nodes| && p == Up(c) && k < |nodes|
    ensures Rehung(nodes, p, c).right[k] == Get(nodes, Origin(2 * Origin(k, p, c) + 2, p, c))
  {
  }

  lemma {:induction false} AdoptAt<K>(t: Links<K>, j: nat, v: Node?<K>, k: nat)
    requires k < |t.parent|
    ensures |Adopt(t, j, v).parent| == |t.parent|
    ensures Adopt(t, j, v).parent[k] == if k == j then v else t.parent[k]
  {
  }

  lemma {:induction false} AdoptedParent<K>(nodes: seq<Node<K>>, p: nat, c: nat, k: nat)
    requires 0 < c < |nodes| && p == Up(c) && k < |nodes|
    ensures Rehung(nodes, p, c).parent[k] ==
      (if k == 2 * c + 1 || k == 2 * c + 2 then nodes[p]
       else if k == Sibling(p, c) then nodes[c]
       else Exchanged(nodes, p, c).parent[k])
  {
    hide Adopt, Exchanged;
    var t1 := Exchanged(nodes, p, c);
    var t2 := Adopt(t1, Sibling(p, c), nodes[c]);
    AdoptAt(t1, Sibling(p, c), nodes[c], k);
    var t3 := Adopt(t2, 2 * c + 1, nodes[p]);
    AdoptAt(t2, 2 * c + 1, nodes[p], k);
    AdoptAt(t3, 2 * c + 2, nodes[p], k);
  }

  /** Which entries have `p` or `c` for their parent. */
  lemma {:induction false} ChildrenOf(p: nat, c: nat, k: nat)
    requires 0 < c && p == Up(c)
    ensures k > 0 && k != c ==> (Up(k) == p <==> k == Sibling(p, c))
    ensures k > 0 ==> (Up(k) == c <==> k == 2 * c + 1 || k == 2 * c + 2)
    ensures p < c && (p > 0 ==> Up(p) < p) && Sibling(p, c) != p && Sibling(p, c) != c && 0 < Sibling(p, c) < 2 * c + 1
  {
  }

  lemma {:induction false} RehungParent<K>(nodes: seq<Node<K>>, p: nat, c: nat, k: nat)
    requires 0 < c < |nodes| && p == Up(c) && k < |nodes|
    ensures Rehung(nodes, p, c).parent[k] == Above(nodes, Origin(k, p, c), p, c)
  {
    hide Rehung, Up, Sibling;
    AdoptedParent(nodes, p, c, k);
    ChildrenOf(p, c, k);
    ChildrenOf(p, c, p);
    OriginBack(nodes, p, c, k);
    OriginBack(nodes, p, c, p);
    assert TreeLinks(nodes).parent[k] == if k == 0 then null else nodes[Up(k)];
    assert TreeLinks(nodes).parent[p] == if p == 0 then null else nodes[Up(p)];
  }

  lemma {:induction false} RehungIsSwap<K>(nodes: seq<Node<K>>, p: nat, c: nat)
    requires 0 < c < |nodes| && p == Up(c)
    ensures SwapLinks(nodes, p, c, Rehung(nodes, p, c))
  {
    hide Rehung, Get, Origin, Above;
    var t := Rehung(nodes, p, c);
    forall k | 0 <= k < |nodes|
      ensures t.left[k] == Get(nodes, Origin(2 * Origin(k, p, c) + 1, p, c))
      ensures t.right[k] == Get(nodes, Origin(2 * Origin(k, p, c) + 2, p, c))
      ensures t.parent[k] == Above(nodes, Origin(k, p, c), p, c)
    {
      RehungLeft(nodes, p, c, k);
      RehungRight(nodes, p, c, k);
      RehungParent(nodes, p, c, k);
    }
  }

  // ---------- locations ----------

  /** A pointer to a pointer of the tree. */
  datatype Loc<K> = MinLoc | LeftOf(n: Node<K>) | RightOf(n: Node<K>)

  /** The pointer that leads, or would lead, to the node at index `j`. */
  function LocOf<K>(nodes: seq<Node<K>>, j: nat): Loc<K>
    requires j == 0 || Up(j) < |nodes|
  {
    if j == 0 then MinLoc
    else if j == 2 * Up(j) + 1 then LeftOf(nodes[Up(j)])
    else RightOf(nodes[Up(j)])
  }

  // ---------- a node at the end of the listing ----------

  ghost function Extended<K>(nodes: seq<Node<K>>): (t: Links<K>)
    ensures |t.left| == |t.right| == |t.parent| == |nodes| + 1
  {
    var t := TreeLinks(nodes);
    Links(t.left + [null], t.right + [null], t.parent + [null])
  }

  lemma {:induction false} ExtendedFields<K>(nodes: seq<Node<K>>, x: Node<K>)
    requires Fields(nodes, TreeLinks(nodes)) && x !in nodes && x.left == null && x.right == null && x.parent == null
    ensures Fields(nodes + [x], Extended(nodes))
  {
    var s, t := nodes + [x], Extended(nodes);
    forall i, j | 0 <= i < j < |s| ensures s[i] != s[j] {
    }
  }

  /** Hanging it under its parent completes the tree. */
  ghost function Hung<K>(nodes: seq<Node<K>>, x: Node<K>): (t: Links<K>)
    ensures |t.left| == |t.right| == |t.parent| == |nodes| + 1
  {
    var n, t := |nodes|, Extended(nodes);
    if n == 0 then t
    else if n == 2 * Up(n) + 1 then Links(t.left[Up(n) := x], t.right, t.parent[n := nodes[Up(n)]])
    else Links(t.left, t.right[Up(n) := x], t.parent[n := nodes[Up(n)]])
  }

  lemma {:induction false} HungIsTree<K>(nodes: seq<Node<K>>, x: Node<K>)
    ensures Hung(nodes, x) == TreeLinks(nodes + [x])
  {
    var t, u := Hung(nodes, x), TreeLinks(nodes + [x]);
    forall k | 0 <= k <= |nodes|
      ensures t.left[k] == u.left[k] && t.right[k] == u.right[k] && t.parent[k] == u.parent[k]
    {
    }
    assert t.left == u.left && t.right == u.right && t.parent == u.parent;
  }

  // ---------- the last node in the place of another ----------

  /** The listing after the last node took the place of the node at `i`. */
  function Moved<T>(s: seq<T>, i: nat): (r: seq<T>)
    requires i + 1 < |s|
    ensures |r| == |s| - 1
  {
    s[..|s| - 1][i := s[|s| - 1]]
  }

  /** The pointers once the last node is unlinked. */
  ghost function Unlinked<K>(nodes: seq<Node<K>>): (t: Links<K>)
    requires |nodes| > 1
    ensures |t.left| == |t.right| == |t.parent| == |nodes|
  {
    var t, g := TreeLinks(nodes), Up(|nodes| - 1);
    if |nodes| - 1 == 2 * g + 1 then t.(left := t.left[g := null]) else t.(right := t.right[g := null])
  }

  /** ... it has taken over the pointers of the node at `i` ... */
  ghost function TakenOver<K>(nodes: seq<Node<K>>, i: nat): (t: Links<K>)
    requires i + 1 < |nodes|
    ensures |t.left| == |t.right| == |t.parent| == |nodes|
  {
    var t, m := Unlinked(nodes), |nodes| - 1;
    Links(t.left[m := t.left[i]], t.right[m := t.right[i]], t.parent[m := t.parent[i]])
  }

  /** ... the children know it, as far as they are left ... */
  ghost function Raised<K>(nodes: seq<Node<K>>, i: nat): (t: Links<K>)
    requires i + 1 < |nodes|
    ensures |t.left| == |t.right| == |t.parent| == |nodes|
    ensures t.left == TakenOver(nodes, i).left && t.right == TakenOver(nodes, i).right
  {
    var t, m := TakenOver(nodes, i), |nodes| - 1;
    var t' := if 2 * i + 1 < m then Adopt(t, 2 * i + 1, nodes[m]) else t;
    if 2 * i + 2 < m then Adopt(t', 2 * i + 2, nodes[m]) else t'
  }

  /** ... and so does the parent. */
  ghost function MovedLinks<K>(nodes: seq<Node<K>>, i: nat): (t: Links<K>)
    requires i + 1 < |nodes|
    ensures |t.left| == |t.right| == |t.parent| == |nodes|
  {
    var t, m := Raised(nodes, i), |nodes| - 1;
    if i == 0 then t
    else if i == 2 * Up(i) + 1 then t.(left := t.left[Up(i) := nodes[m]])
    else t.(right := t.right[Up(i) := nodes[m]])
  }

  lemma {:induction false} MovedLeft<K>(nodes: seq<Node<K>>, i: nat, k: nat)
    requires i + 1 < |nodes| && k < |nodes| - 1
    ensures MovedLinks(nodes, i).left[if k == i then |nodes| - 1 else k] == Get(Moved(nodes, i), 2 * k + 1)
  {
  }

  lemma {:induction false} MovedRight<K>(nodes: seq<Node<K>>, i: nat, k: nat)
    requires i + 1 < |nodes| && k < |nodes| - 1
    ensures MovedLinks(nodes, i).right[if k == i then |nodes| - 1 else k] == Get(Moved(nodes, i), 2 * k + 2)
  {
  }

  lemma {:induction false} MovedParent<K>(nodes: seq<Node<K>>, i: nat, k: nat)
    requires i + 1 < |nodes| && k < |nodes| - 1
    ensures MovedLinks(nodes, i).parent[if k == i then |nodes| - 1 else k]
         == if k == 0 then null else Moved(nodes, i)[Up(k)]
  {
    hide TakenOver;
    var t, m := TakenOver(nodes, i), |nodes| - 1;
    var j := if k == i then m else k;
    AdoptAt(t, 2 * i + 1, nodes[m], j);
    var t' := if 2 * i + 1 < m then Adopt(t, 2 * i + 1, nodes[m]) else t;
    AdoptAt(t', 2 * i + 2, nodes[m], j);
    TakenOverParent(nodes, i, j);
    ChildrenOfOne(i, k);
  }

  lemma {:induction false} TakenOverParent<K>(nodes: seq<Node<K>>, i: nat, j: nat)
    requires i + 1 < |nodes| && j < |nodes|
    ensures TakenOver(nodes, i).parent[j] == var k := if j == |nodes| - 1 then i else j;
        if k == 0 then null else nodes[Up(k)]
  {
  }

  lemma {:induction false} ChildrenOfOne(i: nat, k: nat)
    ensures k > 0 ==> (Up(k) == i <==> k == 2 * i + 1 || k == 2 * i + 2)
  {
  }

  lemma {:induction false} MovedLinked<K>(nodes: seq<Node<K>>, i: nat)
    requires i + 1 < |nodes| && Fields(nodes, MovedLinks(nodes, i))
    ensures Linked(Moved(nodes, i))
  {
    hide MovedLinks, Distinct, Get, Up;
    var s, t := Moved(nodes, i), MovedLinks(nodes, i);
    forall k | 0 <= k < |s| ensures LinkedAt(s, k) {
      MovedLeft(nodes, i, k);
      MovedRight(nodes, i, k);
      MovedParent(nodes, i, k);
      var j := if k == i then |nodes| - 1 else k;
      assert s[k] == nodes[j];
      assert nodes[j].left == t.left[j] && nodes[j].right == t.right[j] && nodes[j].parent == t.parent[j];
    }
  }

  lemma {:induction false} MovedMembers<T>(s: seq<T>, i: nat)
    requires Distinct(s) && i + 1 < |s|
    ensures Members(Moved(s, i)) == Members(s) - {s[i]} && Distinct(Moved(s, i))
  {
    var r := Moved(s, i);
    forall x ensures x in r <==> x in s && x != s[i] {
      if x in s && x != s[i] {
        var k :| 0 <= k < |s| && s[k] == x;
        assert r[if k == |s| - 1 then i else k] == x;
      }
    }
  }

  class Tree<K(!new)> {
    var min: Node?<K>
    var nelts: nat
    ghost var nodes: seq<Node<K>>

    ghost predicate Shaped()
      reads this, nodes
    {
      && nelts == |nodes|
      && min == Get(nodes, 0)
      && Distinct(nodes)
      && Linked(nodes)
    }

    ghost predicate Valid(less: (K, K) -> bool)
      reads this, nodes
    {
      Shaped() && Ordered(less, nodes)
    }

    /** heap_init */
    constructor ()
      ensures Shaped() && nodes == []
    {
      min, nelts, nodes := null, 0, [];
    }

    /** The first half of heap_node_swap: the contents of the two nodes change places, and
        the child adopts the parent. */
    method ExchangeFields(parent: Node<K>, child: Node<K>, ghost p: nat, ghost c: nat, ghost t0: Links<K>)
      returns (sibling: Node?<K>, ghost t: Links<K>)
      requires Fields(nodes, t0) && p < |nodes| && c < |nodes| && p != c
      requires nodes[p] == parent && nodes[c] == child && (t0.left[p] == child || t0.right[p] == child)
      modifies parent, child
      ensures Fields(nodes, t)
      ensures var isLeft := t0.left[p] == child;
        && t.left == t0.left[p := t0.left[c]][c := if isLeft then parent else t0.left[p]]
        && t.right == t0.right[p := t0.right[c]][c := if isLeft then t0.right[p] else parent]
        && t.parent == t0.parent[c := t0.parent[p]][p := child]
        && sibling == if isLeft then t0.right[p] else t0.left[p]
    {
      hide Fields;
      FieldsOf(nodes, t0, p);
      FieldsOf(nodes, t0, c);
      var left, right, up := parent.left, parent.right, parent.parent;
      t := SetLeft(parent, child.left, p, nodes, t0);
      t := SetRight(parent, child.right, p, nodes, t);
      t := SetLeft(child, left, c, nodes, t);
      t := SetRight(child, right, c, nodes, t);
      t := SetParent(child, up, c, nodes, t);
      t := SetParent(parent, child, p, nodes, t);
      if child.left == child {
        t := SetLeft(child, parent, c, nodes, t);
        sibling := child.right;
      } else {
        t := SetRight(child, parent, c, nodes, t);
        sibling := child.left;
      }
    }

    /** heap_node_swap: parent and child change places, and nothing else moves. */
    method Swap(parent: Node<K>, child: Node<K>, ghost p: nat, ghost c: nat)
      requires Shaped() && 0 < c < |nodes| && p == Up(c)
      requires nodes[p] == parent && nodes[c] == child
      modifies this, Members(nodes)
      ensures Shaped() && nodes == Swapped(old(nodes), p, c) && nelts == old(nelts)
    {
      hide Fields, Linked, SwapLinks, Distinct;
      LinkedFields(nodes);
      SwapMembers(nodes, p, c);
      ghost var s := Swapped(nodes, p, c);
      ghost var t0 := TreeLinks(nodes);
      ChildLink(nodes, p, c);
      ghost var t;
      var sibling;
      sibling, t := ExchangeFields(parent, child, p, c, t0);
      assert t == Exchanged(nodes, p, c);
      t := AdoptChildren(parent, child, sibling, p, c, t);
      Rehang(parent, child, p, c, t);
      RehungIsSwap(nodes, p, c);
      SwapLinked(nodes, p, c, Rehung(nodes, p, c));
      nodes := s;
    }

    /** The middle part: sibling and grandchildren learn their new parent. */
    method AdoptChildren(parent: Node<K>, child: Node<K>, sibling: Node?<K>, ghost p: nat, ghost c: nat,
        ghost t0: Links<K>)
      returns (ghost t: Links<K>)
      requires Fields(nodes, t0) && 0 < c < |nodes| && p == Up(c) && nodes[p] == parent && nodes[c] == child
      requires t0 == Exchanged(nodes, p, c) && sibling == Get(nodes, Sibling(p, c))
      modifies nodes
      ensures t == Adopted(nodes, p, c) && Fields(nodes, t)
    {
      hide Fields, Distinct, Exchanged, Sibling, Get, Up;
      ExchangedAtParent(nodes, p, c);
      FieldsOf(nodes, t0, p);
      t := AdoptOne(sibling, child, Sibling(p, c), nodes, t0);
      t := AdoptOne(parent.left, parent, 2 * c + 1, nodes, t);
      t := AdoptOne(parent.right, parent, 2 * c + 2, nodes, t);
    }

    /** The last part: the grandparent, or the heap, gets the child. */
    method Rehang(parent: Node<K>, child: Node<K>, ghost p: nat, ghost c: nat, ghost t: Links<K>)
      requires Fields(nodes, t) && 0 < c < |nodes| && p == Up(c) && nodes[p] == parent && nodes[c] == child
      requires t == Adopted(nodes, p, c)
      modifies this`min, nodes
      ensures Fields(nodes, Rehung(nodes, p, c))
      ensures min == if p == 0 then child else old(min)
    {
      hide Fields, Adopted, Above, Origin;
      FieldsOf(nodes, t, c);
      ghost var g := Up(p);
      AdoptedAtChild(nodes, p, c);
      if child.parent == null {
        min := child;
      } else {
        FieldsDistinct(nodes, t);
        AdoptedAtGrandparent(nodes, p, c);
        FieldsOf(nodes, t, g);
        ghost var t';
        if child.parent.left == parent {
          t' := SetLeft(child.parent, child, g, nodes, t);
        } else {
          t' := SetRight(child.parent, child, g, nodes, t);
        }
      }
    }

    function Deref(loc: Loc<K>): Node?<K>
      reads this, if loc.MinLoc? then {} else {loc.n}
    {
      match loc
      case MinLoc => min
      case LeftOf(n) => n.left
      case RightOf(n) => n.right
    }

    lemma {:induction false} DerefLoc(j: nat)
      requires Shaped() && (j == 0 || Up(j) < |nodes|)
      ensures Deref(LocOf(nodes, j)) == Get(nodes, j)
    {
      hide Distinct;
      if j > 0 { assert LinkedAt(nodes, Up(j)); }
    }

    /** The walk from the root along the path to a slot, with the pointers to the pointers
        to the node there and to its parent. */
    method Walk(slot: nat) returns (parent: Loc<K>, child: Loc<K>)
      requires Shaped() && 1 <= slot <= nelts + 1
      ensures slot == 1 || Up(slot - 1) < |nodes|
      ensures child == LocOf(nodes, slot - 1)
      ensures slot > 1 ==> parent == LocOf(nodes, Up(slot - 1))
      ensures slot == 1 ==> parent == MinLoc
    {
      hide Linked, Distinct;
      var path, k := PathTo(slot);
      parent, child := MinLoc, MinLoc;
      ghost var cur := 1;
      while k > 0
        invariant cur >= 1 && Follow(cur, path, k) == slot
        invariant cur == 1 || Up(cur - 1) < |nodes|
        invariant child == LocOf(nodes, cur - 1)
        invariant parent == if cur == 1 then MinLoc else LocOf(nodes, Up(cur - 1))
      {
        FollowGrows(cur, path, k);
        DerefLoc(cur - 1);
        parent := child;
        var node := Deref(child);
        if path % 2 == 1 {
          child := RightOf(node);
        } else {
          child := LeftOf(node);
        }
        FollowUp(cur, path % 2);
        cur := 2 * cur + path % 2;
        path := path / 2;
        k := k - 1;
      }
    }

    /** The upward loop: a node rises while it is less than its parent. */
    method SiftUp(x: Node<K>, less: (K, K) -> bool, ghost start: nat)
      requires StrictWeakOrder(less) && Shaped() && RisingAt(less, nodes, start) && nodes[start] == x
      modifies this, Members(nodes)
      ensures Valid(less) && Members(nodes) == Members(old(nodes)) && nelts == old(nelts)
    {
      hide Linked, Distinct, RisingAt, Swapped, StrictWeakOrder;
      ghost var i: nat := start;
      RisingBounds(less, nodes, i);
      ParentOf(i);
      while x.parent != null && less(x.key, x.parent.key)
        invariant Shaped() && RisingAt(less, nodes, i) && i < |nodes| && nodes[i] == x && nelts == old(nelts)
        invariant x.parent == if i == 0 then null else nodes[Up(i)]
        invariant Members(nodes) == Members(old(nodes))
        decreases i
      {
        SwapUp(less, nodes, i);
        SwapMembers(nodes, Up(i), i);
        SwappedEnds(nodes, Up(i), i);
        Swap(x.parent, x, Up(i), i);
        i := Up(i);
        ParentOf(i);
      }
      RisingInOrder(less, nodes, i);
      Risen(less, nodes, i);
    }

    lemma {:induction false} ParentOf(k: nat)
      requires Shaped() && k < |nodes|
      ensures nodes[k].parent == if k == 0 then null else nodes[Up(k)]
    {
      hide Distinct;
      assert LinkedAt(nodes, k);
    }

    lemma {:induction false} ChildrenAt(k: nat)
      requires Shaped() && k < |nodes|
      ensures nodes[k].left == Get(nodes, 2 * k + 1) && nodes[k].right == Get(nodes, 2 * k + 2)
    {
      hide Distinct;
      assert LinkedAt(nodes, k);
    }

    /** The choice of the downward loop: the smaller child if it is less than the node. */
    method Smallest(x: Node<K>, less: (K, K) -> bool, ghost i: nat) returns (smallest: Node<K>, ghost c: nat)
      requires StrictWeakOrder(less) && Shaped() && i < |nodes| && nodes[i] == x
      ensures c < |nodes| && nodes[c] == smallest && (smallest == x <==> c == i)
      ensures c != i ==> 0 < c && Up(c) == i && less(smallest.key, x.key)
      ensures forall k :: 0 < k < |nodes| && Up(k) == i ==> !less(nodes[k].key, smallest.key)
    {
      hide Linked;
      ChildrenAt(i);
      smallest, c := x, i;
      if x.left != null && less(x.left.key, smallest.key) {
        smallest, c := x.left, 2 * i + 1;
      }
      if x.right != null && less(x.right.key, smallest.key) {
        smallest, c := x.right, 2 * i + 2;
      }
    }

    /** The downward loop: a node sinks while a child is less than it. */
    method SiftDown(x: Node<K>, less: (K, K) -> bool, ghost start: nat) returns (ghost i: nat)
      requires StrictWeakOrder(less) && Shaped() && LooseAt(less, nodes, start) && nodes[start] == x
      modifies this, Members(nodes)
      ensures Shaped() && RisingAt(less, nodes, i) && nodes[i] == x
      ensures Members(nodes) == Members(old(nodes)) && nelts == old(nelts)
    {
      hide Linked, Distinct, LooseAt, RisingAt, Swapped, StrictWeakOrder;
      i := start;
      LooseBounds(less, nodes, i);
      while true
        invariant Shaped() && LooseAt(less, nodes, i) && i < |nodes| && nodes[i] == x && nelts == old(nelts)
        invariant Members(nodes) == Members(old(nodes))
        decreases |nodes| - i
      {
        var smallest;
        ghost var c;
        smallest, c := Smallest(x, less, i);
        if smallest == x {
          Settled(less, nodes, i);
          RisingBounds(less, nodes, i);
          return;
        }
        SwapDown(less, nodes, i, c);
        SwapMembers(nodes, i, c);
        SwappedEnds(nodes, i, c);
        Swap(x, smallest, i, c);
        i := c;
      }
    }

    /** Writing through a pointer to a pointer. */
    method Hang(loc: Loc<K>, v: Node?<K>, ghost list: seq<Node<K>>, ghost j: nat, ghost t: Links<K>)
      returns (ghost t': Links<K>)
      requires Fields(list, t) && (j == 0 || Up(j) < |list|) && loc == LocOf(list, j)
      modifies this`min, list`left, list`right
      ensures min == if j == 0 then v else old(min)
      ensures |t.left| == |t.right| == |list|
      ensures t' == if j == 0 then t
                    else if j == 2 * Up(j) + 1 then t.(left := t.left[Up(j) := v])
                    else t.(right := t.right[Up(j) := v])
      ensures Fields(list, t')
    {
      t' := t;
      match loc
      case MinLoc => min := v;
      case LeftOf(n) => t' := SetLeft(n, v, Up(j), list, t);
      case RightOf(n) => t' := SetRight(n, v, Up(j), list, t);
    }

    /** heap_insert */
    method Insert(newnode: Node<K>, less: (K, K) -> bool)
      requires StrictWeakOrder(less) && Valid(less) && newnode !in nodes
      modifies this, Members(nodes), newnode
      ensures Valid(less) && Members(nodes) == Members(old(nodes)) + {newnode} && nelts == old(nelts) + 1
    {
      hide Linked, Distinct, Ordered, StrictWeakOrder, RisingAt;
      newnode.left, newnode.right, newnode.parent := null, null, null;
      var parent, child := Walk(nelts + 1);
      Attach(newnode, parent, child);
      Appended(less, old(nodes), newnode);
      SiftUp(newnode, less, |nodes| - 1);
    }

    /** Hanging the new node into the tree. */
    method Attach(newnode: Node<K>, parent: Loc<K>, child: Loc<K>)
      requires Shaped() && newnode !in nodes && newnode.left == newnode.right == newnode.parent == null
      requires nelts == 0 || Up(nelts) < |nodes|
      requires child == LocOf(nodes, nelts) && parent == if nelts == 0 then MinLoc else LocOf(nodes, Up(nelts))
      modifies this, nodes, newnode
      ensures Shaped() && nodes == old(nodes) + [newnode] && nelts == old(nelts) + 1
      ensures Members(nodes) == Members(old(nodes)) + {newnode}
    {
      hide Fields, Linked, Distinct, LocOf, Hung, Extended, TreeLinks;
      LinkedFields(nodes);
      ghost var n, list := |nodes|, nodes + [newnode];
      ExtendedFields(nodes, newnode);
      LocExtends(nodes, newnode, n);
      if n > 0 { DerefLoc(Up(n)); }
      ghost var t := SetParent(newnode, Deref(parent), n, list, Extended(nodes));
      t := Hang(child, newnode, list, n, t);
      HungSteps(nodes, newnode);
      HungIsTree(nodes, newnode);
      FieldsDistinct(list, t);
      LinkedFields(list);
      nelts := nelts + 1;
      nodes := list;
    }

    /** The surgery of heap_remove: the unlinked last node takes the place of `node`. */
    method Replace(node: Node<K>, child: Node<K>, ghost i: nat, ghost t0: Links<K>)
      requires Distinct(nodes) && i + 1 < |nodes| && nodes[i] == node && nodes[|nodes| - 1] == child
      requires t0 == Unlinked(nodes) && Fields(nodes, t0) && min == nodes[0]
      modifies this`min, nodes
      ensures Linked(Moved(nodes, i)) && min == Moved(nodes, i)[0]
    {
      hide Fields, Distinct, Unlinked, MovedLinks, Linked, TakenOver, Raised;
      ghost var t := TakeOver(node, child, i, t0);
      t := RaiseChildren(child, i, t);
      ReplaceInParent(node, child, i, t);
      MovedLinked(nodes, i);
    }

    method TakeOver(node: Node<K>, child: Node<K>, ghost i: nat, ghost t0: Links<K>) returns (ghost t: Links<K>)
      requires i + 1 < |nodes| && nodes[i] == node && nodes[|nodes| - 1] == child
      requires t0 == Unlinked(nodes) && Fields(nodes, t0)
      modifies nodes
      ensures t == TakenOver(nodes, i) && Fields(nodes, t)
    {
      hide Fields, Distinct, Unlinked;
      ghost var m := |nodes| - 1;
      FieldsOf(nodes, t0, i);
      t := SetLeft(child, node.left, m, nodes, t0);
      t := SetRight(child, node.right, m, nodes, t);
      t := SetParent(child, node.parent, m, nodes, t);
    }

    method ReplaceInParent(node: Node<K>, child: Node<K>, ghost i: nat, ghost t0: Links<K>)
      requires Distinct(nodes) && i + 1 < |nodes| && nodes[i] == node && nodes[|nodes| - 1] == child
      requires t0 == Raised(nodes, i) && Fields(nodes, t0) && min == nodes[0]
      modifies this`min, nodes
      ensures Fields(nodes, MovedLinks(nodes, i)) && min == Moved(nodes, i)[0]
    {
      hide Fields, Distinct, Raised, MovedLinks;
      FieldsOf(nodes, t0, i);
      RaisedAt(nodes, i);
      MovedSteps(nodes, i);
      if node.parent == null {
        min := child;
      } else {
        FieldsOf(nodes, t0, Up(i));
        ghost var t;
        if node.parent.left == node {
          t := SetLeft(node.parent, child, Up(i), nodes, t0);
        } else {
          t := SetRight(node.parent, child, Up(i), nodes, t0);
        }
      }
    }

    /** The children of the removed node learn their new parent. */
    method RaiseChildren(child: Node<K>, ghost i: nat, ghost t0: Links<K>) returns (ghost t: Links<K>)
      requires i + 1 < |nodes| && nodes[|nodes| - 1] == child && t0 == TakenOver(nodes, i) && Fields(nodes, t0)
      modifies nodes`parent
      ensures t == Raised(nodes, i) && Fields(nodes, t)
    {
      hide Fields, Distinct, TakenOver;
      ghost var m := |nodes| - 1;
      TakenOverChildren(nodes, i);
      FieldsOf(nodes, t0, m);
      t := t0;
      if child.left != null {
        t := AdoptOne(child.left, child, 2 * i + 1, nodes, t);
      }
      if child.right != null {
        t := AdoptOne(child.right, child, 2 * i + 2, nodes, t);
      }
    }

    /** heap_remove. On an empty heap any pointer will do, and nothing happens. */
    method Remove(node: Node?<K>, less: (K, K) -> bool)
      requires StrictWeakOrder(less) && Valid(less) && (nodes == [] || (node != null && node in nodes))
      modifies this, Members(nodes)
      ensures Valid(less)
      ensures old(nodes) == [] ==> nodes == []
      ensures old(nodes) != [] ==> Members(nodes) == Members(old(nodes)) - {node} && nelts == old(nelts) - 1
    {
      if nelts == 0 {
        return;
      }
      hide Linked, Distinct, Ordered, StrictWeakOrder, RisingAt, LooseAt, Moved;
      ghost var i :| 0 <= i < |nodes| && nodes[i] == node;
      var child := Detach(node, i);
      if child == node {
        Shortened(less, old(nodes));
        return;
      }
      Replaced(less, old(nodes), i);
      MovedEnds(old(nodes), i);
      ghost var j := SiftDown(child, less, i);
      SiftUp(child, less, j);
    }

    /** Unlinking the last node of the bottom row. */
    method Unlink() returns (child: Node<K>, ghost t: Links<K>)
      requires Shaped() && nodes != []
      modifies this`min, this`nelts, Members(nodes)
      ensures nelts == old(nelts) - 1 && child == nodes[|nodes| - 1]
      ensures Fields(nodes, t) && (|nodes| > 1 ==> t == Unlinked(nodes))
      ensures min == if |nodes| == 1 then null else nodes[0]
    {
      hide Fields, Linked, TreeLinks, Unlinked, Distinct, LocOf;
      ghost var m := |nodes| - 1;
      LinkedFields(nodes);
      var parent, max := Walk(nelts);
      DerefLoc(m);
      child := Deref(max);
      nelts := nelts - 1;
      t := Hang(max, null, nodes, m, TreeLinks(nodes));
      if m > 0 { UnlinkedSteps(nodes); }
    }

    /** The part of heap_remove before the sifting. */
    method Detach(node: Node<K>, ghost i: nat) returns (child: Node<K>)
      requires Shaped() && i < |nodes| && nodes[i] == node
      modifies this, Members(nodes)
      ensures Shaped() && nelts == old(nelts) - 1 && Members(nodes) == Members(old(nodes)) - {node}
      ensures child == old(nodes)[old(nelts) - 1] && (child == node <==> i == old(nelts) - 1)
      ensures child == node ==> nodes == old(nodes)[..old(nelts) - 1]
      ensures child != node ==> i + 1 < |old(nodes)| && nodes == Moved(old(nodes), i)
    {
      hide Fields, Linked, Unlinked, Distinct, Moved;
      DistinctAt(nodes, i, |nodes| - 1);
      ghost var t;
      child, t := Unlink();
      if child == node {
        if child == min {
          min := null;
        }
        ShortenedLinked(nodes, t);
        ShortenedMembers(nodes);
        FirstDistinct(nodes);
        nodes := nodes[..|nodes| - 1];
        return;
      }
      MovedMembers(nodes, i);
      Replace(node, child, i, t);
      nodes := Moved(nodes, i);
    }

    /** heap_min: a node that no other is less than. */
    method Min(ghost less: (K, K) -> bool) returns (m: Node?<K>)
      requires StrictWeakOrder(less) && Valid(less)
      ensures m == null <==> nodes == []
      ensures m != null ==> m in nodes && forall x :: x in nodes ==> !less(x.key, m.key)
    {
      hide Linked, Distinct, StrictWeakOrder, Ordered;
      m := min;
      forall x | x in nodes ensures !less(x.key, nodes[0].key) {
        var k :| 0 <= k < |nodes| && nodes[k] == x;
        RootIsLeast(less, nodes, k);
      }
    }

    /** heap_dequeue */
    method Dequeue(less: (K, K) -> bool)
      requires StrictWeakOrder(less) && Valid(less)
      modifies this, Members(nodes)
      ensures Valid(less)
      ensures old(nodes) == [] ==> nodes == []
      ensures old(nodes) != [] ==> Members(nodes) == Members(old(nodes)) - {old(min)} && nelts == old(nelts) - 1
    {
      Remove(min, less);
    }
  }

  // ---------- draining ----------

  /** `out` is in order, and nothing in `rest` is less than anything in it. */
  ghost predicate SortedBefore<K>(less: (K, K) -> bool, out: seq<Node<K>>, rest: set<Node<K>>) {
    && (forall i, j :: 0 <= i < j < |out| ==> !less(out[j].key, out[i].key))
    && (forall i, y :: 0 <= i < |out| && y in rest ==> !less(y.key, out[i].key))
  }

  lemma {:induction false} TakeLeast<K(!new)>(less: (K, K) -> bool, out: seq<Node<K>>, nodes: seq<Node<K>>)
    requires StrictWeakOrder(less) && Ordered(less, nodes) && nodes != [] && SortedBefore(less, out, Members(nodes))
    ensures SortedBefore(less, out + [nodes[0]], Members(nodes) - {nodes[0]})
  {
    hide StrictWeakOrder, Ordered;
    var out' := out + [nodes[0]];
    forall i, y | 0 <= i < |out'| && y in Members(nodes) ensures !less(y.key, out'[i].key) {
      if i == |out| {
        var k :| 0 <= k < |nodes| && nodes[k] == y;
        RootIsLeast(less, nodes, k);
      }
    }
    assert nodes[0] in Members(nodes);
  }

  /** Dequeuing until the heap is empty yields its nodes, each once, in non-decreasing order. */
  method Drain<K(!new)>(heap: Tree<K>, less: (K, K) -> bool) returns (out: seq<Node<K>>)
    requires StrictWeakOrder(less) && heap.Valid(less)
    modifies heap, Members(heap.nodes)
    ensures heap.nodes == [] && |out| == old(heap.nelts)
    ensures Members(out) == Members(old(heap.nodes))
    ensures forall i, j :: 0 <= i < j < |out| ==> !less(out[j].key, out[i].key)
  {
    hide StrictWeakOrder, Ordered, Linked, Distinct;
    out := [];
    while heap.min != null
      invariant heap.Valid(less) && |out| + heap.nelts == old(heap.nelts)
      invariant Members(heap.nodes) <= Members(old(heap.nodes))
      invariant Members(out) + Members(heap.nodes) == Members(old(heap.nodes))
      invariant SortedBefore(less, out, Members(heap.nodes))
      decreases heap.nelts
    {
      TakeLeast(less, out, heap.nodes);
      ghost var before, rest := out, Members(heap.nodes);
      out := out + [heap.min];
      assert Members(out) == Members(before) + {heap.min};
      assert heap.nodes[0] in rest;
      heap.Dequeue(less);
    }
  }

  lemma {:induction false} FirstDistinct<T>(s: seq<T>)
    requires Distinct(s) && s != []
    ensures |s| > 1 ==> s[0] != s[|s| - 1]
  {
  }

  lemma {:induction false} DistinctAt<T>(s: seq<T>, i: nat, j: nat)
    requires Distinct(s) && i < |s| && j < |s|
    ensures s[i] == s[j] <==> i == j
  {
  }

  lemma {:induction false} MovedEnds<T>(s: seq<T>, i: nat)
    requires i + 1 < |s|
    ensures Moved(s, i)[i] == s[|s| - 1] && Moved(s, i) == s[..|s| - 1][i := s[|s| - 1]]
  {
  }

  lemma {:induction false} UnlinkedSteps<K>(nodes: seq<Node<K>>)
    requires |nodes| > 1
    ensures var t, m := TreeLinks(nodes), |nodes| - 1;
      Unlinked(nodes) == (if m == 2 * Up(m) + 1 then t.(left := t.left[Up(m) := null])
          else t.(right := t.right[Up(m) := null]))
  {
  }

  /** Which children the removed node leaves behind. */
  lemma {:induction false} TakenOverChildren<K>(nodes: seq<Node<K>>, i: nat)
    requires i + 1 < |nodes|
    ensures var t, m := TakenOver(nodes, i), |nodes| - 1;
      && t.left[m] == (if 2 * i + 1 < m then Get(nodes, 2 * i + 1) else null)
      && t.right[m] == (if 2 * i + 2 < m then Get(nodes, 2 * i + 2) else null)
  {
  }

  lemma {:induction false} RaisedAt<K>(nodes: seq<Node<K>>, i: nat)
    requires Distinct(nodes) && i + 1 < |nodes|
    ensures Raised(nodes, i).parent[i] == if i == 0 then null else nodes[Up(i)]
    ensures i > 0 ==> Up(i) < i && (Raised(nodes, i).left[Up(i)] == nodes[i] <==> i == 2 * Up(i) + 1)
  {
    hide Raised, TakenOver;
    RaisedParent(nodes, i);
    assert Raised(nodes, i).left == TakenOver(nodes, i).left;
    if i > 0 { TakenOverLeft(nodes, i); }
  }

  lemma {:induction false} RaisedParent<K>(nodes: seq<Node<K>>, i: nat)
    requires i + 1 < |nodes|
    ensures Raised(nodes, i).parent[i] == if i == 0 then null else nodes[Up(i)]
  {
    hide TakenOver;
    TakenOverParent(nodes, i, i);
  }

  lemma {:induction false} TakenOverLeft<K>(nodes: seq<Node<K>>, i: nat)
    requires Distinct(nodes) && 0 < i && i + 1 < |nodes|
    ensures Up(i) < i && (TakenOver(nodes, i).left[Up(i)] == nodes[i] <==> i == 2 * Up(i) + 1)
  {
  }

  lemma {:induction false} MovedSteps<K>(nodes: seq<Node<K>>, i: nat)
    requires i + 1 < |nodes|
    ensures var t, m := Raised(nodes, i), |nodes| - 1;
      MovedLinks(nodes, i) ==
        (if i == 0 then t
         else if i == 2 * Up(i) + 1 then t.(left := t.left[Up(i) := nodes[m]])
         else t.(right := t.right[Up(i) := nodes[m]]))
  {
  }

  lemma {:induction false} UnlinkedPoint<K>(nodes: seq<Node<K>>, k: nat)
    requires |nodes| > 1 && k + 1 < |nodes|
    ensures var t, s := Unlinked(nodes), nodes[..|nodes| - 1];
      && t.left[k] == Get(s, 2 * k + 1) && t.right[k] == Get(s, 2 * k + 2)
      && t.parent[k] == if k == 0 then null else s[Up(k)]
  {
  }

  /** Unlinking the last node leaves the tree of the others. */
  lemma {:induction false} ShortenedLinked<K>(nodes: seq<Node<K>>, t: Links<K>)
    requires nodes != [] && Fields(nodes, t) && (|nodes| > 1 ==> t == Unlinked(nodes))
    ensures Linked(nodes[..|nodes| - 1])
  {
    hide Distinct, Unlinked, Get, Up;
    var s := nodes[..|nodes| - 1];
    forall k | 0 <= k < |s| ensures LinkedAt(s, k) {
      UnlinkedPoint(nodes, k);
      assert s[k] == nodes[k];
    }
  }

  lemma {:induction false} ShortenedMembers<T>(s: seq<T>)
    requires s != [] && Distinct(s)
    ensures Distinct(s[..|s| - 1]) && Members(s[..|s| - 1]) == Members(s) - {s[|s| - 1]}
  {
    var r := s[..|s| - 1];
    forall x ensures x in r <==> x in s && x != s[|s| - 1] {
      if x in s && x != s[|s| - 1] {
        var k :| 0 <= k < |s| && s[k] == x;
        assert r[k] == x;
      }
    }
  }

  lemma {:induction false} LocExtends<K>(nodes: seq<Node<K>>, x: Node<K>, j: nat)
    requires j == 0 || Up(j) < |nodes|
    ensures LocOf(nodes + [x], j) == LocOf(nodes, j)
  {
  }

  /** The two writes of heap_insert. */
  lemma {:induction false} HungSteps<K>(nodes: seq<Node<K>>, x: Node<K>)
    ensures var n, t := |nodes|, Extended(nodes);
      Hung(nodes, x) ==
        (if n == 0 then t.(parent := t.parent[n := null])
         else
           var t1 := t.(parent := t.parent[n := nodes[Up(n)]]);
           if n == 2 * Up(n) + 1 then t1.(left := t1.left[Up(n) := x]) else t1.(right := t1.right[Up(n) := x]))
  {
    var t := Extended(nodes);
    assert t.parent[|nodes| := null] == t.parent;
  }

  lemma {:induction false} RisingBounds<K>(less: (K, K) -> bool, nodes: seq<Node<K>>, i: nat)
    requires RisingAt(less, nodes, i)
    ensures i < |nodes|
  {
  }

  lemma {:induction false} LooseBounds<K>(less: (K, K) -> bool, nodes: seq<Node<K>>, i: nat)
    requires LooseAt(less, nodes, i)
    ensures i < |nodes|
  {
  }

  lemma {:induction false} RisingInOrder<K>(less: (K, K) -> bool, nodes: seq<Node<K>>, i: nat)
    requires RisingAt(less, nodes, i) && (i == 0 || !less(nodes[i].key, nodes[Up(i)].key))
    ensures InOrder(less, nodes, i)
  {
  }

  lemma {:induction false} SwappedEnds<T>(s: seq<T>, i: nat, j: nat)
    requires i < |s| && j < |s|
    ensures Swapped(s, i, j)[i] == s[j] && Swapped(s, i, j)[j] == s[i]
  {
  }

  lemma {:induction false} FollowUp(cur: nat, bit: nat)
    requires cur >= 1 && bit < 2
    ensures Up(2 * cur + bit - 1) == cur - 1
  {
  }

  lemma {:induction false} FieldsDistinct<K>(nodes: seq<Node<K>>, t: Links<K>)
    requires Fields(nodes, t)
    ensures Distinct(nodes)
  {
  }

  lemma {:induction false} AdoptedAtChild<K>(nodes: seq<Node<K>>, p: nat, c: nat)
    requires 0 < c < |nodes| && p == Up(c)
    ensures Adopted(nodes, p, c).parent[c] == if p == 0 then null else Get(nodes, Up(p))
  {
    hide Adopted, Exchanged, Adopt;
    AdoptedParent(nodes, p, c, c);
    RehungParent(nodes, p, c, c);
    ChildrenOf(p, c, p);
    assert Rehung(nodes, p, c).parent == Adopted(nodes, p, c).parent;
  }

  /** The child hangs where its index says. */
  lemma {:induction false} ChildLink<K>(nodes: seq<Node<K>>, p: nat, c: nat)
    requires Distinct(nodes) && 0 < c < |nodes| && p == Up(c)
    ensures p < c
    ensures var t := TreeLinks(nodes);
      && (t.left[p] == nodes[c] <==> c == 2 * p + 1)
      && (c != 2 * p + 1 ==> t.right[p] == nodes[c])
      && Get(nodes, Sibling(p, c)) == if c == 2 * p + 1 then t.right[p] else t.left[p]
  {
  }

  lemma {:induction false} FieldsOf<K>(nodes: seq<Node<K>>, t: Links<K>, k: nat)
    requires Fields(nodes, t) && k < |nodes|
    ensures |t.left| == |t.right| == |t.parent| == |nodes|
    ensures nodes[k].left == t.left[k] && nodes[k].right == t.right[k] && nodes[k].parent == t.parent[k]
    ensures forall j :: 0 <= j < |nodes| && nodes[j] == nodes[k] ==> j == k
  {
  }
}
