/** The whole effect of `BSTree._insert` (packages/bst/src/BSTree.ts:254-277)
    as a function of the old tree, and what it keeps: the shape invariants,
    the BST order, the key/value multiset up to the one pair inserted or
    overwritten, and a lookup of the inserted key. */
module Inserting {
  import opened Refs
  import opened Shapes
  import opened Search
  import opened Order
  import opened Insertion

  /** The arena, root and shape `_insert(k, v)` leaves behind: a new root in
      an empty tree, a new leaf in an empty slot, the value overwritten in
      place at an equal key, or no change when the comparer answers outside
      {-1, 0, 1}. */
  ghost function InsertArena<V>(cmp: (int, int) -> int, rep: bool, a: seq<Node<V>>, ptr: Ptr, t: Shape,
                                k: int, v: V): (seq<Node<V>>, Ptr, Shape)
  {
    match Descend(cmp, rep, a, t, k)
    case Vacant => (a + [Node(k, v, Root, Null, Null, Null)], At(|a|), Fork(Empty, |a|, Empty))
    case Attach(p, side) =>
      if p < |a| then (AttachArena(a, p, side, k, v), ptr, Graft(t, p, side, |a|)) else (a, ptr, t)
    case Overwrite(i) => if i < |a| then (a[i := a[i].(value := v)], ptr, t) else (a, ptr, t)
    case Reject => (a, ptr, t)
  }

  /** The node `_insert` hands back: the new node, the overwritten one, or null. */
  ghost function InsertedNode<V>(cmp: (int, int) -> int, rep: bool, a: seq<Node<V>>, t: Shape, k: int): Ptr
  {
    match Descend(cmp, rep, a, t, k)
    case Vacant => At(|a|)
    case Attach(_, _) => At(|a|)
    case Overwrite(i) => At(i)
    case Reject => Null
  }

  /** A tree whose arena, root and shape meet the structural invariants. */
  ghost predicate WellLinked<V>(a: seq<Node<V>>, ptr: Ptr, t: Shape, loose: set<nat>)
  {
    Shaped(a, ptr, t) && Unique(t) && Tagged(a, t, Root) && Linked(a, t, Null, loose) && Within(a, t)
  }

  /** Insertion keeps the structural invariants, never frees a slot, and
      grows the tree by one node exactly when it attaches one. */
  lemma InsertKeeps<V>(cmp: (int, int) -> int, rep: bool, a: seq<Node<V>>, ptr: Ptr, t: Shape, loose: set<nat>,
                       k: int, v: V)
    requires WellLinked(a, ptr, t, loose)
    ensures var (b, q, u) := InsertArena(cmp, rep, a, ptr, t, k, v);
      WellLinked(b, q, u, loose) && |a| <= |b| &&
      Count(u) == Count(t) + (if Descend(cmp, rep, a, t, k).Vacant? || Descend(cmp, rep, a, t, k).Attach? then 1 else 0)
  {
    DescendFound(cmp, rep, a, ptr, t, k);
    var (b, q, u) := InsertArena(cmp, rep, a, ptr, t, k, v);
    match Descend(cmp, rep, a, t, k)
    case Vacant =>
      assert Shaped(b, q, u);
      assert Within(b, u);
    case Attach(p, side) =>
      GraftShaped(a, ptr, t, p, side, k, v);
      GraftIds(a, ptr, t, p, side);
      GraftTagged(a, ptr, t, p, side, k, v, Root);
      GraftLinked(a, ptr, t, p, side, k, v, Null, loose);
      ShapedWithin(b, q, u);
    case Overwrite(i) =>
      assert SameLinks(a, b, Ids(t)) && SameKinds(a, b, Ids(t)) && SameParents(a, b, Ids(t));
      AgreeShaped(a, b, t, ptr);
      AgreeTagged(a, b, t, Root);
      AgreeLinked(a, b, t, Null, loose);
    case Reject =>
  }

  /** Positions on which two arenas hold the same keys. */
  ghost predicate SameKeys<V>(a: seq<Node<V>>, b: seq<Node<V>>, s: set<nat>)
  {
    forall i :: i in s ==> i < |a| && i < |b| && a[i].key == b[i].key
  }

  /** The BST order reads keys only. */
  lemma {:induction false} KeysOrdered<V>(cmp: (int, int) -> int, rep: bool, a: seq<Node<V>>, b: seq<Node<V>>, t: Shape)
    requires SameKeys(a, b, Ids(t))
    ensures Ordered(cmp, rep, a, t) == Ordered(cmp, rep, b, t)
  {
    match t
    case Empty =>
    case Fork(l, i, r) =>
      KeysOrdered(cmp, rep, a, b, l);
      KeysOrdered(cmp, rep, a, b, r);
  }

  /** The search reads keys only. */
  lemma {:induction false} KeysLocate<V>(cmp: (int, int) -> int, a: seq<Node<V>>, b: seq<Node<V>>, t: Shape, k: int)
    requires SameKeys(a, b, Ids(t))
    ensures Locate(cmp, a, t, k) == Locate(cmp, b, t, k)
  {
    match t
    case Empty =>
    case Fork(l, i, r) =>
      KeysLocate(cmp, a, b, l, k);
      KeysLocate(cmp, a, b, r, k);
  }

  /** Insertion keeps the BST order, whatever the comparer. */
  lemma InsertOrdered<V>(cmp: (int, int) -> int, rep: bool, a: seq<Node<V>>, ptr: Ptr, t: Shape, loose: set<nat>,
                         k: int, v: V)
    requires WellLinked(a, ptr, t, loose) && Ordered(cmp, rep, a, t)
    ensures var (b, q, u) := InsertArena(cmp, rep, a, ptr, t, k, v); Ordered(cmp, rep, b, u)
  {
    DescendFound(cmp, rep, a, ptr, t, k);
    var (b, q, u) := InsertArena(cmp, rep, a, ptr, t, k, v);
    match Descend(cmp, rep, a, t, k)
    case Vacant =>
    case Attach(p, side) =>
      GraftOrdered(cmp, rep, a, ptr, t, k, v);
    case Overwrite(i) =>
      KeysOrdered(cmp, rep, a, b, t);
    case Reject =>
  }

  /** The listing after the value at in-order position `m` is overwritten. */
  lemma OverwriteListing<V>(a: seq<Node<V>>, t: Shape, i: nat, v: V) returns (m: nat)
    requires Within(a, t) && Unique(t) && i in Ids(t)
    ensures i < |a| && Within(a[i := a[i].(value := v)], t)
    ensures m < |Listing(a, t)| && Listing(a, t)[m] == (a[i].key, a[i].value)
    ensures Listing(a[i := a[i].(value := v)], t) == Listing(a, t)[m := (a[i].key, v)]
  {
    InOrderCovers(t);
    InOrderDistinct(t);
    InOrderWithin(a, t);
    var s := InOrder(t);
    m :| 0 <= m < |s| && s[m] == i;
    var b := a[i := a[i].(value := v)];
    assert Within(b, t);
    var x := Listing(b, t);
    var y := Listing(a, t)[m := (a[i].key, v)];
    assert |x| == |y|;
    forall j | 0 <= j < |x| ensures x[j] == y[j] {
      if j != m {
        assert s[j] != i;
      }
    }
  }

  /** What insertion does to the key/value multiset: one pair added when a
      node is attached; at an equal key the old pair swapped for the key with
      the new value; nothing when the comparer answers outside {-1, 0, 1}. */
  lemma InsertPairs<V>(cmp: (int, int) -> int, rep: bool, a: seq<Node<V>>, ptr: Ptr, t: Shape, loose: set<nat>,
                       k: int, v: V)
    requires WellLinked(a, ptr, t, loose)
    ensures var (b, q, u) := InsertArena(cmp, rep, a, ptr, t, k, v);
      var s := Descend(cmp, rep, a, t, k);
      (s.Vacant? || s.Attach? ==> Pairs(b, u) == Pairs(a, t) + multiset{(k, v)}) &&
      (s.Overwrite? ==> (s.at < |a| && cmp(k, a[s.at].key) == 0 &&
        Pairs(b, u) == Pairs(a, t) - multiset{(a[s.at].key, a[s.at].value)} + multiset{(a[s.at].key, v)})) &&
      (s.Reject? ==> Pairs(b, u) == Pairs(a, t))
  {
    DescendFound(cmp, rep, a, ptr, t, k);
    DescendEqual(cmp, rep, a, t, k);
    var (b, q, u) := InsertArena(cmp, rep, a, ptr, t, k, v);
    match Descend(cmp, rep, a, t, k)
    case Vacant =>
    case Attach(p, side) =>
      GraftPairs(a, ptr, t, p, side, k, v);
    case Overwrite(i) =>
      var m := OverwriteListing(a, t, i, v);
      PairsInOrder(a, t);
      PairsInOrder(b, t);
    case Reject =>
  }

  /** The descent stops to overwrite only at a key the comparer calls equal. */
  lemma {:induction false} DescendEqual<V>(cmp: (int, int) -> int, rep: bool, a: seq<Node<V>>, t: Shape, k: int)
    ensures Descend(cmp, rep, a, t, k).Overwrite? ==>
      Descend(cmp, rep, a, t, k).at < |a| && cmp(k, a[Descend(cmp, rep, a, t, k).at].key) == 0
  {
    match t
    case Empty =>
    case Fork(l, i, r) =>
      DescendEqual(cmp, rep, a, l, k);
      DescendEqual(cmp, rep, a, r, k);
  }

  /** With `repeatable`, an equal key is sent right, so insertion never
      overwrites: it attaches a node or rejects. */
  lemma {:induction false} RepeatableAttaches<V>(cmp: (int, int) -> int, a: seq<Node<V>>, t: Shape, k: int)
    ensures !Descend(cmp, true, a, t, k).Overwrite?
  {
    match t
    case Empty =>
    case Fork(l, i, r) =>
      RepeatableAttaches(cmp, a, l, k);
      RepeatableAttaches(cmp, a, r, k);
  }

  /** Without `repeatable`, the insertion descent and `_findNode` walk the
      same path: the descent overwrites exactly the node the search finds. */
  lemma {:induction false} DescendLocate<V>(cmp: (int, int) -> int, a: seq<Node<V>>, t: Shape, k: int)
    ensures Descend(cmp, false, a, t, k).Overwrite? <==> Locate(cmp, a, t, k).Some?
    ensures Descend(cmp, false, a, t, k).Overwrite? ==> Locate(cmp, a, t, k) == Some(Descend(cmp, false, a, t, k).at)
  {
    match t
    case Empty =>
    case Fork(l, i, r) =>
      DescendLocate(cmp, a, l, k);
      DescendLocate(cmp, a, r, k);
  }

  /** Without `repeatable`, the search for a key just attached ends at the
      new leaf, provided the comparer calls a key equal to itself. */
  lemma {:induction false} AttachLocate<V>(cmp: (int, int) -> int, a: seq<Node<V>>, ptr: Ptr, t: Shape, k: int, v: V)
    requires Shaped(a, ptr, t) && Unique(t) && cmp(k, k) == 0
    requires Descend(cmp, false, a, t, k).Attach?
    ensures var s := Descend(cmp, false, a, t, k);
      s.parent < |a| && Locate(cmp, AttachArena(a, s.parent, s.side, k, v), Graft(t, s.parent, s.side, |a|), k) == Some(|a|)
    decreases t
  {
    DescendFound(cmp, false, a, ptr, t, k);
    var s := Descend(cmp, false, a, t, k);
    var b := AttachArena(a, s.parent, s.side, k, v);
    AttachKeys(a, s.parent, s.side, k, v);
    match t
    case Fork(l, i, r) =>
      var c := cmp(k, a[i].key);
      if c == 1 && r != Empty {
        DescendFound(cmp, false, a, a[i].right, r, k);
        GraftAbsent(l, s.parent, s.side, |a|);
        AttachLocate(cmp, a, a[i].right, r, k, v);
      } else if c == -1 && l != Empty {
        DescendFound(cmp, false, a, a[i].left, l, k);
        GraftAbsent(r, s.parent, s.side, |a|);
        AttachLocate(cmp, a, a[i].left, l, k, v);
      }
  }

  /** Insert, then find: without `repeatable`, and with a comparer that calls
      a key equal to itself, `find(k)` after `insert(k, v)` returns `v`,
      whether the insertion attached a node or overwrote one. */
  lemma InsertFind<V>(cmp: (int, int) -> int, a: seq<Node<V>>, ptr: Ptr, t: Shape, loose: set<nat>, k: int, v: V)
    requires WellLinked(a, ptr, t, loose) && cmp(k, k) == 0
    requires !Descend(cmp, false, a, t, k).Reject?
    ensures var (b, q, u) := InsertArena(cmp, false, a, ptr, t, k, v);
      Locate(cmp, b, u, k).Some? && Locate(cmp, b, u, k).value < |b| && b[Locate(cmp, b, u, k).value].value == v
  {
    DescendFound(cmp, false, a, ptr, t, k);
    var (b, q, u) := InsertArena(cmp, false, a, ptr, t, k, v);
    match Descend(cmp, false, a, t, k)
    case Vacant =>
    case Attach(p, side) =>
      AttachLocate(cmp, a, ptr, t, k, v);
      AttachEntries(a, p, side, k, v);
    case Overwrite(i) =>
      DescendLocate(cmp, a, t, k);
      KeysLocate(cmp, a, b, t, k);
  }

  /** `batchInsert`: the items inserted one after another, in order. */
  ghost function InsertAll<V>(cmp: (int, int) -> int, rep: bool, a: seq<Node<V>>, ptr: Ptr, t: Shape,
                              items: seq<(int, V)>): (seq<Node<V>>, Ptr, Shape)
    decreases |items|
  {
    if items == [] then (a, ptr, t)
    else
      var (b, q, u) := InsertAll(cmp, rep, a, ptr, t, items[..|items| - 1]);
      InsertArena(cmp, rep, b, q, u, items[|items| - 1].0, items[|items| - 1].1)
  }

  /** A batch of insertions keeps the structural invariants and the BST order. */
  lemma {:induction false} InsertAllKeeps<V>(cmp: (int, int) -> int, rep: bool, a: seq<Node<V>>, ptr: Ptr, t: Shape,
                                             loose: set<nat>, items: seq<(int, V)>)
    requires WellLinked(a, ptr, t, loose)
    ensures var (b, q, u) := InsertAll(cmp, rep, a, ptr, t, items);
      WellLinked(b, q, u, loose) && (Ordered(cmp, rep, a, t) ==> Ordered(cmp, rep, b, u))
    decreases |items|
  {
    if items != [] {
      InsertAllKeeps(cmp, rep, a, ptr, t, loose, items[..|items| - 1]);
      var (b, q, u) := InsertAll(cmp, rep, a, ptr, t, items[..|items| - 1]);
      var (k, v) := items[|items| - 1];
      InsertKeeps(cmp, rep, b, q, u, loose, k, v);
      if Ordered(cmp, rep, a, t) {
        InsertOrdered(cmp, rep, b, q, u, loose, k, v);
      }
    }
  }
}
