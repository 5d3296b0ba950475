/** The whole effect of `BSTree._remove` (packages/bst/src/BSTree.ts:279-303)
    once `_findNode` has stopped at node `x`, as a function of the old tree,
    and what it keeps: the shape invariants, the in-order listing minus the
    target's entry, the key/value multiset minus the target's pair, and the
    BST order under a ranking comparer. */
module Removing {
  import opened Refs
  import opened Shapes
  import opened Search
  import opened Order
  import opened Removal
  import opened Splicing
  import opened Inserting

  /** The node `_remove` detaches: the successor found by `_getNextNode`,
      else the predecessor found by `_getPrevNode`, else the target itself. */
  function Victim(t: Shape, x: nat): nat
  {
    match NextOf(t, x)
    case Some(d) => d
    case None =>
      match PrevOf(t, x)
      case Some(d) => d
      case None => x
  }

  /** The subtree that takes the victim's slot: the successor's right
      subtree, the predecessor's left subtree, or nothing. */
  function Heir(t: Shape, x: nat): Shape
  {
    match NextOf(t, x)
    case Some(d) => if SubAt(t, d).Fork? then SubAt(t, d).right else Empty
    case None =>
      match PrevOf(t, x)
      case Some(d) => if SubAt(t, d).Fork? then SubAt(t, d).left else Empty
      case None => Empty
  }

  /** The in-order position of the pair `_remove` reports, relative to the
      target's position `m`: the successor's, the predecessor's or the target's. */
  function ReportedAt(t: Shape, x: nat, m: nat): int
  {
    if NextOf(t, x).Some? then m + 1 else if PrevOf(t, x).Some? then m - 1 else m
  }

  /** The arena, root and shape `_remove` leaves behind after `_findNode`
      returned `x`. */
  ghost function RemoveArena<V>(a: seq<Node<V>>, ptr: Ptr, t: Shape, x: nat): (seq<Node<V>>, Ptr, Shape)
  {
    if x >= |a| then (a, ptr, t)
    else
      match NextOf(t, x)
      case Some(d) =>
        if d < |a| && a[d].parent.At? && a[d].parent.index < |a| then
          (Splice(CopyPair(a, x, d), d, a[d].right), ptr, Hang(t, a[d].parent.index, a[d].kind, Heir(t, x)))
        else (a, ptr, t)
      case None =>
        match PrevOf(t, x)
        case Some(d) =>
          if d < |a| && a[d].parent.At? && a[d].parent.index < |a| then
            (Splice(CopyPair(a, x, d), d, a[d].left), ptr, Hang(t, a[d].parent.index, a[d].kind, Heir(t, x)))
          else (a, ptr, t)
        case None =>
          if a[x].kind != Root then
            if a[x].parent.At? && a[x].parent.index < |a| then
              (Splice(a, x, Null), ptr, Hang(t, a[x].parent.index, a[x].kind, Empty))
            else (a, ptr, t)
          else (a, Null, Empty)
  }

  /** The links `_remove` follows are in the arena: the target, the victim
      and the victim's parent, unless the victim is the root. */
  ghost predicate RemoveDefined<V>(a: seq<Node<V>>, t: Shape, x: nat)
  {
    var d := Victim(t, x);
    t.Fork? && x < |a| && d < |a| && (a[d].kind == Root <==> d == t.id) &&
    (d != t.id ==> a[d].parent.At? && a[d].parent.index < |a|) &&
    (NextOf(t, x).Some? || PrevOf(t, x).Some? ==> d != x) &&
    (d == t.id ==> t == Fork(Empty, x, Empty)) &&
    (a[d].left.At? ==> a[d].left.index < |a|) && (a[d].right.At? ==> a[d].right.index < |a|)
  }

  /** The victim's parent link can be followed: it is not stale, or the
      victim is the root, whose removal does not follow it. */
  ghost predicate Detachable(t: Shape, loose: set<nat>, x: nat)
  {
    (t.Fork? && Victim(t, x) == t.id) || Victim(t, x) !in loose
  }

  /** Removal keeps the structural invariants, except that the heir's parent
      link goes stale (the heir joins `loose`, and when it was not loose
      before, its `parent` still names the detached victim). The tree loses
      the victim's node and its listing loses the target's entry; the
      victim keeps the pair that `_remove` reports. */
  lemma RemoveKeeps<V>(a: seq<Node<V>>, ptr: Ptr, t: Shape, loose: set<nat>, x: nat) returns (m: nat)
    requires WellLinked(a, ptr, t, loose) && x in Ids(t)
    requires Detachable(t, loose, x)
    ensures RemoveDefined(a, t, x)
    ensures var (b, q, u) := RemoveArena(a, ptr, t, x); var d := Victim(t, x); var h := Heir(t, x);
      WellLinked(b, q, u, loose + Tops(h)) && Count(u) + 1 == Count(t) && Ids(u) == Ids(t) - {d} &&
      (h.Fork? && h.id !in loose ==> h.id < |b| && b[h.id].parent == At(d)) &&
      m < |InOrder(t)| && InOrder(t)[m] == x && m < |Listing(a, t)| &&
      Listing(a, t)[m] == (a[x].key, a[x].value) &&
      Listing(b, u) == Without(Listing(a, t), m) &&
      d < |b| && b[d] == a[d] &&
      0 <= ReportedAt(t, x, m) < |Listing(a, t)| && Listing(a, t)[ReportedAt(t, x, m)] == (a[d].key, a[d].value)
  {
    var d := Victim(t, x);
    InOrderWithin(a, t);
    if d in Ids(t) {
      SubAtShaped(a, ptr, t, d);
    }
    if NextOf(t, x).Some? {
      NextShape(t, x);
      m := RemoveSuccessor(a, ptr, t, loose, x);
      RootTag(a, t, d);
    } else if PrevOf(t, x).Some? {
      PrevShape(t, x);
      m := RemovePredecessor(a, ptr, t, loose, x);
      RootTag(a, t, d);
    } else {
      RootTag(a, t, x);
      LeafShape(t, x);
      if x != t.id {
        m := RemoveLeaf(a, ptr, t, loose, x);
        assert Tops(Empty) == {};
        assert loose + {} == loose;
      } else {
        assert t == Fork(Empty, x, Empty) by {
          SubAtSelf(t);
        }
        m := 0;
        assert InOrder(t) == [x];
        assert Listing(a, t) == [(a[x].key, a[x].value)];
        assert Without(Listing(a, t), 0) == [];
      }
    }
  }

  lemma SubAtSelf(t: Shape)
    requires t.Fork?
    ensures SubAt(t, t.id) == t
  {
  }

  /** Under a ranking comparer, removal keeps the BST order. */
  lemma RemoveOrdered<V>(cmp: (int, int) -> int, rank: int -> int, rep: bool,
                         a: seq<Node<V>>, ptr: Ptr, t: Shape, loose: set<nat>, x: nat)
    requires Ranked(cmp, rank) && WellLinked(a, ptr, t, loose) && x in Ids(t)
    requires Detachable(t, loose, x)
    requires Ordered(cmp, rep, a, t)
    ensures var (b, q, u) := RemoveArena(a, ptr, t, x); Within(b, u) && Ordered(cmp, rep, b, u)
  {
    var m := RemoveKeeps(a, ptr, t, loose, x);
    var (b, q, u) := RemoveArena(a, ptr, t, x);
    OrderedAscending(cmp, rank, rep, a, t);
    AscendingWithout(rank, rep, Listing(a, t), m);
    OrderedAscending(cmp, rank, rep, b, u);
  }

  /** Removal drops exactly the target's pair from the key/value multiset. */
  lemma RemovePairs<V>(a: seq<Node<V>>, ptr: Ptr, t: Shape, loose: set<nat>, x: nat)
    requires WellLinked(a, ptr, t, loose) && x in Ids(t)
    requires Detachable(t, loose, x)
    ensures x < |a|
    ensures var (b, q, u) := RemoveArena(a, ptr, t, x);
      Within(b, u) && Pairs(b, u) == Pairs(a, t) - multiset{(a[x].key, a[x].value)} &&
      (a[x].key, a[x].value) in Pairs(a, t)
  {
    var m := RemoveKeeps(a, ptr, t, loose, x);
    var (b, q, u) := RemoveArena(a, ptr, t, x);
    PairsInOrder(a, t);
    PairsInOrder(b, u);
    MultisetWithout(Listing(a, t), m);
  }
}
