/** The placement step of `BSTree._insert` (packages/bst/src/BSTree.ts:254-277)
    as functions on the arena and the shape, with the facts the insertion keeps. */
module Insertion {
  import opened Refs
  import opened Shapes

  /** Where `_insert` ends up: an empty tree, an equal key whose value is
      overwritten, an empty child slot, or a comparer result outside {-1, 0, 1}. */
  datatype Spot = Vacant | Overwrite(at: nat) | Attach(parent: nat, side: NodeType) | Reject

  /** With `repeatable`, an equal key is treated as a greater one. */
  function Adjust(c: int, repeatable: bool): int
  {
    if repeatable && c == 0 then 1 else c
  }

  /** The descent of `_insert` from the root. */
  ghost function Descend<V>(cmp: (int, int) -> int, rep: bool, a: seq<Node<V>>, t: Shape, k: int): Spot
  {
    match t
    case Empty => Vacant
    case Fork(l, i, r) =>
      if i >= |a| then Reject
      else
        var c := Adjust(cmp(k, a[i].key), rep);
        if c == 1 then (if r == Empty then Attach(i, Right) else Descend(cmp, rep, a, r, k))
        else if c == -1 then (if l == Empty then Attach(i, Left) else Descend(cmp, rep, a, l, k))
        else if c == 0 then Overwrite(i)
        else Reject
  }

  /** The arena after `current[type] = _createNode(key, value, current, type)`. */
  function AttachArena<V>(a: seq<Node<V>>, p: nat, side: NodeType, k: int, v: V): (b: seq<Node<V>>)
    requires p < |a|
    ensures |b| == |a| + 1
  {
    a[p := SetChild(a[p], side, At(|a|))] + [Node(k, v, side, At(p), Null, Null)]
  }

  /** The shape with a new leaf `n` hung in the `side` slot of node `p`. */
  function Graft(t: Shape, p: nat, side: NodeType, n: nat): Shape
  {
    match t
    case Empty => Empty
    case Fork(l, i, r) =>
      if i == p then
        (if side == Left then Fork(Fork(Empty, n, Empty), i, r) else Fork(l, i, Fork(Empty, n, Empty)))
      else Fork(Graft(l, p, side, n), i, Graft(r, p, side, n))
  }

  lemma {:induction false} GraftAbsent(t: Shape, p: nat, side: NodeType, n: nat)
    requires p !in Ids(t)
    ensures Graft(t, p, side, n) == t
  {
    match t
    case Empty =>
    case Fork(l, i, r) =>
      GraftAbsent(l, p, side, n);
      GraftAbsent(r, p, side, n);
  }

  /** The descent ends inside the tree, at a node whose chosen slot is empty. */
  lemma {:induction false} DescendFound<V>(cmp: (int, int) -> int, rep: bool, a: seq<Node<V>>, ptr: Ptr, t: Shape, k: int)
    requires Shaped(a, ptr, t)
    ensures Descend(cmp, rep, a, t, k).Attach? ==>
      var s := Descend(cmp, rep, a, t, k);
      s.parent in Ids(t) && s.parent < |a| && Child(a[s.parent], s.side) == Null && s.side != Root
    ensures Descend(cmp, rep, a, t, k).Overwrite? ==> Descend(cmp, rep, a, t, k).at in Ids(t)
    ensures Descend(cmp, rep, a, t, k).Vacant? <==> t == Empty
    decreases t
  {
    match t
    case Empty =>
    case Fork(l, i, r) =>
      DescendFound(cmp, rep, a, a[i].left, l, k);
      DescendFound(cmp, rep, a, a[i].right, r, k);
  }

  /** Hanging a new leaf in an empty slot adds exactly its position. */
  lemma {:induction false} GraftIds<V>(a: seq<Node<V>>, ptr: Ptr, t: Shape, p: nat, side: NodeType)
    requires Shaped(a, ptr, t) && Unique(t)
    requires p in Ids(t) && p < |a| && Child(a[p], side) == Null
    ensures Unique(Graft(t, p, side, |a|))
    ensures Ids(Graft(t, p, side, |a|)) == Ids(t) + {|a|}
    ensures Count(Graft(t, p, side, |a|)) == Count(t) + 1
    decreases t
  {
    ShapedWithin(a, ptr, t);
    match t
    case Fork(l, i, r) =>
      if i == p {
      } else if p in Ids(l) {
        GraftIds(a, a[i].left, l, p, side);
        GraftAbsent(r, p, side, |a|);
      } else {
        GraftIds(a, a[i].right, r, p, side);
        GraftAbsent(l, p, side, |a|);
      }
  }

  /** The only entries `AttachArena` changes are the parent's slot and the new node. */
  lemma AttachEntries<V>(a: seq<Node<V>>, p: nat, side: NodeType, k: int, v: V)
    requires p < |a|
    ensures AttachArena(a, p, side, k, v)[|a|] == Node(k, v, side, At(p), Null, Null)
    ensures AttachArena(a, p, side, k, v)[p] == SetChild(a[p], side, At(|a|))
    ensures forall j :: 0 <= j < |a| && j != p ==> AttachArena(a, p, side, k, v)[j] == a[j]
  {
  }

  /** The insertion keeps every key/value pair already in the arena and puts
      the new one at the end. */
  lemma AttachPair<V>(a: seq<Node<V>>, p: nat, side: NodeType, k: int, v: V, j: nat)
    requires p < |a|
    ensures j < |a| ==> AttachArena(a, p, side, k, v)[j].key == a[j].key
    ensures j < |a| ==> AttachArena(a, p, side, k, v)[j].value == a[j].value
    ensures AttachArena(a, p, side, k, v)[|a|].key == k && AttachArena(a, p, side, k, v)[|a|].value == v
  {
  }

  /** The child links after the insertion trace the grafted shape. */
  lemma {:induction false} GraftShaped<V>(a: seq<Node<V>>, ptr: Ptr, t: Shape, p: nat, side: NodeType, k: int, v: V)
    requires Shaped(a, ptr, t) && Unique(t)
    requires p in Ids(t) && p < |a| && Child(a[p], side) == Null && side != Root
    ensures Shaped(AttachArena(a, p, side, k, v), ptr, Graft(t, p, side, |a|))
    decreases t
  {
    AttachEntries(a, p, side, k, v);
    match t
    case Fork(l, i, r) =>
      ShapedWithin(a, a[i].left, l);
      ShapedWithin(a, a[i].right, r);
      if i == p {
        if side == Left {
          OffPath(a, r, p, side, k, v, a[i].right, Right, At(i), {});
        } else {
          OffPath(a, l, p, side, k, v, a[i].left, Left, At(i), {});
        }
      } else if p in Ids(l) {
        GraftShaped(a, a[i].left, l, p, side, k, v);
        OffPath(a, r, p, side, k, v, a[i].right, Right, At(i), {});
      } else {
        GraftShaped(a, a[i].right, r, p, side, k, v);
        OffPath(a, l, p, side, k, v, a[i].left, Left, At(i), {});
      }
  }

  /** The insertion adds exactly the new pair. */
  lemma {:induction false} GraftPairs<V>(a: seq<Node<V>>, ptr: Ptr, t: Shape, p: nat, side: NodeType, k: int, v: V)
    requires Shaped(a, ptr, t) && Unique(t)
    requires p in Ids(t) && p < |a| && Child(a[p], side) == Null && side != Root
    ensures Pairs(AttachArena(a, p, side, k, v), Graft(t, p, side, |a|)) == Pairs(a, t) + multiset{(k, v)}
    decreases t
  {
    match t
    case Fork(l, i, r) =>
      ShapedWithin(a, a[i].left, l);
      ShapedWithin(a, a[i].right, r);
      if i == p {
        PairsAtGraftPoint(a, l, i, r, side, k, v);
      } else if p in Ids(l) {
        GraftPairs(a, a[i].left, l, p, side, k, v);
        PairsBelowLeft(a, l, i, r, p, side, k, v);
      } else {
        GraftPairs(a, a[i].right, r, p, side, k, v);
        PairsBelowRight(a, l, i, r, p, side, k, v);
      }
  }

  lemma PairsAtGraftPoint<V>(a: seq<Node<V>>, l: Shape, i: nat, r: Shape, side: NodeType, k: int, v: V)
    requires i < |a| && Within(a, l) && Within(a, r) && i !in Ids(l) && i !in Ids(r) && side != Root
    requires side == Left ==> l == Empty
    requires side == Right ==> r == Empty
    ensures Pairs(AttachArena(a, i, side, k, v), Graft(Fork(l, i, r), i, side, |a|))
         == Pairs(a, Fork(l, i, r)) + multiset{(k, v)}
  {
    var b := AttachArena(a, i, side, k, v);
    AttachPair(a, i, side, k, v, i);
    if side == Left {
      OffPathAgree(a, r, i, side, k, v);
      AgreePairs(a, b, r);
    } else {
      OffPathAgree(a, l, i, side, k, v);
      AgreePairs(a, b, l);
    }
    NewLeafPairs(a, b, l, i, r, side, k, v);
  }

  /** The multiset arithmetic of `PairsAtGraftPoint`, for any arena `b` that
      keeps `i`'s pair, holds the new pair at `|a|` and agrees on the other
      subtree. */
  lemma NewLeafPairs<V>(a: seq<Node<V>>, b: seq<Node<V>>, l: Shape, i: nat, r: Shape, side: NodeType, k: int, v: V)
    requires i < |a| && |b| == |a| + 1 && side != Root
    requires b[i].key == a[i].key && b[i].value == a[i].value && b[|a|].key == k && b[|a|].value == v
    requires side == Left ==> l == Empty && Pairs(b, r) == Pairs(a, r)
    requires side == Right ==> r == Empty && Pairs(b, l) == Pairs(a, l)
    ensures Pairs(b, Graft(Fork(l, i, r), i, side, |a|)) == Pairs(a, Fork(l, i, r)) + multiset{(k, v)}
  {
    var leaf := Fork(Empty, |a|, Empty);
    assert Pairs(b, leaf) == multiset{(k, v)};
  }

  lemma PairsBelowLeft<V>(a: seq<Node<V>>, l: Shape, i: nat, r: Shape, p: nat, side: NodeType, k: int, v: V)
    requires i < |a| && p < |a| && Within(a, r) && p !in Ids(r) && p != i
    requires Pairs(AttachArena(a, p, side, k, v), Graft(l, p, side, |a|)) == Pairs(a, l) + multiset{(k, v)}
    ensures Pairs(AttachArena(a, p, side, k, v), Graft(Fork(l, i, r), p, side, |a|))
         == Pairs(a, Fork(l, i, r)) + multiset{(k, v)}
  {
    var b := AttachArena(a, p, side, k, v);
    AttachPair(a, p, side, k, v, i);
    OffPathAgree(a, r, p, side, k, v);
    AgreePairs(a, b, r);
  }

  lemma PairsBelowRight<V>(a: seq<Node<V>>, l: Shape, i: nat, r: Shape, p: nat, side: NodeType, k: int, v: V)
    requires i < |a| && p < |a| && Within(a, l) && p !in Ids(l) && p != i
    requires Pairs(AttachArena(a, p, side, k, v), Graft(r, p, side, |a|)) == Pairs(a, r) + multiset{(k, v)}
    ensures Pairs(AttachArena(a, p, side, k, v), Graft(Fork(l, i, r), p, side, |a|))
         == Pairs(a, Fork(l, i, r)) + multiset{(k, v)}
  {
    var b := AttachArena(a, p, side, k, v);
    AttachPair(a, p, side, k, v, i);
    OffPathAgree(a, l, p, side, k, v);
    AgreePairs(a, b, l);
  }

  /** The new node is tagged with its slot; all other tags stay. */
  lemma {:induction false} GraftTagged<V>(a: seq<Node<V>>, ptr: Ptr, t: Shape, p: nat, side: NodeType, k: int, v: V,
                                          kind: NodeType)
    requires Shaped(a, ptr, t) && Unique(t)
    requires p in Ids(t) && p < |a| && Child(a[p], side) == Null && side != Root
    ensures Tagged(a, t, kind) ==> Tagged(AttachArena(a, p, side, k, v), Graft(t, p, side, |a|), kind)
    decreases t
  {
    AttachEntries(a, p, side, k, v);
    match t
    case Fork(l, i, r) =>
      ShapedWithin(a, a[i].left, l);
      ShapedWithin(a, a[i].right, r);
      if i == p {
        OffPath(a, r, p, side, k, v, a[i].right, Right, At(i), {});
        OffPath(a, l, p, side, k, v, a[i].left, Left, At(i), {});
      } else if p in Ids(l) {
        GraftTagged(a, a[i].left, l, p, side, k, v, Left);
        OffPath(a, r, p, side, k, v, a[i].right, Right, At(i), {});
      } else {
        GraftTagged(a, a[i].right, r, p, side, k, v, Right);
        OffPath(a, l, p, side, k, v, a[i].left, Left, At(i), {});
      }
  }

  /** The new node's parent is the node it hangs from; all other parent links stay. */
  lemma {:induction false} GraftLinked<V>(a: seq<Node<V>>, ptr: Ptr, t: Shape, p: nat, side: NodeType, k: int, v: V,
                                          par: Ptr, loose: set<nat>)
    requires Shaped(a, ptr, t) && Unique(t)
    requires p in Ids(t) && p < |a| && Child(a[p], side) == Null && side != Root
    ensures Linked(a, t, par, loose) ==> Linked(AttachArena(a, p, side, k, v), Graft(t, p, side, |a|), par, loose)
    decreases t
  {
    AttachEntries(a, p, side, k, v);
    match t
    case Fork(l, i, r) =>
      ShapedWithin(a, a[i].left, l);
      ShapedWithin(a, a[i].right, r);
      if i == p {
        OffPath(a, r, p, side, k, v, a[i].right, Right, At(i), loose);
        OffPath(a, l, p, side, k, v, a[i].left, Left, At(i), loose);
      } else if p in Ids(l) {
        GraftLinked(a, a[i].left, l, p, side, k, v, At(i), loose);
        OffPath(a, r, p, side, k, v, a[i].right, Right, At(i), loose);
      } else {
        GraftLinked(a, a[i].right, r, p, side, k, v, At(i), loose);
        OffPath(a, l, p, side, k, v, a[i].left, Left, At(i), loose);
      }
  }

  /** A subtree off the descent path is not touched. */
  lemma OffPathAgree<V>(a: seq<Node<V>>, t: Shape, p: nat, side: NodeType, k: int, v: V)
    requires p < |a| && Within(a, t) && p !in Ids(t)
    ensures Graft(t, p, side, |a|) == t
    ensures Agree(a, AttachArena(a, p, side, k, v), Ids(t))
  {
    GraftAbsent(t, p, side, |a|);
  }

  /** A subtree off the descent path is the same in both arenas. */
  lemma OffPath<V>(a: seq<Node<V>>, t: Shape, p: nat, side: NodeType, k: int, v: V, ptr: Ptr, kind: NodeType, par: Ptr, loose: set<nat>)
    requires p < |a| && Within(a, t) && p !in Ids(t)
    ensures Graft(t, p, side, |a|) == t
    ensures Shaped(a, ptr, t) == Shaped(AttachArena(a, p, side, k, v), ptr, t)
    ensures Tagged(a, t, kind) == Tagged(AttachArena(a, p, side, k, v), t, kind)
    ensures Linked(a, t, par, loose) == Linked(AttachArena(a, p, side, k, v), t, par, loose)
    ensures Pairs(a, t) == Pairs(AttachArena(a, p, side, k, v), t)
  {
    var b := AttachArena(a, p, side, k, v);
    GraftAbsent(t, p, side, |a|);
    assert Agree(a, b, Ids(t));
    AgreeShaped(a, b, t, ptr);
    AgreeTagged(a, b, t, kind);
    AgreeLinked(a, b, t, par, loose);
    AgreePairs(a, b, t);
  }

  /** The insertion changes no key already in the arena. */
  lemma AttachKeys<V>(a: seq<Node<V>>, p: nat, side: NodeType, k: int, v: V)
    requires p < |a|
    ensures forall j :: 0 <= j < |a| ==> AttachArena(a, p, side, k, v)[j].key == a[j].key
    ensures AttachArena(a, p, side, k, v)[|a|].key == k
  {
  }

  /** The descent puts the new key on the side of every node on its path that
      the BST order asks for, so the order survives the insertion. */
  lemma {:induction false} GraftOrdered<V>(cmp: (int, int) -> int, rep: bool, a: seq<Node<V>>, ptr: Ptr, t: Shape,
                                           k: int, v: V)
    requires Shaped(a, ptr, t) && Unique(t) && Ordered(cmp, rep, a, t)
    requires Descend(cmp, rep, a, t, k).Attach?
    ensures var s := Descend(cmp, rep, a, t, k);
      s.parent < |a| && Ordered(cmp, rep, AttachArena(a, s.parent, s.side, k, v), Graft(t, s.parent, s.side, |a|))
    decreases t
  {
    var s := Descend(cmp, rep, a, t, k);
    DescendFound(cmp, rep, a, ptr, t, k);
    var b := AttachArena(a, s.parent, s.side, k, v);
    var n := |a|;
    match t
    case Fork(l, i, r) =>
      ShapedWithin(a, a[i].left, l);
      ShapedWithin(a, a[i].right, r);
      AttachKeys(a, s.parent, s.side, k, v);
      var c := Adjust(cmp(k, a[i].key), rep);
      if c == 1 {
        DescendFound(cmp, rep, a, a[i].right, r, k);
        OffPathAgree(a, l, s.parent, s.side, k, v);
        var g := Graft(r, s.parent, s.side, n);
        if r == Empty {
          g := Fork(Empty, n, Empty);
        } else {
          GraftOrdered(cmp, rep, a, a[i].right, r, k, v);
          GraftIds(a, a[i].right, r, s.parent, s.side);
        }
        assert Graft(t, s.parent, s.side, n) == Fork(l, i, g);
        OrderedRightStep(cmp, rep, a, b, l, i, r, g, k);
      } else {
        DescendFound(cmp, rep, a, a[i].left, l, k);
        OffPathAgree(a, r, s.parent, s.side, k, v);
        var g := Graft(l, s.parent, s.side, n);
        if l == Empty {
          g := Fork(Empty, n, Empty);
        } else {
          GraftOrdered(cmp, rep, a, a[i].left, l, k, v);
          GraftIds(a, a[i].left, l, s.parent, s.side);
        }
        assert Graft(t, s.parent, s.side, n) == Fork(g, i, r);
        OrderedLeftStep(cmp, rep, a, b, l, i, r, g, k);
      }
  }

  /** One step of `GraftOrdered`: the new key went right of node `i`. */
  lemma OrderedRightStep<V>(cmp: (int, int) -> int, rep: bool, a: seq<Node<V>>, b: seq<Node<V>>,
                            l: Shape, i: nat, r: Shape, g: Shape, k: int)
    requires |b| == |a| + 1 && b[|a|].key == k && forall j :: 0 <= j < |a| ==> b[j].key == a[j].key
    requires i < |a| && Within(a, r) && Agree(a, b, Ids(l))
    requires Ordered(cmp, rep, a, Fork(l, i, r)) && Above(cmp(k, a[i].key), rep)
    requires Ids(g) == Ids(r) + {|a|} && Ordered(cmp, rep, b, g)
    ensures Ordered(cmp, rep, b, Fork(l, i, g))
  {
    AgreeOrdered(cmp, rep, a, b, l);
  }

  /** One step of `GraftOrdered`: the new key went left of node `i`. */
  lemma OrderedLeftStep<V>(cmp: (int, int) -> int, rep: bool, a: seq<Node<V>>, b: seq<Node<V>>,
                           l: Shape, i: nat, r: Shape, g: Shape, k: int)
    requires |b| == |a| + 1 && b[|a|].key == k && forall j :: 0 <= j < |a| ==> b[j].key == a[j].key
    requires i < |a| && Within(a, l) && Agree(a, b, Ids(r))
    requires Ordered(cmp, rep, a, Fork(l, i, r)) && Below(cmp(k, a[i].key), rep)
    requires Ids(g) == Ids(l) + {|a|} && Ordered(cmp, rep, b, g)
    ensures Ordered(cmp, rep, b, Fork(g, i, r))
  {
    AgreeOrdered(cmp, rep, a, b, r);
  }
}
