/** The read-only descents of packages/bst/src/BSTree.ts: `_findNode`
    (lines 318-327), `_getNextNode`/`_getPrevNode` (lines 242-252) and the
    `min`/`max` walks (lines 202-214), as functions on the shape, with the
    facts that make them searches. */
module Search {
  import opened Refs
  import opened Shapes

  function Sign(x: int): int
  {
    if x < 0 then -1 else if x > 0 then 1 else 0
  }

  /** The comparer orders keys by a ranking: the model's stand-in for a
      comparer that is a total preorder. */
  ghost predicate Ranked(cmp: (int, int) -> int, rank: int -> int)
  {
    forall x, y :: cmp(x, y) == Sign(rank(x) - rank(y))
  }

  predicate Sign3(c: int)
  {
    c == -1 || c == 0 || c == 1
  }

  /** The comparer answers -1, 0 or 1 for `k` against every key on the path
      the descent takes from the root of `t`: the condition under which
      `_findNode`'s loop advances at every step. */
  ghost predicate Comparable<V>(cmp: (int, int) -> int, a: seq<Node<V>>, t: Shape, k: int)
  {
    match t
    case Empty => true
    case Fork(l, i, r) =>
      i < |a| && Sign3(cmp(k, a[i].key)) &&
      (cmp(k, a[i].key) == -1 ==> Comparable(cmp, a, l, k)) &&
      (cmp(k, a[i].key) == 1 ==> Comparable(cmp, a, r, k))
  }

  /** The node `_findNode` stops at. (A result outside {-1, 0, 1} would make the
      loop spin; `Comparable` rules that out, and `None` stands in for it here.) */
  ghost function Locate<V>(cmp: (int, int) -> int, a: seq<Node<V>>, t: Shape, k: int): Option<nat>
  {
    match t
    case Empty => None
    case Fork(l, i, r) =>
      if i >= |a| then None
      else
        var c := cmp(k, a[i].key);
        if c == -1 then Locate(cmp, a, l, k)
        else if c == 1 then Locate(cmp, a, r, k)
        else if c == 0 then Some(i)
        else None
  }

  /** A found node is in the tree and its key compares equal. */
  lemma {:induction false} LocateSound<V>(cmp: (int, int) -> int, a: seq<Node<V>>, t: Shape, k: int)
    ensures Locate(cmp, a, t, k).Some? ==>
      Locate(cmp, a, t, k).value in Ids(t) && Locate(cmp, a, t, k).value < |a| &&
      cmp(k, a[Locate(cmp, a, t, k).value].key) == 0
  {
    match t
    case Empty =>
    case Fork(l, i, r) =>
      LocateSound(cmp, a, l, k);
      LocateSound(cmp, a, r, k);
  }

  /** In an ordered tree with a ranking comparer, the search misses only keys
      that compare equal to no key of the tree. */
  lemma {:induction false} LocateComplete<V>(cmp: (int, int) -> int, rank: int -> int, rep: bool,
                                             a: seq<Node<V>>, t: Shape, k: int)
    requires Ranked(cmp, rank) && Ordered(cmp, rep, a, t) && Within(a, t)
    ensures Locate(cmp, a, t, k).None? <==> forall j :: j in Ids(t) ==> cmp(k, a[j].key) != 0
  {
    match t
    case Empty =>
    case Fork(l, i, r) =>
      LocateComplete(cmp, rank, rep, a, l, k);
      LocateComplete(cmp, rank, rep, a, r, k);
      var c := cmp(k, a[i].key);
      if c == -1 {
        forall j | j in Ids(r) ensures cmp(k, a[j].key) != 0 {
          assert Above(cmp(a[j].key, a[i].key), rep);
        }
      } else if c == 1 {
        forall j | j in Ids(l) ensures cmp(k, a[j].key) != 0 {
          assert Below(cmp(a[j].key, a[i].key), rep);
        }
      }
  }

  /** The node `min` ends at: left links followed from the root. */
  function Leftmost(t: Shape): Option<nat>
  {
    match t
    case Empty => None
    case Fork(l, i, _) => if l == Empty then Some(i) else Leftmost(l)
  }

  /** The node `max` ends at: right links followed from the root. */
  function Rightmost(t: Shape): Option<nat>
  {
    match t
    case Empty => None
    case Fork(_, i, r) => if r == Empty then Some(i) else Rightmost(r)
  }

  /** The leftmost node is the first in in-order, and exists exactly when the tree does. */
  lemma {:induction false} LeftmostFirst(t: Shape)
    ensures Leftmost(t).None? <==> t == Empty
    ensures t != Empty ==> InOrder(t) != [] && Leftmost(t) == Some(InOrder(t)[0])
  {
    match t
    case Empty =>
    case Fork(l, i, r) =>
      LeftmostFirst(l);
  }

  /** The rightmost node is the last in in-order. */
  lemma {:induction false} RightmostLast(t: Shape)
    ensures Rightmost(t).None? <==> t == Empty
    ensures t != Empty ==> InOrder(t) != [] && Rightmost(t) == Some(InOrder(t)[|InOrder(t)| - 1])
  {
    match t
    case Empty =>
    case Fork(l, i, r) =>
      RightmostLast(r);
  }

  /** In an ordered tree the leftmost key ranks lowest: `min` is a minimum. */
  lemma {:induction false} LeftmostLeast<V>(cmp: (int, int) -> int, rank: int -> int, rep: bool,
                                            a: seq<Node<V>>, t: Shape)
    requires Ranked(cmp, rank) && Ordered(cmp, rep, a, t) && Within(a, t) && t != Empty
    ensures Leftmost(t).Some? && Leftmost(t).value in Ids(t)
    ensures forall j :: j in Ids(t) ==> rank(a[Leftmost(t).value].key) <= rank(a[j].key)
  {
    match t
    case Fork(l, i, r) =>
      if l != Empty {
        LeftmostLeast(cmp, rank, rep, a, l);
        var m := Leftmost(l).value;
        assert Below(cmp(a[m].key, a[i].key), rep);
        forall j | j in Ids(r) ensures rank(a[m].key) <= rank(a[j].key) {
          assert Above(cmp(a[j].key, a[i].key), rep);
        }
      } else {
        forall j | j in Ids(r) ensures rank(a[i].key) <= rank(a[j].key) {
          assert Above(cmp(a[j].key, a[i].key), rep);
        }
      }
  }

  /** In an ordered tree the rightmost key ranks highest: `max` is a maximum. */
  lemma {:induction false} RightmostGreatest<V>(cmp: (int, int) -> int, rank: int -> int, rep: bool,
                                                a: seq<Node<V>>, t: Shape)
    requires Ranked(cmp, rank) && Ordered(cmp, rep, a, t) && Within(a, t) && t != Empty
    ensures Rightmost(t).Some? && Rightmost(t).value in Ids(t)
    ensures forall j :: j in Ids(t) ==> rank(a[j].key) <= rank(a[Rightmost(t).value].key)
  {
    match t
    case Fork(l, i, r) =>
      if r != Empty {
        RightmostGreatest(cmp, rank, rep, a, r);
        var m := Rightmost(r).value;
        assert Above(cmp(a[m].key, a[i].key), rep);
        forall j | j in Ids(l) ensures rank(a[j].key) <= rank(a[m].key) {
          assert Below(cmp(a[j].key, a[i].key), rep);
        }
      } else {
        forall j | j in Ids(l) ensures rank(a[j].key) <= rank(a[i].key) {
          assert Below(cmp(a[j].key, a[i].key), rep);
        }
      }
  }

  /** The subtree of `t` rooted at node `x` (`Empty` when `x` is not in `t`). */
  function SubAt(t: Shape, x: nat): Shape
  {
    match t
    case Empty => Empty
    case Fork(l, i, r) =>
      if i == x then t
      else if x in Ids(l) then SubAt(l, x)
      else SubAt(r, x)
  }

  /** The subtree at a node of the tree is rooted there, and the arena traces it from that node. */
  lemma {:induction false} SubAtShaped<V>(a: seq<Node<V>>, p: Ptr, t: Shape, x: nat)
    requires Shaped(a, p, t) && x in Ids(t)
    ensures SubAt(t, x).Fork? && SubAt(t, x).id == x && Shaped(a, At(x), SubAt(t, x))
    ensures Ids(SubAt(t, x)) <= Ids(t)
    decreases t
  {
    match t
    case Fork(l, i, r) =>
      if i != x {
        if x in Ids(l) {
          SubAtShaped(a, a[i].left, l, x);
        } else {
          SubAtShaped(a, a[i].right, r, x);
        }
      }
  }

  /** `_getNextNode(x)`: the leftmost node of `x`'s right subtree. */
  function NextOf(t: Shape, x: nat): Option<nat>
  {
    match SubAt(t, x)
    case Empty => None
    case Fork(_, _, r) => Leftmost(r)
  }

  /** `_getPrevNode(x)`: the rightmost node of `x`'s left subtree. */
  function PrevOf(t: Shape, x: nat): Option<nat>
  {
    match SubAt(t, x)
    case Empty => None
    case Fork(l, _, _) => Rightmost(l)
  }

  /** `_getNextNode` is the in-order successor whenever it finds a node: the
      leftmost node of the right subtree comes right after `x` in in-order. */
  lemma {:induction false} NextFollows(t: Shape, x: nat)
    requires Unique(t) && x in Ids(t) && NextOf(t, x).Some?
    ensures exists m :: 0 <= m < |InOrder(t)| - 1 && InOrder(t)[m] == x && InOrder(t)[m + 1] == NextOf(t, x).value
  {
    match t
    case Fork(l, i, r) =>
      if i == x {
        LeftmostFirst(r);
        var m := |InOrder(l)|;
        assert InOrder(t)[m] == x;
        assert InOrder(t)[m + 1] == InOrder(r)[0];
      } else if x in Ids(l) {
        NextFollows(l, x);
        var m :| 0 <= m < |InOrder(l)| - 1 && InOrder(l)[m] == x &&
          InOrder(l)[m + 1] == NextOf(l, x).value;
        assert InOrder(t)[m] == InOrder(l)[m];
        assert InOrder(t)[m + 1] == InOrder(l)[m + 1];
      } else {
        NextFollows(r, x);
        var m :| 0 <= m < |InOrder(r)| - 1 && InOrder(r)[m] == x &&
          InOrder(r)[m + 1] == NextOf(r, x).value;
        var o := |InOrder(l)| + 1;
        assert InOrder(t)[o + m] == InOrder(r)[m];
        assert InOrder(t)[o + m + 1] == InOrder(r)[m + 1];
      }
  }

  /** `_getPrevNode` is the in-order predecessor whenever it finds a node. */
  lemma {:induction false} PrevPrecedes(t: Shape, x: nat)
    requires Unique(t) && x in Ids(t) && PrevOf(t, x).Some?
    ensures exists m :: 0 < m < |InOrder(t)| && InOrder(t)[m] == x && InOrder(t)[m - 1] == PrevOf(t, x).value
  {
    match t
    case Fork(l, i, r) =>
      if i == x {
        RightmostLast(l);
        var m := |InOrder(l)|;
        assert InOrder(t)[m] == x;
        assert InOrder(t)[m - 1] == InOrder(l)[m - 1];
      } else if x in Ids(l) {
        PrevPrecedes(l, x);
        var m :| 0 < m < |InOrder(l)| && InOrder(l)[m] == x &&
          InOrder(l)[m - 1] == PrevOf(l, x).value;
        assert InOrder(t)[m] == InOrder(l)[m];
        assert InOrder(t)[m - 1] == InOrder(l)[m - 1];
      } else {
        PrevPrecedes(r, x);
        var m :| 0 < m < |InOrder(r)| && InOrder(r)[m] == x &&
          InOrder(r)[m - 1] == PrevOf(r, x).value;
        var o := |InOrder(l)| + 1;
        assert InOrder(t)[o + m] == InOrder(r)[m];
        assert InOrder(t)[o + m - 1] == InOrder(r)[m - 1];
      }
  }

  /** The leftmost node of a tree has no left child. */
  lemma {:induction false} LeftmostSub(t: Shape)
    requires Unique(t) && Leftmost(t).Some?
    ensures Leftmost(t).value in Ids(t) && SubAt(t, Leftmost(t).value).Fork?
    ensures SubAt(t, Leftmost(t).value).left == Empty
  {
    match t
    case Fork(l, i, r) =>
      if l != Empty {
        LeftmostSub(l);
      }
  }

  /** The rightmost node of a tree has no right child. */
  lemma {:induction false} RightmostSub(t: Shape)
    requires Unique(t) && Rightmost(t).Some?
    ensures Rightmost(t).value in Ids(t) && SubAt(t, Rightmost(t).value).Fork?
    ensures SubAt(t, Rightmost(t).value).right == Empty
  {
    match t
    case Fork(l, i, r) =>
      if r != Empty {
        RightmostSub(r);
      }
  }

  /** The node `_getNextNode` finds lies strictly below `x` (so it is not the
      root) and has no left child. */
  lemma {:induction false} NextShape(t: Shape, x: nat)
    requires Unique(t) && x in Ids(t) && NextOf(t, x).Some?
    ensures NextOf(t, x).value in Ids(t) && NextOf(t, x).value != t.id && NextOf(t, x).value != x
    ensures SubAt(t, NextOf(t, x).value).Fork? && SubAt(t, NextOf(t, x).value).left == Empty
  {
    match t
    case Fork(l, i, r) =>
      if i == x {
        LeftmostSub(r);
      } else if x in Ids(l) {
        NextShape(l, x);
      } else {
        NextShape(r, x);
      }
  }

  /** The node `_getPrevNode` finds lies strictly below `x` and has no right child. */
  lemma {:induction false} PrevShape(t: Shape, x: nat)
    requires Unique(t) && x in Ids(t) && PrevOf(t, x).Some?
    ensures PrevOf(t, x).value in Ids(t) && PrevOf(t, x).value != t.id && PrevOf(t, x).value != x
    ensures SubAt(t, PrevOf(t, x).value).Fork? && SubAt(t, PrevOf(t, x).value).right == Empty
  {
    match t
    case Fork(l, i, r) =>
      if i == x {
        RightmostSub(l);
      } else if x in Ids(l) {
        PrevShape(l, x);
      } else {
        PrevShape(r, x);
      }
  }
}
