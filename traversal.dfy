/** What the traversals of packages/bst/src/BSTree.ts (lines 122-184) yield,
    as functions of the shape: the recursive orders, the work still pending
    on an explicit stack, and breadth-first order with depths. */
module Traversal {
  import opened Refs
  import opened Shapes
  import opened Search
  import opened Order

  /** The `[value, key]` pairs the traversals yield for the listed nodes. */
  ghost function Yields<V>(a: seq<Node<V>>, ids: seq<nat>): (y: seq<(V, int)>)
    requires forall j :: 0 <= j < |ids| ==> ids[j] < |a|
    ensures |y| == |ids|
    ensures forall j :: 0 <= j < |ids| ==> y[j] == (a[ids[j]].value, a[ids[j]].key)
  {
    seq(|ids|, j requires 0 <= j < |ids| => (a[ids[j]].value, a[ids[j]].key))
  }

  /** Each traversal lists every node of the tree. */
  lemma {:induction false} OrdersCover(t: Shape)
    ensures forall i :: i in Ids(t) <==> i in PreOrder(t)
    ensures forall i :: i in Ids(t) <==> i in PostOrder(t)
    ensures forall i :: i in Ids(t) <==> i in InOrder(t)
  {
    match t
    case Empty =>
    case Fork(l, x, r) =>
      OrdersCover(l);
      OrdersCover(r);
  }

  /** Pre-order and post-order list the same nodes as in-order, each as often. */
  lemma {:induction false} OrdersPermute(t: Shape)
    ensures multiset(PreOrder(t)) == multiset(InOrder(t))
    ensures multiset(PostOrder(t)) == multiset(InOrder(t))
    ensures |PreOrder(t)| == |PostOrder(t)| == |InOrder(t)| == Count(t)
  {
    match t
    case Empty =>
    case Fork(l, x, r) =>
      OrdersPermute(l);
      OrdersPermute(r);
      assert multiset(PreOrder(t)) == multiset([x]) + multiset(PreOrder(l)) + multiset(PreOrder(r));
      assert multiset(PostOrder(t)) == multiset(PostOrder(l)) + multiset(PostOrder(r)) + multiset([x]);
      assert multiset(InOrder(t)) == multiset(InOrder(l)) + multiset([x]) + multiset(InOrder(r));
  }

  lemma OrdersWithin<V>(a: seq<Node<V>>, t: Shape)
    requires Within(a, t)
    ensures forall j :: 0 <= j < |PreOrder(t)| ==> PreOrder(t)[j] < |a|
    ensures forall j :: 0 <= j < |InOrder(t)| ==> InOrder(t)[j] < |a|
    ensures forall j :: 0 <= j < |PostOrder(t)| ==> PostOrder(t)[j] < |a|
  {
    OrdersCover(t);
    assert forall j :: 0 <= j < |PreOrder(t)| ==> PreOrder(t)[j] in PreOrder(t);
    assert forall j :: 0 <= j < |PostOrder(t)| ==> PostOrder(t)[j] in PostOrder(t);
    assert forall j :: 0 <= j < |InOrder(t)| ==> InOrder(t)[j] in InOrder(t);
  }

  /** What `preorder()` yields. */
  ghost function PreWalk<V>(a: seq<Node<V>>, t: Shape): seq<(V, int)>
    requires Within(a, t)
  {
    OrdersWithin(a, t);
    Yields(a, PreOrder(t))
  }

  /** What `inorder()` yields. */
  ghost function InWalk<V>(a: seq<Node<V>>, t: Shape): seq<(V, int)>
    requires Within(a, t)
  {
    OrdersWithin(a, t);
    Yields(a, InOrder(t))
  }

  /** What `postorder()` yields. */
  ghost function PostWalk<V>(a: seq<Node<V>>, t: Shape): seq<(V, int)>
    requires Within(a, t)
  {
    OrdersWithin(a, t);
    Yields(a, PostOrder(t))
  }

  /** `inorder()` yields the in-order listing with each pair turned round. */
  lemma InWalkListing<V>(a: seq<Node<V>>, t: Shape)
    requires Within(a, t)
    ensures |InWalk(a, t)| == |Listing(a, t)|
    ensures forall j :: 0 <= j < |InWalk(a, t)| ==>
      InWalk(a, t)[j].0 == Listing(a, t)[j].1 && InWalk(a, t)[j].1 == Listing(a, t)[j].0
  {
  }

  /** Under a ranking comparer, `inorder()` of an ordered tree yields keys in
      ascending rank, strictly so unless duplicates are allowed. */
  lemma InWalkAscending<V>(cmp: (int, int) -> int, rank: int -> int, rep: bool, a: seq<Node<V>>, t: Shape)
    requires Ranked(cmp, rank) && Within(a, t) && Ordered(cmp, rep, a, t)
    ensures forall i, j :: 0 <= i < j < |InWalk(a, t)| ==> Before(rank(InWalk(a, t)[i].1), rank(InWalk(a, t)[j].1), rep)
  {
    OrderedAscending(cmp, rank, rep, a, t);
    InWalkListing(a, t);
  }

  /** A sequence without repeats: every element occurs once. */
  predicate Distinct<T(==)>(s: seq<T>)
  {
    forall i, j :: 0 <= i < j < |s| ==> s[i] != s[j]
  }

  lemma DistinctAppend<T>(x: seq<T>, y: seq<T>)
    requires Distinct(x) && Distinct(y) && (forall e :: e in x ==> e !in y)
    ensures Distinct(x + y)
  {
    forall i, j | 0 <= i < j < |x + y| ensures (x + y)[i] != (x + y)[j] {
      if j >= |x| && i < |x| {
        assert (x + y)[i] in x && (x + y)[j] in y;
      }
    }
  }

  /** In a tree without repeated positions post-order has no repeats. */
  lemma {:induction false} PostOrderDistinct(t: Shape)
    requires Unique(t)
    ensures Distinct(PostOrder(t))
  {
    match t
    case Empty =>
    case Fork(l, x, r) =>
      PostOrderDistinct(l);
      PostOrderDistinct(r);
      OrdersCover(l);
      OrdersCover(r);
      DistinctAppend(PostOrder(l), PostOrder(r));
      DistinctAppend(PostOrder(l) + PostOrder(r), [x]);
  }

  lemma {:induction false} PreOrderDistinct(t: Shape)
    requires Unique(t)
    ensures Distinct(PreOrder(t))
  {
    match t
    case Empty =>
    case Fork(l, x, r) =>
      PreOrderDistinct(l);
      PreOrderDistinct(r);
      OrdersCover(l);
      OrdersCover(r);
      DistinctAppend(PreOrder(l), PreOrder(r));
      assert x !in PreOrder(l) + PreOrder(r);
      DistinctAppend([x], PreOrder(l) + PreOrder(r));
      SeqAssoc3([x], PreOrder(l), PreOrder(r));
  }

  /** The subtree of a child of a node is found by the child's own position. */
  lemma {:induction false} SubAtChild(t: Shape, x: nat)
    requires Unique(t) && x in Ids(t)
    ensures SubAt(t, x).Fork? && SubAt(t, x).id == x
    ensures SubAt(t, x).left.Fork? ==> SubAt(t, x).left.id in Ids(t) && SubAt(t, SubAt(t, x).left.id) == SubAt(t, x).left
    ensures SubAt(t, x).right.Fork? ==> SubAt(t, x).right.id in Ids(t) && SubAt(t, SubAt(t, x).right.id) == SubAt(t, x).right
  {
    match t
    case Fork(l, i, r) =>
      if i == x {
        if l.Fork? { SubAtSelf(l); }
        if r.Fork? { SubAtSelf(r); }
      } else if x in Ids(l) {
        SubAtChild(l, x);
      } else {
        SubAtChild(r, x);
      }
  }

  lemma SubAtSelf(t: Shape)
    requires t.Fork?
    ensures SubAt(t, t.id) == t
  {
  }

  /** The right subtree of a stacked node. */
  function RightOf(s: Shape): Shape
  {
    if s.Fork? then s.right else Empty
  }

  /** In-order work left on a stack of subtrees: each entry, from the top
      down, still has its root and then its right subtree to yield. */
  function PendingIn(stack: seq<Shape>): seq<nat>
  {
    if stack == [] then []
    else
      var s := stack[|stack| - 1];
      (if s.Fork? then [s.id] else []) + InOrder(RightOf(s)) + PendingIn(stack[..|stack| - 1])
  }

  /** Pre-order work left on a stack of subtrees: the right subtree of each entry. */
  function PendingPre(stack: seq<Shape>): seq<nat>
  {
    if stack == [] then []
    else PreOrder(RightOf(stack[|stack| - 1])) + PendingPre(stack[..|stack| - 1])
  }

  /** Post-order work left on a stack of subtrees: an entry whose right subtree
      has not been entered (`inRight` false) still has that subtree and then
      its root to yield; one whose right subtree is being walked, its root only. */
  function PendingPost(stack: seq<Shape>, inRight: seq<bool>): seq<nat>
    requires |inRight| == |stack|
  {
    if stack == [] then []
    else
      var s := stack[|stack| - 1];
      (if inRight[|stack| - 1] then [] else PostOrder(RightOf(s))) +
      (if s.Fork? then [s.id] else []) +
      PendingPost(stack[..|stack| - 1], inRight[..|stack| - 1])
  }

  lemma YieldsAppend<V>(a: seq<Node<V>>, ids: seq<nat>, i: nat)
    requires forall j :: 0 <= j < |ids| ==> ids[j] < |a|
    requires i < |a|
    ensures forall j :: 0 <= j < |ids + [i]| ==> (ids + [i])[j] < |a|
    ensures Yields(a, ids + [i]) == Yields(a, ids) + [(a[i].value, a[i].key)]
  {
  }

  /** Pre-order: yielding a subtree's root and stacking it leaves its left
      subtree to walk, and its right subtree pending. */
  lemma PrePush(done: seq<nat>, s: Shape, frames: seq<Shape>)
    requires s.Fork?
    ensures done + PreOrder(s) + PendingPre(frames) == (done + [s.id]) + PreOrder(s.left) + PendingPre(frames + [s])
  {
    assert (frames + [s])[..|frames|] == frames;
    var left, right, rest := PreOrder(s.left), PreOrder(s.right), PendingPre(frames);
    assert PendingPre(frames + [s]) == right + rest;
    SeqAssoc(done + [s.id], left, right, rest);
    SeqAssoc2(done, [s.id], left, right);
  }

  /** Pre-order: popping a finished entry leaves its right subtree to walk. */
  lemma PrePop(done: seq<nat>, frames: seq<Shape>)
    requires frames != []
    ensures done + PreOrder(Empty) + PendingPre(frames) ==
      done + PreOrder(RightOf(frames[|frames| - 1])) + PendingPre(frames[..|frames| - 1])
  {
    var right, rest := PreOrder(RightOf(frames[|frames| - 1])), PendingPre(frames[..|frames| - 1]);
    assert PendingPre(frames) == right + rest;
    assert done + PreOrder(Empty) == done;
    SeqAssoc3(done, right, rest);
  }

  /** In-order: stacking a subtree's root leaves its left subtree to walk. */
  lemma InPush(done: seq<nat>, s: Shape, frames: seq<Shape>)
    requires s.Fork?
    ensures done + InOrder(s) + PendingIn(frames) == done + InOrder(s.left) + PendingIn(frames + [s])
  {
    assert (frames + [s])[..|frames|] == frames;
    var left, right, rest := InOrder(s.left), InOrder(s.right), PendingIn(frames);
    assert PendingIn(frames + [s]) == [s.id] + right + rest;
    SeqAssoc(left, [s.id], right, rest);
    SeqAssoc3(done, left + [s.id] + right, rest);
    SeqAssoc3(done, left, [s.id] + right + rest);
  }

  /** In-order: popping an entry yields its root and leaves its right subtree to walk. */
  lemma InPop(done: seq<nat>, frames: seq<Shape>)
    requires frames != [] && frames[|frames| - 1].Fork?
    ensures done + InOrder(Empty) + PendingIn(frames) ==
      (done + [frames[|frames| - 1].id]) + InOrder(RightOf(frames[|frames| - 1])) + PendingIn(frames[..|frames| - 1])
  {
    var s := frames[|frames| - 1];
    var right, rest := InOrder(RightOf(s)), PendingIn(frames[..|frames| - 1]);
    assert PendingIn(frames) == [s.id] + right + rest;
    assert done + InOrder(Empty) == done;
    SeqAssoc2(done, [s.id], right, rest);
  }

  /** The state of `postorder()` over tree `t`: `done` yielded, `cur` being
      walked, `frames` stacked (`inRight` marking those turned right), and
      `visited` the node yielded last. */
  ghost predicate PostInv(t: Shape, done: seq<nat>, cur: Shape, frames: seq<Shape>, inRight: seq<bool>, visited: Ptr)
  {
    |inRight| == |frames| && (forall i :: 0 <= i < |frames| ==> frames[i].Fork?) &&
    Distinct(PostOrder(t)) &&
    done + PostOrder(cur) + PendingPost(frames, inRight) == PostOrder(t) &&
    visited == (if done == [] then Null else At(done[|done| - 1])) &&
    Chain(frames, inRight, cur, visited)
  }

  lemma PostInvPush(t: Shape, done: seq<nat>, cur: Shape, frames: seq<Shape>, inRight: seq<bool>, visited: Ptr)
    requires PostInv(t, done, cur, frames, inRight, visited) && cur.Fork?
    ensures PostInv(t, done, cur.left, frames + [cur], inRight + [false], visited)
    ensures 2 * Count(cur.left) + PostWork(frames + [cur], inRight + [false]) < 2 * Count(cur) + PostWork(frames, inRight)
  {
    PostPush(done, cur, frames, inRight);
    PendingPostPush(cur, frames, inRight);
    ChainPush(frames, inRight, cur, visited);
  }

  /** When stuck, `postorder()` turns right exactly when the top entry has a
      right subtree it has not entered yet, which it tells by that subtree's
      root not being the node yielded last. */
  lemma PostInvStuck(t: Shape, done: seq<nat>, frames: seq<Shape>, inRight: seq<bool>, visited: Ptr)
    requires PostInv(t, done, Empty, frames, inRight, visited) && frames != []
    ensures var k := |frames| - 1;
      RightOf(frames[k]).Fork? && visited != At(RightOf(frames[k]).id) <==> RightOf(frames[k]).Fork? && !inRight[k]
  {
    var k := |frames| - 1;
    assert done + PendingPost(frames, inRight) == PostOrder(t);
    if RightOf(frames[k]).Fork? && !inRight[k] && done != [] {
      PostTurned(done, frames, inRight);
    }
  }

  lemma PostInvRight(t: Shape, done: seq<nat>, frames: seq<Shape>, inRight: seq<bool>, visited: Ptr)
    requires PostInv(t, done, Empty, frames, inRight, visited) && frames != []
    requires !inRight[|frames| - 1] && RightOf(frames[|frames| - 1]).Fork?
    ensures var k := |frames| - 1;
      PostInv(t, done, RightOf(frames[k]), frames, inRight[k := true], visited) &&
      2 * Count(RightOf(frames[k])) + PostWork(frames, inRight[k := true]) < 2 * Count(Empty) + PostWork(frames, inRight)
  {
    PostRight(done, frames, inRight);
    ChainRight(frames, inRight, visited);
  }

  lemma PostInvPop(t: Shape, done: seq<nat>, frames: seq<Shape>, inRight: seq<bool>, visited: Ptr)
    requires PostInv(t, done, Empty, frames, inRight, visited) && frames != []
    requires inRight[|frames| - 1] || RightOf(frames[|frames| - 1]).Empty?
    ensures var k := |frames| - 1;
      PostInv(t, done + [frames[k].id], Empty, frames[..k], inRight[..k], At(frames[k].id)) &&
      |done| < |PostOrder(t)|
  {
    var k := |frames| - 1;
    PostPop(done, frames, inRight);
    ChainPop(frames, inRight, visited);
  }

  /** A bound on the steps left to `postorder()` for a stack of subtrees: an
      entry whose right subtree has not been entered has its right subtree's
      nodes to push, each pushed node to turn right and the entry itself to
      turn right. */
  function PostWork(stack: seq<Shape>, inRight: seq<bool>): nat
    requires |inRight| == |stack|
  {
    if stack == [] then 0
    else
      (if inRight[|stack| - 1] then 0 else 2 * Count(RightOf(stack[|stack| - 1])) + 1) +
      PostWork(stack[..|stack| - 1], inRight[..|stack| - 1])
  }

  /** Post-order: stacking a subtree's root leaves its left subtree to walk,
      with its right subtree and itself pending. */
  lemma PostPush(done: seq<nat>, s: Shape, frames: seq<Shape>, inRight: seq<bool>)
    requires s.Fork? && |inRight| == |frames|
    ensures done + PostOrder(s) + PendingPost(frames, inRight) ==
      done + PostOrder(s.left) + PendingPost(frames + [s], inRight + [false])
  {
    PendingPostPush(s, frames, inRight);
    Regroup(done, PostOrder(s.left), PostOrder(s.right), s.id, PendingPost(frames, inRight));
  }

  lemma Regroup(A: seq<nat>, L: seq<nat>, R: seq<nat>, x: nat, P: seq<nat>)
    ensures A + (L + R + [x]) + P == A + L + (R + [x] + P)
  {
  }

  lemma PendingPostPush(s: Shape, frames: seq<Shape>, inRight: seq<bool>)
    requires s.Fork? && |inRight| == |frames|
    ensures PendingPost(frames + [s], inRight + [false]) == PostOrder(s.right) + [s.id] + PendingPost(frames, inRight)
    ensures PostWork(frames + [s], inRight + [false]) == 2 * Count(s.right) + 1 + PostWork(frames, inRight)
  {
    assert (frames + [s])[..|frames|] == frames;
    assert (inRight + [false])[..|frames|] == inRight;
  }

  /** Post-order: turning into the top entry's right subtree. */
  lemma PostRight(done: seq<nat>, frames: seq<Shape>, inRight: seq<bool>)
    requires frames != [] && |inRight| == |frames| && !inRight[|frames| - 1]
    ensures done + PostOrder(Empty) + PendingPost(frames, inRight) ==
      done + PostOrder(RightOf(frames[|frames| - 1])) + PendingPost(frames, inRight[|frames| - 1 := true])
    ensures PostWork(frames, inRight[|frames| - 1 := true]) + 2 * Count(RightOf(frames[|frames| - 1])) + 1 ==
      PostWork(frames, inRight)
  {
    var k := |frames| - 1;
    var s, turned := frames[k], inRight[k := true];
    assert turned[..k] == inRight[..k] && turned[k];
    var root := if s.Fork? then [s.id] else [];
    var rest := PendingPost(frames[..k], inRight[..k]);
    assert PendingPost(frames, inRight) == PostOrder(RightOf(s)) + root + rest;
    assert PendingPost(frames, turned) == [] + root + rest;
    assert done + PostOrder(Empty) == done;
    assert done + (PostOrder(RightOf(s)) + root + rest) == done + PostOrder(RightOf(s)) + ([] + root + rest);
    assert PostWork(frames, turned) == PostWork(frames[..k], inRight[..k]);
  }

  /** Post-order: popping an entry whose right subtree is done or empty yields its root. */
  lemma PostPop(done: seq<nat>, frames: seq<Shape>, inRight: seq<bool>)
    requires frames != [] && |inRight| == |frames| && frames[|frames| - 1].Fork?
    requires inRight[|frames| - 1] || RightOf(frames[|frames| - 1]) == Empty
    ensures done + PostOrder(Empty) + PendingPost(frames, inRight) ==
      (done + [frames[|frames| - 1].id]) + PostOrder(Empty) + PendingPost(frames[..|frames| - 1], inRight[..|frames| - 1])
  {
    var k := |frames| - 1;
    var rest := PendingPost(frames[..k], inRight[..k]);
    var front: seq<nat> := if inRight[k] then [] else PostOrder(RightOf(frames[k]));
    assert PendingPost(frames, inRight) == front + [frames[k].id] + rest;
    assert front == [] && PostOrder(Empty) == [];
    assert front + [frames[k].id] == [frames[k].id];
    SeqAssoc3(done, [frames[k].id], rest);
  }

  /** Post-order: the node yielded last is not the root of a right subtree
      still pending, since post-order lists each node once. */
  lemma PostTurned(done: seq<nat>, frames: seq<Shape>, inRight: seq<bool>)
    requires frames != [] && |inRight| == |frames| && !inRight[|frames| - 1]
    requires RightOf(frames[|frames| - 1]).Fork? && done != []
    requires Distinct(done + PendingPost(frames, inRight))
    ensures done[|done| - 1] != RightOf(frames[|frames| - 1]).id
  {
    var r := RightOf(frames[|frames| - 1]);
    OrdersCover(r);
    var rest := PendingPost(frames, inRight);
    assert r.id in rest;
    var k :| 0 <= k < |rest| && rest[k] == r.id;
    assert (done + rest)[|done| + k] == r.id;
    assert (done + rest)[|done| - 1] == done[|done| - 1];
  }

  /** How `postorder()` knows it has come back from a right subtree: an entry
      turned right has its right subtree stacked just above it, or being
      walked, or just finished, in which case the node yielded last
      (`visited`) is that subtree's root. */
  ghost predicate Chain(frames: seq<Shape>, inRight: seq<bool>, cur: Shape, visited: Ptr)
    requires |inRight| == |frames|
  {
    forall i {:trigger inRight[i]} :: 0 <= i < |frames| && inRight[i] ==>
      RightOf(frames[i]).Fork? &&
      (if i + 1 < |frames| then frames[i + 1] == RightOf(frames[i])
       else cur == RightOf(frames[i]) || (cur == Empty && visited == At(RightOf(frames[i]).id)))
  }

  lemma ChainPush(frames: seq<Shape>, inRight: seq<bool>, cur: Shape, visited: Ptr)
    requires |inRight| == |frames| && cur.Fork? && Chain(frames, inRight, cur, visited)
    ensures Chain(frames + [cur], inRight + [false], cur.left, visited)
  {
    var f, b := frames + [cur], inRight + [false];
    forall i | 0 <= i < |f| && b[i]
      ensures RightOf(f[i]).Fork? &&
        (if i + 1 < |f| then f[i + 1] == RightOf(f[i])
         else cur.left == RightOf(f[i]) || (cur.left == Empty && visited == At(RightOf(f[i]).id)))
    {
      assert i < |frames| && f[i] == frames[i] && inRight[i];
      if i + 1 < |frames| {
        assert f[i + 1] == frames[i + 1];
      } else {
        assert f[i + 1] == cur;
      }
    }
  }

  lemma ChainRight(frames: seq<Shape>, inRight: seq<bool>, visited: Ptr)
    requires frames != [] && |inRight| == |frames| && Chain(frames, inRight, Empty, visited)
    requires RightOf(frames[|frames| - 1]).Fork?
    ensures Chain(frames, inRight[|frames| - 1 := true], RightOf(frames[|frames| - 1]), visited)
  {
  }

  lemma ChainPop(frames: seq<Shape>, inRight: seq<bool>, visited: Ptr)
    requires frames != [] && |inRight| == |frames| && Chain(frames, inRight, Empty, visited)
    requires frames[|frames| - 1].Fork?
    ensures Chain(frames[..|frames| - 1], inRight[..|frames| - 1], Empty, At(frames[|frames| - 1].id))
  {
    var k := |frames| - 1;
    forall i | 0 <= i < k && inRight[i]
      ensures RightOf(frames[i]).Fork? &&
        (if i + 1 < k then frames[i + 1] == RightOf(frames[i])
         else Empty == RightOf(frames[i]) || At(frames[k].id) == At(RightOf(frames[i]).id))
    {
    }
  }

  /** The number of nodes in a queue of subtrees. */
  function QueueCount(q: seq<(Shape, nat)>): nat
  {
    if q == [] then 0 else Count(q[0].0) + QueueCount(q[1..])
  }

  lemma QueueCountAppend(p: seq<(Shape, nat)>, q: seq<(Shape, nat)>)
    ensures QueueCount(p + q) == QueueCount(p) + QueueCount(q)
  {
    if p != [] {
      assert (p + q)[0] == p[0];
      assert (p + q)[1..] == p[1..] + q;
      QueueCountAppend(p[1..], q);
    } else {
      assert p + q == q;
    }
  }

  /** The non-empty children of a subtree, one level deeper. */
  function Children(s: Shape, d: nat): seq<(Shape, nat)>
  {
    match s
    case Empty => []
    case Fork(l, _, r) =>
      (if l.Fork? then [(l, d + 1)] else []) + (if r.Fork? then [(r, d + 1)] else [])
  }

  lemma ChildrenCount(s: Shape, d: nat)
    requires s.Fork?
    ensures QueueCount(Children(s, d)) + 1 == Count(s)
  {
    var Fork(l, _, r) := s;
    var cl: seq<(Shape, nat)> := if l.Fork? then [(l, d + 1)] else [];
    var cr: seq<(Shape, nat)> := if r.Fork? then [(r, d + 1)] else [];
    QueueCountAppend(cl, cr);
    assert QueueCount(cl) == Count(l);
    assert QueueCount(cr) == Count(r);
  }

  /** Breadth-first order with depths: the queue's front subtree yields its
      root, and its children join the back of the queue. */
  ghost function Bfs(q: seq<(Shape, nat)>): seq<(nat, nat)>
    decreases QueueCount(q), |q|
  {
    if q == [] then []
    else
      var (s, d) := q[0];
      if s.Empty? then Bfs(q[1..])
      else
        QueueCountAppend(q[1..], Children(s, d));
        ChildrenCount(s, d);
        [(s.id, d)] + Bfs(q[1..] + Children(s, d))
  }

  lemma BfsStep(q: seq<(Shape, nat)>)
    requires q != [] && q[0].0.Fork?
    ensures Bfs(q) == [(q[0].0.id, q[0].1)] + Bfs(q[1..] + Children(q[0].0, q[0].1))
    ensures QueueCount(q[1..] + Children(q[0].0, q[0].1)) + 1 == QueueCount(q)
  {
    QueueCountAppend(q[1..], Children(q[0].0, q[0].1));
    ChildrenCount(q[0].0, q[0].1);
  }
  /** One dequeue step of the walk, seen from the entries already yielded. */
  lemma BfsAdvance(done: seq<(nat, nat)>, q: seq<(Shape, nat)>)
    requires q != [] && q[0].0.Fork?
    ensures done + [(q[0].0.id, q[0].1)] + Bfs(q[1..] + Children(q[0].0, q[0].1)) == done + Bfs(q)
    ensures QueueCount(q[1..] + Children(q[0].0, q[0].1)) + 1 == QueueCount(q)
  {
    BfsStep(q);
    var e := [(q[0].0.id, q[0].1)];
    var rest := Bfs(q[1..] + Children(q[0].0, q[0].1));
    assert done + e + rest == done + (e + rest);
  }


  /** Every subtree in the queue has its nodes in the arena. */
  ghost predicate QueueWithin<V>(a: seq<Node<V>>, q: seq<(Shape, nat)>)
  {
    forall i :: 0 <= i < |q| ==> Within(a, q[i].0)
  }

  lemma {:induction false} BfsWithin<V>(a: seq<Node<V>>, q: seq<(Shape, nat)>)
    requires QueueWithin(a, q)
    ensures forall j :: 0 <= j < |Bfs(q)| ==> Bfs(q)[j].0 < |a|
    decreases QueueCount(q), |q|
  {
    if q != [] {
      var (s, d) := q[0];
      assert Within(a, s);
      if s.Empty? {
        BfsWithin(a, q[1..]);
      } else {
        var q' := q[1..] + Children(s, d);
        BfsStep(q);
        WithinFork(a, s.left, s.id, s.right);
        assert QueueWithin(a, q') by {
          forall i | 0 <= i < |q'| ensures Within(a, q'[i].0) {
            if i >= |q| - 1 {
              assert q'[i] in Children(s, d);
            } else {
              assert q'[i] == q[i + 1];
            }
          }
        }
        BfsWithin(a, q');
        forall j | 0 <= j < |Bfs(q)| ensures Bfs(q)[j].0 < |a| {
          if j > 0 { assert Bfs(q)[j] == Bfs(q')[j - 1]; }
        }
      }
    }
  }

  /** The `[value, key, depth]` triples `sequence()` yields for the listed
      nodes and depths. */
  ghost function Triples<V>(a: seq<Node<V>>, bs: seq<(nat, nat)>): (y: seq<(V, int, nat)>)
    requires forall j :: 0 <= j < |bs| ==> bs[j].0 < |a|
    ensures |y| == |bs|
    ensures forall j :: 0 <= j < |bs| ==> y[j] == (a[bs[j].0].value, a[bs[j].0].key, bs[j].1)
  {
    seq(|bs|, j requires 0 <= j < |bs| => (a[bs[j].0].value, a[bs[j].0].key, bs[j].1))
  }

  lemma TriplesAppend<V>(a: seq<Node<V>>, bs: seq<(nat, nat)>, b: (nat, nat))
    requires forall j :: 0 <= j < |bs| ==> bs[j].0 < |a|
    requires b.0 < |a|
    ensures forall j :: 0 <= j < |bs + [b]| ==> (bs + [b])[j].0 < |a|
    ensures Triples(a, bs + [b]) == Triples(a, bs) + [(a[b.0].value, a[b.0].key, b.1)]
  {
  }

  /** What `sequence()` yields: level order from the root at depth 1. */
  ghost function LevelWalk<V>(a: seq<Node<V>>, t: Shape): seq<(V, int, nat)>
    requires Within(a, t)
  {
    BfsWithin(a, [(t, 1)]);
    Triples(a, Bfs([(t, 1)]))
  }

  /** The nodes of the queued subtrees, counted with multiplicity. */
  ghost function QueueBag(q: seq<(Shape, nat)>): multiset<nat>
  {
    if q == [] then multiset{} else multiset(InOrder(q[0].0)) + QueueBag(q[1..])
  }

  lemma QueueBagAppend(p: seq<(Shape, nat)>, q: seq<(Shape, nat)>)
    ensures QueueBag(p + q) == QueueBag(p) + QueueBag(q)
  {
    if p != [] {
      assert (p + q)[0] == p[0];
      assert (p + q)[1..] == p[1..] + q;
      QueueBagAppend(p[1..], q);
    } else {
      assert p + q == q;
    }
  }

  /** The node positions of a level-order listing. */
  function NodesOf(bs: seq<(nat, nat)>): (ns: seq<nat>)
    ensures |ns| == |bs| && forall j :: 0 <= j < |bs| ==> ns[j] == bs[j].0
  {
    seq(|bs|, j requires 0 <= j < |bs| => bs[j].0)
  }

  lemma QueueBagSingle(e: (Shape, nat))
    ensures QueueBag([e]) == multiset(InOrder(e.0))
  {
    assert [e][1..] == [];
  }

  lemma ChildrenBag(s: Shape, d: nat)
    requires s.Fork?
    ensures multiset{s.id} + QueueBag(Children(s, d)) == multiset(InOrder(s))
  {
    var Fork(l, x, r) := s;
    var cl: seq<(Shape, nat)> := if l.Fork? then [(l, d + 1)] else [];
    var cr: seq<(Shape, nat)> := if r.Fork? then [(r, d + 1)] else [];
    QueueBagAppend(cl, cr);
    QueueBagSingle((l, d + 1));
    QueueBagSingle((r, d + 1));
    assert InOrder(s) == InOrder(l) + [x] + InOrder(r);
  }

  lemma NodesOfCons(b: (nat, nat), bs: seq<(nat, nat)>)
    ensures NodesOf([b] + bs) == [b.0] + NodesOf(bs)
    ensures multiset(NodesOf([b] + bs)) == multiset{b.0} + multiset(NodesOf(bs))
  {
    assert NodesOf([b] + bs) == [b.0] + NodesOf(bs);
  }

  /** Level order lists every queued node, once per occurrence. */
  lemma {:induction false} BfsBag(q: seq<(Shape, nat)>)
    ensures multiset(NodesOf(Bfs(q))) == QueueBag(q)
    decreases QueueCount(q), |q|
  {
    if q != [] {
      var (s, d) := q[0];
      if s.Empty? {
        BfsBag(q[1..]);
      } else {
        var q' := q[1..] + Children(s, d);
        BfsStep(q);
        BfsBag(q');
        QueueBagAppend(q[1..], Children(s, d));
        ChildrenBag(s, d);
        NodesOfCons((s.id, d), Bfs(q'));
        assert multiset(NodesOf(Bfs(q))) == multiset{s.id} + multiset(NodesOf(Bfs(q')));
      }
    }
  }

  /** `sequence()` lists each node of the tree exactly as often as in-order
      does: once, in a tree without repeated positions. */
  lemma LevelOrderCovers(t: Shape)
    ensures multiset(NodesOf(Bfs([(t, 1)]))) == multiset(InOrder(t))
  {
    BfsBag([(t, 1)]);
    assert [(t, 1)][1..] == [];
  }

  /** The queue holds depths in nondecreasing order, spanning at most one level. */
  ghost predicate Levelled(q: seq<(Shape, nat)>)
  {
    (forall i, j :: 0 <= i < j < |q| ==> q[i].1 <= q[j].1) &&
    (q != [] ==> q[|q| - 1].1 <= q[0].1 + 1)
  }

  lemma {:induction false} BfsAbove(q: seq<(Shape, nat)>, lo: nat)
    requires forall i :: 0 <= i < |q| ==> lo <= q[i].1
    ensures forall j :: 0 <= j < |Bfs(q)| ==> lo <= Bfs(q)[j].1
    decreases QueueCount(q), |q|
  {
    if q != [] {
      var (s, d) := q[0];
      if s.Empty? {
        BfsAbove(q[1..], lo);
      } else {
        var q' := q[1..] + Children(s, d);
        BfsStep(q);
        assert forall i :: 0 <= i < |q'| ==> lo <= q'[i].1 by {
          forall i | 0 <= i < |q'| ensures lo <= q'[i].1 {
            if i >= |q| - 1 {
              assert q'[i] in Children(s, d);
            } else {
              assert q'[i] == q[i + 1];
            }
          }
        }
        BfsAbove(q', lo);
      }
    }
  }

  /** A dequeue step from a levelled queue leaves a levelled queue, none of
      whose depths is below the dequeued one. */
  lemma LevelledStep(q: seq<(Shape, nat)>)
    requires Levelled(q) && q != []
    ensures var q' := q[1..] + Children(q[0].0, q[0].1);
      Levelled(q') && forall i :: 0 <= i < |q'| ==> q[0].1 <= q'[i].1
  {
    var (s, d) := q[0];
    var c := Children(s, d);
    var q' := q[1..] + c;
    assert forall e :: e in c ==> e.1 == d + 1;
    forall i, j | 0 <= i < j < |q'| ensures q'[i].1 <= q'[j].1 {
      if j >= |q| - 1 {
        assert q'[j] in c;
        if i < |q| - 1 { assert q'[i] == q[i + 1]; } else { assert q'[i] in c; }
      } else {
        assert q'[i] == q[i + 1] && q'[j] == q[j + 1];
      }
    }
    if q' != [] {
      var k := |q'| - 1;
      if k >= |q| - 1 { assert q'[k] in c; } else { assert q'[k] == q[k + 1]; }
      if |q| > 1 { assert q'[0] == q[1]; } else { assert q'[0] in c; }
    }
    DequeueAbove(q);
  }

  /** No queued depth falls below the dequeued one. */
  lemma DequeueAbove(q: seq<(Shape, nat)>)
    requires Levelled(q) && q != []
    ensures var q' := q[1..] + Children(q[0].0, q[0].1); forall i :: 0 <= i < |q'| ==> q[0].1 <= q'[i].1
  {
    var c := Children(q[0].0, q[0].1);
    var q' := q[1..] + c;
    forall i | 0 <= i < |q'| ensures q[0].1 <= q'[i].1 {
      if i >= |q| - 1 { assert q'[i] in c; } else { assert q'[i] == q[i + 1]; }
    }
  }

  /** Level order yields depths in nondecreasing order. */
  lemma {:induction false} BfsSorted(q: seq<(Shape, nat)>)
    requires Levelled(q)
    ensures forall i, j :: 0 <= i < j < |Bfs(q)| ==> Bfs(q)[i].1 <= Bfs(q)[j].1
    decreases QueueCount(q), |q|
  {
    if q != [] {
      var (s, d) := q[0];
      if s.Empty? {
        BfsSorted(q[1..]);
      } else {
        var q' := q[1..] + Children(s, d);
        BfsStep(q);
        LevelledStep(q);
        BfsSorted(q');
        BfsAbove(q', d);
      }
    }
  }

  /** Level order from the root yields depths in nondecreasing order. */
  lemma LevelOrderSorted(t: Shape)
    ensures forall i, j :: 0 <= i < j < |Bfs([(t, 1)])| ==> Bfs([(t, 1)])[i].1 <= Bfs([(t, 1)])[j].1
  {
    BfsSorted([(t, 1)]);
  }

  function Max(x: nat, y: nat): nat
  {
    if x < y then y else x
  }

  /** The greatest depth a queue entry reaches: its own depth plus its
      subtree's height, less one. */
  function Reach(e: (Shape, nat)): nat
  {
    if e.0.Fork? then e.1 + Height(e.0) - 1 else 0
  }

  function QueueReach(q: seq<(Shape, nat)>): nat
  {
    if q == [] then 0 else Max(Reach(q[0]), QueueReach(q[1..]))
  }

  lemma QueueReachAppend(p: seq<(Shape, nat)>, q: seq<(Shape, nat)>)
    ensures QueueReach(p + q) == Max(QueueReach(p), QueueReach(q))
  {
    if p != [] {
      assert (p + q)[0] == p[0];
      assert (p + q)[1..] == p[1..] + q;
      QueueReachAppend(p[1..], q);
    } else {
      assert p + q == q;
    }
  }

  /** Level order from a queue of depth-positive entries reaches depth
      `QueueReach(q)` and no deeper; `j` is an entry at that depth. */
  lemma {:induction false} BfsDeepest(q: seq<(Shape, nat)>) returns (j: nat)
    requires forall i :: 0 <= i < |q| ==> 1 <= q[i].1
    ensures forall k :: 0 <= k < |Bfs(q)| ==> Bfs(q)[k].1 <= QueueReach(q)
    ensures QueueReach(q) == 0 ==> Bfs(q) == []
    ensures QueueReach(q) > 0 ==> j < |Bfs(q)| && Bfs(q)[j].1 == QueueReach(q)
    decreases QueueCount(q), |q|
  {
    j := 0;
    if q != [] {
      var (s, d) := q[0];
      if s.Empty? {
        j := BfsDeepest(q[1..]);
      } else {
        var q' := q[1..] + Children(s, d);
        BfsStep(q);
        ReachStep(q);
        var j' := BfsDeepest(q');
        if QueueReach(q') > d {
          j := j' + 1;
        }
      }
    }
  }

  /** Dequeuing keeps every queued depth positive. */
  lemma ChildrenDepths(q: seq<(Shape, nat)>)
    requires q != [] && forall i :: 0 <= i < |q| ==> 1 <= q[i].1
    ensures var q' := q[1..] + Children(q[0].0, q[0].1); forall i :: 0 <= i < |q'| ==> 1 <= q'[i].1
  {
    var c := Children(q[0].0, q[0].1);
    var q' := q[1..] + c;
    forall i | 0 <= i < |q'| ensures 1 <= q'[i].1 {
      if i >= |q| - 1 { assert q'[i] in c; } else { assert q'[i] == q[i + 1]; }
    }
  }

  /** A dequeue step keeps every depth positive, and the reach of the queue
      is the larger of the dequeued depth and the reach of the next queue. */
  lemma ReachStep(q: seq<(Shape, nat)>)
    requires q != [] && q[0].0.Fork? && forall i :: 0 <= i < |q| ==> 1 <= q[i].1
    ensures var q' := q[1..] + Children(q[0].0, q[0].1);
      (forall i :: 0 <= i < |q'| ==> 1 <= q'[i].1) && QueueReach(q) == Max(q[0].1, QueueReach(q'))
  {
    var (s, d) := q[0];
    var Fork(l, _, r) := s;
    var c := Children(s, d);
    ChildrenDepths(q);
    QueueReachAppend(q[1..], c);
    var cl: seq<(Shape, nat)> := if l.Fork? then [(l, d + 1)] else [];
    var cr: seq<(Shape, nat)> := if r.Fork? then [(r, d + 1)] else [];
    QueueReachAppend(cl, cr);
    assert QueueReach(c) == (if l.Empty? && r.Empty? then 0 else d + Max(Height(l), Height(r)));
    assert Reach(q[0]) == d + Max(Height(l), Height(r));
  }

  /** The deepest depth `sequence()` yields is the tree's height. */
  lemma LevelOrderDeepest(t: Shape) returns (j: nat)
    ensures forall k :: 0 <= k < |Bfs([(t, 1)])| ==> Bfs([(t, 1)])[k].1 <= Height(t)
    ensures t.Empty? ==> Bfs([(t, 1)]) == []
    ensures t.Fork? ==> j < |Bfs([(t, 1)])| && Bfs([(t, 1)])[j].1 == Height(t)
  {
    j := BfsDeepest([(t, 1)]);
    assert [(t, 1)][1..] == [];
  }
}
