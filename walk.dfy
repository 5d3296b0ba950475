/** The balance walk of `_remove` in packages/avl/src/AVLTree.ts (lines
    39-52): where it ends, the factor it leaves there, which factors it can
    move, and a tree on which it leaves a factor of -2 behind. */
module RemoveWalk {
  import opened Refs
  import opened Shapes
  import opened Search
  import opened Removal
  import opened Removing
  import opened Rotation
  import opened Climbing
  import opened Balancing
  import opened AvlHeights

  /** `n` lies in the subtree rooted at node `i`. */
  ghost predicate Above(t: Shape, i: nat, n: nat)
  {
    i in Ids(t) && n in Ids(SubAt(t, i))
  }

  /** `i` is, or hangs at most two levels below, a node whose subtree
      holds `n`: the nodes a walk up from `n` visits, and the children and
      grandchildren a rotation on that walk reaches. */
  ghost predicate Near(t: Shape, i: nat, n: nat)
  {
    Above(t, i, n) ||
    (Parent(t, i).At? && Above(t, Parent(t, i).index, n)) ||
    (Parent(t, i).At? && Parent(t, Parent(t, i).index).At? && Above(t, Parent(t, Parent(t, i).index).index, n))
  }

  /** The node the walk of `_remove` ends at: where it breaks off at a
      nonzero factor, or where `_adjustment` found nothing to rotate; `Null`
      when it climbs past the root. */
  ghost function RemoveEnd<V>(s: Avl<V>, node: Ptr, from: NodeType, rotated: bool): (e: Ptr)
    requires Good(s) && (node.At? ==> node.index in Ids(s.t))
    requires rotated && node.At? ==> Factor(s.f, node.index) == 0
    decreases if node.At? then Depth(s.t, node.index) + 1 else 0, if rotated then 0 else 1
  {
    match node
    case Null => Null
    case At(x) =>
      Up(s, x);
      var v := Factor(s.f, x) + (if from == Left then -1 else 1);
      var s1 := s.(f := s.f[x := v]);
      if v > 1 || v < -1 then
        var (s2, z) := Balancing.Adjust(s1, x);
        match z
        case Null => node
        case At(y) =>
          if Factor(s2.f, y) != 0 then z
          else RemoveEnd(s2, s2.a[y].parent, s2.a[y].kind, true)
      else if v != 0 then node
      else RemoveEnd(s1, s.a[x].parent, s.a[x].kind, false)
  }

  lemma AboveSelf(t: Shape, x: nat)
    requires Unique(t) && x in Ids(t)
    ensures Above(t, x, x)
  {
    SubAtIds(t, x);
  }

  /** A node whose subtree holds `x`'s parent holds `x` too. */
  lemma AboveParent(t: Shape, j: nat, x: nat)
    requires Unique(t) && x in Ids(t) && x != t.id && Parent(t, x).At? && Above(t, j, Parent(t, x).index)
    ensures Above(t, j, x)
  {
    ParentSlot(t, x);
    var p := Parent(t, x).index;
    SubAtIds(t, x);
    SubAtIds(t, p);
    assert x in Ids(SubAt(t, p));
    SubAtSub(t, j, p);
    SubAtIds(t, j);
    SubAtIds(SubAt(t, j), p);
  }

  /** `_adjustment` rotates, if anything, a node whose subtree holds the
      node it started from. */
  lemma {:induction false} AdjustAbove<V>(s: Avl<V>, x: nat)
    requires Good(s) && x in Ids(s.t)
    ensures Balancing.Adjust(s, x).1.At? ==> Above(s.t, Balancing.Adjust(s, x).1.index, x)
    decreases Depth(s.t, x)
  {
    Up(s, x);
    if RotateTypeOf(s.a, s.f, x).None? && s.a[x].parent.At? {
      var p := s.a[x].parent.index;
      AdjustAbove(s, p);
      if Balancing.Adjust(s, x).1.At? {
        AboveParent(s.t, Balancing.Adjust(s, x).1.index, x);
      }
    } else {
      AboveSelf(s.t, x);
    }
  }

  /** A child of a node whose subtree holds `n` is near `n`, and so is a
      grandchild. */
  lemma NearKids<V>(s: Avl<V>, z: nat, n: nat)
    requires Good(s) && z in Ids(s.t) && Above(s.t, z, n)
    ensures z < |s.a| && Near(s.t, z, n)
    ensures s.a[z].left.At? ==> (var c := s.a[z].left.index;
      c < |s.a| && Near(s.t, c, n) && (s.a[c].right.At? ==> Near(s.t, s.a[c].right.index, n)))
    ensures s.a[z].right.At? ==> (var c := s.a[z].right.index;
      c < |s.a| && Near(s.t, c, n) && (s.a[c].left.At? ==> Near(s.t, s.a[c].left.index, n)))
  {
    Up(s, z);
    if s.a[z].left.At? {
      var c := s.a[z].left.index;
      Up(s, c);
      if s.a[c].right.At? {
        Up(s, s.a[c].right.index);
      }
    }
    if s.a[z].right.At? {
      var c := s.a[z].right.index;
      Up(s, c);
      if s.a[c].left.At? {
        Up(s, s.a[c].left.index);
      }
    }
  }

  /** A rotation moves only factors near any node in the rotated subtree,
      and the node it promotes over `z` is near it too. */
  lemma RotateNear<V>(s: Avl<V>, z: nat, k: RotateType, n: nat)
    requires Good(s) && z in Ids(s.t) && z < |s.a| && RotateTypeOf(s.a, s.f, z) == Some(k) && Above(s.t, z, n)
    ensures var r := Rotate(s, z, k);
      z < |r.a| && r.a[z].parent.At? && Near(s.t, r.a[z].parent.index, n) && -1 <= Factor(r.f, z) <= 1 &&
      forall i :: Factor(r.f, i) != Factor(s.f, i) ==> Near(s.t, i, n)
  {
    match k
    case LL =>
      NearKids(s, z, n);
      FactorsLL(s, z);
    case RR =>
      NearKids(s, z, n);
      FactorsRR(s, z);
    case LR => NearLR(s, z, n);
    case RL => NearRL(s, z, n);
  }

  /** `RotateNear` for a left-right rotation. */
  lemma NearLR<V>(s: Avl<V>, z: nat, n: nat)
    requires Good(s) && z in Ids(s.t) && z < |s.a| && RotateTypeOf(s.a, s.f, z) == Some(LR) && Above(s.t, z, n)
    ensures var r := Rotate(s, z, LR);
      z < |r.a| && r.a[z].parent.At? && Near(s.t, r.a[z].parent.index, n) && -1 <= Factor(r.f, z) <= 1 &&
      forall i :: Factor(r.f, i) != Factor(s.f, i) ==> Near(s.t, i, n)
  {
    NearKids(s, z, n);
    Up(s, z);
    var l := s.a[z].left.index;
    Kids(s, l);
    if s.a[l].right.At? {
      FactorsLR(s, z);
    } else {
      FactorsRR(s, l);
      FactorsLL(s, z);
    }
  }

  /** `RotateNear` for a right-left rotation. */
  lemma NearRL<V>(s: Avl<V>, z: nat, n: nat)
    requires Good(s) && z in Ids(s.t) && z < |s.a| && RotateTypeOf(s.a, s.f, z) == Some(RL) && Above(s.t, z, n)
    ensures var r := Rotate(s, z, RL);
      z < |r.a| && r.a[z].parent.At? && Near(s.t, r.a[z].parent.index, n) && -1 <= Factor(r.f, z) <= 1 &&
      forall i :: Factor(r.f, i) != Factor(s.f, i) ==> Near(s.t, i, n)
  {
    NearKids(s, z, n);
    Up(s, z);
    var y := s.a[z].right.index;
    Kids(s, y);
    if s.a[y].left.At? {
      FactorsRL(s, z);
    } else {
      FactorsLL(s, y);
      FactorsRR(s, z);
    }
  }

  /** Right after a rotation the walk takes one step: the promoted node's
      factor moves from 0 to +1 or -1, and the walk ends there. */
  lemma AfterRotation<V>(s: Avl<V>, p: nat, from: NodeType)
    requires Good(s) && p in Ids(s.t) && Factor(s.f, p) == 0
    ensures RemoveEnd(s, At(p), from, true) == At(p)
    ensures RemoveClimb(s, At(p), from, true) == s.(f := s.f[p := if from == Left then -1 else 1])
  {
  }

  /** The arena after the walk's first move at `x`, coming up from side `from`. */
  ghost function Bumped<V>(s: Avl<V>, x: nat, from: NodeType): (r: Avl<V>)
    ensures r.a == s.a && r.t == s.t && r.root == s.root
    ensures Factor(r.f, x) == Factor(s.f, x) + (if from == Left then -1 else 1)
    ensures forall i :: i != x ==> Factor(r.f, i) == Factor(s.f, i)
  {
    s.(f := s.f[x := Factor(s.f, x) + (if from == Left then -1 else 1)])
  }

  /** The four facts `RemoveClimbStops` states about one run of the walk,
      from `node` with result `r`, ending at `e`. */
  ghost predicate Stopped<V>(s: Avl<V>, node: Ptr, from: NodeType, rotated: bool, r: Avl<V>, e: Ptr)
  {
    (forall i :: Factor(r.f, i) != Factor(s.f, i) ==> node.At? && Near(s.t, i, node.index)) &&
    (e.At? ==> (e.index in Ids(r.t) && e.index < |r.a| && Factor(r.f, e.index) != 0 &&
      (Factor(r.f, e.index) > 1 || Factor(r.f, e.index) < -1 ==> RotateTypeOf(r.a, r.f, e.index).None?))) &&
    (node.At? && e.Null? ==> r.t.Fork? && Factor(r.f, r.t.id) == 0) &&
    (rotated && node.At? ==> e == node && Factor(r.f, node.index) == (if from == Left then -1 else 1))
  }

  /** What the walk of `_remove` leaves: it moves only factors near the
      node it starts from; it ends at a node with a nonzero factor, and a
      factor beyond [-1, 1] there only where `_getRotateType` finds
      nothing; it climbs past the root only leaving the root at 0; and
      right after a rotation it ends at once, at +1 or -1. */
  lemma {:induction false} RemoveClimbStops<V>(s: Avl<V>, node: Ptr, from: NodeType, rotated: bool)
    requires Good(s) && (node.At? ==> node.index in Ids(s.t))
    requires rotated && node.At? ==> Factor(s.f, node.index) == 0
    ensures Stopped(s, node, from, rotated, RemoveClimb(s, node, from, rotated), RemoveEnd(s, node, from, rotated))
    decreases if node.At? then Depth(s.t, node.index) + 1 else 0, if rotated then 0 else 1
  {
    if node.At? {
      var x := node.index;
      var v := Factor(s.f, x) + (if from == Left then -1 else 1);
      if v > 1 || v < -1 {
        RebalanceStops(s, x, from);
      } else {
        Up(s, x);
        ClimbStep(s, x, from, rotated);
        EndStep(s, x, from, rotated);
        AboveSelf(s.t, x);
        var s1 := Bumped(s, x, from);
        if v == 0 && s.a[x].parent.At? {
          RemoveClimbStops(s1, s.a[x].parent, s.a[x].kind, false);
          forall i | Factor(RemoveClimb(s, node, from, rotated).f, i) != Factor(s.f, i) && i != x
            ensures Near(s.t, i, x)
          {
            NearUp(s.t, i, x);
          }
        }
      }
    }
  }

  /** One step of the walk at a node whose factor stays in [-1, 1]: it ends
      there unless the factor is 0, and otherwise climbs to the parent. */
  lemma ClimbStep<V>(s: Avl<V>, x: nat, from: NodeType, rotated: bool)
    requires Good(s) && x in Ids(s.t)
    requires rotated ==> Factor(s.f, x) == 0
    requires var v := Factor(s.f, x) + (if from == Left then -1 else 1); -1 <= v <= 1
    ensures var s1 := Bumped(s, x, from);
      Good(s1) && x < |s.a| &&
      (Factor(s1.f, x) != 0 ==> RemoveClimb(s, At(x), from, rotated) == s1) &&
      (Factor(s1.f, x) == 0 && s.a[x].parent.At? && s.a[x].parent.index in Ids(s.t) ==>
        (!rotated && RemoveClimb(s, At(x), from, rotated) == RemoveClimb(s1, s.a[x].parent, s.a[x].kind, false)))
  {
    Up(s, x);
    assert Bumped(s, x, from) == s.(f := s.f[x := Factor(s.f, x) + (if from == Left then -1 else 1)]);
  }

  /** The same step: where the walk ends. */
  lemma EndStep<V>(s: Avl<V>, x: nat, from: NodeType, rotated: bool)
    requires Good(s) && x in Ids(s.t)
    requires rotated ==> Factor(s.f, x) == 0
    requires var v := Factor(s.f, x) + (if from == Left then -1 else 1); -1 <= v <= 1
    requires Good(Bumped(s, x, from))
    ensures var s1 := Bumped(s, x, from);
      (Factor(s1.f, x) != 0 ==> RemoveEnd(s, At(x), from, rotated) == At(x)) &&
      (Factor(s1.f, x) == 0 && s.a[x].parent.At? && s.a[x].parent.index in Ids(s.t) ==>
        RemoveEnd(s, At(x), from, rotated) == RemoveEnd(s1, s.a[x].parent, s.a[x].kind, false))
  {
    Up(s, x);
    assert Bumped(s, x, from) == s.(f := s.f[x := Factor(s.f, x) + (if from == Left then -1 else 1)]);
  }

  /** One step of the walk at a node whose factor leaves [-1, 1]: its
      result in terms of what `_adjustment` returns. */
  lemma RebalanceClimbs<V>(s: Avl<V>, x: nat, from: NodeType)
    requires Good(s) && x in Ids(s.t)
    requires var v := Factor(s.f, x) + (if from == Left then -1 else 1); v > 1 || v < -1
    ensures Good(Bumped(s, x, from)) && x in Ids(Bumped(s, x, from).t)
    ensures var (s2, z) := Balancing.Adjust(Bumped(s, x, from), x);
      (z.Null? ==> RemoveClimb(s, At(x), from, false) == s2) &&
      (z.At? ==> (var y := z.index;
        y < |s2.a| && s2.a[y].parent.At? && s2.a[y].parent.index in Ids(s2.t) && Factor(s2.f, s2.a[y].parent.index) == 0 &&
        RemoveClimb(s, At(x), from, false) ==
          (if Factor(s2.f, y) != 0 then s2 else RemoveClimb(s2, s2.a[y].parent, s2.a[y].kind, true))))
  {
    Up(s, x);
    assert Bumped(s, x, from) == s.(f := s.f[x := Factor(s.f, x) + (if from == Left then -1 else 1)]);
  }

  /** The same step: where it ends when `_adjustment` rotates nothing. */
  lemma RebalanceEndsHere<V>(s: Avl<V>, x: nat, from: NodeType)
    requires Good(s) && x in Ids(s.t)
    requires var v := Factor(s.f, x) + (if from == Left then -1 else 1); v > 1 || v < -1
    requires Good(Bumped(s, x, from)) && Balancing.Adjust(Bumped(s, x, from), x).1.Null?
    ensures RemoveEnd(s, At(x), from, false) == At(x)
  {
    Up(s, x);
    assert Bumped(s, x, from) == s.(f := s.f[x := Factor(s.f, x) + (if from == Left then -1 else 1)]);
  }

  /** The same step: where it ends when `_adjustment` rotates a node. */
  lemma RebalanceEnds<V>(s: Avl<V>, x: nat, from: NodeType)
    requires Good(s) && x in Ids(s.t)
    requires var v := Factor(s.f, x) + (if from == Left then -1 else 1); v > 1 || v < -1
    requires Good(Bumped(s, x, from))
    requires var (s2, z) := Balancing.Adjust(Bumped(s, x, from), x);
      z.At? && z.index < |s2.a| && s2.a[z.index].parent.At? && s2.a[z.index].parent.index in Ids(s2.t) &&
      Factor(s2.f, s2.a[z.index].parent.index) == 0
    ensures var (s2, z) := Balancing.Adjust(Bumped(s, x, from), x);
      RemoveEnd(s, At(x), from, false) ==
        (if Factor(s2.f, z.index) != 0 then z else RemoveEnd(s2, s2.a[z.index].parent, s2.a[z.index].kind, true))
  {
    Up(s, x);
    assert Bumped(s, x, from) == s.(f := s.f[x := Factor(s.f, x) + (if from == Left then -1 else 1)]);
  }

  /** The step of the walk that leaves a factor of +2 or -2 and hands the
      node to `_adjustment`. */
  lemma RebalanceStops<V>(s: Avl<V>, x: nat, from: NodeType)
    requires Good(s) && x in Ids(s.t)
    requires var v := Factor(s.f, x) + (if from == Left then -1 else 1); v > 1 || v < -1
    ensures Stopped(s, At(x), from, false, RemoveClimb(s, At(x), from, false), RemoveEnd(s, At(x), from, false))
  {
    RebalanceClimbs(s, x, from);
    var s1 := Bumped(s, x, from);
    AdjustFinds(s1, x);
    if Balancing.Adjust(s1, x).1.Null? {
      RebalanceEndsHere(s, x, from);
      NothingRotates(s, x, from);
    } else {
      RebalanceEnds(s, x, from);
      RotationStops(s, x, from);
    }
  }

  /** When `_adjustment` finds nothing to rotate, the walk ends at `x` with
      its factor out of range. */
  lemma NothingRotates<V>(s: Avl<V>, x: nat, from: NodeType)
    requires Good(s) && x in Ids(s.t)
    requires var v := Factor(s.f, x) + (if from == Left then -1 else 1); v > 1 || v < -1
    requires Good(Bumped(s, x, from)) && Balancing.Adjust(Bumped(s, x, from), x).1.Null?
    ensures Stopped(s, At(x), from, false, Bumped(s, x, from), At(x))
  {
    var s1 := Bumped(s, x, from);
    AboveSelf(s.t, x);
    Up(s1, x);
    AdjustFinds(s1, x);
  }

  /** When `_adjustment` rotates a node `y`, the walk ends there, or one
      step further up at the node the rotation promoted. */
  lemma RotationStops<V>(s: Avl<V>, x: nat, from: NodeType)
    requires Good(s) && x in Ids(s.t)
    requires Good(Bumped(s, x, from)) && Balancing.Adjust(Bumped(s, x, from), x).1.At?
    ensures var (s2, z) := Balancing.Adjust(Bumped(s, x, from), x); var y := z.index;
      var r := if Factor(s2.f, y) != 0 then s2 else RemoveClimb(s2, s2.a[y].parent, s2.a[y].kind, true);
      var e := if Factor(s2.f, y) != 0 then z else RemoveEnd(s2, s2.a[y].parent, s2.a[y].kind, true);
      Stopped(s, At(x), from, false, r, e)
  {
    var s1 := Bumped(s, x, from);
    AboveSelf(s.t, x);
    AdjustFinds(s1, x);
    AdjustAbove(s1, x);
    var (s2, z) := Balancing.Adjust(s1, x);
    var y := z.index;
    RotateNear(s1, y, RotateTypeOf(s1.a, s1.f, y).value, x);
    if Factor(s2.f, y) == 0 {
      PromotedStops(s, s1, s2, x, from, y);
    }
  }

  /** A rotation that leaves the rotated node at 0: the walk takes one more
      step, to the promoted node, and ends there. */
  lemma PromotedStops<V>(s: Avl<V>, s1: Avl<V>, s2: Avl<V>, x: nat, from: NodeType, y: nat)
    requires Good(s) && x in Ids(s.t) && s1 == Bumped(s, x, from) && Good(s1) && Good(s2)
    requires Ids(s2.t) == Ids(s.t) && y < |s2.a| && Factor(s2.f, y) == 0
    requires s2.a[y].parent.At? && s2.a[y].parent.index in Ids(s2.t) && Factor(s2.f, s2.a[y].parent.index) == 0
    requires Near(s.t, s2.a[y].parent.index, x) && Near(s.t, x, x)
    requires forall i :: Factor(s2.f, i) != Factor(s1.f, i) ==> Near(s.t, i, x)
    ensures Stopped(s, At(x), from, false, RemoveClimb(s2, s2.a[y].parent, s2.a[y].kind, true),
      RemoveEnd(s2, s2.a[y].parent, s2.a[y].kind, true))
  {
    AfterRotation(s2, s2.a[y].parent.index, s2.a[y].kind);
  }

  /** Near the parent of `x` is near `x`. */
  lemma NearUp(t: Shape, i: nat, x: nat)
    requires Unique(t) && x in Ids(t) && x != t.id && Parent(t, x).At? && Near(t, i, Parent(t, x).index)
    ensures Near(t, i, x)
  {
    var p := Parent(t, x).index;
    if Above(t, i, p) {
      AboveParent(t, i, x);
    } else if Parent(t, i).At? && Above(t, Parent(t, i).index, p) {
      AboveParent(t, Parent(t, i).index, x);
    } else {
      AboveParent(t, Parent(t, Parent(t, i).index).index, x);
    }
  }
  /** Five nodes keyed 1 to 5, leaning right: node 0 (key 2) has the leaf 1
      (key 1) on its left and node 2 (key 4) on its right, which holds the
      leaves 3 (key 3) and 4 (key 5). Every factor is right, and only the
      root's is not 0. */
  function Lopsided(): Avl<int>
  {
    Avl([Node(2, 20, Root, Null, At(1), At(2)),
         Node(1, 10, Left, At(0), Null, Null),
         Node(4, 40, Right, At(0), At(3), At(4)),
         Node(3, 30, Left, At(2), Null, Null),
         Node(5, 50, Right, At(2), Null, Null)],
        At(0),
        Fork(Fork(Empty, 1, Empty), 0, Fork(Fork(Empty, 3, Empty), 2, Fork(Empty, 4, Empty))),
        map[0 := -1])
  }

  /** `Lopsided()` is well linked, and `_remove` of its leaf 1 detaches
      that leaf itself. */
  lemma LopsidedGood()
    ensures Ids(Lopsided().t) == {0, 1, 2, 3, 4} && Good(Lopsided())
    ensures Victim(Lopsided().t, 1) == 1 && Heir(Lopsided().t, 1) == Empty
  {
    LopsidedLeaf();
    var s := Lopsided();
    assert Ids(s.t) == {0, 1, 2, 3, 4};
    assert Shaped(s.a, s.root, s.t) && Tagged(s.a, s.t, Root) && Linked(s.a, s.t, Null, {});
  }

  /** Node 1 of `Lopsided()` has no children, so `_remove` takes it out itself. */
  lemma LopsidedLeaf()
    ensures Victim(Lopsided().t, 1) == 1 && Heir(Lopsided().t, 1) == Empty
  {
    assert SubAt(Lopsided().t, 1) == Fork(Empty, 1, Empty);
  }

  /** Every factor of `Lopsided()` is its node's lean. */
  lemma LopsidedBalanced()
    requires Ids(Lopsided().t) == {0, 1, 2, 3, 4}
    ensures Balanced(Lopsided())
  {
    var t := Lopsided().t;
    assert SubAt(t, 2) == Fork(Fork(Empty, 3, Empty), 2, Fork(Empty, 4, Empty));
  }

  /** What `_remove` of key 1 leaves before its walk: the leaf is gone, and
      its old cell still points at the root from the left. */
  lemma LopsidedRemoved()
    requires Good(Lopsided()) && 1 in Ids(Lopsided().t) && Heir(Lopsided().t, 1) == Empty
    ensures var s1 := Removed(Lopsided(), 1);
      s1.t == Fork(Empty, 0, Fork(Fork(Empty, 3, Empty), 2, Fork(Empty, 4, Empty))) && s1.f == map[0 := -1] &&
      |s1.a| == 5 && s1.a[1].parent == At(0) && s1.a[1].kind == Left &&
      s1.a[0].right == At(2) && s1.a[0].parent == Null && s1.a[0].kind == Root
  {
    var s := Lopsided();
    assert Victim(s.t, 1) == 1;
  }

  /** Removing key 1 from `Lopsided()` leaves the root at -2: the walk moves
      its factor from -1 to -2, `_getRotateType` finds nothing because the
      right child's factor is 0, and `_adjustment` climbs past the root. */
  lemma RemoveLeavesTwo()
    ensures Good(Lopsided()) && Balanced(Lopsided()) && 1 in Ids(Lopsided().t) && Heir(Lopsided().t, 1) == Empty
    ensures 0 in Ids(AvlRemove(Lopsided(), 1).t) && Factor(AvlRemove(Lopsided(), 1).f, 0) == -2
    ensures !Balanced(AvlRemove(Lopsided(), 1))
  {
    LopsidedGood();
    LopsidedBalanced();
    LopsidedRemoved();
    LopsidedClimb();
  }

  /** The walk after removing key 1 from `Lopsided()` only moves the root's
      factor to -2. */
  lemma LopsidedClimb()
    requires Good(Lopsided()) && 1 in Ids(Lopsided().t) && Heir(Lopsided().t, 1) == Empty
    requires var s1 := Removed(Lopsided(), 1);
      s1.t == Fork(Empty, 0, Fork(Fork(Empty, 3, Empty), 2, Fork(Empty, 4, Empty))) && s1.f == map[0 := -1] &&
      |s1.a| == 5 && s1.a[1].parent == At(0) && s1.a[1].kind == Left &&
      s1.a[0].right == At(2) && s1.a[0].parent == Null && s1.a[0].kind == Root
    ensures AvlRemove(Lopsided(), 1) == Removed(Lopsided(), 1).(f := map[0 := -2])
  {
    var s1 := Removed(Lopsided(), 1);
    var s2 := s1.(f := s1.f[0 := -2]);
    assert RotateTypeOf(s2.a, s2.f, 0).None?;
    assert Balancing.Adjust(s2, 0) == (s2, Null);
  }
}
