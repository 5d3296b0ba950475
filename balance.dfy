/** The rebalancing of packages/avl/src/AVLTree.ts as functions of the whole
    tree state: the `_insert` and `_remove` balance walks (lines 21-54),
    `_adjustment` (55-59), `_getRotateType` (61-70) and `_rotate` (72-113).
    Every function here keeps the structural invariants, the nodes and their
    in-order sequence, so the entries an AVL tree lists are exactly those the
    plain BST operation leaves. */
module Balancing {
  import opened Refs
  import opened Shapes
  import opened Search
  import opened Order
  import opened Insertion
  import opened Inserting
  import opened Removal
  import opened Splicing
  import opened Removing
  import opened Rotation
  import opened Climbing

  datatype RotateType = LL | RR | LR | RL

  /** A node's `balanceFactor`; one never set reads as 0, as `??= 0` makes it. */
  function Factor(f: map<nat, int>, x: nat): int
  {
    if x in f then f[x] else 0
  }

  /** The state the AVL layer works on: the BST's arena, root and shape, and
      the balance factors by arena position. */
  datatype Avl<V> = Avl(a: seq<Node<V>>, root: Ptr, t: Shape, f: map<nat, int>)

  /** Every parent link is exact, and factors are kept only for arena nodes. */
  ghost predicate Good<V>(s: Avl<V>)
  {
    WellLinked(s.a, s.root, s.t, {}) && forall i :: i in s.f ==> i < |s.a|
  }

  /** What every rebalancing step keeps: the invariants, the tree's nodes and
      their in-order sequence, and every stored pair. */
  ghost predicate Keeps<V>(s: Avl<V>, r: Avl<V>)
  {
    Good(r) && Ids(r.t) == Ids(s.t) && InOrder(r.t) == InOrder(s.t) && |r.a| == |s.a| &&
    forall i :: 0 <= i < |s.a| ==> r.a[i].key == s.a[i].key && r.a[i].value == s.a[i].value
  }

  /** With exact parent links, `parent` and `type` name the node above and
      the slot, climbing shortens the depth by one, and each child link
      points at a node that points back. */
  lemma Up<V>(s: Avl<V>, x: nat)
    requires Good(s) && x in Ids(s.t)
    ensures x < |s.a| && (s.a[x].kind == Root <==> x == s.t.id)
    ensures x == s.t.id ==> s.a[x].parent == Null
    ensures x != s.t.id ==> (s.a[x].parent == Parent(s.t, x) && s.a[x].parent.At? &&
      s.a[x].parent.index in Ids(s.t) && s.a[x].kind == Side(s.t, x) &&
      Depth(s.t, s.a[x].parent.index) + 1 == Depth(s.t, x))
    ensures SubAt(s.t, x).Fork? && SubAt(s.t, x).id == x
    ensures s.a[x].left.At? <==> SubAt(s.t, x).left.Fork?
    ensures s.a[x].right.At? <==> SubAt(s.t, x).right.Fork?
    ensures s.a[x].left.At? ==> (s.a[x].left.index in Ids(s.t) && s.a[x].left.index < |s.a| &&
      SubAt(s.t, x).left.id == s.a[x].left.index &&
      s.a[s.a[x].left.index].parent == At(x) && s.a[s.a[x].left.index].kind == Left)
    ensures s.a[x].right.At? ==> (s.a[x].right.index in Ids(s.t) && s.a[x].right.index < |s.a| &&
      SubAt(s.t, x).right.id == s.a[x].right.index &&
      s.a[s.a[x].right.index].parent == At(x) && s.a[s.a[x].right.index].kind == Right)
  {
    RotateSetup(s.a, s.root, s.t, {}, x);
    if x != s.t.id {
      ParentDepth(s.t, x);
    }
    var S := SubAt(s.t, x);
    assert Shaped(s.a, s.a[x].left, S.left) && Shaped(s.a, s.a[x].right, S.right);
    assert Linked(s.a, S.left, At(x), {}) && Linked(s.a, S.right, At(x), {});
    assert Tagged(s.a, S.left, Left) && Tagged(s.a, S.right, Right);
    if S.left.Fork? {
      assert S.left.id in Ids(S);
    }
    if S.right.Fork? {
      assert S.right.id in Ids(S);
    }
  }

  /** The part of `Up` a walk up the tree needs: `x`'s parent is a node of
      the tree one level nearer the root. */
  lemma Rise<V>(s: Avl<V>, x: nat)
    requires Good(s) && x in Ids(s.t)
    ensures x < |s.a|
    ensures s.a[x].parent.At? ==> s.a[x].parent.index in Ids(s.t) && Depth(s.t, s.a[x].parent.index) < Depth(s.t, x)
  {
    Up(s, x);
  }

  /** The part of `Up` a rotation needs: where `x`'s children sit. */
  lemma Kids<V>(s: Avl<V>, x: nat)
    requires Good(s) && x in Ids(s.t)
    ensures x < |s.a|
    ensures s.a[x].left.At? ==> s.a[x].left.index in Ids(s.t) && s.a[x].left.index < |s.a|
    ensures s.a[x].right.At? ==> s.a[x].right.index in Ids(s.t) && s.a[x].right.index < |s.a|
  {
    Up(s, x);
  }

  /** The balance walk of `_insert`: at `node`, reached from its child in
      slot `from`, the factor moves by +1 from the left and -1 from the
      right; the walk ends when it reaches 0, breaks off at the node when it
      leaves {-1, 0, 1}, and otherwise climbs. The result is the new factors
      and the node the walk broke off at (`Null` when it ended). */
  ghost function InsertClimb<V>(s: Avl<V>, node: Ptr, from: NodeType): (r: (map<nat, int>, Ptr))
    requires Good(s) && (node.At? ==> node.index in Ids(s.t))
    ensures Good(s.(f := r.0)) && (r.1.At? ==> r.1.index in Ids(s.t))
    decreases if node.At? then Depth(s.t, node.index) + 1 else 0
  {
    match node
    case Null => (s.f, Null)
    case At(x) =>
      Up(s, x);
      var v := Factor(s.f, x) + (if from == Left then 1 else -1);
      var f := s.f[x := v];
      if v == 0 then (f, Null)
      else if v > 1 || v < -1 then (f, node)
      else InsertClimb(s.(f := f), s.a[x].parent, s.a[x].kind)
  }

  /** The insert walk breaks off only at a node whose factor left
      {-1, 0, 1}, and it moves no factor of a node outside the tree. */
  lemma {:induction false} InsertClimbStops<V>(s: Avl<V>, node: Ptr, from: NodeType)
    requires Good(s) && (node.At? ==> node.index in Ids(s.t))
    ensures var (f, stop) := InsertClimb(s, node, from);
      (stop.At? ==> Factor(f, stop.index) > 1 || Factor(f, stop.index) < -1) &&
      forall i :: i !in Ids(s.t) ==> Factor(f, i) == Factor(s.f, i)
    decreases if node.At? then Depth(s.t, node.index) + 1 else 0
  {
    if node.At? {
      var x := node.index;
      Up(s, x);
      var v := Factor(s.f, x) + (if from == Left then 1 else -1);
      if v != 0 && -1 <= v <= 1 {
        InsertClimbStops(s.(f := s.f[x := v]), s.a[x].parent, s.a[x].kind);
      }
    }
  }

  /** `_getRotateType(x)`: LL or LR for factor +2 with a left child of
      factor +1 or -1, RR or RL for factor -2 with a right child of factor
      -1 or +1, and nothing otherwise. */
  function RotateTypeOf<V>(a: seq<Node<V>>, f: map<nat, int>, x: nat): (k: Option<RotateType>)
    requires x < |a|
    ensures k == Some(LL) || k == Some(LR) ==> Factor(f, x) == 2 && a[x].left.At?
    ensures k == Some(RR) || k == Some(RL) ==> Factor(f, x) == -2 && a[x].right.At?
    ensures k.None? <==>
      !(Factor(f, x) == 2 && a[x].left.At? && (Factor(f, a[x].left.index) == 1 || Factor(f, a[x].left.index) == -1)) &&
      !(Factor(f, x) == -2 && a[x].right.At? && (Factor(f, a[x].right.index) == 1 || Factor(f, a[x].right.index) == -1))
  {
    var l := a[x].left;
    var r := a[x].right;
    if Factor(f, x) == 2 && l.At? && Factor(f, l.index) == 1 then Some(LL)
    else if Factor(f, x) == 2 && l.At? && Factor(f, l.index) == -1 then Some(LR)
    else if Factor(f, x) == -2 && r.At? && Factor(f, r.index) == -1 then Some(RR)
    else if Factor(f, x) == -2 && r.At? && Factor(f, r.index) == 1 then Some(RL)
    else None
  }

  /** `_rotateRight(x)` on a node with a left child; factors untouched. */
  ghost function TurnRight<V>(s: Avl<V>, x: nat): (r: Avl<V>)
    requires Good(s) && x in Ids(s.t) && SubAt(s.t, x).Fork? && SubAt(s.t, x).left.Fork?
    ensures Keeps(s, r)
  {
    RotateRightTree(s.a, s.root, s.t, {}, x);
    var (c, root) := RotateRightArena(s.a, s.root, x);
    ShapedWithin(c, root, Replace(s.t, x, RotR(SubAt(s.t, x))));
    Avl(c, root, Replace(s.t, x, RotR(SubAt(s.t, x))), s.f)
  }

  /** `_rotateLeft(x)` on a node with a right child; factors untouched. */
  ghost function TurnLeft<V>(s: Avl<V>, x: nat): (r: Avl<V>)
    requires Good(s) && x in Ids(s.t) && SubAt(s.t, x).Fork? && SubAt(s.t, x).right.Fork?
    ensures Keeps(s, r)
  {
    RotateLeftTree(s.a, s.root, s.t, {}, x);
    var (c, root) := RotateLeftArena(s.a, s.root, x);
    ShapedWithin(c, root, Replace(s.t, x, RotL(SubAt(s.t, x))));
    Avl(c, root, Replace(s.t, x, RotL(SubAt(s.t, x))), s.f)
  }

  /** `_rotate(x, LL)`: with a left child, rotate right and set the factors
      of `x` and of that child to 0; without one, nothing. */
  ghost function RotateLL<V>(s: Avl<V>, x: nat): (r: Avl<V>)
    requires Good(s) && x in Ids(s.t)
    ensures Keeps(s, r)
  {
    Up(s, x);
    match s.a[x].left
    case Null => s
    case At(l) =>
      var u := TurnRight(s, x);
      u.(f := u.f[x := 0][l := 0])
  }

  /** `_rotate(x, RR)`, the mirror image. */
  ghost function RotateRR<V>(s: Avl<V>, x: nat): (r: Avl<V>)
    requires Good(s) && x in Ids(s.t)
    ensures Keeps(s, r)
  {
    Up(s, x);
    match s.a[x].right
    case Null => s
    case At(y) =>
      var u := TurnLeft(s, x);
      u.(f := u.f[x := 0][y := 0])
  }

  /** `_rotate(x, LR)`: with a left child `l`, remember the factor of `l`'s
      right child, rotate `l` RR and then `x` LL; a remembered -1 gives `l`
      the factor +1, a remembered +1 gives `x` the factor -1. */
  ghost function RotateLR<V>(s: Avl<V>, x: nat): (r: Avl<V>)
    requires Good(s) && x in Ids(s.t)
    ensures Keeps(s, r)
  {
    Up(s, x);
    match s.a[x].left
    case Null => s
    case At(l) =>
      var g := s.a[l].right;
      var bf := if g.At? then Factor(s.f, g.index) else 0;
      var s1 := RotateRR(s, l);
      var s2 := RotateLL(s1, x);
      if bf == -1 then s2.(f := s2.f[l := 1])
      else if bf == 1 then s2.(f := s2.f[x := -1])
      else s2
  }

  /** `_rotate(x, RL)`, the mirror image. */
  ghost function RotateRL<V>(s: Avl<V>, x: nat): (r: Avl<V>)
    requires Good(s) && x in Ids(s.t)
    ensures Keeps(s, r)
  {
    Up(s, x);
    match s.a[x].right
    case Null => s
    case At(y) =>
      var g := s.a[y].left;
      var bf := if g.At? then Factor(s.f, g.index) else 0;
      var s1 := RotateLL(s, y);
      var s2 := RotateRR(s1, x);
      if bf == 1 then s2.(f := s2.f[y := -1])
      else if bf == -1 then s2.(f := s2.f[x := 1])
      else s2
  }

  ghost function Rotate<V>(s: Avl<V>, x: nat, k: RotateType): (r: Avl<V>)
    requires Good(s) && x in Ids(s.t)
    ensures Keeps(s, r)
  {
    match k
    case LL => RotateLL(s, x)
    case RR => RotateRR(s, x)
    case LR => RotateLR(s, x)
    case RL => RotateRL(s, x)
  }

  /** After a rotation at `y`, `y` hangs below a node at `y`'s old depth
      whose factor is 0. */
  ghost predicate Lifted<V>(s: Avl<V>, r: Avl<V>, y: nat)
  {
    y < |r.a| && r.a[y].parent.At? && r.a[y].parent.index in Ids(r.t) &&
    Depth(r.t, r.a[y].parent.index) == Depth(s.t, y) && Factor(r.f, r.a[y].parent.index) == 0
  }

  /** `_adjustment(x)`: rotate the first node from `x` upward that has a
      rotate type and return it; `Null` when the walk leaves the root. */
  ghost function Adjust<V>(s: Avl<V>, x: nat): (r: (Avl<V>, Ptr))
    requires Good(s) && x in Ids(s.t)
    ensures Keeps(s, r.0)
    ensures r.1.At? ==> r.1.index in Ids(s.t) && Depth(s.t, r.1.index) <= Depth(s.t, x) && Lifted(s, r.0, r.1.index)
    decreases Depth(s.t, x)
  {
    Up(s, x);
    match RotateTypeOf(s.a, s.f, x)
    case Some(k) =>
      RotateLifts(s, x, k);
      (Rotate(s, x, k), At(x))
    case None =>
      match s.a[x].parent
      case At(p) => Adjust(s, p)
      case Null => (s, Null)
  }

  /** `_adjustment` rotates exactly the node it returns, by that node's
      rotate type, and changes nothing when it returns `Null`. */
  lemma {:induction false} AdjustFinds<V>(s: Avl<V>, x: nat)
    requires Good(s) && x in Ids(s.t)
    ensures Adjust(s, x).1.Null? ==> Adjust(s, x).0 == s
    ensures Adjust(s, x).1.At? ==> (var z := Adjust(s, x).1.index;
      z < |s.a| && z in Ids(s.t) && RotateTypeOf(s.a, s.f, z).Some? &&
      Adjust(s, x).0 == Rotate(s, z, RotateTypeOf(s.a, s.f, z).value))
    decreases Depth(s.t, x)
  {
    Up(s, x);
    if RotateTypeOf(s.a, s.f, x).None? && s.a[x].parent.At? {
      AdjustFinds(s, s.a[x].parent.index);
    }
  }

  /** The balance walk of `_remove`: at `node`, reached from its child in
      slot `from`, the factor moves by -1 from the left and +1 from the
      right. Leaving {-1, 0, 1} calls `_adjustment`, which ends the walk
      when it rotates nothing; otherwise the walk goes on from the rotated
      node. It ends at a nonzero factor and otherwise climbs. `rotated`
      marks the step right after a rotation, which starts at factor 0. */
  ghost function RemoveClimb<V>(s: Avl<V>, node: Ptr, from: NodeType, rotated: bool): (r: Avl<V>)
    requires Good(s) && (node.At? ==> node.index in Ids(s.t))
    requires rotated && node.At? ==> Factor(s.f, node.index) == 0
    ensures Keeps(s, r)
    decreases if node.At? then Depth(s.t, node.index) + 1 else 0, if rotated then 0 else 1
  {
    match node
    case Null => s
    case At(x) =>
      Up(s, x);
      var v := Factor(s.f, x) + (if from == Left then -1 else 1);
      var s1 := s.(f := s.f[x := v]);
      if v > 1 || v < -1 then
        var (s2, z) := Adjust(s1, x);
        match z
        case Null => s2
        case At(y) =>
          if Factor(s2.f, y) != 0 then s2
          else RemoveClimb(s2, s2.a[y].parent, s2.a[y].kind, true)
      else if v != 0 then s1
      else RemoveClimb(s1, s.a[x].parent, s.a[x].kind, false)
  }

  /** A rotation chosen by `_getRotateType` lifts the rotated node's new parent. */
  lemma RotateLifts<V>(s: Avl<V>, x: nat, k: RotateType)
    requires Good(s) && x in Ids(s.t)
    requires x < |s.a| && RotateTypeOf(s.a, s.f, x) == Some(k)
    ensures Lifted(s, Rotate(s, x, k), x)
  {
    match k
    case LL => LiftedLL(s, x);
    case RR => LiftedRR(s, x);
    case LR => LiftedLR(s, x);
    case RL => LiftedRL(s, x);
  }

  lemma LiftedLL<V>(s: Avl<V>, x: nat)
    requires Good(s) && x in Ids(s.t)
    requires x < |s.a| && s.a[x].left.At?
    ensures Lifted(s, RotateLL(s, x), x) && RotateLL(s, x).a[x].parent == s.a[x].left
  {
    Up(s, x);
    var l := s.a[x].left.index;
    var S := SubAt(s.t, x);
    RotateSetup(s.a, s.root, s.t, {}, x);
    RotateRightLocal(s.a, s.root, s.t, {}, x);
    var (c, root) := RotateRightArena(s.a, s.root, x);
    var Fork(Fork(A, y, B), _, C) := S;
    assert y == l;
    assert Linked(c, Fork(B, x, C), At(l), {});
    assert c[x].parent == At(l);
    RotRKeeps(S);
    RootDepth(RotR(S));
    ReplaceDepth(s.t, x, RotR(S), l);
  }

  lemma LiftedRR<V>(s: Avl<V>, x: nat)
    requires Good(s) && x in Ids(s.t)
    requires x < |s.a| && s.a[x].right.At?
    ensures Lifted(s, RotateRR(s, x), x) && RotateRR(s, x).a[x].parent == s.a[x].right
  {
    Up(s, x);
    var y := s.a[x].right.index;
    var S := SubAt(s.t, x);
    RotateSetup(s.a, s.root, s.t, {}, x);
    RotateLeftLocal(s.a, s.root, s.t, {}, x);
    var (c, root) := RotateLeftArena(s.a, s.root, x);
    var Fork(A, _, Fork(B, z, C)) := S;
    assert z == y;
    assert Linked(c, Fork(A, x, B), At(y), {});
    assert c[x].parent == At(y);
    RotLKeeps(S);
    RootDepth(RotL(S));
    ReplaceDepth(s.t, x, RotL(S), y);
  }

  /** The first turn of LR leaves `x` at its depth with a left child: the
      grandchild when there was one to promote. */
  lemma InnerLR<V>(s: Avl<V>, x: nat)
    requires Good(s) && x in Ids(s.t)
    requires x < |s.a| && s.a[x].left.At? && s.a[x].left.index in Ids(s.t)
    ensures var l := s.a[x].left.index; var s1 := RotateRR(s, l);
      x in Ids(s1.t) && x < |s1.a| && s1.a[x].left.At? && Depth(s1.t, x) == Depth(s.t, x) &&
      (s.a[l].right.At? ==> s1.a[x].left == s.a[l].right && s.a[l].right.index != l)
  {
    Up(s, x);
    var l := s.a[x].left.index;
    Up(s, l);
    var g := s.a[l].right;
    var s1 := RotateRR(s, l);
    ParentSlot(s.t, l);
    if g.At? {
      Up(s, g.index);
      assert Parent(s.t, l) == At(x) && Side(s.t, l) == Left && l != s.t.id;
      RotateLeftLocal(s.a, s.root, s.t, {}, l);
      assert s1.a == RotateLeftArena(s.a, s.root, l).0;
      assert s1.a[x] == SetChild(s.a[x], Left, g);
      SubAtIds(s.t, l);
      RotLKeeps(SubAt(s.t, l));
      ReplaceDepthOut(s.t, l, RotL(SubAt(s.t, l)), x);
    }
  }

  lemma LiftedLR<V>(s: Avl<V>, x: nat)
    requires Good(s) && x in Ids(s.t)
    requires x < |s.a| && s.a[x].left.At?
    ensures Lifted(s, RotateLR(s, x), x)
  {
    Up(s, x);
    var l := s.a[x].left.index;
    Up(s, l);
    var g := s.a[l].right;
    var bf := if g.At? then Factor(s.f, g.index) else 0;
    InnerLR(s, x);
    var s1 := RotateRR(s, l);
    LiftedLL(s1, x);
    var s2 := RotateLL(s1, x);
    Up(s2, x);
    assert RotateLR(s, x) == (if bf == -1 then s2.(f := s2.f[l := 1]) else if bf == 1 then s2.(f := s2.f[x := -1]) else s2);
    if bf == -1 || bf == 1 {
      assert s2.a[x].parent == g;
    }
  }

  /** The first turn of RL, the mirror image. */
  lemma InnerRL<V>(s: Avl<V>, x: nat)
    requires Good(s) && x in Ids(s.t)
    requires x < |s.a| && s.a[x].right.At? && s.a[x].right.index in Ids(s.t)
    ensures var y := s.a[x].right.index; var s1 := RotateLL(s, y);
      x in Ids(s1.t) && x < |s1.a| && s1.a[x].right.At? && Depth(s1.t, x) == Depth(s.t, x) &&
      (s.a[y].left.At? ==> s1.a[x].right == s.a[y].left && s.a[y].left.index != y)
  {
    Up(s, x);
    var y := s.a[x].right.index;
    Up(s, y);
    var g := s.a[y].left;
    var s1 := RotateLL(s, y);
    ParentSlot(s.t, y);
    if g.At? {
      Up(s, g.index);
      assert Parent(s.t, y) == At(x) && Side(s.t, y) == Right && y != s.t.id;
      RotateRightLocal(s.a, s.root, s.t, {}, y);
      assert s1.a == RotateRightArena(s.a, s.root, y).0;
      assert s1.a[x] == SetChild(s.a[x], Right, g);
      SubAtIds(s.t, y);
      RotRKeeps(SubAt(s.t, y));
      ReplaceDepthOut(s.t, y, RotR(SubAt(s.t, y)), x);
    }
  }

  lemma LiftedRL<V>(s: Avl<V>, x: nat)
    requires Good(s) && x in Ids(s.t)
    requires x < |s.a| && s.a[x].right.At?
    ensures Lifted(s, RotateRL(s, x), x)
  {
    Up(s, x);
    var y := s.a[x].right.index;
    Up(s, y);
    var g := s.a[y].left;
    var bf := if g.At? then Factor(s.f, g.index) else 0;
    InnerRL(s, x);
    var s1 := RotateLL(s, y);
    LiftedRR(s1, x);
    var s2 := RotateRR(s1, x);
    Up(s2, x);
    assert RotateRL(s, x) == (if bf == 1 then s2.(f := s2.f[y := -1]) else if bf == -1 then s2.(f := s2.f[x := 1]) else s2);
    if bf == -1 || bf == 1 {
      assert s2.a[x].parent == g;
    }
  }

  /** The factor table of `_rotate` for LL: without a left child nothing
      happens; otherwise that child `l` takes `x`'s place above it, both end
      at factor 0 and no other factor moves. */
  lemma FactorsLL<V>(s: Avl<V>, x: nat)
    requires Good(s) && x in Ids(s.t) && x < |s.a|
    ensures s.a[x].left.Null? ==> RotateLL(s, x) == s
    ensures s.a[x].left.At? ==> (var l := s.a[x].left.index; var r := RotateLL(s, x);
      r.a[x].parent == At(l) && Factor(r.f, x) == 0 && Factor(r.f, l) == 0 &&
      forall i :: i != x && i != l ==> Factor(r.f, i) == Factor(s.f, i))
  {
    if s.a[x].left.At? {
      LiftedLL(s, x);
    }
  }

  /** The factor table of `_rotate` for RR, the mirror image. */
  lemma FactorsRR<V>(s: Avl<V>, x: nat)
    requires Good(s) && x in Ids(s.t) && x < |s.a|
    ensures s.a[x].right.Null? ==> RotateRR(s, x) == s
    ensures s.a[x].right.At? ==> (var y := s.a[x].right.index; var r := RotateRR(s, x);
      r.a[x].parent == At(y) && Factor(r.f, x) == 0 && Factor(r.f, y) == 0 &&
      forall i :: i != x && i != y ==> Factor(r.f, i) == Factor(s.f, i))
  {
    if s.a[x].right.At? {
      LiftedRR(s, x);
    }
  }

  /** The factor table of `_rotate` for LR: the grandchild `g` (the left
      child's right child) ends above `x` at factor 0; `x` and the left
      child `l` end at 0 except that an old factor -1 of `g` gives `l` +1
      and an old +1 gives `x` -1; no other factor moves. */
  lemma FactorsLR<V>(s: Avl<V>, x: nat)
    requires Good(s) && x in Ids(s.t) && x < |s.a| && s.a[x].left.At?
    requires s.a[x].left.index < |s.a| && s.a[s.a[x].left.index].right.At?
    ensures var l := s.a[x].left.index; var g := s.a[l].right.index; var bf := Factor(s.f, g);
      var r := RotateLR(s, x);
      r.a[x].parent == At(g) && Factor(r.f, g) == 0 &&
      Factor(r.f, l) == (if bf == -1 then 1 else 0) && Factor(r.f, x) == (if bf == 1 then -1 else 0) &&
      forall i :: i != x && i != l && i != g ==> Factor(r.f, i) == Factor(s.f, i)
  {
    Up(s, x);
    var l := s.a[x].left.index;
    var g := s.a[l].right.index;
    TurnsLR(s, x);
    var s2 := RotateLL(RotateRR(s, l), x);
    var bf := Factor(s.f, g);
    var r := RotateLR(s, x);
    assert r == (if bf == -1 then s2.(f := s2.f[l := 1]) else if bf == 1 then s2.(f := s2.f[x := -1]) else s2);
    DoubleTable(s.f, s2.f, r.f, x, l, g, l, x, -1, 1);
  }

  /** The two turns of LR, before the factor fix-up: the grandchild ends
      above `x`, and exactly the three nodes involved are at 0. */
  lemma TurnsLR<V>(s: Avl<V>, x: nat)
    requires Good(s) && x in Ids(s.t) && x < |s.a| && s.a[x].left.At? && s.a[x].left.index in Ids(s.t)
    requires s.a[x].left.index < |s.a| && s.a[s.a[x].left.index].right.At?
    ensures var l := s.a[x].left.index; var g := s.a[l].right.index; var s2 := RotateLL(RotateRR(s, l), x);
      l != x && g != l && g != x && s2.a[x].parent == At(g) &&
      Factor(s2.f, x) == 0 && Factor(s2.f, l) == 0 && Factor(s2.f, g) == 0 &&
      forall i :: i != x && i != l && i != g ==> Factor(s2.f, i) == Factor(s.f, i)
  {
    Up(s, x);
    var l := s.a[x].left.index;
    Up(s, l);
    var g := s.a[l].right.index;
    Up(s, g);
    InnerLR(s, x);
    var s1 := RotateRR(s, l);
    FactorsRR(s, l);
    LiftedLL(s1, x);
    FactorsLL(s1, x);
  }

  /** The factor table of `_rotate` for RL, the mirror image. */
  lemma FactorsRL<V>(s: Avl<V>, x: nat)
    requires Good(s) && x in Ids(s.t) && x < |s.a| && s.a[x].right.At?
    requires s.a[x].right.index < |s.a| && s.a[s.a[x].right.index].left.At?
    ensures var y := s.a[x].right.index; var g := s.a[y].left.index; var bf := Factor(s.f, g);
      var r := RotateRL(s, x);
      r.a[x].parent == At(g) && Factor(r.f, g) == 0 &&
      Factor(r.f, y) == (if bf == 1 then -1 else 0) && Factor(r.f, x) == (if bf == -1 then 1 else 0) &&
      forall i :: i != x && i != y && i != g ==> Factor(r.f, i) == Factor(s.f, i)
  {
    Up(s, x);
    var y := s.a[x].right.index;
    var g := s.a[y].left.index;
    TurnsRL(s, x);
    var s2 := RotateRR(RotateLL(s, y), x);
    var bf := Factor(s.f, g);
    var r := RotateRL(s, x);
    assert r == (if bf == 1 then s2.(f := s2.f[y := -1]) else if bf == -1 then s2.(f := s2.f[x := 1]) else s2);
    DoubleTable(s.f, s2.f, r.f, x, y, g, y, x, 1, -1);
  }

  /** The two turns of RL, the mirror image of `TurnsLR`. */
  lemma TurnsRL<V>(s: Avl<V>, x: nat)
    requires Good(s) && x in Ids(s.t) && x < |s.a| && s.a[x].right.At? && s.a[x].right.index in Ids(s.t)
    requires s.a[x].right.index < |s.a| && s.a[s.a[x].right.index].left.At?
    ensures var y := s.a[x].right.index; var g := s.a[y].left.index; var s2 := RotateRR(RotateLL(s, y), x);
      y != x && g != y && g != x && s2.a[x].parent == At(g) &&
      Factor(s2.f, x) == 0 && Factor(s2.f, y) == 0 && Factor(s2.f, g) == 0 &&
      forall i :: i != x && i != y && i != g ==> Factor(s2.f, i) == Factor(s.f, i)
  {
    Up(s, x);
    var y := s.a[x].right.index;
    Up(s, y);
    var g := s.a[y].left.index;
    Up(s, g);
    InnerRL(s, x);
    var s1 := RotateLL(s, y);
    FactorsLL(s, y);
    LiftedRR(s1, x);
    FactorsRR(s1, x);
  }

  /** The factor arithmetic shared by LR and RL: after both turns `x`, the
      child `c` and the grandchild `g` are at 0; then an old factor `p` of
      `g` gives node `u` the factor `-p`, and an old `q` gives node `w` the
      factor `-q`. */
  lemma DoubleTable(f0: map<nat, int>, f2: map<nat, int>, r: map<nat, int>, x: nat, c: nat, g: nat,
                    u: nat, w: nat, p: int, q: int)
    requires x != c && c != g && g != x && {u, w} == {x, c} && u != w && q == -p && (p == 1 || p == -1)
    requires Factor(f2, x) == 0 && Factor(f2, c) == 0 && Factor(f2, g) == 0
    requires forall i :: i != x && i != c && i != g ==> Factor(f2, i) == Factor(f0, i)
    requires r == (if Factor(f0, g) == p then f2[u := -p] else if Factor(f0, g) == q then f2[w := -q] else f2)
    ensures Factor(r, g) == 0
    ensures Factor(r, u) == (if Factor(f0, g) == p then -p else 0)
    ensures Factor(r, w) == (if Factor(f0, g) == q then -q else 0)
    ensures forall i :: i != x && i != c && i != g ==> Factor(r, i) == Factor(f0, i)
  {
  }

  /** The state right after the BST part of `_insert`. */
  ghost function Inserted<V>(cmp: (int, int) -> int, rep: bool, s: Avl<V>, k: int, v: V): (r: Avl<V>)
    requires Good(s)
    ensures Good(r) && |s.a| <= |r.a|
  {
    InsertKeeps(cmp, rep, s.a, s.root, s.t, {}, k, v);
    var (a, root, t) := InsertArena(cmp, rep, s.a, s.root, s.t, k, v);
    Avl(a, root, t, s.f)
  }

  /** The node `_insert` returns is in the tree it leaves. */
  lemma InsertedIn<V>(cmp: (int, int) -> int, rep: bool, s: Avl<V>, k: int, v: V)
    requires Good(s)
    ensures InsertedNode(cmp, rep, s.a, s.t, k).At? ==>
      InsertedNode(cmp, rep, s.a, s.t, k).index in Ids(Inserted(cmp, rep, s, k, v).t)
  {
    DescendFound(cmp, rep, s.a, s.root, s.t, k);
    match Descend(cmp, rep, s.a, s.t, k)
    case Attach(p, side) =>
      GraftIds(s.a, s.root, s.t, p, side);
    case _ =>
  }

  /** `AVLTree._insert`: the BST insertion, the balance walk from the
      returned node's parent and slot, then `_adjustment` at the node the
      walk broke off at. */
  ghost function AvlInsert<V>(cmp: (int, int) -> int, rep: bool, s: Avl<V>, k: int, v: V): (r: Avl<V>)
    requires Good(s)
    ensures Keeps(Inserted(cmp, rep, s, k, v), r)
  {
    var s1 := Inserted(cmp, rep, s, k, v);
    match InsertedNode(cmp, rep, s.a, s.t, k)
    case Null => s1
    case At(n) =>
      InsertedIn(cmp, rep, s, k, v);
      Up(s1, n);
      var (f, stop) := InsertClimb(s1, s1.a[n].parent, s1.a[n].kind);
      match stop
      case Null => s1.(f := f)
      case At(z) => Adjust(s1.(f := f), z).0
  }

  /** The state right after the BST part of `_remove` found `x`, when the
      node spliced out has no child to hand its slot to. */
  ghost function Removed<V>(s: Avl<V>, x: nat): (r: Avl<V>)
    requires Good(s) && x in Ids(s.t) && Heir(s.t, x) == Empty
    ensures Good(r)
  {
    RemovedGood(s, x);
    var (a, root, t) := RemoveArena(s.a, s.root, s.t, x);
    Avl(a, root, t, s.f)
  }

  /** Removal without an heir keeps every parent link exact; the detached
      node keeps its cells, so its `parent` is still in the tree. */
  lemma RemovedGood<V>(s: Avl<V>, x: nat)
    requires Good(s) && x in Ids(s.t) && Heir(s.t, x) == Empty
    ensures var (a, root, t) := RemoveArena(s.a, s.root, s.t, x); var d := Victim(s.t, x);
      Good(Avl(a, root, t, s.f)) && d < |a| && a[d] == s.a[d] &&
      (a[d].parent.At? ==> a[d].parent.index in Ids(t))
  {
    var m := RemoveKeeps(s.a, s.root, s.t, {}, x);
    var (a, root, t) := RemoveArena(s.a, s.root, s.t, x);
    var d := Victim(s.t, x);
    assert {} + Tops(Empty) == {};
    UniqueCount(s.t);
    UniqueCount(t);
    assert d in Ids(s.t);
    Up(s, d);
    RemoveLength(s, x);
  }

  lemma RemoveLength<V>(s: Avl<V>, x: nat)
    requires Good(s) && x in Ids(s.t) && RemoveDefined(s.a, s.t, x)
    ensures |RemoveArena(s.a, s.root, s.t, x).0| == |s.a|
  {
    var d := Victim(s.t, x);
    if NextOf(s.t, x).Some? || PrevOf(s.t, x).Some? {
      var child := if NextOf(s.t, x).Some? then s.a[d].right else s.a[d].left;
      var c := CopyPair(s.a, x, d);
      assert |Unhook(c, d, child)| == |s.a|;
      assert |Splice(c, d, child)| == |s.a|;
    } else if s.a[x].kind != Root {
      assert |Unhook(s.a, x, Null)| == |s.a|;
      assert |Splice(s.a, x, Null)| == |s.a|;
    }
  }

  /** `AVLTree._remove` after `_findNode` stopped at `x`: the BST removal,
      then the balance walk from the detached node's parent and slot. */
  ghost function AvlRemove<V>(s: Avl<V>, x: nat): (r: Avl<V>)
    requires Good(s) && x in Ids(s.t) && Heir(s.t, x) == Empty
    ensures Keeps(Removed(s, x), r)
  {
    var s1 := Removed(s, x);
    RemovedGood(s, x);
    var d := Victim(s.t, x);
    RemoveClimb(s1, s1.a[d].parent, s1.a[d].kind, false)
  }

  /** `batchInsert` on an AVL tree: `_insert` for each item in turn. */
  ghost function AvlInsertAll<V>(cmp: (int, int) -> int, rep: bool, s: Avl<V>, items: seq<(int, V)>): (r: Avl<V>)
    requires Good(s)
    ensures Good(r)
    decreases |items|
  {
    if items == [] then s
    else
      var last := items[|items| - 1];
      AvlInsert(cmp, rep, AvlInsertAll(cmp, rep, s, items[..|items| - 1]), last.0, last.1)
  }

  /** `batchInsert` over one more item is `_insert` of that item after the rest. */
  lemma AvlInsertAllStep<V>(cmp: (int, int) -> int, rep: bool, s: Avl<V>, items: seq<(int, V)>, i: nat)
    requires Good(s) && i < |items|
    ensures AvlInsertAll(cmp, rep, s, items[..i + 1]) ==
      AvlInsert(cmp, rep, AvlInsertAll(cmp, rep, s, items[..i]), items[i].0, items[i].1)
  {
    assert items[..i + 1][..i] == items[..i];
  }

  /** Rebalancing after an insertion changes nothing a reader of the tree
      can see: the AVL tree lists exactly the entries, and holds exactly the
      number of nodes, that the plain BST insertion leaves, and under a
      ranking comparer it stays ordered. */
  lemma AvlInsertListing<V>(cmp: (int, int) -> int, rank: int -> int, rep: bool, s: Avl<V>, k: int, v: V)
    requires Good(s)
    ensures var r := AvlInsert(cmp, rep, s, k, v); var (b, q, u) := InsertArena(cmp, rep, s.a, s.root, s.t, k, v);
      Within(r.a, r.t) && Within(b, u) && Listing(r.a, r.t) == Listing(b, u) && Count(r.t) == Count(u) &&
      (Ranked(cmp, rank) && Ordered(cmp, rep, s.a, s.t) ==> Ordered(cmp, rep, r.a, r.t))
  {
    var s1 := Inserted(cmp, rep, s, k, v);
    var r := AvlInsert(cmp, rep, s, k, v);
    ListingSame(s1.a, r.a, s1.t, r.t);
    UniqueCount(s1.t);
    UniqueCount(r.t);
    if Ranked(cmp, rank) && Ordered(cmp, rep, s.a, s.t) {
      InsertOrdered(cmp, rep, s.a, s.root, s.t, {}, k, v);
      OrderedAscending(cmp, rank, rep, s1.a, s1.t);
      OrderedAscending(cmp, rank, rep, r.a, r.t);
    }
  }

  /** Rebalancing after a removal changes nothing a reader can see either:
      the tree lists the old entries without the target's (at in-order
      position `m`), holds one node fewer, and under a ranking comparer
      stays ordered. */
  lemma AvlRemoveListing<V>(cmp: (int, int) -> int, rank: int -> int, rep: bool, s: Avl<V>, x: nat) returns (m: nat)
    requires Good(s) && x in Ids(s.t) && Heir(s.t, x) == Empty
    ensures var r := AvlRemove(s, x);
      Within(s.a, s.t) && Within(r.a, r.t) && m < |Listing(s.a, s.t)| && InOrder(s.t)[m] == x &&
      Listing(r.a, r.t) == Without(Listing(s.a, s.t), m) && Count(r.t) + 1 == Count(s.t) &&
      (Ranked(cmp, rank) && Ordered(cmp, rep, s.a, s.t) ==> Ordered(cmp, rep, r.a, r.t))
  {
    m := RemoveKeeps(s.a, s.root, s.t, {}, x);
    var s1 := Removed(s, x);
    var r := AvlRemove(s, x);
    ListingSame(s1.a, r.a, s1.t, r.t);
    UniqueCount(s1.t);
    UniqueCount(r.t);
    if Ranked(cmp, rank) && Ordered(cmp, rep, s.a, s.t) {
      RemoveOrdered(cmp, rank, rep, s.a, s.root, s.t, {}, x);
      OrderedAscending(cmp, rank, rep, s1.a, s1.t);
      OrderedAscending(cmp, rank, rep, r.a, r.t);
    }
  }
}
