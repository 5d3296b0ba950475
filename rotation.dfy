/** `BSTree._rotateLeft` and `_rotateRight` (packages/bst/src/BSTree.ts:329-365)
    on the arena, with the rotation they perform on the shape. */
module Rotation {
  import opened Refs
  import opened Shapes
  import opened Search
  import opened Removal

  /** A left rotation of a subtree whose root has a right child. */
  function RotL(s: Shape): Shape
  {
    match s
    case Fork(a, x, Fork(b, y, c)) => Fork(Fork(a, x, b), y, c)
    case _ => s
  }

  /** A right rotation of a subtree whose root has a left child. */
  function RotR(s: Shape): Shape
  {
    match s
    case Fork(Fork(a, y, b), x, c) => Fork(a, y, Fork(b, x, c))
    case _ => s
  }

  /** `t` with the subtree rooted at `x` replaced by `s`. */
  function Replace(t: Shape, x: nat, s: Shape): Shape
  {
    if t.Fork? && t.id == x then s
    else match Parent(t, x)
      case Null => t
      case At(p) => Hang(t, p, Side(t, x), s)
  }

  lemma RotLRotR(s: Shape)
    requires s.Fork? && s.right.Fork?
    ensures RotR(RotL(s)) == s
  {
  }

  lemma RotRRotL(s: Shape)
    requires s.Fork? && s.left.Fork?
    ensures RotL(RotR(s)) == s
  {
  }

  /** Rotations keep the nodes, their in-order sequence and the absence of repeats. */
  lemma RotLKeeps(s: Shape)
    ensures Ids(RotL(s)) == Ids(s) && InOrder(RotL(s)) == InOrder(s) && Count(RotL(s)) == Count(s)
    ensures Unique(s) ==> Unique(RotL(s))
  {
    if s.Fork? && s.right.Fork? {
      var Fork(a, x, Fork(b, y, c)) := s;
      assert InOrder(RotL(s)) == InOrder(a) + [x] + InOrder(b) + [y] + InOrder(c);
      assert Ids(RotL(s)) == Ids(a) + {x} + Ids(b) + {y} + Ids(c);
      if Unique(s) {
        assert Ids(Fork(b, y, c)) == Ids(b) + {y} + Ids(c);
        assert Unique(a) && Unique(Fork(b, y, c));
        assert Unique(b) && Unique(c);
        assert Unique(Fork(a, x, b));
        assert Ids(Fork(a, x, b)) !! Ids(c);
      }
    }
  }

  lemma RotRKeeps(s: Shape)
    ensures Ids(RotR(s)) == Ids(s) && InOrder(RotR(s)) == InOrder(s) && Count(RotR(s)) == Count(s)
    ensures Unique(s) ==> Unique(RotR(s))
  {
    if s.Fork? && s.left.Fork? {
      var Fork(Fork(a, y, b), x, c) := s;
      assert InOrder(RotR(s)) == InOrder(a) + [y] + InOrder(b) + [x] + InOrder(c);
      assert Ids(RotR(s)) == Ids(a) + {y} + Ids(b) + {x} + Ids(c);
      if Unique(s) {
        assert Ids(Fork(a, y, b)) == Ids(a) + {y} + Ids(b);
        assert Unique(c) && Unique(Fork(a, y, b));
        assert Unique(a) && Unique(b);
        assert Unique(Fork(b, x, c));
        assert Ids(a) !! Ids(Fork(b, x, c));
      }
    }
  }

  /** The positions `_rotateLeft(x)` reads are in the arena. */
  ghost predicate CanRotateLeft<V>(a: seq<Node<V>>, x: nat)
  {
    x < |a| && a[x].right.At? && a[x].right.index < |a| &&
    (a[x].kind != Root ==> a[x].parent.At? && a[x].parent.index < |a|) &&
    (a[a[x].right.index].left.At? ==> a[a[x].right.index].left.index < |a|)
  }

  ghost predicate CanRotateRight<V>(a: seq<Node<V>>, x: nat)
  {
    x < |a| && a[x].left.At? && a[x].left.index < |a| &&
    (a[x].kind != Root ==> a[x].parent.At? && a[x].parent.index < |a|) &&
    (a[a[x].left.index].right.At? ==> a[a[x].left.index].right.index < |a|)
  }

  /** The writes of `_rotateLeft(x)` once `x.right` is known to be present,
      in the source's order; the second component is the new `_root`. */
  function RotateLeftArena<V>(a: seq<Node<V>>, root: Ptr, x: nat): (seq<Node<V>>, Ptr)
    requires CanRotateLeft(a, x)
  {
    var y := a[x].right.index;
    var par := a[x].parent;
    var kind := a[x].kind;
    var a1 := a[y := a[y].(parent := par)];
    var a2 := if kind != Root then a1[par.index := SetChild(a1[par.index], kind, At(y))] else a1;
    var root' := if kind != Root then root else At(y);
    var a3 := a2[y := a2[y].(kind := kind)];
    var a4 := a3[x := a3[x].(kind := Left)];
    var b := a4[y].left;
    var a5 := a4[x := a4[x].(right := b)];
    var a6 := if b.At? && b.index < |a5| then a5[b.index := a5[b.index].(parent := At(x), kind := Right)] else a5;
    var a7 := a6[x := a6[x].(parent := At(y))];
    var a8 := a7[y := a7[y].(left := At(x))];
    (a8, root')
  }

  /** The writes of `_rotateRight(x)` once `x.left` is known to be present. */
  function RotateRightArena<V>(a: seq<Node<V>>, root: Ptr, x: nat): (seq<Node<V>>, Ptr)
    requires CanRotateRight(a, x)
  {
    var y := a[x].left.index;
    var par := a[x].parent;
    var kind := a[x].kind;
    var a1 := a[y := a[y].(parent := par)];
    var a2 := if kind != Root then a1[par.index := SetChild(a1[par.index], kind, At(y))] else a1;
    var root' := if kind != Root then root else At(y);
    var a3 := a2[y := a2[y].(kind := kind)];
    var a4 := a3[x := a3[x].(kind := Right)];
    var b := a4[y].right;
    var a5 := a4[x := a4[x].(left := b)];
    var a6 := if b.At? && b.index < |a5| then a5[b.index := a5[b.index].(parent := At(x), kind := Left)] else a5;
    var a7 := a6[y := a6[y].(right := At(x))];
    var a8 := a7[x := a7[x].(parent := At(y))];
    (a8, root')
  }

  lemma RotateLeftCells<V>(a: seq<Node<V>>, root: Ptr, x: nat)
    requires CanRotateLeft(a, x)
    requires var y := a[x].right.index; var b := a[y].left;
      y != x && (b.At? ==> b.index != x && b.index != y) &&
      (a[x].kind != Root ==> a[x].parent.index != x && a[x].parent.index != y && (b.At? ==> a[x].parent.index != b.index))
    ensures var (c, root') := RotateLeftArena(a, root, x);
      var y := a[x].right.index; var b := a[y].left; var kind := a[x].kind;
      |c| == |a| &&
      (forall i :: 0 <= i < |a| ==> c[i].key == a[i].key && c[i].value == a[i].value) &&
      root' == (if kind == Root then At(y) else root) &&
      c[x] == a[x].(kind := Left, right := b, parent := At(y)) &&
      c[y] == a[y].(parent := a[x].parent, kind := kind, left := At(x)) &&
      (b.At? ==> c[b.index] == a[b.index].(parent := At(x), kind := Right)) &&
      (kind != Root ==> c[a[x].parent.index] == SetChild(a[a[x].parent.index], kind, At(y))) &&
      forall i :: 0 <= i < |a| && i != x && i != y && At(i) != b && (kind == Root || At(i) != a[x].parent) ==> c[i] == a[i]
  {
  }

  lemma RotateRightCells<V>(a: seq<Node<V>>, root: Ptr, x: nat)
    requires CanRotateRight(a, x)
    requires var y := a[x].left.index; var b := a[y].right;
      y != x && (b.At? ==> b.index != x && b.index != y) &&
      (a[x].kind != Root ==> a[x].parent.index != x && a[x].parent.index != y && (b.At? ==> a[x].parent.index != b.index))
    ensures var (c, root') := RotateRightArena(a, root, x);
      var y := a[x].left.index; var b := a[y].right; var kind := a[x].kind;
      |c| == |a| &&
      (forall i :: 0 <= i < |a| ==> c[i].key == a[i].key && c[i].value == a[i].value) &&
      root' == (if kind == Root then At(y) else root) &&
      c[x] == a[x].(kind := Right, left := b, parent := At(y)) &&
      c[y] == a[y].(parent := a[x].parent, kind := kind, right := At(x)) &&
      (b.At? ==> c[b.index] == a[b.index].(parent := At(x), kind := Left)) &&
      (kind != Root ==> c[a[x].parent.index] == SetChild(a[a[x].parent.index], kind, At(y))) &&
      forall i :: 0 <= i < |a| && i != x && i != y && At(i) != b && (kind == Root || At(i) != a[x].parent) ==> c[i] == a[i]
  {
  }

  /** A subtree whose cells are all unchanged keeps every shape fact. */
  lemma AgreeFacts<V>(a: seq<Node<V>>, c: seq<Node<V>>, s: Shape, p: Ptr, kind: NodeType, par: Ptr, loose: set<nat>)
    requires Agree(a, c, Ids(s))
    ensures Shaped(a, p, s) == Shaped(c, p, s)
    ensures Tagged(a, s, kind) == Tagged(c, s, kind)
    ensures Linked(a, s, par, loose) == Linked(c, s, par, loose)
  {
    assert SameLinks(a, c, Ids(s));
    assert SameKinds(a, c, Ids(s));
    assert SameParents(a, c, Ids(s));
    AgreeShaped(a, c, s, p);
    AgreeTagged(a, c, s, kind);
    AgreeLinked(a, c, s, par, loose);
  }

  /** A subtree whose root cell takes a new parent and tag, the rest unchanged. */
  lemma Rehung<V>(a: seq<Node<V>>, c: seq<Node<V>>, s: Shape, kind: NodeType, par: Ptr, loose: set<nat>)
    requires s.Fork? && Unique(s) && Shaped(a, At(s.id), s)
    requires Tagged(a, s.left, Left) && Tagged(a, s.right, Right)
    requires Linked(a, s.left, At(s.id), loose) && Linked(a, s.right, At(s.id), loose)
    requires s.id < |c| && c[s.id] == a[s.id].(parent := par, kind := kind)
    requires Agree(a, c, Ids(s.left)) && Agree(a, c, Ids(s.right))
    ensures Shaped(c, At(s.id), s) && Tagged(c, s, kind) && Linked(c, s, par, loose)
  {
    AgreeFacts(a, c, s.left, a[s.id].left, Left, At(s.id), loose);
    AgreeFacts(a, c, s.right, a[s.id].right, Right, At(s.id), loose);
  }

  /** The subtree after `_rotateLeft(x)`: `y` on top with its old right
      subtree, `x` below on the left with its old left subtree and `y`'s old
      left subtree; every tag and parent link names the new slot. */
  lemma RotLSub<V>(a: seq<Node<V>>, c: seq<Node<V>>, s: Shape, kind: NodeType, par: Ptr, loose: set<nat>)
    requires s.Fork? && s.right.Fork? && Unique(s) && Shaped(a, At(s.id), s)
    requires Tagged(a, s, kind) && Linked(a, s, par, loose) && |c| == |a|
    requires s.right.id < |a| && (a[s.right.id].left.At? ==> a[s.right.id].left.index < |a|)
    requires var x := s.id; var y := s.right.id; var b := a[y].left;
      c[x] == a[x].(kind := Left, right := b, parent := At(y)) &&
      c[y] == a[y].(parent := par, kind := kind, left := At(x)) &&
      (b.At? ==> c[b.index] == a[b.index].(parent := At(x), kind := Right))
    requires Agree(a, c, Ids(s.left) + Ids(s.right.right))
    requires s.right.left.Fork? ==> Agree(a, c, Ids(s.right.left.left) + Ids(s.right.left.right))
    ensures Shaped(c, At(s.right.id), RotL(s)) && Tagged(c, RotL(s), kind) && Linked(c, RotL(s), par, loose)
  {
    var Fork(A, x, Fork(B, y, C)) := s;
    assert Unique(Fork(B, y, C));
    assert Agree(a, c, Ids(A)) && Agree(a, c, Ids(C));
    AgreeFacts(a, c, A, a[x].left, Left, At(x), loose);
    AgreeFacts(a, c, C, a[y].right, Right, At(y), loose);
    assert Shaped(a, a[x].right, Fork(B, y, C)) && Shaped(a, a[y].left, B);
    assert Tagged(a, Fork(B, y, C), Right) && Tagged(a, B, Left);
    assert Linked(a, Fork(B, y, C), At(x), loose) && Linked(a, B, At(y), loose);
    if B.Fork? {
      assert Unique(B);
      assert Tagged(a, B.left, Left) && Tagged(a, B.right, Right);
      assert Linked(a, B.left, At(B.id), loose) && Linked(a, B.right, At(B.id), loose);
      assert Agree(a, c, Ids(B.left)) && Agree(a, c, Ids(B.right));
      Rehung(a, c, B, Right, At(x), loose);
    }
  }

  lemma RotRSub<V>(a: seq<Node<V>>, c: seq<Node<V>>, s: Shape, kind: NodeType, par: Ptr, loose: set<nat>)
    requires s.Fork? && s.left.Fork? && Unique(s) && Shaped(a, At(s.id), s)
    requires Tagged(a, s, kind) && Linked(a, s, par, loose) && |c| == |a|
    requires s.left.id < |a| && (a[s.left.id].right.At? ==> a[s.left.id].right.index < |a|)
    requires var x := s.id; var y := s.left.id; var b := a[y].right;
      c[x] == a[x].(kind := Right, left := b, parent := At(y)) &&
      c[y] == a[y].(parent := par, kind := kind, right := At(x)) &&
      (b.At? ==> c[b.index] == a[b.index].(parent := At(x), kind := Left))
    requires Agree(a, c, Ids(s.left.left) + Ids(s.right))
    requires s.left.right.Fork? ==> Agree(a, c, Ids(s.left.right.left) + Ids(s.left.right.right))
    ensures Shaped(c, At(s.left.id), RotR(s)) && Tagged(c, RotR(s), kind) && Linked(c, RotR(s), par, loose)
  {
    var Fork(Fork(A, y, B), x, C) := s;
    assert Unique(Fork(A, y, B));
    assert Agree(a, c, Ids(A)) && Agree(a, c, Ids(C));
    AgreeFacts(a, c, A, a[y].left, Left, At(y), loose);
    AgreeFacts(a, c, C, a[x].right, Right, At(x), loose);
    assert Shaped(a, a[x].left, Fork(A, y, B)) && Shaped(a, a[y].right, B);
    assert Tagged(a, Fork(A, y, B), Left) && Tagged(a, B, Right);
    assert Linked(a, Fork(A, y, B), At(x), loose) && Linked(a, B, At(y), loose);
    if B.Fork? {
      assert Unique(B);
      assert Tagged(a, B.left, Left) && Tagged(a, B.right, Right);
      assert Linked(a, B.left, At(B.id), loose) && Linked(a, B.right, At(B.id), loose);
      assert Agree(a, c, Ids(B.left)) && Agree(a, c, Ids(B.right));
      Rehung(a, c, B, Left, At(x), loose);
    }
  }

  /** The slot tag and parent the subtree at `x` hangs from. */
  function SlotKind(t: Shape, x: nat): NodeType
  {
    if t.Fork? && t.id == x then Root else Side(t, x)
  }

  function SlotParent(t: Shape, x: nat): Ptr
  {
    if t.Fork? && t.id == x then Null else Parent(t, x)
  }

  /** The cells a left rotation at `s.id` leaves alone are those of the
      three subtrees it moves whole. */
  lemma RotLAgree<V>(a: seq<Node<V>>, c: seq<Node<V>>, s: Shape, b: Ptr, kind: NodeType, p: Ptr)
    requires s.Fork? && s.right.Fork? && Unique(s) && |c| == |a| && (forall i :: i in Ids(s) ==> i < |a|)
    requires b == (if s.right.left.Fork? then At(s.right.left.id) else Null)
    requires kind != Root ==> p.At? && p.index !in Ids(s)
    requires forall i :: 0 <= i < |a| && i != s.id && i != s.right.id && At(i) != b && (kind == Root || At(i) != p) ==>
      c[i] == a[i]
    ensures Agree(a, c, Ids(s.left) + Ids(s.right.right))
    ensures s.right.left.Fork? ==> Agree(a, c, Ids(s.right.left.left) + Ids(s.right.left.right))
  {
    var Fork(A, x, Fork(B, y, C)) := s;
    assert Unique(Fork(B, y, C));
    forall i | i in Ids(A) + Ids(C) ensures i < |a| && i < |c| && a[i] == c[i] {
      assert i in Ids(s);
    }
    if B.Fork? {
      assert Unique(B);
      forall i | i in Ids(B.left) + Ids(B.right) ensures i < |a| && i < |c| && a[i] == c[i] {
        assert i in Ids(B) && i != B.id;
        assert i in Ids(s);
      }
    }
  }

  /** The mirror image of `RotLAgree`. */
  lemma RotRAgree<V>(a: seq<Node<V>>, c: seq<Node<V>>, s: Shape, b: Ptr, kind: NodeType, p: Ptr)
    requires s.Fork? && s.left.Fork? && Unique(s) && |c| == |a| && (forall i :: i in Ids(s) ==> i < |a|)
    requires b == (if s.left.right.Fork? then At(s.left.right.id) else Null)
    requires kind != Root ==> p.At? && p.index !in Ids(s)
    requires forall i :: 0 <= i < |a| && i != s.id && i != s.left.id && At(i) != b && (kind == Root || At(i) != p) ==>
      c[i] == a[i]
    ensures Agree(a, c, Ids(s.left.left) + Ids(s.right))
    ensures s.left.right.Fork? ==> Agree(a, c, Ids(s.left.right.left) + Ids(s.left.right.right))
  {
    var Fork(Fork(A, y, B), x, C) := s;
    assert Unique(Fork(A, y, B));
    forall i | i in Ids(A) + Ids(C) ensures i < |a| && i < |c| && a[i] == c[i] {
      assert i in Ids(s);
    }
    if B.Fork? {
      assert Unique(B);
      forall i | i in Ids(B.left) + Ids(B.right) ensures i < |a| && i < |c| && a[i] == c[i] {
        assert i in Ids(B) && i != B.id;
        assert i in Ids(s);
      }
    }
  }

  /** The facts about the subtree at `x` that a rotation there starts from. */
  lemma RotateSetup<V>(a: seq<Node<V>>, ptr: Ptr, t: Shape, loose: set<nat>, x: nat)
    requires Shaped(a, ptr, t) && Unique(t) && Tagged(a, t, Root) && Linked(a, t, Null, loose)
    requires x in Ids(t) && x !in loose
    ensures Within(a, t) && SubAt(t, x).Fork? && SubAt(t, x).id == x && Unique(SubAt(t, x))
    ensures Ids(SubAt(t, x)) <= Ids(t) && Shaped(a, At(x), SubAt(t, x))
    ensures Tagged(a, SubAt(t, x), SlotKind(t, x)) && Linked(a, SubAt(t, x), SlotParent(t, x), loose)
    ensures x < |a| && a[x].kind == SlotKind(t, x) && a[x].parent == SlotParent(t, x)
    ensures x == t.id <==> a[x].kind == Root
    ensures x == t.id ==> ptr == At(x) && SubAt(t, x) == t
    ensures x != t.id ==> (Parent(t, x).At? && Parent(t, x).index in Ids(t) && Parent(t, x).index < |a| &&
      Side(t, x) != Root && SlotAt(t, Parent(t, x).index, Side(t, x)) == SubAt(t, x) &&
      Parent(t, x).index !in Ids(SubAt(t, x)))
  {
    ShapedWithin(a, ptr, t);
    SubAtShaped(a, ptr, t, x);
    SubAtIds(t, x);
    TaggedSub(a, t, Root, x);
    LinkedSub(a, t, Null, loose, x);
    if x != t.id {
      ParentSlot(t, x);
    }
  }

  /** A subtree replaced by a rotated copy of itself, hung in the same slot,
      gives a tree with the same nodes in the same in-order sequence and
      every shape fact intact. */
  lemma RotateLift<V>(a: seq<Node<V>>, c: seq<Node<V>>, ptr: Ptr, ptr': Ptr, t: Shape, loose: set<nat>,
                      x: nat, s': Shape)
    requires Shaped(a, ptr, t) && Unique(t) && Tagged(a, t, Root) && Linked(a, t, Null, loose)
    requires x in Ids(t) && |c| == |a| && Within(a, t) && SubAt(t, x).Fork?
    requires x != t.id ==> (Parent(t, x).At? && Parent(t, x).index in Ids(t) && Parent(t, x).index < |a| &&
      Side(t, x) != Root && SlotAt(t, Parent(t, x).index, Side(t, x)) == SubAt(t, x))
    requires s'.Fork? && Unique(s') && Ids(s') == Ids(SubAt(t, x)) && InOrder(s') == InOrder(SubAt(t, x))
    requires Shaped(c, At(s'.id), s') && Tagged(c, s', SlotKind(t, x)) && Linked(c, s', SlotParent(t, x), loose)
    requires x == t.id ==> ptr' == At(s'.id)
    requires x != t.id ==> ptr' == ptr && c[Parent(t, x).index] == SetChild(a[Parent(t, x).index], Side(t, x), At(s'.id))
    requires forall i :: i in Ids(t) && i !in Ids(SubAt(t, x)) && (x == t.id || i != Parent(t, x).index) ==> c[i] == a[i]
    ensures Shaped(c, ptr', Replace(t, x, s')) && Unique(Replace(t, x, s')) && Ids(Replace(t, x, s')) == Ids(t)
    ensures Tagged(c, Replace(t, x, s'), Root) && Linked(c, Replace(t, x, s'), Null, loose)
    ensures InOrder(Replace(t, x, s')) == InOrder(t)
  {
    var s := SubAt(t, x);
    if x == t.id {
      assert SubAt(t, x) == t;
    } else {
      var p := Parent(t, x).index;
      var side := Side(t, x);
      SlotIds(t, p, side);
      var out := Ids(t) - Ids(s);
      assert SameLinks(a, c, out - {p});
      assert SameKinds(a, c, out);
      assert SameParents(a, c, out);
      HangShaped(a, c, ptr, t, p, side, s', At(s'.id));
      HangTagged(a, c, t, Root, p, side, s');
      HangLinked(a, c, t, Null, loose, p, side, s', loose);
      HangIds(t, p, side, s');
      HangUnique(t, p, side, s');
      HangInOrder(t, p, side, s');
      HangInOrder(t, p, side, s);
      assert Ids(t) - Ids(s) + Ids(s) == Ids(t);
    }
  }

  /** `_rotateLeft(x)` on a node with a right child whose own parent link is
      intact: the right child takes `x`'s slot, every tag and parent link of
      the rotated nodes is set right, and the tree keeps its nodes, its
      in-order sequence and its pairs. */
  lemma RotateLeftTree<V>(a: seq<Node<V>>, ptr: Ptr, t: Shape, loose: set<nat>, x: nat)
    requires Shaped(a, ptr, t) && Unique(t) && Tagged(a, t, Root) && Linked(a, t, Null, loose)
    requires x in Ids(t) && x !in loose && SubAt(t, x).Fork? && SubAt(t, x).right.Fork?
    ensures CanRotateLeft(a, x)
    ensures var (c, ptr') := RotateLeftArena(a, ptr, x); var u := Replace(t, x, RotL(SubAt(t, x)));
      Shaped(c, ptr', u) && Unique(u) && Ids(u) == Ids(t) && Count(u) == Count(t) &&
      Tagged(c, u, Root) && Linked(c, u, Null, loose) && InOrder(u) == InOrder(t) &&
      |c| == |a| && (forall i :: 0 <= i < |a| ==> c[i].key == a[i].key && c[i].value == a[i].value)
  {
    RotateSetup(a, ptr, t, loose, x);
    var s := SubAt(t, x);
    RotateLeftLocal(a, ptr, t, loose, x);
    var (c, ptr') := RotateLeftArena(a, ptr, x);
    RotLKeeps(s);
    UniqueCount(t);
    RotateLift(a, c, ptr, ptr', t, loose, x, RotL(s));
    UniqueCount(Replace(t, x, RotL(s)));
  }

  /** The part of `_rotateLeft(x)` inside the subtree at `x`, and the cells outside it. */
  lemma RotateLeftLocal<V>(a: seq<Node<V>>, ptr: Ptr, t: Shape, loose: set<nat>, x: nat)
    requires Shaped(a, ptr, t) && Unique(t) && Tagged(a, t, Root) && Linked(a, t, Null, loose)
    requires x in Ids(t) && x !in loose && SubAt(t, x).Fork? && SubAt(t, x).right.Fork?
    ensures CanRotateLeft(a, x)
    ensures var (c, ptr') := RotateLeftArena(a, ptr, x); var s := SubAt(t, x);
      Shaped(c, At(s.right.id), RotL(s)) && Tagged(c, RotL(s), SlotKind(t, x)) &&
      Linked(c, RotL(s), SlotParent(t, x), loose) &&
      |c| == |a| && (forall i :: 0 <= i < |a| ==> c[i].key == a[i].key && c[i].value == a[i].value) &&
      (x == t.id ==> ptr' == At(s.right.id)) &&
      (x != t.id ==> (ptr' == ptr && Parent(t, x).At? && Parent(t, x).index < |a| &&
        c[Parent(t, x).index] == SetChild(a[Parent(t, x).index], Side(t, x), At(s.right.id)))) &&
      (forall i :: i in Ids(t) && i !in Ids(s) && (x == t.id || i != Parent(t, x).index) ==> i < |c| && c[i] == a[i])
  {
    RotateSetup(a, ptr, t, loose, x);
    var s := SubAt(t, x);
    var Fork(A, _, Fork(B, y, C)) := s;
    assert a[x].right == At(y) && Shaped(a, a[y].left, B);
    assert y != x && y !in Ids(A) && Ids(A) !! Ids(Fork(B, y, C));
    var b := a[y].left;
    assert b.At? ==> b.index in Ids(B) && b.index != x && b.index != y;
    RotateLeftCells(a, ptr, x);
    var (c, ptr') := RotateLeftArena(a, ptr, x);
    RotLAgree(a, c, s, b, a[x].kind, a[x].parent);
    RotLSub(a, c, s, SlotKind(t, x), SlotParent(t, x), loose);
  }

  /** `_rotateRight(x)`, the mirror image. */
  lemma RotateRightTree<V>(a: seq<Node<V>>, ptr: Ptr, t: Shape, loose: set<nat>, x: nat)
    requires Shaped(a, ptr, t) && Unique(t) && Tagged(a, t, Root) && Linked(a, t, Null, loose)
    requires x in Ids(t) && x !in loose && SubAt(t, x).Fork? && SubAt(t, x).left.Fork?
    ensures CanRotateRight(a, x)
    ensures var (c, ptr') := RotateRightArena(a, ptr, x); var u := Replace(t, x, RotR(SubAt(t, x)));
      Shaped(c, ptr', u) && Unique(u) && Ids(u) == Ids(t) && Count(u) == Count(t) &&
      Tagged(c, u, Root) && Linked(c, u, Null, loose) && InOrder(u) == InOrder(t) &&
      |c| == |a| && (forall i :: 0 <= i < |a| ==> c[i].key == a[i].key && c[i].value == a[i].value)
  {
    RotateSetup(a, ptr, t, loose, x);
    var s := SubAt(t, x);
    RotateRightLocal(a, ptr, t, loose, x);
    var (c, ptr') := RotateRightArena(a, ptr, x);
    RotRKeeps(s);
    UniqueCount(t);
    RotateLift(a, c, ptr, ptr', t, loose, x, RotR(s));
    UniqueCount(Replace(t, x, RotR(s)));
  }

  lemma RotateRightLocal<V>(a: seq<Node<V>>, ptr: Ptr, t: Shape, loose: set<nat>, x: nat)
    requires Shaped(a, ptr, t) && Unique(t) && Tagged(a, t, Root) && Linked(a, t, Null, loose)
    requires x in Ids(t) && x !in loose && SubAt(t, x).Fork? && SubAt(t, x).left.Fork?
    ensures CanRotateRight(a, x)
    ensures var (c, ptr') := RotateRightArena(a, ptr, x); var s := SubAt(t, x);
      Shaped(c, At(s.left.id), RotR(s)) && Tagged(c, RotR(s), SlotKind(t, x)) &&
      Linked(c, RotR(s), SlotParent(t, x), loose) &&
      |c| == |a| && (forall i :: 0 <= i < |a| ==> c[i].key == a[i].key && c[i].value == a[i].value) &&
      (x == t.id ==> ptr' == At(s.left.id)) &&
      (x != t.id ==> (ptr' == ptr && Parent(t, x).At? && Parent(t, x).index < |a| &&
        c[Parent(t, x).index] == SetChild(a[Parent(t, x).index], Side(t, x), At(s.left.id)))) &&
      (forall i :: i in Ids(t) && i !in Ids(s) && (x == t.id || i != Parent(t, x).index) ==> i < |c| && c[i] == a[i])
  {
    RotateSetup(a, ptr, t, loose, x);
    var s := SubAt(t, x);
    var Fork(Fork(A, y, B), _, C) := s;
    assert a[x].left == At(y) && Shaped(a, a[y].right, B);
    assert y != x && y !in Ids(C) && Ids(Fork(A, y, B)) !! Ids(C);
    var b := a[y].right;
    assert b.At? ==> b.index in Ids(B) && b.index != x && b.index != y;
    RotateRightCells(a, ptr, x);
    var (c, ptr') := RotateRightArena(a, ptr, x);
    RotRAgree(a, c, s, b, a[x].kind, a[x].parent);
    RotRSub(a, c, s, SlotKind(t, x), SlotParent(t, x), loose);
  }

  /** `_rotateRight` on the promoted node undoes `_rotateLeft`, restoring every
      cell and the root, when the three nodes whose parent links the rotations
      rewrite had intact links to begin with. */
  lemma RotateUndo<V>(a: seq<Node<V>>, ptr: Ptr, t: Shape, loose: set<nat>, x: nat)
    requires Shaped(a, ptr, t) && Unique(t) && Tagged(a, t, Root) && Linked(a, t, Null, loose)
    requires x in Ids(t) && x !in loose && SubAt(t, x).Fork? && SubAt(t, x).right.Fork?
    requires SubAt(t, x).right.id !in loose && (SubAt(t, x).right.left.Fork? ==> SubAt(t, x).right.left.id !in loose)
    ensures CanRotateLeft(a, x)
    ensures var (c, ptr') := RotateLeftArena(a, ptr, x); var y := a[x].right.index;
      CanRotateRight(c, y) && RotateRightArena(c, ptr', y) == (a, ptr)
  {
    RotateSetup(a, ptr, t, loose, x);
    RotateLeftTree(a, ptr, t, loose, x);
    var s := SubAt(t, x);
    var Fork(A, _, Fork(B, y, C)) := s;
    assert Shaped(a, a[x].right, Fork(B, y, C)) && Shaped(a, a[y].left, B);
    assert Tagged(a, Fork(B, y, C), Right) && Tagged(a, B, Left);
    assert Linked(a, Fork(B, y, C), At(x), loose) && Linked(a, B, At(y), loose);
    assert a[y].parent == At(x) && a[y].kind == Right;
    var b := a[y].left;
    assert b.At? ==> b.index in Ids(B) && b.index != x && b.index != y && a[b.index].parent == At(y) && a[b.index].kind == Left;
    assert y != x && y !in Ids(A) && Ids(A) !! Ids(Fork(B, y, C));
    RotateLeftCells(a, ptr, x);
    var (c, ptr') := RotateLeftArena(a, ptr, x);
    assert c[y].left == At(x) && c[x].right == b && c[y].parent == a[x].parent && c[y].kind == a[x].kind;
    RotateRightCells(c, ptr', y);
    var (d, ptr'') := RotateRightArena(c, ptr', y);
    assert d[x] == a[x];
    assert d[y] == a[y];
    forall i | 0 <= i < |a| ensures d[i] == a[i] {
      if i != x && i != y && At(i) != b && (a[x].kind == Root || At(i) != a[x].parent) {
      } else if At(i) == b {
      } else if i != x && i != y {
        var p := a[x].parent.index;
        assert i == p;
        ParentPointsDown(a, ptr, t, x);
      }
    }
    assert |d| == |a|;
    assert d == a;
    assert ptr'' == ptr;
  }

  /** The parent's slot named by the shape holds the node. */
  lemma ParentPointsDown<V>(a: seq<Node<V>>, ptr: Ptr, t: Shape, x: nat)
    requires Shaped(a, ptr, t) && Unique(t) && x in Ids(t) && x != t.id
    ensures Parent(t, x).At? && Parent(t, x).index < |a|
    ensures Child(a[Parent(t, x).index], Side(t, x)) == At(x)
  {
    ParentSlot(t, x);
    var p := Parent(t, x).index;
    SubAtShaped(a, ptr, t, p);
    SubAtShaped(a, ptr, t, x);
  }
}
