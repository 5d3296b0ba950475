/** The AVL balance invariant of packages/avl/src/AVLTree.ts: every node's
    `balanceFactor` is the height of its left subtree minus that of its
    right one and lies in [-1, 1]. This module states it on the shape and
    proves that `_insert` keeps it whenever the BST insertion adds a node. */
module AvlHeights {
  import opened Refs
  import opened Shapes
  import opened Search
  import opened Insertion
  import opened Inserting
  import opened Removal
  import opened Rotation
  import opened Climbing
  import opened Balancing

  /** Every node of `t` has the factor its subtrees' heights give, in [-1, 1]. */
  ghost predicate Even(t: Shape, f: map<nat, int>)
  {
    match t
    case Empty => true
    case Fork(l, i, r) =>
      Factor(f, i) == Height(l) - Height(r) && -1 <= Factor(f, i) <= 1 && Even(l, f) && Even(r, f)
  }

  /** The height of `t` when the subtree rooted at `c` counts as `h` high. */
  function HeightWith(t: Shape, c: nat, h: nat): nat
  {
    match t
    case Empty => 0
    case Fork(l, i, r) =>
      if i == c then h
      else 1 + (if HeightWith(l, c, h) < HeightWith(r, c, h) then HeightWith(r, c, h) else HeightWith(l, c, h))
  }

  /** `Even` for every node outside the subtree rooted at `c`, counting that
      subtree as `h` high; the nodes inside it are not judged. */
  ghost predicate EvenWith(t: Shape, f: map<nat, int>, c: nat, h: nat)
  {
    match t
    case Empty => true
    case Fork(l, i, r) =>
      i == c ||
      (Factor(f, i) == HeightWith(l, c, h) - HeightWith(r, c, h) && -1 <= Factor(f, i) <= 1 &&
       EvenWith(l, f, c, h) && EvenWith(r, f, c, h))
  }

  /** The height of a subtree's left part minus that of its right part. */
  function Lean(t: Shape): int
  {
    match t
    case Empty => 0
    case Fork(l, _, r) => Height(l) - Height(r)
  }

  /** The AVL balance invariant, node by node. */
  ghost predicate Balanced<V>(s: Avl<V>)
  {
    forall x :: x in Ids(s.t) ==> Factor(s.f, x) == Lean(SubAt(s.t, x)) && -1 <= Factor(s.f, x) <= 1
  }

  /** The node-by-node invariant is `Even` of the whole shape. */
  lemma {:induction false} BalancedEven(t: Shape, f: map<nat, int>)
    requires Unique(t)
    ensures Even(t, f) <==> forall x :: x in Ids(t) ==> Factor(f, x) == Lean(SubAt(t, x)) && -1 <= Factor(f, x) <= 1
  {
    match t
    case Empty =>
    case Fork(l, i, r) =>
      BalancedEven(l, f);
      BalancedEven(r, f);
      assert forall x :: x in Ids(l) ==> SubAt(t, x) == SubAt(l, x);
      assert forall x :: x in Ids(r) ==> SubAt(t, x) == SubAt(r, x);
  }

  /** `Even` reads the factors of the nodes of `t` only. */
  lemma {:induction false} EvenFrame(t: Shape, f: map<nat, int>, g: map<nat, int>)
    requires forall i :: i in Ids(t) ==> Factor(f, i) == Factor(g, i)
    ensures Even(t, f) == Even(t, g)
  {
    match t
    case Empty =>
    case Fork(l, i, r) =>
      EvenFrame(l, f, g);
      EvenFrame(r, f, g);
  }

  /** Away from `c`, `HeightWith` is the height and `EvenWith` is `Even`. */
  lemma {:induction false} WithOut(t: Shape, f: map<nat, int>, c: nat, h: nat)
    requires c !in Ids(t)
    ensures HeightWith(t, c, h) == Height(t) && (EvenWith(t, f, c, h) == Even(t, f))
  {
    match t
    case Empty =>
    case Fork(l, i, r) =>
      WithOut(l, f, c, h);
      WithOut(r, f, c, h);
  }

  /** A judged node above `c` keeps its factor fact inside its own subtree. */
  lemma {:induction false} WithAt(t: Shape, f: map<nat, int>, c: nat, h: nat, x: nat)
    requires Unique(t) && x in Ids(t) && x != c && c in Ids(SubAt(t, x)) && EvenWith(t, f, c, h)
    ensures EvenWith(SubAt(t, x), f, c, h)
  {
    match t
    case Fork(l, i, r) =>
      if i != x {
        if x in Ids(l) {
          SubAtIds(l, x);
          WithAt(l, f, c, h, x);
        } else {
          SubAtIds(r, x);
          WithAt(r, f, c, h, x);
        }
      }
  }

  /** Counting an ancestor `x` of `c` as high as its subtree with `c` at `h`
      gives the whole tree the height it has with `c` at `h`. */
  lemma {:induction false} TransferHeight(t: Shape, c: nat, h: nat, x: nat)
    requires Unique(t) && x in Ids(t) && c in Ids(SubAt(t, x))
    ensures HeightWith(t, c, h) == HeightWith(t, x, HeightWith(SubAt(t, x), c, h))
  {
    var h' := HeightWith(SubAt(t, x), c, h);
    match t
    case Fork(l, i, r) =>
      if i != x {
        if x in Ids(l) {
          SubAtIds(l, x);
          TransferHeight(l, c, h, x);
          WithOut(r, map[], c, h);
          WithOut(r, map[], x, h');
        } else {
          SubAtIds(r, x);
          TransferHeight(r, c, h, x);
          WithOut(l, map[], c, h);
          WithOut(l, map[], x, h');
        }
      }
  }

  /** Once the subtree at an ancestor `x` of `c` is settled, the judging moves
      up to `x`, which then counts as high as its subtree with `c` at `h`;
      the factor of `x` itself is no longer judged. */
  lemma {:induction false} Transfer(t: Shape, f: map<nat, int>, c: nat, h: nat, x: nat, v: int)
    requires Unique(t) && x in Ids(t) && c in Ids(SubAt(t, x)) && EvenWith(t, f, c, h)
    ensures EvenWith(t, f[x := v], x, HeightWith(SubAt(t, x), c, h))
  {
    var h' := HeightWith(SubAt(t, x), c, h);
    match t
    case Fork(l, i, r) =>
      if i != x {
        if x in Ids(l) {
          SubAtIds(l, x);
          Transfer(l, f, c, h, x, v);
          TransferHeight(l, c, h, x);
          TransferSide(r, f, c, h, x, v, h');
        } else {
          SubAtIds(r, x);
          Transfer(r, f, c, h, x, v);
          TransferHeight(r, c, h, x);
          TransferSide(l, f, c, h, x, v, h');
        }
      }
  }

  /** The side of an ancestor that holds neither `c` nor `x` keeps its facts. */
  lemma TransferSide(t: Shape, f: map<nat, int>, c: nat, h: nat, x: nat, v: int, h': nat)
    requires c !in Ids(t) && x !in Ids(t) && EvenWith(t, f, c, h)
    ensures HeightWith(t, c, h) == HeightWith(t, x, h') && EvenWith(t, f[x := v], x, h')
  {
    WithOut(t, f, c, h);
    WithOut(t, f[x := v], x, h');
    EvenFrame(t, f, f[x := v]);
  }

  /** Judged outside `c` with `c` at its true height, and even inside `c`:
      the whole tree is even. */
  lemma {:induction false} CloseSelf(t: Shape, f: map<nat, int>, c: nat)
    requires Unique(t) && EvenWith(t, f, c, Height(SubAt(t, c))) && Even(SubAt(t, c), f)
    ensures Even(t, f) && HeightWith(t, c, Height(SubAt(t, c))) == Height(t)
  {
    match t
    case Empty =>
    case Fork(l, i, r) =>
      if i != c {
        if c in Ids(l) {
          assert SubAt(t, c) == SubAt(l, c);
          CloseSelf(l, f, c);
          WithOut(r, f, c, Height(SubAt(t, c)));
        } else if c in Ids(r) {
          assert SubAt(t, c) == SubAt(r, c);
          CloseSelf(r, f, c);
          WithOut(l, f, c, Height(SubAt(t, c)));
        } else {
          WithOut(t, f, c, Height(SubAt(t, c)));
        }
      }
  }

  /** A new leaf `n` hung in the empty `side` slot of `p` in an even tree:
      counting the leaf as 0 high, the tree is judged even and keeps its height. */
  lemma {:induction false} GraftWith(t: Shape, p: nat, side: NodeType, n: nat, f: map<nat, int>)
    requires Unique(t) && p in Ids(t) && n !in Ids(t) && SlotAt(t, p, side) == Empty && Even(t, f)
    ensures HeightWith(Graft(t, p, side, n), n, 0) == Height(t) && EvenWith(Graft(t, p, side, n), f, n, 0)
  {
    match t
    case Fork(l, i, r) =>
      if i == p {
        GraftHere(t, side, n, f);
      } else if p in Ids(l) {
        assert SlotAt(t, p, side) == SlotAt(l, p, side);
        GraftWith(l, p, side, n, f);
        GraftLeft(t, p, side, n, f);
      } else {
        assert SlotAt(t, p, side) == SlotAt(r, p, side);
        GraftWith(r, p, side, n, f);
        GraftRight(t, p, side, n, f);
      }
  }

  /** The step of `GraftWith` at a node whose left side holds `p`. */
  lemma GraftLeft(t: Shape, p: nat, side: NodeType, n: nat, f: map<nat, int>)
    requires Unique(t) && t.Fork? && p != t.id && p in Ids(t.left) && n !in Ids(t) && Even(t, f)
    requires var L := Graft(t.left, p, side, n); HeightWith(L, n, 0) == Height(t.left) && EvenWith(L, f, n, 0)
    ensures HeightWith(Graft(t, p, side, n), n, 0) == Height(t) && EvenWith(Graft(t, p, side, n), f, n, 0)
  {
    GraftAbsent(t.right, p, side, n);
    WithOut(t.right, f, n, 0);
  }

  /** The step of `GraftWith` at a node whose right side holds `p`. */
  lemma GraftRight(t: Shape, p: nat, side: NodeType, n: nat, f: map<nat, int>)
    requires Unique(t) && t.Fork? && p != t.id && p in Ids(t.right) && n !in Ids(t) && Even(t, f)
    requires var R := Graft(t.right, p, side, n); HeightWith(R, n, 0) == Height(t.right) && EvenWith(R, f, n, 0)
    ensures HeightWith(Graft(t, p, side, n), n, 0) == Height(t) && EvenWith(Graft(t, p, side, n), f, n, 0)
  {
    GraftAbsent(t.left, p, side, n);
    WithOut(t.left, f, n, 0);
  }

  /** `GraftWith` at the node that takes the leaf. */
  lemma GraftHere(t: Shape, side: NodeType, n: nat, f: map<nat, int>)
    requires t.Fork? && n !in Ids(t) && (if side == Left then t.left else t.right) == Empty && Even(t, f)
    ensures HeightWith(Graft(t, t.id, side, n), n, 0) == Height(t) && EvenWith(Graft(t, t.id, side, n), f, n, 0)
  {
    WithOut(t.left, f, n, 0);
    WithOut(t.right, f, n, 0);
  }

  /** The state of the `_insert` walk arriving from `c`: the subtree at `c`
      grew by one and is even, everything else is even counting it at its
      old height, and `c` leans one way unless it is the new leaf. */
  ghost predicate Rising(t: Shape, f: map<nat, int>, c: nat)
  {
    c in Ids(t) && SubAt(t, c).Fork? &&
    EvenWith(t, f, c, Height(SubAt(t, c)) - 1) && Even(SubAt(t, c), f) &&
    (Factor(f, c) == 1 || Factor(f, c) == -1 || Height(SubAt(t, c)) == 1)
  }

  /** The state the `_insert` walk breaks off in at `x`: its factor is +2
      (-2), its left (right) subtree is two higher than the other and leans
      one way, both subtrees are even, and everything outside counts the
      subtree at `x` one lower than it now is. */
  ghost predicate Ready(t: Shape, f: map<nat, int>, x: nat)
  {
    x in Ids(t) && SubAt(t, x).Fork? &&
    var S := SubAt(t, x);
    EvenWith(t, f, x, Height(S) - 1) && Even(S.left, f) && Even(S.right, f) &&
    ((Factor(f, x) == 2 && Height(S.left) == Height(S.right) + 2 && S.left.Fork? &&
      (Factor(f, S.left.id) == 1 || Factor(f, S.left.id) == -1)) ||
     (Factor(f, x) == -2 && Height(S.right) == Height(S.left) + 2 && S.right.Fork? &&
      (Factor(f, S.right.id) == 1 || Factor(f, S.right.id) == -1)))
  }

  /** One step of the `_insert` walk on the shape: at the parent `x` of `c`,
      the new factor is the true height difference; at 0 the whole tree is
      even, at +1 or -1 the walk goes on from `x`, and beyond the walk
      breaks off in the `Ready` state. */
  lemma Step(t: Shape, f: map<nat, int>, c: nat)
    requires Unique(t) && Rising(t, f, c) && c != t.id
    ensures Parent(t, c).At? && Parent(t, c).index in Ids(t)
    ensures var x := Parent(t, c).index; var v := Factor(f, x) + (if Side(t, c) == Left then 1 else -1);
      (v == 0 ==> Even(t, f[x := v])) &&
      (v == 1 || v == -1 ==> Rising(t, f[x := v], x)) &&
      (v > 1 || v < -1 ==> Ready(t, f[x := v], x))
  {
    ParentSlot(t, c);
    var x := Parent(t, c).index;
    var side := Side(t, c);
    var v := Factor(f, x) + (if side == Left then 1 else -1);
    StepAt(t, f, c, x, side, v);
  }

  /** `Step` with the parent `x` and the slot `side` of `c` named. */
  lemma StepAt(t: Shape, f: map<nat, int>, c: nat, x: nat, side: NodeType, v: int)
    requires Unique(t) && Rising(t, f, c) && x in Ids(t) && side != Root
    requires SlotAt(t, x, side) == SubAt(t, c) && x !in Ids(SubAt(t, c))
    requires v == Factor(f, x) + (if side == Left then 1 else -1)
    ensures v == 0 ==> Even(t, f[x := v])
    ensures v == 1 || v == -1 ==> Rising(t, f[x := v], x)
    ensures v > 1 || v < -1 ==> Ready(t, f[x := v], x)
  {
    var h := Height(SubAt(t, c)) - 1;
    SubAtIds(t, x);
    SubAtIds(t, c);
    assert c in Ids(SubAt(t, x));
    WithAt(t, f, c, h, x);
    Transfer(t, f, c, h, x, v);
    StepLocal(SubAt(t, x), f, c, h, side, v);
    StepEnds(t, f[x := v], x, HeightWith(SubAt(t, x), c, h));
  }

  /** Where a step leaves the walk, from the facts about the parent's subtree. */
  lemma StepEnds(t: Shape, g: map<nat, int>, x: nat, h: nat)
    requires Unique(t) && x in Ids(t) && SubAt(t, x).Fork? && EvenWith(t, g, x, h)
    requires var S := SubAt(t, x); var v := Factor(g, x);
      (-1 <= v <= 1 ==> Even(S, g)) &&
      (v == 0 ==> h == Height(S)) &&
      (v == 1 || v == -1 ==> h == Height(S) - 1) &&
      (v > 1 ==>
        (h == Height(S) - 1 && Even(S.left, g) && Even(S.right, g) &&
         v == 2 && Height(S.left) == Height(S.right) + 2 && S.left.Fork? &&
         (Factor(g, S.left.id) == 1 || Factor(g, S.left.id) == -1))) &&
      (v < -1 ==>
        (h == Height(S) - 1 && Even(S.left, g) && Even(S.right, g) &&
         v == -2 && Height(S.right) == Height(S.left) + 2 && S.right.Fork? &&
         (Factor(g, S.right.id) == 1 || Factor(g, S.right.id) == -1)))
    ensures Factor(g, x) == 0 ==> Even(t, g)
    ensures Factor(g, x) == 1 || Factor(g, x) == -1 ==> Rising(t, g, x)
    ensures Factor(g, x) > 1 || Factor(g, x) < -1 ==> Ready(t, g, x)
  {
    var v := Factor(g, x);
    if v == 0 {
      CloseSelf(t, g, x);
    } else if v == 1 || v == -1 {
      EndsRising(t, g, x, h);
    } else {
      EndsReady(t, g, x, h);
    }
  }

  /** `StepEnds` when the new factor is +1 or -1. */
  lemma EndsRising(t: Shape, g: map<nat, int>, x: nat, h: nat)
    requires x in Ids(t) && SubAt(t, x).Fork? && EvenWith(t, g, x, h) && (Factor(g, x) == 1 || Factor(g, x) == -1)
    requires Even(SubAt(t, x), g) && h == Height(SubAt(t, x)) - 1
    ensures Rising(t, g, x)
  {
  }

  /** `StepEnds` when the new factor is beyond [-1, 1]. */
  lemma EndsReady(t: Shape, g: map<nat, int>, x: nat, h: nat)
    requires x in Ids(t) && SubAt(t, x).Fork? && EvenWith(t, g, x, h)
    requires var S := SubAt(t, x); var v := Factor(g, x);
      h == Height(S) - 1 && Even(S.left, g) && Even(S.right, g) &&
      ((v == 2 && Height(S.left) == Height(S.right) + 2 && S.left.Fork? &&
        (Factor(g, S.left.id) == 1 || Factor(g, S.left.id) == -1)) ||
       (v == -2 && Height(S.right) == Height(S.left) + 2 && S.right.Fork? &&
        (Factor(g, S.right.id) == 1 || Factor(g, S.right.id) == -1)))
    ensures Ready(t, g, x)
  {
  }

  /** One step on the subtree `S` at the parent: the new factor is `S`'s
      lean, `S` is even once it is in [-1, 1], and how high `S` counted with
      `c` at its old height is against its true height. */
  lemma StepLocal(S: Shape, f: map<nat, int>, c: nat, h: nat, side: NodeType, v: int)
    requires Unique(S) && S.Fork? && side != Root && S.id != c
    requires var C := if side == Left then S.left else S.right;
      C.Fork? && C.id == c && Height(C) == h + 1 && Even(C, f) &&
      (Factor(f, c) == 1 || Factor(f, c) == -1 || Height(C) == 1)
    requires EvenWith(S, f, c, h) && v == Factor(f, S.id) + (if side == Left then 1 else -1)
    ensures var g := f[S.id := v]; var h' := HeightWith(S, c, h);
      (-1 <= v <= 1 ==> Even(S, g)) &&
      (v == 0 ==> h' == Height(S)) &&
      (v == 1 || v == -1 ==> h' == Height(S) - 1) &&
      (v > 1 ==>
        (h' == Height(S) - 1 && Even(S.left, g) && Even(S.right, g) &&
         v == 2 && Height(S.left) == Height(S.right) + 2 && S.left.Fork? &&
         (Factor(g, S.left.id) == 1 || Factor(g, S.left.id) == -1))) &&
      (v < -1 ==>
        (h' == Height(S) - 1 && Even(S.left, g) && Even(S.right, g) &&
         v == -2 && Height(S.right) == Height(S.left) + 2 && S.right.Fork? &&
         (Factor(g, S.right.id) == 1 || Factor(g, S.right.id) == -1)))
  {
    var g := f[S.id := v];
    var C := if side == Left then S.left else S.right;
    var O := if side == Left then S.right else S.left;
    WithOut(O, f, c, h);
    EvenFrame(C, f, g);
    EvenFrame(O, f, g);
  }

  /** Replacing a subtree below the root happens on the side that holds it. */
  lemma ReplaceRec(t: Shape, x: nat, s: Shape)
    requires Unique(t) && t.Fork? && x in Ids(t) && x != t.id
    ensures x in Ids(t.left) ==> Replace(t, x, s) == Fork(Replace(t.left, x, s), t.id, t.right)
    ensures x in Ids(t.right) ==> Replace(t, x, s) == Fork(t.left, t.id, Replace(t.right, x, s))
  {
    var Fork(l, i, r) := t;
    if x in Ids(l) && l.id != x {
      ParentSlot(l, x);
    } else if x in Ids(r) && r.id != x {
      ParentSlot(r, x);
    }
  }

  /** Replacing a subtree by one over the same nodes keeps the nodes and
      their uniqueness. */
  lemma {:induction false} ReplaceIds(t: Shape, x: nat, s: Shape)
    requires Unique(t) && x in Ids(t) && Ids(s) == Ids(SubAt(t, x)) && Unique(s)
    ensures Ids(Replace(t, x, s)) == Ids(t) && Unique(Replace(t, x, s))
  {
    match t
    case Fork(l, i, r) =>
      if i != x {
        ReplaceRec(t, x, s);
        if x in Ids(l) {
          ReplaceIds(l, x, s);
        } else {
          ReplaceIds(r, x, s);
        }
      }
  }

  /** Replacing the subtree at a node `l` below `x` happens inside the
      subtree at `x`. */
  lemma {:induction false} ReplaceBelow(t: Shape, x: nat, l: nat, s: Shape)
    requires Unique(t) && x in Ids(t) && l in Ids(SubAt(t, x)) && l != x
    requires Ids(s) == Ids(SubAt(t, l)) && Unique(s)
    ensures x in Ids(Replace(t, l, s)) && SubAt(Replace(t, l, s), x) == Replace(SubAt(t, x), l, s)
  {
    SubAtIds(t, x);
    match t
    case Fork(a, i, b) =>
      if i == x {
        ReplaceRec(t, l, s);
      } else if x in Ids(a) {
        SubAtIds(a, x);
        ReplaceRec(t, l, s);
        assert SubAt(t, l) == SubAt(a, l);
        ReplaceBelow(a, x, l, s);
        ReplaceIds(a, l, s);
      } else {
        SubAtIds(b, x);
        ReplaceRec(t, l, s);
        assert SubAt(t, l) == SubAt(b, l);
        ReplaceBelow(b, x, l, s);
        ReplaceIds(b, l, s);
      }
  }

  /** ... and leaves everything judged outside `x` as it was. */
  lemma {:induction false} ReplaceBelowEven(t: Shape, x: nat, l: nat, s: Shape, f: map<nat, int>, h: nat)
    requires Unique(t) && x in Ids(t) && l in Ids(SubAt(t, x)) && l != x
    requires Ids(s) == Ids(SubAt(t, l)) && Unique(s) && EvenWith(t, f, x, h)
    ensures HeightWith(Replace(t, l, s), x, h) == HeightWith(t, x, h) && EvenWith(Replace(t, l, s), f, x, h)
  {
    SubAtIds(t, x);
    match t
    case Fork(a, i, b) =>
      if i == x {
        ReplaceRec(t, l, s);
      } else if x in Ids(a) {
        SubAtIds(a, x);
        ReplaceRec(t, l, s);
        assert SubAt(t, l) == SubAt(a, l);
        ReplaceBelowEven(a, x, l, s, f, h);
      } else {
        SubAtIds(b, x);
        ReplaceRec(t, l, s);
        assert SubAt(t, l) == SubAt(b, l);
        ReplaceBelowEven(b, x, l, s, f, h);
      }
  }

  /** Hanging an even subtree `s` of the height `t` counts at `c`, where
      nothing outside `c` changes its factor, leaves the whole tree even. */
  lemma {:induction false} CloseReplace(t: Shape, f: map<nat, int>, c: nat, s: Shape, g: map<nat, int>)
    requires Unique(t) && c in Ids(t) && EvenWith(t, f, c, Height(s)) && Even(s, g)
    requires forall i :: i in Ids(t) && i !in Ids(SubAt(t, c)) ==> Factor(g, i) == Factor(f, i)
    ensures Even(Replace(t, c, s), g) && Height(Replace(t, c, s)) == HeightWith(t, c, Height(s))
  {
    match t
    case Fork(a, i, b) =>
      if i != c {
        if c in Ids(a) {
          SubAtIds(a, c);
          assert SubAt(t, c) == SubAt(a, c);
          CloseReplace(a, f, c, s, g);
          CloseLeft(t, f, c, s, g);
        } else {
          SubAtIds(b, c);
          assert SubAt(t, c) == SubAt(b, c);
          CloseReplace(b, f, c, s, g);
          CloseRight(t, f, c, s, g);
        }
      }
  }

  /** The step of `CloseReplace` at a node whose left side holds `c`. */
  lemma CloseLeft(t: Shape, f: map<nat, int>, c: nat, s: Shape, g: map<nat, int>)
    requires Unique(t) && t.Fork? && c != t.id && c in Ids(t.left) && EvenWith(t, f, c, Height(s))
    requires forall i :: i in Ids(t.right) ==> Factor(g, i) == Factor(f, i)
    requires Factor(g, t.id) == Factor(f, t.id)
    requires Even(Replace(t.left, c, s), g) && Height(Replace(t.left, c, s)) == HeightWith(t.left, c, Height(s))
    ensures Even(Replace(t, c, s), g) && Height(Replace(t, c, s)) == HeightWith(t, c, Height(s))
  {
    ReplaceRec(t, c, s);
    WithOut(t.right, f, c, Height(s));
    EvenFrame(t.right, f, g);
  }

  /** The step of `CloseReplace` at a node whose right side holds `c`. */
  lemma CloseRight(t: Shape, f: map<nat, int>, c: nat, s: Shape, g: map<nat, int>)
    requires Unique(t) && t.Fork? && c != t.id && c in Ids(t.right) && EvenWith(t, f, c, Height(s))
    requires forall i :: i in Ids(t.left) ==> Factor(g, i) == Factor(f, i)
    requires Factor(g, t.id) == Factor(f, t.id)
    requires Even(Replace(t.right, c, s), g) && Height(Replace(t.right, c, s)) == HeightWith(t.right, c, Height(s))
    ensures Even(Replace(t, c, s), g) && Height(Replace(t, c, s)) == HeightWith(t, c, Height(s))
  {
    ReplaceRec(t, c, s);
    WithOut(t.left, f, c, Height(s));
    EvenFrame(t.left, f, g);
  }

  /** LL on the shape: a left child of factor +1 under a node two higher on
      the left turns into an even subtree one lower, with both at 0. */
  lemma RotREven(S: Shape, f: map<nat, int>, g: map<nat, int>)
    requires S.Fork? && S.left.Fork? && Unique(S) && Even(S.left, f) && Even(S.right, f)
    requires Height(S.left) == Height(S.right) + 2 && Factor(f, S.left.id) == 1
    requires Factor(g, S.id) == 0 && Factor(g, S.left.id) == 0
    requires forall i :: i != S.id && i != S.left.id ==> Factor(g, i) == Factor(f, i)
    ensures Even(RotR(S), g) && Height(RotR(S)) + 1 == Height(S)
  {
    var Fork(Fork(A, l, B), x, R) := S;
    EvenFrame(A, f, g);
    EvenFrame(B, f, g);
    EvenFrame(R, f, g);
  }

  /** RR on the shape, the mirror image of `RotREven`. */
  lemma RotLEven(S: Shape, f: map<nat, int>, g: map<nat, int>)
    requires S.Fork? && S.right.Fork? && Unique(S) && Even(S.left, f) && Even(S.right, f)
    requires Height(S.right) == Height(S.left) + 2 && Factor(f, S.right.id) == -1
    requires Factor(g, S.id) == 0 && Factor(g, S.right.id) == 0
    requires forall i :: i != S.id && i != S.right.id ==> Factor(g, i) == Factor(f, i)
    ensures Even(RotL(S), g) && Height(RotL(S)) + 1 == Height(S)
  {
    var Fork(L, x, Fork(B, y, C)) := S;
    EvenFrame(L, f, g);
    EvenFrame(B, f, g);
    EvenFrame(C, f, g);
  }

  /** LR on the shape: a left child of factor -1 under a node two higher on
      the left; its right child `q` rises to the top at 0, and the old factor
      of `q` decides the factors of the two nodes it parts. */
  lemma RotLREven(S: Shape, x: nat, f: map<nat, int>, g: map<nat, int>)
    requires S.Fork? && S.id == x && S.left.Fork? && S.left.right.Fork? && Unique(S)
    requires Even(S.left, f) && Even(S.right, f)
    requires Height(S.left) == Height(S.right) + 2 && Factor(f, S.left.id) == -1
    requires var q := S.left.right.id; var b := Factor(f, q);
      Factor(g, q) == 0 && Factor(g, S.left.id) == (if b == -1 then 1 else 0) &&
      Factor(g, x) == (if b == 1 then -1 else 0) &&
      forall i :: i != x && i != S.left.id && i != q ==> Factor(g, i) == Factor(f, i)
    ensures var W := Fork(RotL(S.left), x, S.right);
      Even(RotR(W), g) && Height(RotR(W)) + 1 == Height(S)
  {
    var Fork(Fork(A, l, Fork(B, q, C)), _, R) := S;
    assert Unique(Fork(B, q, C));
    Frame3(A, f, g, x, l, q);
    Frame3(B, f, g, x, l, q);
    Frame3(C, f, g, x, l, q);
    Frame3(R, f, g, x, l, q);
    DoubleEven(A, l, B, q, C, x, R, g, Factor(f, q));
  }

  /** RL on the shape, the mirror image of `RotLREven`. */
  lemma RotRLEven(S: Shape, x: nat, f: map<nat, int>, g: map<nat, int>)
    requires S.Fork? && S.id == x && S.right.Fork? && S.right.left.Fork? && Unique(S)
    requires Even(S.left, f) && Even(S.right, f)
    requires Height(S.right) == Height(S.left) + 2 && Factor(f, S.right.id) == 1
    requires var q := S.right.left.id; var b := Factor(f, q);
      Factor(g, q) == 0 && Factor(g, S.right.id) == (if b == 1 then -1 else 0) &&
      Factor(g, x) == (if b == -1 then 1 else 0) &&
      forall i :: i != x && i != S.right.id && i != q ==> Factor(g, i) == Factor(f, i)
    ensures var W := Fork(S.left, x, RotR(S.right));
      Even(RotL(W), g) && Height(RotL(W)) + 1 == Height(S)
  {
    var Fork(L, _, Fork(Fork(B, q, C), y, D)) := S;
    assert Unique(Fork(Fork(B, q, C), y, D));
    assert Unique(Fork(B, q, C));
    Frame3(L, f, g, x, y, q);
    Frame3(B, f, g, x, y, q);
    Frame3(C, f, g, x, y, q);
    Frame3(D, f, g, x, y, q);
    DoubleEven(L, x, B, q, C, y, D, g, Factor(f, q));
  }

  /** `Even` of a subtree holding none of three nodes is blind to their
      factors. */
  lemma Frame3(T: Shape, f: map<nat, int>, g: map<nat, int>, a: nat, b: nat, c: nat)
    requires a !in Ids(T) && b !in Ids(T) && c !in Ids(T)
    requires forall i :: i != a && i != b && i != c ==> Factor(g, i) == Factor(f, i)
    ensures Even(T, g) == Even(T, f)
  {
    EvenFrame(T, f, g);
  }

  /** The shape both double turns end in: `q` on top of `Fork(A, l, B)` and
      `Fork(C, x, R)`, with `b` the old lean of `q`, is even one level above
      the four parts. */
  lemma DoubleEven(A: Shape, l: nat, B: Shape, q: nat, C: Shape, x: nat, R: Shape, g: map<nat, int>, b: int)
    requires Even(A, g) && Even(B, g) && Even(C, g) && Even(R, g)
    requires b == Height(B) - Height(C) && -1 <= b <= 1
    requires Height(Fork(B, q, C)) == Height(A) + 1 && Height(A) == Height(R)
    requires Factor(g, q) == 0
    requires Factor(g, l) == Height(A) - Height(B) && Factor(g, x) == Height(C) - Height(R)
    ensures Even(Fork(Fork(A, l, B), q, Fork(C, x, R)), g)
    ensures Height(Fork(Fork(A, l, B), q, Fork(C, x, R))) == Height(A) + 2
  {
  }

  /** A single right turn at a node two higher on the left, whose left
      child leans left, makes the whole shape even. */
  lemma TurnLL(t: Shape, f: map<nat, int>, x: nat, S: Shape, g: map<nat, int>)
    requires Unique(t) && x in Ids(t) && S == SubAt(t, x) && S.Fork? && S.left.Fork?
    requires EvenWith(t, f, x, Height(S) - 1) && Even(S.left, f) && Even(S.right, f)
    requires Height(S.left) == Height(S.right) + 2 && Factor(f, S.left.id) == 1
    requires Factor(g, x) == 0 && Factor(g, S.left.id) == 0
    requires forall i :: i != x && i != S.left.id ==> Factor(g, i) == Factor(f, i)
    ensures Even(Replace(t, x, RotR(S)), g)
  {
    SubAtIds(t, x);
    RotREven(S, f, g);
    assert S.left.id in Ids(S);
    CloseReplace(t, f, x, RotR(S), g);
  }

  /** The mirror image of `TurnLL`. */
  lemma TurnRR(t: Shape, f: map<nat, int>, x: nat, S: Shape, g: map<nat, int>)
    requires Unique(t) && x in Ids(t) && S == SubAt(t, x) && S.Fork? && S.right.Fork?
    requires EvenWith(t, f, x, Height(S) - 1) && Even(S.left, f) && Even(S.right, f)
    requires Height(S.right) == Height(S.left) + 2 && Factor(f, S.right.id) == -1
    requires Factor(g, x) == 0 && Factor(g, S.right.id) == 0
    requires forall i :: i != x && i != S.right.id ==> Factor(g, i) == Factor(f, i)
    ensures Even(Replace(t, x, RotL(S)), g)
  {
    SubAtIds(t, x);
    RotLEven(S, f, g);
    assert S.right.id in Ids(S);
    CloseReplace(t, f, x, RotL(S), g);
  }

  /** The subtree at a node inside the subtree at `x` is the same seen from
      either. */
  lemma {:induction false} SubAtSub(t: Shape, x: nat, y: nat)
    requires Unique(t) && x in Ids(t) && y in Ids(SubAt(t, x))
    ensures y in Ids(t) && SubAt(SubAt(t, x), y) == SubAt(t, y)
  {
    SubAtIds(t, x);
    match t
    case Fork(l, i, r) =>
      if i != x {
        if x in Ids(l) {
          SubAtIds(l, x);
          SubAtSub(l, x, y);
        } else {
          SubAtIds(r, x);
          SubAtSub(r, x, y);
        }
      }
  }

  /** The first turn of LR, on the shape: turning the left child `l` of `x`
      left happens inside the subtree at `x`, which becomes `W` and keeps
      everything outside it as even as it was. */
  lemma FirstTurnLR(t: Shape, f: map<nat, int>, x: nat, S: Shape, h: nat)
    requires Unique(t) && x in Ids(t) && S == SubAt(t, x) && S.Fork? && S.left.Fork? && S.left.right.Fork?
    requires EvenWith(t, f, x, h)
    ensures var t1 := Replace(t, S.left.id, RotL(S.left));
      S.left.id in Ids(t) && SubAt(t, S.left.id) == S.left && Unique(t1) && x in Ids(t1) &&
      SubAt(t1, x) == Fork(RotL(S.left), x, S.right) && EvenWith(t1, f, x, h) && Ids(t1) == Ids(t)
  {
    var l := S.left.id;
    SubAtIds(t, x);
    assert l in Ids(S);
    SubAtSub(t, x, l);
    RotLKeeps(S.left);
    ReplaceIds(t, l, RotL(S.left));
    ReplaceBelow(t, x, l, RotL(S.left));
    ReplaceBelowEven(t, x, l, RotL(S.left), f, h);
    ReplaceRec(S, l, RotL(S.left));
  }

  /** The first turn of RL, the mirror image of `FirstTurnLR`. */
  lemma FirstTurnRL(t: Shape, f: map<nat, int>, x: nat, S: Shape, h: nat)
    requires Unique(t) && x in Ids(t) && S == SubAt(t, x) && S.Fork? && S.right.Fork? && S.right.left.Fork?
    requires EvenWith(t, f, x, h)
    ensures var t1 := Replace(t, S.right.id, RotR(S.right));
      S.right.id in Ids(t) && SubAt(t, S.right.id) == S.right && Unique(t1) && x in Ids(t1) &&
      SubAt(t1, x) == Fork(S.left, x, RotR(S.right)) && EvenWith(t1, f, x, h) && Ids(t1) == Ids(t)
  {
    var y := S.right.id;
    SubAtIds(t, x);
    assert y in Ids(S);
    SubAtSub(t, x, y);
    RotRKeeps(S.right);
    ReplaceIds(t, y, RotR(S.right));
    ReplaceBelow(t, x, y, RotR(S.right));
    ReplaceBelowEven(t, x, y, RotR(S.right), f, h);
    ReplaceRec(S, y, RotR(S.right));
  }

  /** A subtree `W` replaced by an even `N` of the height `EvenWith` counts
      it at makes the whole shape even, when only factors inside `W` moved. */
  lemma CloseTurn(t: Shape, f: map<nat, int>, x: nat, W: Shape, N: Shape, g: map<nat, int>, u: nat, w: nat)
    requires Unique(t) && x in Ids(t) && W == SubAt(t, x) && u in Ids(W) && w in Ids(W)
    requires EvenWith(t, f, x, Height(N)) && Even(N, g)
    requires forall i :: i != x && i != u && i != w ==> Factor(g, i) == Factor(f, i)
    ensures Even(Replace(t, x, N), g)
  {
    SubAtIds(t, x);
    CloseReplace(t, f, x, N, g);
  }

  /** The second turn of LR, on the shape: once the left child is turned,
      turning `x` right closes the shape as even. */
  lemma SecondTurnLR(t1: Shape, f: map<nat, int>, x: nat, S: Shape, g: map<nat, int>)
    requires S.Fork? && S.id == x && S.left.Fork? && S.left.right.Fork? && Unique(S)
    requires Unique(t1) && x in Ids(t1) && SubAt(t1, x) == Fork(RotL(S.left), x, S.right)
    requires EvenWith(t1, f, x, Height(S) - 1) && Even(S.left, f) && Even(S.right, f)
    requires Height(S.left) == Height(S.right) + 2 && Factor(f, S.left.id) == -1
    requires var q := S.left.right.id; var b := Factor(f, q);
      Factor(g, q) == 0 && Factor(g, S.left.id) == (if b == -1 then 1 else 0) &&
      Factor(g, x) == (if b == 1 then -1 else 0) &&
      forall i :: i != x && i != S.left.id && i != q ==> Factor(g, i) == Factor(f, i)
    ensures Even(Replace(t1, x, RotR(SubAt(t1, x))), g)
  {
    var W := Fork(RotL(S.left), x, S.right);
    RotLREven(S, x, f, g);
    RotLKeeps(S.left);
    var q := S.left.right.id;
    assert q in Ids(S.left.right);
    assert S.left.id in Ids(W) && q in Ids(W);
    CloseTurn(t1, f, x, W, RotR(W), g, S.left.id, q);
  }

  /** Both turns of LR at a node two higher on the left, whose left child
      leans right, make the whole shape even. */
  lemma TurnLR(t: Shape, f: map<nat, int>, x: nat, S: Shape, g: map<nat, int>)
    requires Unique(t) && x in Ids(t) && S == SubAt(t, x) && S.Fork? && S.left.Fork? && S.left.right.Fork?
    requires EvenWith(t, f, x, Height(S) - 1) && Even(S.left, f) && Even(S.right, f)
    requires Height(S.left) == Height(S.right) + 2 && Factor(f, S.left.id) == -1
    requires var q := S.left.right.id; var b := Factor(f, q);
      Factor(g, q) == 0 && Factor(g, S.left.id) == (if b == -1 then 1 else 0) &&
      Factor(g, x) == (if b == 1 then -1 else 0) &&
      forall i :: i != x && i != S.left.id && i != q ==> Factor(g, i) == Factor(f, i)
    ensures var t1 := Replace(t, S.left.id, RotL(S.left));
      x in Ids(t1) && Even(Replace(t1, x, RotR(SubAt(t1, x))), g)
  {
    FirstTurnLR(t, f, x, S, Height(S) - 1);
    SubAtIds(t, x);
    SecondTurnLR(Replace(t, S.left.id, RotL(S.left)), f, x, S, g);
  }

  /** The second turn of RL, the mirror image of `SecondTurnLR`. */
  lemma SecondTurnRL(t1: Shape, f: map<nat, int>, x: nat, S: Shape, g: map<nat, int>)
    requires S.Fork? && S.id == x && S.right.Fork? && S.right.left.Fork? && Unique(S)
    requires Unique(t1) && x in Ids(t1) && SubAt(t1, x) == Fork(S.left, x, RotR(S.right))
    requires EvenWith(t1, f, x, Height(S) - 1) && Even(S.left, f) && Even(S.right, f)
    requires Height(S.right) == Height(S.left) + 2 && Factor(f, S.right.id) == 1
    requires var q := S.right.left.id; var b := Factor(f, q);
      Factor(g, q) == 0 && Factor(g, S.right.id) == (if b == 1 then -1 else 0) &&
      Factor(g, x) == (if b == -1 then 1 else 0) &&
      forall i :: i != x && i != S.right.id && i != q ==> Factor(g, i) == Factor(f, i)
    ensures Even(Replace(t1, x, RotL(SubAt(t1, x))), g)
  {
    var W := Fork(S.left, x, RotR(S.right));
    RotRLEven(S, x, f, g);
    RotRKeeps(S.right);
    var q := S.right.left.id;
    assert q in Ids(S.right.left);
    assert S.right.id in Ids(W) && q in Ids(W);
    CloseTurn(t1, f, x, W, RotL(W), g, S.right.id, q);
  }

  /** The mirror image of `TurnLR`. */
  lemma TurnRL(t: Shape, f: map<nat, int>, x: nat, S: Shape, g: map<nat, int>)
    requires Unique(t) && x in Ids(t) && S == SubAt(t, x) && S.Fork? && S.right.Fork? && S.right.left.Fork?
    requires EvenWith(t, f, x, Height(S) - 1) && Even(S.left, f) && Even(S.right, f)
    requires Height(S.right) == Height(S.left) + 2 && Factor(f, S.right.id) == 1
    requires var q := S.right.left.id; var b := Factor(f, q);
      Factor(g, q) == 0 && Factor(g, S.right.id) == (if b == 1 then -1 else 0) &&
      Factor(g, x) == (if b == -1 then 1 else 0) &&
      forall i :: i != x && i != S.right.id && i != q ==> Factor(g, i) == Factor(f, i)
    ensures var t1 := Replace(t, S.right.id, RotR(S.right));
      x in Ids(t1) && Even(Replace(t1, x, RotL(SubAt(t1, x))), g)
  {
    FirstTurnRL(t, f, x, S, Height(S) - 1);
    SubAtIds(t, x);
    SecondTurnRL(Replace(t, S.right.id, RotR(S.right)), f, x, S, g);
  }

  /** `_rotate(x, LL)` at a node the insert walk broke off at leaves every
      factor true. */
  lemma RotatedLL<V>(s: Avl<V>, x: nat)
    requires Good(s) && Ready(s.t, s.f, x) && x < |s.a| && RotateTypeOf(s.a, s.f, x) == Some(LL)
    ensures Even(RotateLL(s, x).t, RotateLL(s, x).f)
  {
    Up(s, x);
    FactorsLL(s, x);
    TurnLL(s.t, s.f, x, SubAt(s.t, x), RotateLL(s, x).f);
  }

  /** `_rotate(x, RR)`, the mirror image of `RotatedLL`. */
  lemma RotatedRR<V>(s: Avl<V>, x: nat)
    requires Good(s) && Ready(s.t, s.f, x) && x < |s.a| && RotateTypeOf(s.a, s.f, x) == Some(RR)
    ensures Even(RotateRR(s, x).t, RotateRR(s, x).f)
  {
    Up(s, x);
    FactorsRR(s, x);
    TurnRR(s.t, s.f, x, SubAt(s.t, x), RotateRR(s, x).f);
  }

  /** The left child of `x` roots the left part of the subtree at `x`, and
      its own right child is that part's right part. */
  lemma LeftKid<V>(s: Avl<V>, x: nat)
    requires Good(s) && x in Ids(s.t) && x < |s.a| && s.a[x].left.At?
    ensures var l := s.a[x].left.index; var S := SubAt(s.t, x);
      l in Ids(s.t) && l < |s.a| && S.Fork? && S.id == x && S.left.Fork? && S.left.id == l &&
      SubAt(s.t, l) == S.left && (s.a[l].right.At? <==> S.left.right.Fork?) &&
      (s.a[l].right.At? ==> s.a[l].right.index == S.left.right.id)
  {
    Up(s, x);
    var S := SubAt(s.t, x);
    var l := s.a[x].left.index;
    SubAtIds(s.t, x);
    assert l in Ids(S);
    SubAtSub(s.t, x, l);
    Up(s, l);
  }

  /** The mirror image of `LeftKid`. */
  lemma RightKid<V>(s: Avl<V>, x: nat)
    requires Good(s) && x in Ids(s.t) && x < |s.a| && s.a[x].right.At?
    ensures var y := s.a[x].right.index; var S := SubAt(s.t, x);
      y in Ids(s.t) && y < |s.a| && S.Fork? && S.id == x && S.right.Fork? && S.right.id == y &&
      SubAt(s.t, y) == S.right && (s.a[y].left.At? <==> S.right.left.Fork?) &&
      (s.a[y].left.At? ==> s.a[y].left.index == S.right.left.id)
  {
    Up(s, x);
    var S := SubAt(s.t, x);
    var y := s.a[x].right.index;
    SubAtIds(s.t, x);
    assert y in Ids(S);
    SubAtSub(s.t, x, y);
    Up(s, y);
  }

  /** The shape `_rotate(x, LR)` leaves: the left child turned left, then
      `x` turned right. */
  lemma ShapeLR<V>(s: Avl<V>, x: nat)
    requires Good(s) && x in Ids(s.t) && x < |s.a| && s.a[x].left.At? && s.a[x].left.index in Ids(s.t)
    requires s.a[x].left.index < |s.a| && s.a[s.a[x].left.index].right.At?
    ensures var l := s.a[x].left.index; var t1 := Replace(s.t, l, RotL(SubAt(s.t, l)));
      x in Ids(t1) && RotateLR(s, x).t == Replace(t1, x, RotR(SubAt(t1, x)))
  {
    var l := s.a[x].left.index;
    Up(s, x);
    Up(s, l);
    InnerLR(s, x);
    var s1 := RotateRR(s, l);
    assert s1.t == Replace(s.t, l, RotL(SubAt(s.t, l)));
    assert RotateLR(s, x).t == RotateLL(s1, x).t;
  }

  /** The shape `_rotate(x, RL)` leaves, the mirror image of `ShapeLR`. */
  lemma ShapeRL<V>(s: Avl<V>, x: nat)
    requires Good(s) && x in Ids(s.t) && x < |s.a| && s.a[x].right.At? && s.a[x].right.index in Ids(s.t)
    requires s.a[x].right.index < |s.a| && s.a[s.a[x].right.index].left.At?
    ensures var y := s.a[x].right.index; var t1 := Replace(s.t, y, RotR(SubAt(s.t, y)));
      x in Ids(t1) && RotateRL(s, x).t == Replace(t1, x, RotL(SubAt(t1, x)))
  {
    var y := s.a[x].right.index;
    Up(s, x);
    Up(s, y);
    InnerRL(s, x);
    var s1 := RotateLL(s, y);
    assert s1.t == Replace(s.t, y, RotR(SubAt(s.t, y)));
    assert RotateRL(s, x).t == RotateRR(s1, x).t;
  }

  /** The factors `_rotate(x, LR)` leaves, `g`, on the shape it leaves are
      all true at a node the insert walk broke off at. */
  lemma EvenLR<V>(s: Avl<V>, x: nat, g: map<nat, int>)
    requires Good(s) && Ready(s.t, s.f, x) && x < |s.a| && RotateTypeOf(s.a, s.f, x) == Some(LR)
    requires s.a[x].left.index < |s.a| && s.a[s.a[x].left.index].right.At?
    requires var l := s.a[x].left.index; var q := s.a[l].right.index; var bf := Factor(s.f, q);
      Factor(g, q) == 0 && Factor(g, l) == (if bf == -1 then 1 else 0) && Factor(g, x) == (if bf == 1 then -1 else 0) &&
      forall i :: i != x && i != l && i != q ==> Factor(g, i) == Factor(s.f, i)
    ensures var l := s.a[x].left.index; var t1 := Replace(s.t, l, RotL(SubAt(s.t, l)));
      x in Ids(t1) && Even(Replace(t1, x, RotR(SubAt(t1, x))), g)
  {
    LeftKid(s, x);
    TurnLR(s.t, s.f, x, SubAt(s.t, x), g);
  }

  /** `_rotate(x, LR)` at a node the insert walk broke off at leaves every
      factor true. */
  lemma RotatedLR<V>(s: Avl<V>, x: nat)
    requires Good(s) && Ready(s.t, s.f, x) && x < |s.a| && RotateTypeOf(s.a, s.f, x) == Some(LR)
    ensures Even(RotateLR(s, x).t, RotateLR(s, x).f)
  {
    LeftKid(s, x);
    FactorsLR(s, x);
    ShapeLR(s, x);
    EvenLR(s, x, RotateLR(s, x).f);
  }

  /** The mirror image of `EvenLR`. */
  lemma EvenRL<V>(s: Avl<V>, x: nat, g: map<nat, int>)
    requires Good(s) && Ready(s.t, s.f, x) && x < |s.a| && RotateTypeOf(s.a, s.f, x) == Some(RL)
    requires s.a[x].right.index < |s.a| && s.a[s.a[x].right.index].left.At?
    requires var y := s.a[x].right.index; var q := s.a[y].left.index; var bf := Factor(s.f, q);
      Factor(g, q) == 0 && Factor(g, y) == (if bf == 1 then -1 else 0) && Factor(g, x) == (if bf == -1 then 1 else 0) &&
      forall i :: i != x && i != y && i != q ==> Factor(g, i) == Factor(s.f, i)
    ensures var y := s.a[x].right.index; var t1 := Replace(s.t, y, RotR(SubAt(s.t, y)));
      x in Ids(t1) && Even(Replace(t1, x, RotL(SubAt(t1, x))), g)
  {
    RightKid(s, x);
    TurnRL(s.t, s.f, x, SubAt(s.t, x), g);
  }

  /** `_rotate(x, RL)`, the mirror image of `RotatedLR`. */
  lemma RotatedRL<V>(s: Avl<V>, x: nat)
    requires Good(s) && Ready(s.t, s.f, x) && x < |s.a| && RotateTypeOf(s.a, s.f, x) == Some(RL)
    ensures Even(RotateRL(s, x).t, RotateRL(s, x).f)
  {
    RightKid(s, x);
    FactorsRL(s, x);
    ShapeRL(s, x);
    EvenRL(s, x, RotateRL(s, x).f);
  }

  /** `_adjustment` from a node the insert walk broke off at rotates that
      node, and every factor ends true. */
  lemma AdjustEven<V>(s: Avl<V>, x: nat)
    requires Good(s) && Ready(s.t, s.f, x)
    ensures Balancing.Adjust(s, x).1 == At(x) && Even(Balancing.Adjust(s, x).0.t, Balancing.Adjust(s, x).0.f)
  {
    Up(s, x);
    var k := RotateTypeOf(s.a, s.f, x);
    assert k.Some?;
    assert Balancing.Adjust(s, x).0 == Rotate(s, x, k.value);
    match k.value
    case LL => RotatedLL(s, x);
    case RR => RotatedRR(s, x);
    case LR => RotatedLR(s, x);
    case RL => RotatedRL(s, x);
  }

  /** At the root, a rising node has left the whole shape even. */
  lemma RisingRoot(t: Shape, f: map<nat, int>)
    requires t.Fork? && Rising(t, f, t.id)
    ensures Even(t, f)
  {
  }

  /** `Step` read off the arena: the walk's next node is `c`'s `parent`,
      reached from the slot `c`'s `type` names. */
  lemma StepArena<V>(s: Avl<V>, c: nat)
    requires Good(s) && Rising(s.t, s.f, c) && c != s.t.id
    ensures c < |s.a| && s.a[c].parent.At?
    ensures var x := s.a[c].parent.index; var v := Factor(s.f, x) + (if s.a[c].kind == Left then 1 else -1);
      x in Ids(s.t) && x < |s.a| && Depth(s.t, x) < Depth(s.t, c) &&
      (v == 0 ==> Even(s.t, s.f[x := v])) &&
      (v == 1 || v == -1 ==> Rising(s.t, s.f[x := v], x)) &&
      (v > 1 || v < -1 ==> Ready(s.t, s.f[x := v], x))
  {
    Up(s, c);
    ParentSlot(s.t, c);
    var x := s.a[c].parent.index;
    StepAt(s.t, s.f, c, x, s.a[c].kind, Factor(s.f, x) + (if s.a[c].kind == Left then 1 else -1));
    Rise(s, x);
  }

  /** Where the insert walk ends up: true factors everywhere, or the
      `Ready` state at the node it broke off at. */
  ghost predicate Lands(t: Shape, r: (map<nat, int>, Ptr))
  {
    (r.1.Null? ==> Even(t, r.0)) && (r.1.At? ==> Ready(t, r.0, r.1.index))
  }

  /** One step of `InsertClimb` from the parent of `c`. */
  lemma ClimbOnce<V>(s: Avl<V>, c: nat)
    requires Good(s) && c in Ids(s.t) && c < |s.a| && s.a[c].parent.At? && s.a[c].parent.index in Ids(s.t)
    ensures var x := s.a[c].parent.index; var v := Factor(s.f, x) + (if s.a[c].kind == Left then 1 else -1);
      x < |s.a| && Good(s.(f := s.f[x := v])) && (s.a[x].parent.At? ==> s.a[x].parent.index in Ids(s.t)) &&
      InsertClimb(s, s.a[c].parent, s.a[c].kind) ==
        if v == 0 then (s.f[x := v], Null)
        else if v > 1 || v < -1 then (s.f[x := v], At(x))
        else InsertClimb(s.(f := s.f[x := v]), s.a[x].parent, s.a[x].kind)
  {
    Up(s, s.a[c].parent.index);
  }

  /** The insert walk from a rising node `c` either ends with every factor
      true or breaks off at a node in the `Ready` state. */
  lemma {:induction false} ClimbEven<V>(s: Avl<V>, c: nat)
    requires Good(s) && Rising(s.t, s.f, c)
    ensures c < |s.a| && (s.a[c].parent.At? ==> s.a[c].parent.index in Ids(s.t))
    ensures Lands(s.t, InsertClimb(s, s.a[c].parent, s.a[c].kind))
    decreases Depth(s.t, c)
  {
    Rise(s, c);
    if c == s.t.id {
      Up(s, c);
      RisingRoot(s.t, s.f);
    } else {
      StepArena(s, c);
      ClimbOnce(s, c);
      var x := s.a[c].parent.index;
      var v := Factor(s.f, x) + (if s.a[c].kind == Left then 1 else -1);
      if v == 1 || v == -1 {
        ClimbEven(s.(f := s.f[x := v]), x);
      }
    }
  }

  /** Hanging the new leaf `|a|` in an empty slot of an even shape leaves
      everything outside it even, counting the leaf as no height at all. */
  lemma AttachGraft<V>(s: Avl<V>, p: nat, side: NodeType)
    requires Good(s) && Even(s.t, s.f) && p in Ids(s.t) && p < |s.a| && side != Root && Child(s.a[p], side) == Null
    ensures EvenWith(Graft(s.t, p, side, |s.a|), s.f, |s.a|, 0)
  {
    Up(s, p);
    assert SlotAt(s.t, p, side) == Empty;
    assert |s.a| !in Ids(s.t);
    GraftWith(s.t, p, side, |s.a|, s.f);
  }

  /** A leaf of factor 0 in a shape even outside it is rising. */
  lemma LeafRising<V>(s: Avl<V>, n: nat)
    requires Good(s) && n in Ids(s.t) && n < |s.a| && s.a[n].left == Null && s.a[n].right == Null
    requires Factor(s.f, n) == 0 && EvenWith(s.t, s.f, n, 0)
    ensures Rising(s.t, s.f, n)
  {
    Up(s, n);
  }

  /** When the BST part of `_insert` attaches a new leaf `n`, the walk starts
      at a rising node: the leaf, with factor 0, in a shape even elsewhere. */
  lemma AttachRising<V>(cmp: (int, int) -> int, rep: bool, s: Avl<V>, k: int, v: V)
    requires Good(s) && Even(s.t, s.f) && Descend(cmp, rep, s.a, s.t, k).Attach?
    ensures InsertedNode(cmp, rep, s.a, s.t, k) == At(|s.a|)
    ensures Rising(Inserted(cmp, rep, s, k, v).t, Inserted(cmp, rep, s, k, v).f, |s.a|)
  {
    DescendFound(cmp, rep, s.a, s.root, s.t, k);
    var p := Descend(cmp, rep, s.a, s.t, k).parent;
    var side := Descend(cmp, rep, s.a, s.t, k).side;
    AttachGraft(s, p, side);
    var s1 := Inserted(cmp, rep, s, k, v);
    assert s1.t == Graft(s.t, p, side, |s.a|) && s1.f == s.f && s1.a == AttachArena(s.a, p, side, k, v);
    InsertedIn(cmp, rep, s, k, v);
    LeafRising(s1, |s.a|);
  }

  /** The balance invariant is kept by `_insert` whenever the BST insertion
      adds a node: into an empty tree, or as a new leaf. */
  lemma AvlInsertBalanced<V>(cmp: (int, int) -> int, rep: bool, s: Avl<V>, k: int, v: V)
    requires Good(s) && Balanced(s)
    requires Descend(cmp, rep, s.a, s.t, k).Vacant? || Descend(cmp, rep, s.a, s.t, k).Attach?
    ensures Balanced(AvlInsert(cmp, rep, s, k, v))
  {
    var s1 := Inserted(cmp, rep, s, k, v);
    var r := AvlInsert(cmp, rep, s, k, v);
    BalancedEven(s.t, s.f);
    BalancedEven(r.t, r.f);
    DescendFound(cmp, rep, s.a, s.root, s.t, k);
    var n := |s.a|;
    if s.t == Empty {
      assert s1.t == Fork(Empty, n, Empty) && n !in s.f;
      assert r == s1;
    } else {
      AttachRising(cmp, rep, s, k, v);
      ClimbEven(s1, n);
      var (f, stop) := InsertClimb(s1, s1.a[n].parent, s1.a[n].kind);
      if stop.At? {
        AdjustEven(s1.(f := f), stop.index);
      }
    }
  }
}
