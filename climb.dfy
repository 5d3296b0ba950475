/** How far a node sits below the root, and how that distance moves when a
    subtree is rehung or replaced. The AVL balance walks of
    packages/avl/src/AVLTree.ts climb `parent` links; this distance is what
    each step up shortens. */
module Climbing {
  import opened Refs
  import opened Shapes
  import opened Search
  import opened Removal
  import opened Rotation

  /** The number of proper ancestors of `x` in `t` (0 for the root and for absent nodes). */
  function Depth(t: Shape, x: nat): nat
  {
    match t
    case Empty => 0
    case Fork(l, _, r) =>
      if x in Ids(l) then 1 + Depth(l, x)
      else if x in Ids(r) then 1 + Depth(r, x)
      else 0
  }

  lemma RootDepth(t: Shape)
    requires Unique(t) && t.Fork?
    ensures Depth(t, t.id) == 0
  {
  }

  /** A node other than the root sits exactly one level below its parent. */
  lemma {:induction false} ParentDepth(t: Shape, x: nat)
    requires Unique(t) && x in Ids(t) && x != t.id
    ensures Parent(t, x).At? && Depth(t, Parent(t, x).index) + 1 == Depth(t, x)
  {
    match t
    case Fork(l, i, r) =>
      if x in Ids(l) {
        if l.id == x {
          assert Depth(l, x) == 0;
        } else {
          ParentDepth(l, x);
          ParentSlot(l, x);
        }
      } else {
        if r.id == x {
          assert Depth(r, x) == 0;
        } else {
          ParentDepth(r, x);
          ParentSlot(r, x);
        }
      }
  }

  /** A node of a subtree hung in a slot of `p` sits below `p` by one more
      than its depth inside that subtree. */
  lemma {:induction false} HangDepth(t: Shape, p: nat, side: NodeType, s: Shape, c: nat)
    requires Unique(t) && p in Ids(t) && Ids(s) <= Ids(SlotAt(t, p, side)) && c in Ids(s)
    ensures Depth(Hang(t, p, side, s), c) == Depth(t, p) + 1 + Depth(s, c)
  {
    match t
    case Fork(l, i, r) =>
      if i == p {
      } else if p in Ids(l) {
        assert SlotAt(t, p, side) == SlotAt(l, p, side);
        SlotIds(l, p, side);
        HangIds(l, p, side, s);
        HangDepth(l, p, side, s, c);
      } else {
        assert SlotAt(t, p, side) == SlotAt(r, p, side);
        SlotIds(r, p, side);
        HangIds(r, p, side, s);
        HangDepth(r, p, side, s, c);
      }
  }

  /** Rehanging a slot leaves the depth of every node outside it unchanged. */
  lemma {:induction false} HangDepthOut(t: Shape, p: nat, side: NodeType, s: Shape, c: nat)
    requires Unique(t) && p in Ids(t) && Ids(s) <= Ids(SlotAt(t, p, side))
    requires c in Ids(t) && c !in Ids(SlotAt(t, p, side))
    ensures Depth(Hang(t, p, side, s), c) == Depth(t, c)
  {
    match t
    case Fork(l, i, r) =>
      if i == p {
      } else if p in Ids(l) {
        assert SlotAt(t, p, side) == SlotAt(l, p, side);
        SlotIds(l, p, side);
        HangIds(l, p, side, s);
        if c in Ids(l) {
          HangDepthOut(l, p, side, s, c);
        }
      } else {
        assert SlotAt(t, p, side) == SlotAt(r, p, side);
        SlotIds(r, p, side);
        HangIds(r, p, side, s);
        if c in Ids(r) {
          HangDepthOut(r, p, side, s, c);
        }
      }
  }

  /** Replacing the subtree at `z` by a rearrangement of its nodes puts each
      of them at `z`'s depth plus its depth in the replacement. */
  lemma ReplaceDepth(t: Shape, z: nat, s: Shape, c: nat)
    requires Unique(t) && z in Ids(t) && Ids(s) <= Ids(SubAt(t, z)) && c in Ids(s)
    ensures Depth(Replace(t, z, s), c) == Depth(t, z) + Depth(s, c)
  {
    if t.Fork? && t.id == z {
      RootDepth(t);
    } else {
      ParentSlot(t, z);
      ParentDepth(t, z);
      HangDepth(t, Parent(t, z).index, Side(t, z), s, c);
    }
  }

  /** ... and leaves every node outside the subtree at its depth. */
  lemma ReplaceDepthOut(t: Shape, z: nat, s: Shape, c: nat)
    requires Unique(t) && z in Ids(t) && Ids(s) <= Ids(SubAt(t, z))
    requires c in Ids(t) && c !in Ids(SubAt(t, z))
    ensures Depth(Replace(t, z, s), c) == Depth(t, c)
  {
    SubAtIds(t, z);
    if !(t.Fork? && t.id == z) {
      ParentSlot(t, z);
      HangDepthOut(t, Parent(t, z).index, Side(t, z), s, c);
    }
  }
}
