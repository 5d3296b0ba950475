/** The splice step of `BSTree._remove` (packages/bst/src/BSTree.ts:279-303)
    as functions on the shape, with the facts the splice keeps and the one it
    breaks (the spliced child's `parent`). */
module Removal {
  import opened Refs
  import opened Shapes
  import opened Search

  /** The node above `d` in `t` (`Null` for the root or an absent node). */
  function Parent(t: Shape, d: nat): Ptr
  {
    match t
    case Empty => Null
    case Fork(l, i, r) =>
      if d in Ids(l) then (if l.id == d then At(i) else Parent(l, d))
      else if d in Ids(r) then (if r.id == d then At(i) else Parent(r, d))
      else Null
  }

  /** The slot `d` occupies in `t` (`Root` for the root or an absent node). */
  function Side(t: Shape, d: nat): NodeType
  {
    match t
    case Empty => Root
    case Fork(l, i, r) =>
      if d in Ids(l) then (if l.id == d then Left else Side(l, d))
      else if d in Ids(r) then (if r.id == d then Right else Side(r, d))
      else Root
  }

  /** The subtree in the `side` slot of node `p`. */
  function SlotAt(t: Shape, p: nat, side: NodeType): Shape
  {
    match SubAt(t, p)
    case Empty => Empty
    case Fork(l, _, r) => if side == Left then l else r
  }

  /** `t` with the subtree in the `side` slot of node `p` replaced by `s`. */
  function Hang(t: Shape, p: nat, side: NodeType, s: Shape): Shape
  {
    match t
    case Empty => Empty
    case Fork(l, i, r) =>
      if i == p then (if side == Left then Fork(s, i, r) else Fork(l, i, s))
      else if p in Ids(l) then Fork(Hang(l, p, side, s), i, r)
      else if p in Ids(r) then Fork(l, i, Hang(r, p, side, s))
      else t
  }

  /** A node other than the root hangs in the `Side` slot of its `Parent`. */
  lemma {:induction false} ParentSlot(t: Shape, d: nat)
    requires Unique(t) && d in Ids(t) && d != t.id
    ensures Parent(t, d).At? && Parent(t, d).index in Ids(t) && Side(t, d) != Root
    ensures SlotAt(t, Parent(t, d).index, Side(t, d)) == SubAt(t, d)
    ensures Parent(t, d).index !in Ids(SubAt(t, d))
  {
    match t
    case Fork(l, i, r) =>
      if d in Ids(l) {
        if l.id != d {
          ParentSlot(l, d);
        }
        SubAtIds(l, d);
      } else {
        if r.id != d {
          ParentSlot(r, d);
        }
        SubAtIds(r, d);
      }
  }

  /** The subtree at `x` is rooted at `x` and draws its nodes from `t`. */
  lemma {:induction false} SubAtIds(t: Shape, x: nat)
    requires Unique(t) && x in Ids(t)
    ensures SubAt(t, x).Fork? && SubAt(t, x).id == x && Unique(SubAt(t, x))
    ensures Ids(SubAt(t, x)) <= Ids(t)
  {
    match t
    case Fork(l, i, r) =>
      if i != x {
        if x in Ids(l) { SubAtIds(l, x); } else { SubAtIds(r, x); }
      }
  }

  /** The slot of a node draws its nodes from the tree, apart from the node itself. */
  lemma {:induction false} SlotIds(t: Shape, p: nat, side: NodeType)
    requires Unique(t) && p in Ids(t)
    ensures Ids(SlotAt(t, p, side)) <= Ids(t) && p !in Ids(SlotAt(t, p, side))
    ensures Unique(SlotAt(t, p, side))
  {
    SubAtIds(t, p);
  }

  /** Hanging `s` (drawn from the old slot) in a slot: the slot's other nodes leave. */
  lemma {:induction false} HangIds(t: Shape, p: nat, side: NodeType, s: Shape)
    requires Unique(t) && p in Ids(t) && Ids(s) <= Ids(SlotAt(t, p, side))
    ensures Ids(Hang(t, p, side, s)) == Ids(t) - Ids(SlotAt(t, p, side)) + Ids(s)
  {
    match t
    case Fork(l, i, r) =>
      if i == p {
      } else if p in Ids(l) {
        assert SlotAt(t, p, side) == SlotAt(l, p, side);
        SlotIds(l, p, side);
        HangIds(l, p, side, s);
        var sl := Ids(SlotAt(l, p, side));
        assert sl !! Ids(r) && i !in sl;
        assert Ids(Hang(t, p, side, s)) == (Ids(l) - sl + Ids(s)) + {i} + Ids(r);
        SwapOut(Ids(l), {i}, Ids(r), sl, Ids(s));
      } else {
        assert SlotAt(t, p, side) == SlotAt(r, p, side);
        SlotIds(r, p, side);
        HangIds(r, p, side, s);
        var sr := Ids(SlotAt(r, p, side));
        assert sr !! Ids(l) && i !in sr;
        assert Ids(Hang(t, p, side, s)) == Ids(l) + {i} + (Ids(r) - sr + Ids(s));
        SwapOut(Ids(r), {i}, Ids(l), sr, Ids(s));
      }
  }

  /** Swapping a part `o` of one side of a union for `n`. */
  lemma SwapOut(a: set<nat>, b: set<nat>, c: set<nat>, o: set<nat>, n: set<nat>)
    requires o !! b && o !! c
    ensures (a - o + n) + b + c == (a + b + c) - o + n
    ensures c + b + (a - o + n) == (c + b + a) - o + n
  {
  }

  /** Hanging a subtree drawn from the old slot keeps positions unrepeated. */
  lemma {:induction false} HangUnique(t: Shape, p: nat, side: NodeType, s: Shape)
    requires Unique(t) && p in Ids(t) && Unique(s) && Ids(s) <= Ids(SlotAt(t, p, side))
    ensures Unique(Hang(t, p, side, s))
  {
    match t
    case Fork(l, i, r) =>
      if i == p {
      } else if p in Ids(l) {
        assert SlotAt(t, p, side) == SlotAt(l, p, side);
        SlotIds(l, p, side);
        HangUnique(l, p, side, s);
        HangIds(l, p, side, s);
      } else {
        assert SlotAt(t, p, side) == SlotAt(r, p, side);
        SlotIds(r, p, side);
        HangUnique(r, p, side, s);
        HangIds(r, p, side, s);
      }
  }

  /** The arena's child links trace the new shape when node `p`'s slot points
      at `s` and no other node on the path changed its links. */
  lemma {:induction false} HangShaped<V>(a: seq<Node<V>>, b: seq<Node<V>>, ptr: Ptr, t: Shape,
                                         p: nat, side: NodeType, s: Shape, sptr: Ptr)
    requires Shaped(a, ptr, t) && Unique(t) && p in Ids(t) && side != Root && p < |a| && p < |b|
    requires Shaped(b, sptr, s)
    requires side == Left ==> b[p].left == sptr && b[p].right == a[p].right
    requires side == Right ==> b[p].right == sptr && b[p].left == a[p].left
    requires SameLinks(a, b, Ids(t) - Ids(SlotAt(t, p, side)) - {p})
    ensures Shaped(b, ptr, Hang(t, p, side, s))
    decreases t
  {
    var out := Ids(t) - Ids(SlotAt(t, p, side)) - {p};
    match t
    case Fork(l, i, r) =>
      if i == p {
        if side == Left {
          SameLinksWithin(a, b, out, Ids(r));
          AgreeShaped(a, b, r, a[i].right);
        } else {
          SameLinksWithin(a, b, out, Ids(l));
          AgreeShaped(a, b, l, a[i].left);
        }
      } else if p in Ids(l) {
        assert SlotAt(t, p, side) == SlotAt(l, p, side);
        SlotIds(l, p, side);
        assert i in out;
        SameLinksWithin(a, b, out, Ids(l) - Ids(SlotAt(l, p, side)) - {p});
        HangShaped(a, b, a[i].left, l, p, side, s, sptr);
        SameLinksWithin(a, b, out, Ids(r));
        AgreeShaped(a, b, r, a[i].right);
      } else {
        assert SlotAt(t, p, side) == SlotAt(r, p, side);
        SlotIds(r, p, side);
        assert i in out;
        SameLinksWithin(a, b, out, Ids(r) - Ids(SlotAt(r, p, side)) - {p});
        HangShaped(a, b, a[i].right, r, p, side, s, sptr);
        SameLinksWithin(a, b, out, Ids(l));
        AgreeShaped(a, b, l, a[i].left);
      }
  }

  /** The subtree at a node carries the tags of the slot it hangs in. */
  lemma {:induction false} TaggedSub<V>(a: seq<Node<V>>, t: Shape, kind: NodeType, x: nat)
    requires Tagged(a, t, kind) && Unique(t) && x in Ids(t)
    ensures Tagged(a, SubAt(t, x), if x == t.id then kind else Side(t, x))
  {
    match t
    case Fork(l, i, r) =>
      if i != x {
        if x in Ids(l) { TaggedSub(a, l, Left, x); } else { TaggedSub(a, r, Right, x); }
      }
  }

  /** The subtree at a node carries the parent links below its parent. */
  lemma {:induction false} LinkedSub<V>(a: seq<Node<V>>, t: Shape, par: Ptr, loose: set<nat>, x: nat)
    requires Linked(a, t, par, loose) && Unique(t) && x in Ids(t)
    ensures Linked(a, SubAt(t, x), if x == t.id then par else Parent(t, x), loose)
  {
    match t
    case Fork(l, i, r) =>
      if i != x {
        if x in Ids(l) { LinkedSub(a, l, At(i), loose, x); } else { LinkedSub(a, r, At(i), loose, x); }
      }
  }

  /** Allowing more stale links weakens `Linked`. */
  lemma {:induction false} LinkedLoosen<V>(a: seq<Node<V>>, t: Shape, par: Ptr, loose: set<nat>, more: set<nat>)
    requires Linked(a, t, par, loose) && loose <= more
    ensures Linked(a, t, par, more)
  {
    match t
    case Empty =>
    case Fork(l, i, r) =>
      LinkedLoosen(a, l, At(i), loose, more);
      LinkedLoosen(a, r, At(i), loose, more);
  }

  /** A subtree whose root's link is allowed to be stale is linked below any parent. */
  lemma LinkedReroot<V>(a: seq<Node<V>>, t: Shape, par: Ptr, other: Ptr, loose: set<nat>)
    requires Linked(a, t, par, loose) && (t.Fork? ==> t.id in loose)
    ensures Linked(a, t, other, loose)
  {
  }

  /** The tags after the splice: the hung subtree is tagged for its new slot,
      every other node keeps its tag. */
  lemma {:induction false} HangTagged<V>(a: seq<Node<V>>, b: seq<Node<V>>, t: Shape, kind: NodeType,
                                         p: nat, side: NodeType, s: Shape)
    requires Tagged(a, t, kind) && Unique(t) && p in Ids(t) && side != Root
    requires Tagged(b, s, side)
    requires SameKinds(a, b, Ids(t) - Ids(SlotAt(t, p, side)))
    ensures Tagged(b, Hang(t, p, side, s), kind)
  {
    var out := Ids(t) - Ids(SlotAt(t, p, side));
    match t
    case Fork(l, i, r) =>
      SlotIds(t, p, side);
      if i == p {
        assert i in out;
        if side == Left {
          SameKindsWithin(a, b, out, Ids(r));
          AgreeTagged(a, b, r, Right);
        } else {
          SameKindsWithin(a, b, out, Ids(l));
          AgreeTagged(a, b, l, Left);
        }
      } else if p in Ids(l) {
        assert SlotAt(t, p, side) == SlotAt(l, p, side);
        SlotIds(l, p, side);
        assert i in out;
        SameKindsWithin(a, b, out, Ids(l) - Ids(SlotAt(l, p, side)));
        HangTagged(a, b, l, Left, p, side, s);
        SameKindsWithin(a, b, out, Ids(r));
        AgreeTagged(a, b, r, Right);
      } else {
        assert SlotAt(t, p, side) == SlotAt(r, p, side);
        SlotIds(r, p, side);
        assert i in out;
        SameKindsWithin(a, b, out, Ids(r) - Ids(SlotAt(r, p, side)));
        HangTagged(a, b, r, Right, p, side, s);
        SameKindsWithin(a, b, out, Ids(l));
        AgreeTagged(a, b, l, Left);
      }
  }

  /** The parent links after the splice, given those of the hung subtree. */
  lemma {:induction false} HangLinked<V>(a: seq<Node<V>>, b: seq<Node<V>>, t: Shape, par: Ptr, loose: set<nat>,
                                         p: nat, side: NodeType, s: Shape, more: set<nat>)
    requires Linked(a, t, par, loose) && Unique(t) && p in Ids(t) && loose <= more
    requires Linked(b, s, At(p), more)
    requires SameParents(a, b, Ids(t) - Ids(SlotAt(t, p, side)))
    ensures Linked(b, Hang(t, p, side, s), par, more)
  {
    var out := Ids(t) - Ids(SlotAt(t, p, side));
    LinkedLoosen(a, t, par, loose, more);
    match t
    case Fork(l, i, r) =>
      SlotIds(t, p, side);
      LinkedLoosen(a, l, At(i), loose, more);
      LinkedLoosen(a, r, At(i), loose, more);
      if i == p {
        assert i in out;
        if side == Left {
          SameParentsWithin(a, b, out, Ids(r));
          AgreeLinked(a, b, r, At(i), more);
        } else {
          SameParentsWithin(a, b, out, Ids(l));
          AgreeLinked(a, b, l, At(i), more);
        }
      } else if p in Ids(l) {
        assert SlotAt(t, p, side) == SlotAt(l, p, side);
        SlotIds(l, p, side);
        assert i in out;
        SameParentsWithin(a, b, out, Ids(l) - Ids(SlotAt(l, p, side)));
        HangLinked(a, b, l, At(i), loose, p, side, s, more);
        SameParentsWithin(a, b, out, Ids(r));
        AgreeLinked(a, b, r, At(i), more);
      } else {
        assert SlotAt(t, p, side) == SlotAt(r, p, side);
        SlotIds(r, p, side);
        assert i in out;
        SameParentsWithin(a, b, out, Ids(r) - Ids(SlotAt(r, p, side)));
        HangLinked(a, b, r, At(i), loose, p, side, s, more);
        SameParentsWithin(a, b, out, Ids(l));
        AgreeLinked(a, b, l, At(i), more);
      }
  }

  /** In-order positions before and after the `side` slot of node `p`. */
  function InBefore(t: Shape, p: nat, side: NodeType): seq<nat>
  {
    match t
    case Empty => []
    case Fork(l, i, r) =>
      if i == p then (if side == Left then [] else InOrder(l) + [i])
      else if p in Ids(l) then InBefore(l, p, side)
      else if p in Ids(r) then InOrder(l) + [i] + InBefore(r, p, side)
      else []
  }

  function InAfter(t: Shape, p: nat, side: NodeType): seq<nat>
  {
    match t
    case Empty => []
    case Fork(l, i, r) =>
      if i == p then (if side == Left then [i] + InOrder(r) else [])
      else if p in Ids(l) then InAfter(l, p, side) + [i] + InOrder(r)
      else if p in Ids(r) then InAfter(r, p, side)
      else []
  }

  /** Hanging a subtree replaces exactly the slot's stretch of the in-order list. */
  lemma {:induction false} HangInOrder(t: Shape, p: nat, side: NodeType, s: Shape)
    requires p in Ids(t) && side != Root
    ensures InOrder(t) == InBefore(t, p, side) + InOrder(SlotAt(t, p, side)) + InAfter(t, p, side)
    ensures InOrder(Hang(t, p, side, s)) == InBefore(t, p, side) + InOrder(s) + InAfter(t, p, side)
  {
    match t
    case Fork(l, i, r) =>
      if i == p {
      } else if p in Ids(l) {
        HangInOrder(l, p, side, s);
        HangInOrderLeft(l, i, r, p, side, s);
      } else {
        HangInOrder(r, p, side, s);
        HangInOrderRight(l, i, r, p, side, s);
      }
  }

  lemma HangInOrderLeft(l: Shape, i: nat, r: Shape, p: nat, side: NodeType, s: Shape)
    requires p in Ids(l) && p != i
    requires InOrder(l) == InBefore(l, p, side) + InOrder(SlotAt(l, p, side)) + InAfter(l, p, side)
    requires InOrder(Hang(l, p, side, s)) == InBefore(l, p, side) + InOrder(s) + InAfter(l, p, side)
    ensures var t := Fork(l, i, r);
      InOrder(t) == InBefore(t, p, side) + InOrder(SlotAt(t, p, side)) + InAfter(t, p, side) &&
      InOrder(Hang(t, p, side, s)) == InBefore(t, p, side) + InOrder(s) + InAfter(t, p, side)
  {
    var t := Fork(l, i, r);
    assert SlotAt(t, p, side) == SlotAt(l, p, side);
    var B, A := InBefore(l, p, side), InAfter(l, p, side);
    var tail := [i] + InOrder(r);
    assert InOrder(t) == InOrder(l) + tail;
    assert InOrder(Hang(t, p, side, s)) == InOrder(Hang(l, p, side, s)) + tail;
    assert InAfter(t, p, side) == A + tail;
    SeqAssoc(B, InOrder(SlotAt(l, p, side)), A, tail);
    SeqAssoc(B, InOrder(s), A, tail);
  }

  lemma HangInOrderRight(l: Shape, i: nat, r: Shape, p: nat, side: NodeType, s: Shape)
    requires p in Ids(r) && p !in Ids(l) && p != i
    requires InOrder(r) == InBefore(r, p, side) + InOrder(SlotAt(r, p, side)) + InAfter(r, p, side)
    requires InOrder(Hang(r, p, side, s)) == InBefore(r, p, side) + InOrder(s) + InAfter(r, p, side)
    ensures var t := Fork(l, i, r);
      InOrder(t) == InBefore(t, p, side) + InOrder(SlotAt(t, p, side)) + InAfter(t, p, side) &&
      InOrder(Hang(t, p, side, s)) == InBefore(t, p, side) + InOrder(s) + InAfter(t, p, side)
  {
    var t := Fork(l, i, r);
    assert SlotAt(t, p, side) == SlotAt(r, p, side);
    var B, A := InBefore(r, p, side), InAfter(r, p, side);
    var head := InOrder(l) + [i];
    assert InOrder(t) == head + InOrder(r);
    assert InOrder(Hang(t, p, side, s)) == head + InOrder(Hang(r, p, side, s));
    assert InBefore(t, p, side) == head + B;
    SeqAssoc2(head, B, InOrder(SlotAt(r, p, side)), A);
    SeqAssoc2(head, B, InOrder(s), A);
  }
}
