/** The arena writes of `BSTree._remove` (packages/bst/src/BSTree.ts:279-303):
    copying a pair into the target, hanging the spliced node's only child in
    its slot and retagging that child, and what these writes do to the shape. */
module Splicing {
  import opened Refs
  import opened Shapes
  import opened Search
  import opened Removal
  import opened Order

  /** The root position of `c`, as a set (empty for the empty tree). */
  function Tops(c: Shape): set<nat>
  {
    if c.Fork? then {c.id} else {}
  }

  /** `d.parent[d.type] = child`. */
  function Unhook<V>(a: seq<Node<V>>, d: nat, child: Ptr): seq<Node<V>>
    requires d < |a| && a[d].parent.At? && a[d].parent.index < |a|
  {
    var p := a[d].parent.index;
    a[p := SetChild(a[p], a[d].kind, child)]
  }

  /** `if (child) child.type = kind`. */
  function Retag<V>(a: seq<Node<V>>, child: Ptr, kind: NodeType): seq<Node<V>>
  {
    if child.At? && child.index < |a| then a[child.index := a[child.index].(kind := kind)] else a
  }

  /** `target.key = d.key; target.value = d.value`. */
  function CopyPair<V>(a: seq<Node<V>>, target: nat, d: nat): seq<Node<V>>
    requires target < |a| && d < |a|
  {
    a[target := a[target].(key := a[d].key, value := a[d].value)]
  }

  /** Splicing `d` out: its parent's slot takes `child`, which takes `d`'s tag. */
  function Splice<V>(a: seq<Node<V>>, d: nat, child: Ptr): seq<Node<V>>
    requires d < |a| && a[d].parent.At? && a[d].parent.index < |a|
  {
    Retag(Unhook(a, d, child), child, a[d].kind)
  }

  /** What the splice writes, cell by cell: the parent's slot, the child's tag,
      and nothing else. */
  lemma SpliceCells<V>(a: seq<Node<V>>, d: nat, child: Ptr)
    requires d < |a| && a[d].parent.At? && a[d].parent.index < |a| && child != a[d].parent
    ensures var b := Splice(a, d, child); var p := a[d].parent.index;
      |b| == |a| &&
      b[p] == SetChild(a[p], a[d].kind, child) &&
      (forall i :: 0 <= i < |a| ==> b[i].key == a[i].key && b[i].value == a[i].value && b[i].parent == a[i].parent) &&
      (forall i :: 0 <= i < |a| && i != p ==> b[i].left == a[i].left && b[i].right == a[i].right) &&
      (forall i :: 0 <= i < |a| && At(i) != child ==> b[i].kind == a[i].kind) &&
      (child.At? && child.index < |a| ==> b[child.index].kind == a[d].kind)
  {
  }

  /** A node other than the root, whose own parent link is intact, sits where
      the shape says: its `parent` and `type` name its slot. */
  lemma SpliceSetup<V>(a: seq<Node<V>>, ptr: Ptr, t: Shape, loose: set<nat>, d: nat)
    requires Shaped(a, ptr, t) && Unique(t) && Tagged(a, t, Root) && Linked(a, t, Null, loose)
    requires d in Ids(t) && d != t.id && d !in loose
    ensures Parent(t, d).At? && Parent(t, d).index in Ids(t) && Side(t, d) != Root
    ensures d < |a| && a[d].parent == Parent(t, d) && a[d].parent.index < |a| && a[d].kind == Side(t, d)
    ensures SlotAt(t, Parent(t, d).index, Side(t, d)) == SubAt(t, d)
    ensures Parent(t, d).index !in Ids(SubAt(t, d))
    ensures SubAt(t, d).Fork? && SubAt(t, d).id == d && Unique(SubAt(t, d)) && Ids(SubAt(t, d)) <= Ids(t)
    ensures Shaped(a, At(d), SubAt(t, d)) && Tagged(a, SubAt(t, d), Side(t, d))
    ensures Linked(a, SubAt(t, d), Parent(t, d), loose)
  {
    ParentSlot(t, d);
    SubAtIds(t, d);
    SubAtShaped(a, ptr, t, d);
    TaggedSub(a, t, Root, d);
    LinkedSub(a, t, Null, loose, d);
    ShapedWithin(a, ptr, t);
  }

  /** `d` has at most one child, `c`, reached through `cptr`. */
  ghost predicate OnlyChild<V>(a: seq<Node<V>>, t: Shape, d: nat, c: Shape, cptr: Ptr)
    requires d < |a|
  {
    (SubAt(t, d) == Fork(Empty, d, c) && cptr == a[d].right) ||
    (SubAt(t, d) == Fork(c, d, Empty) && cptr == a[d].left)
  }

  /** Splicing out a node with at most one child hangs that child in its slot:
      the arena then traces the shape `Hang(t, p, side, c)`, which holds every
      node but `d`, with tags right and parent links right except for the
      child's, which still names `d`. In-order, `d` alone drops out. */
  lemma SpliceShape<V>(a: seq<Node<V>>, ptr: Ptr, t: Shape, loose: set<nat>, d: nat, c: Shape, cptr: Ptr)
    requires Shaped(a, ptr, t) && Unique(t) && Tagged(a, t, Root) && Linked(a, t, Null, loose)
    requires d in Ids(t) && d != t.id && d !in loose && d < |a| && OnlyChild(a, t, d, c, cptr)
    ensures a[d].parent == Parent(t, d) && a[d].parent.At? && a[d].parent.index < |a|
    ensures var b := Splice(a, d, cptr); var t' := Hang(t, a[d].parent.index, a[d].kind, c);
      Shaped(b, ptr, t') && Unique(t') && Ids(t') == Ids(t) - {d} && Count(t') + 1 == Count(t) &&
      Tagged(b, t', Root) && Linked(b, t', Null, loose + Tops(c)) &&
      (c.Fork? && c.id !in loose ==> c.id < |b| && b[c.id].parent == At(d)) &&
      SameData(a, b, Ids(t)) &&
      exists k :: 0 <= k < |InOrder(t)| && InOrder(t)[k] == d && InOrder(t') == InOrder(t)[..k] + InOrder(t)[k + 1..]
  {
    SpliceSetup(a, ptr, t, loose, d);
    var p := a[d].parent.index;
    var side := a[d].kind;
    var sub := SubAt(t, d);
    assert Ids(sub) == Ids(c) + {d};
    assert d !in Ids(c);
    assert Shaped(a, cptr, c);
    assert cptr != a[d].parent;
    SpliceCells(a, d, cptr);
    var b := Splice(a, d, cptr);
    var t' := Hang(t, p, side, c);
    SpliceIds(t, d, p, side, c);
    ShapedWithin(a, ptr, t);
    SpliceShaped(a, b, ptr, t, p, side, c, cptr);
    assert OneSided(SlotAt(t, p, side), d, c);
    assert Tagged(a, SlotAt(t, p, side), side);
    assert Unique(SlotAt(t, p, side)) && Ids(SlotAt(t, p, side)) <= Ids(t);
    SpliceTagged(a, b, t, d, p, side, c, cptr);
    SpliceLinked(a, b, t, loose, d, p, side, c);
    SpliceInOrder(t, d, p, side, c);
    if c.Fork? && c.id !in loose {
      assert Linked(a, c, At(d), loose);
    }
  }

  lemma SpliceShaped<V>(a: seq<Node<V>>, b: seq<Node<V>>, ptr: Ptr, t: Shape, p: nat, side: NodeType, c: Shape, cptr: Ptr)
    requires Shaped(a, ptr, t) && Unique(t) && p in Ids(t) && side != Root && p < |a| && |b| == |a|
    requires Shaped(a, cptr, c) && Ids(c) <= Ids(SlotAt(t, p, side)) && p !in Ids(SlotAt(t, p, side))
    requires b[p] == SetChild(a[p], side, cptr)
    requires forall i :: 0 <= i < |a| && i != p ==> b[i].left == a[i].left && b[i].right == a[i].right
    ensures Shaped(b, ptr, Hang(t, p, side, c))
  {
    ShapedWithin(a, ptr, t);
    SlotIds(t, p, side);
    assert SameLinks(a, b, Ids(c));
    AgreeShaped(a, b, c, cptr);
    HangShaped(a, b, ptr, t, p, side, c, cptr);
  }

  lemma SpliceIds(t: Shape, d: nat, p: nat, side: NodeType, c: Shape)
    requires Unique(t) && p in Ids(t) && OneSided(SlotAt(t, p, side), d, c)
    ensures Unique(Hang(t, p, side, c)) && Ids(Hang(t, p, side, c)) == Ids(t) - {d}
    ensures Count(Hang(t, p, side, c)) + 1 == Count(t)
  {
    SlotIds(t, p, side);
    var sub := SlotAt(t, p, side);
    assert Ids(sub) == Ids(c) + {d} && d !in Ids(c);
    HangIds(t, p, side, c);
    HangUnique(t, p, side, c);
    assert Ids(Hang(t, p, side, c)) == Ids(t) - {d};
    assert d in Ids(t);
    CountDrop(t, Hang(t, p, side, c), d);
  }

  lemma CountDrop(t: Shape, u: Shape, d: nat)
    requires Unique(t) && Unique(u) && d in Ids(t) && Ids(u) == Ids(t) - {d}
    ensures Count(u) + 1 == Count(t)
  {
    UniqueCount(t);
    UniqueCount(u);
    assert Ids(t) == Ids(u) + {d};
  }

  /** The subtree `sub` of `d` with at most one child `c`. */
  predicate OneSided(sub: Shape, d: nat, c: Shape)
  {
    sub == Fork(Empty, d, c) || sub == Fork(c, d, Empty)
  }

  lemma SpliceTagged<V>(a: seq<Node<V>>, b: seq<Node<V>>, t: Shape, d: nat, p: nat, side: NodeType, c: Shape, cptr: Ptr)
    requires Tagged(a, t, Root) && Unique(t) && p in Ids(t) && side != Root && |b| == |a| && Within(a, t)
    requires OneSided(SlotAt(t, p, side), d, c) && Tagged(a, SlotAt(t, p, side), side)
    requires Unique(SlotAt(t, p, side)) && Ids(SlotAt(t, p, side)) <= Ids(t)
    requires Shaped(a, cptr, c)
    requires forall i :: 0 <= i < |a| && At(i) != cptr ==> b[i].kind == a[i].kind
    requires cptr.At? && cptr.index < |a| ==> b[cptr.index].kind == side
    ensures Tagged(b, Hang(t, p, side, c), Root)
  {
    var sub := SlotAt(t, p, side);
    var out := Ids(t) - Ids(sub);
    assert Ids(c) <= Ids(sub);
    forall i | i in out ensures i < |a| && i < |b| && a[i].kind == b[i].kind {
      assert i in Ids(t);
      assert At(i) != cptr;
    }
    if c.Fork? {
      var Fork(cl, x, cr) := c;
      assert Tagged(a, cl, Left) && Tagged(a, cr, Right);
      assert SameKinds(a, b, Ids(cl));
      assert SameKinds(a, b, Ids(cr));
      AgreeTagged(a, b, cl, Left);
      AgreeTagged(a, b, cr, Right);
    }
    HangTagged(a, b, t, Root, p, side, c);
  }

  lemma SpliceLinked<V>(a: seq<Node<V>>, b: seq<Node<V>>, t: Shape, loose: set<nat>, d: nat, p: nat, side: NodeType, c: Shape)
    requires Linked(a, t, Null, loose) && Unique(t) && p in Ids(t) && |b| == |a| && Within(a, t)
    requires OneSided(SlotAt(t, p, side), d, c) && Linked(a, SlotAt(t, p, side), At(p), loose)
    requires Ids(SlotAt(t, p, side)) <= Ids(t)
    requires forall i :: 0 <= i < |a| ==> b[i].parent == a[i].parent
    ensures Linked(b, Hang(t, p, side, c), Null, loose + Tops(c))
  {
    var sub := SlotAt(t, p, side);
    var more := loose + Tops(c);
    assert Linked(a, c, At(d), loose);
    assert Ids(c) <= Ids(t);
    assert SameParents(a, b, Ids(c));
    AgreeLinked(a, b, c, At(d), loose);
    LinkedLoosen(b, c, At(d), loose, more);
    LinkedReroot(b, c, At(d), At(p), more);
    assert SameParents(a, b, Ids(t));
    SameParentsWithin(a, b, Ids(t), Ids(t) - Ids(sub));
    HangLinked(a, b, t, Null, loose, p, side, c, more);
  }

  lemma SpliceInOrder(t: Shape, d: nat, p: nat, side: NodeType, c: Shape)
    requires p in Ids(t) && side != Root && OneSided(SlotAt(t, p, side), d, c)
    ensures exists k :: 0 <= k < |InOrder(t)| && InOrder(t)[k] == d && InOrder(Hang(t, p, side, c)) == InOrder(t)[..k] + InOrder(t)[k + 1..]
  {
    HangInOrder(t, p, side, c);
    var B := InBefore(t, p, side);
    var A := InAfter(t, p, side);
    if SlotAt(t, p, side) == Fork(Empty, d, c) {
      assert InOrder(Fork(Empty, d, c)) == [d] + InOrder(c);
      DropAt(B, d, InOrder(c), A);
    } else {
      assert InOrder(Fork(c, d, Empty)) == InOrder(c) + [d];
      SeqAssoc(B, InOrder(c), [d], A);
      assert InOrder(t) == (B + InOrder(c)) + [d] + A;
      assert [d] + [] == [d];
      DropAt(B + InOrder(c), d, [], A);
      assert B + InOrder(c) + [] + A == B + InOrder(c) + A;
      var k := |B + InOrder(c)|;
      assert InOrder(t)[k] == d;
    }
  }

  /** Dropping the middle element of `P + M + Q` where `M` starts with `x`. */
  lemma DropAt<T>(P: seq<T>, x: T, C: seq<T>, Q: seq<T>)
    ensures var s := P + ([x] + C) + Q;
      |P| < |s| && s[|P|] == x && s[..|P|] + s[|P| + 1..] == P + C + Q
  {
    var s := P + ([x] + C) + Q;
    assert s[..|P|] == P;
    assert s[|P| + 1..] == C + Q;
  }

  /** Copying a pair into the target changes no link and no tag. */
  lemma CopyPairKeeps<V>(a: seq<Node<V>>, ptr: Ptr, t: Shape, loose: set<nat>, target: nat, d: nat)
    requires Shaped(a, ptr, t) && Tagged(a, t, Root) && Linked(a, t, Null, loose)
    requires target < |a| && d < |a|
    ensures var a1 := CopyPair(a, target, d);
      Shaped(a1, ptr, t) && Tagged(a1, t, Root) && Linked(a1, t, Null, loose) &&
      a1[d].parent == a[d].parent && a1[d].kind == a[d].kind && a1[d].left == a[d].left && a1[d].right == a[d].right
  {
    var a1 := CopyPair(a, target, d);
    ShapedWithin(a, ptr, t);
    assert SameLinks(a, a1, Ids(t));
    assert SameKinds(a, a1, Ids(t));
    assert SameParents(a, a1, Ids(t));
    AgreeShaped(a, a1, t, ptr);
    AgreeTagged(a, a1, t, Root);
    AgreeLinked(a, a1, t, Null, loose);
  }

  /** In-order position of a node of a tree without repeats is unique. */
  lemma PositionUnique(t: Shape, m: nat, n: nat)
    requires Unique(t) && m < |InOrder(t)| && n < |InOrder(t)| && InOrder(t)[m] == InOrder(t)[n]
    ensures m == n
  {
    InOrderDistinct(t);
  }

  /** The successor branch of `_remove`: the target takes the pair of its
      in-order successor `d`, and `d` is spliced out, its right child taking
      its slot. The tree keeps its shape invariants (the child's parent link
      goes stale), and its listing loses exactly the target's entry; the node
      handed back holds the successor's pair, the entry right after the
      target's. */
  lemma RemoveSuccessor<V>(a: seq<Node<V>>, ptr: Ptr, t: Shape, loose: set<nat>, target: nat) returns (m: nat)
    requires Shaped(a, ptr, t) && Unique(t) && Tagged(a, t, Root) && Linked(a, t, Null, loose)
    requires target in Ids(t) && NextOf(t, target).Some? && NextOf(t, target).value !in loose
    ensures var d := NextOf(t, target).value;
      target < |a| && d < |a| && d != target && d in Ids(t) && a[d].parent.At? && a[d].parent.index < |a| &&
      SubAt(t, d).Fork?
    ensures var d := NextOf(t, target).value; var c := SubAt(t, d).right;
      var b := Splice(CopyPair(a, target, d), d, a[d].right);
      var u := Hang(t, a[d].parent.index, a[d].kind, c);
      Shaped(b, ptr, u) && Unique(u) && Ids(u) == Ids(t) - {d} && Count(u) + 1 == Count(t) &&
      Tagged(b, u, Root) && Linked(b, u, Null, loose + Tops(c)) && Within(b, u) &&
      b[d] == a[d] && (c.Fork? && c.id !in loose ==> c.id < |b| && b[c.id].parent == At(d)) &&
      m + 1 < |InOrder(t)| && InOrder(t)[m] == target &&
      Listing(a, t)[m + 1] == (a[d].key, a[d].value) &&
      Listing(b, u) == Without(Listing(a, t), m)
  {
    var d := NextOf(t, target).value;
    NextShape(t, target);
    ShapedWithin(a, ptr, t);
    CopyPairKeeps(a, ptr, t, loose, target, d);
    var a1 := CopyPair(a, target, d);
    SubAtShaped(a1, ptr, t, d);
    var c := SubAt(t, d).right;
    assert OnlyChild(a1, t, d, c, a1[d].right);
    SpliceShape(a1, ptr, t, loose, d, c, a1[d].right);
    SpliceSetup(a1, ptr, t, loose, d);
    var b := Splice(a1, d, a[d].right);
    var u := Hang(t, a[d].parent.index, a[d].kind, c);
    ShapedWithin(b, ptr, u);
    var k := DroppedAt(t, u, d);
    m := NextPosition(t, target);
    PositionUnique(t, k, m + 1);
    assert b[d] == a[d];
    RemovedListing(a, b, t, u, target, m, k);
  }

  lemma DroppedAt(t: Shape, u: Shape, d: nat) returns (k: nat)
    requires exists k :: 0 <= k < |InOrder(t)| && InOrder(t)[k] == d && InOrder(u) == InOrder(t)[..k] + InOrder(t)[k + 1..]
    ensures k < |InOrder(t)| && InOrder(t)[k] == d && InOrder(u) == Without(InOrder(t), k)
  {
    k :| 0 <= k < |InOrder(t)| && InOrder(t)[k] == d && InOrder(u) == InOrder(t)[..k] + InOrder(t)[k + 1..];
  }

  lemma NextPosition(t: Shape, x: nat) returns (m: nat)
    requires Unique(t) && x in Ids(t) && NextOf(t, x).Some?
    ensures m + 1 < |InOrder(t)| && InOrder(t)[m] == x && InOrder(t)[m + 1] == NextOf(t, x).value
  {
    NextFollows(t, x);
    m :| 0 <= m < |InOrder(t)| - 1 && InOrder(t)[m] == x && InOrder(t)[m + 1] == NextOf(t, x).value;
  }

  lemma PrevPosition(t: Shape, x: nat) returns (m: nat)
    requires Unique(t) && x in Ids(t) && PrevOf(t, x).Some?
    ensures 0 < m < |InOrder(t)| && InOrder(t)[m] == x && InOrder(t)[m - 1] == PrevOf(t, x).value
  {
    PrevPrecedes(t, x);
    m :| 0 < m < |InOrder(t)| && InOrder(t)[m] == x && InOrder(t)[m - 1] == PrevOf(t, x).value;
  }

  /** The listing part of a removal. */
  lemma RemovedListing<V>(a: seq<Node<V>>, b: seq<Node<V>>, t: Shape, u: Shape, target: nat, m: nat, k: nat)
    requires Within(a, t) && Within(b, u) && Unique(t)
    requires m < |InOrder(t)| && InOrder(t)[m] == target
    requires k < |InOrder(t)| && (k + 1 == m || k == m || k == m + 1)
    requires InOrder(u) == Without(InOrder(t), k)
    requires forall i :: i in Ids(t) && i != target ==> i < |b| && i < |a| && b[i].key == a[i].key && b[i].value == a[i].value
    requires InOrder(t)[k] < |a|
    requires k != m ==> target < |b| && b[target].key == a[InOrder(t)[k]].key && b[target].value == a[InOrder(t)[k]].value
    ensures k < |Listing(a, t)| && Listing(a, t)[k] == (a[InOrder(t)[k]].key, a[InOrder(t)[k]].value)
    ensures Listing(b, u) == Without(Listing(a, t), m)
  {
    InOrderWithin(a, t);
    ListingDrop(a, b, t, u, target, m, k);
  }

  /** The predecessor branch of `_remove`, taken when the target has no right
      subtree: the target takes the pair of its in-order predecessor `d`, and
      `d` is spliced out, its left child taking its slot. The node handed back
      holds the entry right before the target's. */
  lemma RemovePredecessor<V>(a: seq<Node<V>>, ptr: Ptr, t: Shape, loose: set<nat>, target: nat) returns (m: nat)
    requires Shaped(a, ptr, t) && Unique(t) && Tagged(a, t, Root) && Linked(a, t, Null, loose)
    requires target in Ids(t) && NextOf(t, target).None?
    requires PrevOf(t, target).Some? && PrevOf(t, target).value !in loose
    ensures var d := PrevOf(t, target).value;
      target < |a| && d < |a| && d != target && d in Ids(t) && a[d].parent.At? && a[d].parent.index < |a| &&
      SubAt(t, d).Fork?
    ensures var d := PrevOf(t, target).value; var c := SubAt(t, d).left;
      var b := Splice(CopyPair(a, target, d), d, a[d].left);
      var u := Hang(t, a[d].parent.index, a[d].kind, c);
      Shaped(b, ptr, u) && Unique(u) && Ids(u) == Ids(t) - {d} && Count(u) + 1 == Count(t) &&
      Tagged(b, u, Root) && Linked(b, u, Null, loose + Tops(c)) && Within(b, u) &&
      b[d] == a[d] && (c.Fork? && c.id !in loose ==> c.id < |b| && b[c.id].parent == At(d)) &&
      0 < m < |InOrder(t)| && InOrder(t)[m] == target &&
      Listing(a, t)[m - 1] == (a[d].key, a[d].value) &&
      Listing(b, u) == Without(Listing(a, t), m)
  {
    var d := PrevOf(t, target).value;
    PrevShape(t, target);
    ShapedWithin(a, ptr, t);
    CopyPairKeeps(a, ptr, t, loose, target, d);
    var a1 := CopyPair(a, target, d);
    SubAtShaped(a1, ptr, t, d);
    var c := SubAt(t, d).left;
    assert OnlyChild(a1, t, d, c, a1[d].left);
    SpliceShape(a1, ptr, t, loose, d, c, a1[d].left);
    SpliceSetup(a1, ptr, t, loose, d);
    var b := Splice(a1, d, a[d].left);
    var u := Hang(t, a[d].parent.index, a[d].kind, c);
    ShapedWithin(b, ptr, u);
    var k := DroppedAt(t, u, d);
    m := PrevPosition(t, target);
    PositionUnique(t, k, m - 1);
    assert b[d] == a[d];
    RemovedListing(a, b, t, u, target, m, k);
  }

  /** A node without successor or predecessor in its own subtree has no children. */
  lemma LeafShape(t: Shape, x: nat)
    requires Unique(t) && x in Ids(t) && NextOf(t, x).None? && PrevOf(t, x).None?
    ensures SubAt(t, x) == Fork(Empty, x, Empty)
  {
    SubAtIds(t, x);
    LeftmostFirst(SubAt(t, x).right);
    RightmostFirstEmpty(SubAt(t, x).left);
  }

  lemma RightmostFirstEmpty(t: Shape)
    ensures Rightmost(t).None? <==> t == Empty
  {
    RightmostLast(t);
  }

  /** A node's tag is `Root` exactly when it is the root. */
  lemma RootTag<V>(a: seq<Node<V>>, t: Shape, x: nat)
    requires Tagged(a, t, Root) && Unique(t) && x in Ids(t) && Within(a, t)
    ensures x < |a| && (a[x].kind == Root <==> x == t.id)
  {
    TaggedSub(a, t, Root, x);
    SubAtIds(t, x);
    if x != t.id {
      ParentSlot(t, x);
    }
  }

  /** The leaf branch of `_remove` for a target other than the root:
      `target.parent[target.type] = null`. The listing loses the target's
      entry, and the node handed back holds the target's own pair. */
  lemma RemoveLeaf<V>(a: seq<Node<V>>, ptr: Ptr, t: Shape, loose: set<nat>, target: nat) returns (m: nat)
    requires Shaped(a, ptr, t) && Unique(t) && Tagged(a, t, Root) && Linked(a, t, Null, loose)
    requires target in Ids(t) && target != t.id && target !in loose
    requires NextOf(t, target).None? && PrevOf(t, target).None?
    ensures target < |a| && a[target].parent.At? && a[target].parent.index < |a|
    ensures var b := Splice(a, target, Null);
      var u := Hang(t, a[target].parent.index, a[target].kind, Empty);
      Shaped(b, ptr, u) && Unique(u) && Ids(u) == Ids(t) - {target} && Count(u) + 1 == Count(t) &&
      Tagged(b, u, Root) && Linked(b, u, Null, loose) && Within(b, u) &&
      b[target] == a[target] &&
      m < |InOrder(t)| && InOrder(t)[m] == target &&
      Listing(a, t)[m] == (a[target].key, a[target].value) &&
      Listing(b, u) == Without(Listing(a, t), m)
  {
    LeafShape(t, target);
    ShapedWithin(a, ptr, t);
    SubAtShaped(a, ptr, t, target);
    assert OnlyChild(a, t, target, Empty, a[target].right);
    SpliceShape(a, ptr, t, loose, target, Empty, a[target].right);
    assert Tops(Empty) == {};
    assert loose + {} == loose;
    var b := Splice(a, target, Null);
    var u := Hang(t, a[target].parent.index, a[target].kind, Empty);
    ShapedWithin(b, ptr, u);
    m := DroppedAt(t, u, target);
    RemovedListing(a, b, t, u, target, m, m);
  }
}
