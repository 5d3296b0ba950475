/** The node graph of packages/bst/src/BSTree.ts as values. Nodes live in an arena
    (a sequence indexed by `nat`, never shrunk, so a detached node keeps its stale
    fields), and a ghost `Shape` names the part reachable from the root. */
module Shapes {
  import opened Refs

  /** `BSNodeType`: which slot of its parent a node occupies. */
  datatype NodeType = Root | Left | Right

  /** `BSNode`: key, value, slot tag and the three links. */
  datatype Node<V> = Node(key: int, value: V, kind: NodeType, parent: Ptr, left: Ptr, right: Ptr)

  /** `node[side]` in the source, for `side` one of the child slots. */
  function Child<V>(n: Node<V>, side: NodeType): Ptr
  {
    if side == Left then n.left else n.right
  }

  /** `node[side] = p`. */
  function SetChild<V>(n: Node<V>, side: NodeType, p: Ptr): Node<V>
  {
    if side == Left then n.(left := p) else n.(right := p)
  }

  /** The reachable tree: each `Fork` names the arena position of a node. */
  datatype Shape = Empty | Fork(left: Shape, id: nat, right: Shape)

  function Ids(t: Shape): set<nat>
  {
    match t
    case Empty => {}
    case Fork(l, i, r) => Ids(l) + {i} + Ids(r)
  }

  function Count(t: Shape): nat
  {
    match t
    case Empty => 0
    case Fork(l, _, r) => Count(l) + 1 + Count(r)
  }

  function Height(t: Shape): nat
  {
    match t
    case Empty => 0
    case Fork(l, _, r) => 1 + (if Height(l) < Height(r) then Height(r) else Height(l))
  }

  /** No arena position occurs twice in the shape. */
  ghost predicate Unique(t: Shape)
  {
    match t
    case Empty => true
    case Fork(l, i, r) =>
      i !in Ids(l) && i !in Ids(r) && Ids(l) !! Ids(r) && Unique(l) && Unique(r)
  }

  lemma {:induction false} UniqueCount(t: Shape)
    requires Unique(t)
    ensures |Ids(t)| == Count(t)
  {
    match t
    case Empty =>
    case Fork(l, i, r) =>
      UniqueCount(l);
      UniqueCount(r);
      assert Ids(l) !! Ids(r);
      assert |Ids(l) + Ids(r)| == |Ids(l)| + |Ids(r)|;
  }

  /** The child links of the arena, followed from `p`, trace exactly `t`. */
  ghost predicate Shaped<V>(a: seq<Node<V>>, p: Ptr, t: Shape)
    decreases t
  {
    match t
    case Empty => p == Null
    case Fork(l, i, r) =>
      p == At(i) && i < |a| && Shaped(a, a[i].left, l) && Shaped(a, a[i].right, r)
  }

  ghost predicate Within<V>(a: seq<Node<V>>, t: Shape)
  {
    forall i :: i in Ids(t) ==> i < |a|
  }

  lemma WithinFork<V>(a: seq<Node<V>>, l: Shape, i: nat, r: Shape)
    requires Within(a, Fork(l, i, r))
    ensures i < |a| && Within(a, l) && Within(a, r)
  {
    assert i in Ids(Fork(l, i, r));
    forall j | j in Ids(l) ensures j < |a| {
      assert j in Ids(Fork(l, i, r));
    }
    forall j | j in Ids(r) ensures j < |a| {
      assert j in Ids(Fork(l, i, r));
    }
  }

  lemma {:induction false} ShapedWithin<V>(a: seq<Node<V>>, p: Ptr, t: Shape)
    requires Shaped(a, p, t)
    ensures Within(a, t)
    decreases t
  {
    match t
    case Empty =>
    case Fork(l, i, r) =>
      ShapedWithin(a, a[i].left, l);
      ShapedWithin(a, a[i].right, r);
  }

  /** Every node's `type` names the slot it occupies; `kind` is the slot of `t` itself. */
  ghost predicate Tagged<V>(a: seq<Node<V>>, t: Shape, kind: NodeType)
  {
    match t
    case Empty => true
    case Fork(l, i, r) =>
      i < |a| && a[i].kind == kind && Tagged(a, l, Left) && Tagged(a, r, Right)
  }

  /** Every node's `parent` is the node above it, except for the nodes in
      `loose`, whose parent link may be stale; `par` is the parent of `t` itself. */
  ghost predicate Linked<V>(a: seq<Node<V>>, t: Shape, par: Ptr, loose: set<nat>)
  {
    match t
    case Empty => true
    case Fork(l, i, r) =>
      i < |a| && (i !in loose ==> a[i].parent == par) &&
      Linked(a, l, At(i), loose) && Linked(a, r, At(i), loose)
  }

  /** The comparer's verdict on a key placed in a left subtree: less, or equal
      when duplicates are allowed. */
  predicate Below(c: int, repeatable: bool)
  {
    c == -1 || (repeatable && c == 0)
  }

  /** The comparer's verdict on a key placed in a right subtree: greater, or
      equal when duplicates are allowed. */
  predicate Above(c: int, repeatable: bool)
  {
    c == 1 || (repeatable && c == 0)
  }

  /** The BST order: at every node the comparer puts the keys of the left
      subtree below and those of the right subtree above the node's key. */
  ghost predicate Ordered<V>(cmp: (int, int) -> int, rep: bool, a: seq<Node<V>>, t: Shape)
  {
    match t
    case Empty => true
    case Fork(l, i, r) =>
      i < |a| &&
      (forall j :: j in Ids(l) ==> j < |a| && Below(cmp(a[j].key, a[i].key), rep)) &&
      (forall j :: j in Ids(r) ==> j < |a| && Above(cmp(a[j].key, a[i].key), rep)) &&
      Ordered(cmp, rep, a, l) && Ordered(cmp, rep, a, r)
  }

  /** The key/value pairs held by the nodes of `t`. */
  ghost function Pairs<V>(a: seq<Node<V>>, t: Shape): multiset<(int, V)>
  {
    match t
    case Empty => multiset{}
    case Fork(l, i, r) =>
      Pairs(a, l) + (if i < |a| then multiset{(a[i].key, a[i].value)} else multiset{}) + Pairs(a, r)
  }

  /** Positions on which two arenas hold the same node. */
  ghost predicate Agree<V>(a: seq<Node<V>>, b: seq<Node<V>>, s: set<nat>)
  {
    forall i :: i in s ==> i < |a| && i < |b| && a[i] == b[i]
  }

  /** Positions on which two arenas hold the same child links. */
  ghost predicate SameLinks<V>(a: seq<Node<V>>, b: seq<Node<V>>, s: set<nat>)
  {
    forall i :: i in s ==> i < |a| && i < |b| && a[i].left == b[i].left && a[i].right == b[i].right
  }

  /** Positions on which two arenas hold the same slot tags. */
  ghost predicate SameKinds<V>(a: seq<Node<V>>, b: seq<Node<V>>, s: set<nat>)
  {
    forall i :: i in s ==> i < |a| && i < |b| && a[i].kind == b[i].kind
  }

  /** Positions on which two arenas hold the same parent links. */
  ghost predicate SameParents<V>(a: seq<Node<V>>, b: seq<Node<V>>, s: set<nat>)
  {
    forall i :: i in s ==> i < |a| && i < |b| && a[i].parent == b[i].parent
  }

  /** Positions on which two arenas hold the same key and value. */
  ghost predicate SameData<V>(a: seq<Node<V>>, b: seq<Node<V>>, s: set<nat>)
  {
    forall i :: i in s ==> i < |a| && i < |b| && a[i].key == b[i].key && a[i].value == b[i].value
  }

  lemma SameLinksWithin<V>(a: seq<Node<V>>, b: seq<Node<V>>, s: set<nat>, u: set<nat>)
    requires SameLinks(a, b, s) && u <= s
    ensures SameLinks(a, b, u)
  {
  }

  lemma SameKindsWithin<V>(a: seq<Node<V>>, b: seq<Node<V>>, s: set<nat>, u: set<nat>)
    requires SameKinds(a, b, s) && u <= s
    ensures SameKinds(a, b, u)
  {
  }

  lemma SameParentsWithin<V>(a: seq<Node<V>>, b: seq<Node<V>>, s: set<nat>, u: set<nat>)
    requires SameParents(a, b, s) && u <= s
    ensures SameParents(a, b, u)
  {
  }

  /** Each fact about a shape depends only on one part of the arena entries it names. */
  lemma {:induction false} AgreeShaped<V>(a: seq<Node<V>>, b: seq<Node<V>>, t: Shape, p: Ptr)
    requires SameLinks(a, b, Ids(t))
    ensures Shaped(a, p, t) == Shaped(b, p, t)
    decreases t
  {
    match t
    case Empty =>
    case Fork(l, i, r) =>
      AgreeShaped(a, b, l, a[i].left);
      AgreeShaped(a, b, r, a[i].right);
  }

  lemma {:induction false} AgreeTagged<V>(a: seq<Node<V>>, b: seq<Node<V>>, t: Shape, kind: NodeType)
    requires SameKinds(a, b, Ids(t))
    ensures Tagged(a, t, kind) == Tagged(b, t, kind)
  {
    match t
    case Empty =>
    case Fork(l, i, r) =>
      AgreeTagged(a, b, l, Left);
      AgreeTagged(a, b, r, Right);
  }

  lemma {:induction false} AgreeLinked<V>(a: seq<Node<V>>, b: seq<Node<V>>, t: Shape, par: Ptr, loose: set<nat>)
    requires SameParents(a, b, Ids(t))
    ensures Linked(a, t, par, loose) == Linked(b, t, par, loose)
  {
    match t
    case Empty =>
    case Fork(l, i, r) =>
      AgreeLinked(a, b, l, At(i), loose);
      AgreeLinked(a, b, r, At(i), loose);
  }

  lemma {:induction false} AgreeOrdered<V>(cmp: (int, int) -> int, rep: bool, a: seq<Node<V>>, b: seq<Node<V>>, t: Shape)
    requires SameData(a, b, Ids(t))
    ensures Ordered(cmp, rep, a, t) == Ordered(cmp, rep, b, t)
  {
    match t
    case Empty =>
    case Fork(l, i, r) =>
      AgreeOrdered(cmp, rep, a, b, l);
      AgreeOrdered(cmp, rep, a, b, r);
  }

  lemma {:induction false} AgreePairs<V>(a: seq<Node<V>>, b: seq<Node<V>>, t: Shape)
    requires SameData(a, b, Ids(t))
    ensures Pairs(a, t) == Pairs(b, t)
  {
    match t
    case Empty =>
    case Fork(l, i, r) =>
      AgreePairs(a, b, l);
      AgreePairs(a, b, r);
  }

  /** In-order, pre-order and post-order lists of arena positions. */
  function InOrder(t: Shape): seq<nat>
  {
    match t
    case Empty => []
    case Fork(l, i, r) => InOrder(l) + [i] + InOrder(r)
  }

  function PreOrder(t: Shape): seq<nat>
  {
    match t
    case Empty => []
    case Fork(l, i, r) => [i] + PreOrder(l) + PreOrder(r)
  }

  function PostOrder(t: Shape): seq<nat>
  {
    match t
    case Empty => []
    case Fork(l, i, r) => PostOrder(l) + PostOrder(r) + [i]
  }
}
