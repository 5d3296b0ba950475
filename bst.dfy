/** `BSTree` of packages/bst/src/BSTree.ts: the tree object with its arena of
    nodes, root, size, comparer and duplicate policy, and its operations as
    methods that rewrite the fields in place. */
module BSTrees {
  import opened Refs
  import opened Shapes
  import opened Search
  import opened Order
  import opened Insertion
  import opened Inserting
  import opened Removal
  import opened Splicing
  import opened Removing
  import opened Rotation
  import opened Traversal
  import opened Stacks
  import opened Queues

  /** The default comparer `Math.sign(a - b)`, on integer keys. */
  function DefaultComparer(a: int, b: int): int
  {
    Sign(a - b)
  }

  /** The default comparer orders keys by their value. */
  lemma DefaultRanked()
    ensures Ranked(DefaultComparer, x => x)
  {
  }

  /** What `_rotateLeft(x)` needs and leaves: the writes are in range, and
      they trace the tree with `x`'s subtree turned left, keeping every link
      exact, the node count and the listing. */
  lemma RotateLeftKeeps<V>(a: seq<Node<V>>, ptr: Ptr, t: Shape, loose: set<nat>, x: nat)
    requires WellLinked(a, ptr, t, loose) && x in Ids(t) && x !in loose
    ensures x < |a| && SubAt(t, x).Fork? && (a[x].right.At? <==> SubAt(t, x).right.Fork?)
    ensures a[x].right.At? ==> (CanRotateLeft(a, x) &&
      var (c, ptr') := RotateLeftArena(a, ptr, x); var u := Replace(t, x, RotL(SubAt(t, x)));
      WellLinked(c, ptr', u, loose) && Count(u) == Count(t) && |c| == |a| &&
      InOrder(u) == InOrder(t) && Listing(c, u) == Listing(a, t))
  {
    SubAtShaped(a, ptr, t, x);
    if a[x].right.At? {
      RotateLeftTree(a, ptr, t, loose, x);
      var (c, ptr') := RotateLeftArena(a, ptr, x);
      var u := Replace(t, x, RotL(SubAt(t, x)));
      ShapedWithin(c, ptr', u);
      ListingSame(a, c, t, u);
    }
  }

  /** The mirror image of `RotateLeftKeeps`. */
  lemma RotateRightKeeps<V>(a: seq<Node<V>>, ptr: Ptr, t: Shape, loose: set<nat>, x: nat)
    requires WellLinked(a, ptr, t, loose) && x in Ids(t) && x !in loose
    ensures x < |a| && SubAt(t, x).Fork? && (a[x].left.At? <==> SubAt(t, x).left.Fork?)
    ensures a[x].left.At? ==> (CanRotateRight(a, x) &&
      var (c, ptr') := RotateRightArena(a, ptr, x); var u := Replace(t, x, RotR(SubAt(t, x)));
      WellLinked(c, ptr', u, loose) && Count(u) == Count(t) && |c| == |a| &&
      InOrder(u) == InOrder(t) && Listing(c, u) == Listing(a, t))
  {
    SubAtShaped(a, ptr, t, x);
    if a[x].left.At? {
      RotateRightTree(a, ptr, t, loose, x);
      var (c, ptr') := RotateRightArena(a, ptr, x);
      var u := Replace(t, x, RotR(SubAt(t, x)));
      ShapedWithin(c, ptr', u);
      ListingSame(a, c, t, u);
    }
  }

  class BSTree<V> {
    /** Every node `_createNode` ever made; a detached node keeps its slot. */
    var nodes: seq<Node<V>>
    /** `_root`. */
    var root: Ptr
    /** `_size`. */
    var size: nat
    /** `_comparer`. */
    const comparer: (int, int) -> int
    /** `_repeatable`. */
    const repeatable: bool
    /** The tree the links of `nodes` trace from `root`. */
    ghost var shape: Shape
    /** Nodes whose `parent` link may be stale (see `RemoveNode`). */
    ghost var loose: set<nat>

    ghost predicate Valid()
      reads this
    {
      WellLinked(nodes, root, shape, loose) && size == Count(shape)
    }

    /** The tree's `[key, value]` pairs in in-order. */
    ghost function Entries(): seq<(int, V)>
      reads this
      requires Valid()
    {
      Listing(nodes, shape)
    }

    /** `new BSTree(iterable, comparer, repeatable)`: an empty tree, then
        `batchInsert(iterable)`. */
    constructor (init: seq<(int, V)>, comparer: (int, int) -> int, repeatable: bool)
      ensures Valid() && this.comparer == comparer && this.repeatable == repeatable && loose == {}
      ensures (nodes, root, shape) == InsertAll(comparer, repeatable, [], Null, Empty, init)
      ensures Ordered(comparer, repeatable, nodes, shape)
    {
      this.comparer := comparer;
      this.repeatable := repeatable;
      nodes := [];
      root := Null;
      size := 0;
      shape := Empty;
      loose := {};
      new;
      InsertAllKeeps(comparer, repeatable, [], Null, Empty, {}, init);
      BatchInsert(init);
    }

    /** `size`: the number of nodes in the tree. */
    function Size(): (n: nat)
      reads this
      requires Valid()
      ensures n == Count(shape) == |Entries()|
    {
      InOrderDistinct(shape);
      size
    }

    /** `isEmpty`. */
    predicate IsEmpty()
      reads this
      requires Valid()
      ensures IsEmpty() <==> shape == Empty
    {
      size == 0
    }

    /** `clear`: the tree forgets its root; the old nodes stay allocated. */
    method Clear()
      requires Valid()
      modifies this
      ensures Valid() && shape == Empty && root == Null && size == 0 && nodes == old(nodes)
      ensures loose == {}
    {
      root := Null;
      size := 0;
      shape := Empty;
      loose := {};
    }

    /** `_findNode(key)`: the comparer-driven descent from the root. */
    method FindNode(key: int) returns (r: Ptr)
      requires Valid() && Comparable(comparer, nodes, shape, key)
      ensures Locate(comparer, nodes, shape, key).None? ==> r == Null
      ensures Locate(comparer, nodes, shape, key).Some? ==> r == At(Locate(comparer, nodes, shape, key).value)
    {
      var current := root;
      ghost var cur := shape;
      while current.At?
        invariant Shaped(nodes, current, cur) && Ids(cur) <= Ids(shape)
        invariant Locate(comparer, nodes, shape, key) == Locate(comparer, nodes, cur, key)
        invariant Comparable(comparer, nodes, cur, key)
        decreases cur
      {
        var comp := comparer(key, nodes[current.index].key);
        if comp == -1 {
          current := nodes[current.index].left;
          cur := cur.left;
        } else if comp == 1 {
          current := nodes[current.index].right;
          cur := cur.right;
        } else {
          // `comp === 0`: `Comparable` rules out any other answer, on which
          // the source's loop would spin.
          return current;
        }
      }
      return Null;
    }

    /** Some node of the tree holds `v` under a key the comparer calls equal to `key`. */
    ghost predicate StoredUnder(key: int, v: V)
      reads this
    {
      exists j :: j in Ids(shape) && j < |nodes| && comparer(key, nodes[j].key) == 0 && nodes[j].value == v
    }

    /** `find(key)`: the value of the node the search stops at. */
    method Find(key: int) returns (r: Option<V>)
      requires Valid() && Comparable(comparer, nodes, shape, key)
      ensures r.None? <==> Locate(comparer, nodes, shape, key).None?
      ensures r.Some? ==> StoredUnder(key, r.value)
      ensures r.Some? ==>
        (Locate(comparer, nodes, shape, key).value < |nodes| &&
         r.value == nodes[Locate(comparer, nodes, shape, key).value].value)
    {
      LocateSound(comparer, nodes, shape, key);
      var node := FindNode(key);
      if node == Null {
        return None;
      }
      return Some(nodes[node.index].value);
    }

    /** `has(key)`. */
    method Has(key: int) returns (r: bool)
      requires Valid() && Comparable(comparer, nodes, shape, key)
      ensures r <==> Locate(comparer, nodes, shape, key).Some?
    {
      var node := FindNode(key);
      return node != Null;
    }

    /** `_insert(key, value)`: a new root in an empty tree; otherwise the
        descent to an empty slot, where a new leaf is attached, or to an equal
        key, whose value is overwritten in place; null when the comparer
        answers outside {-1, 0, 1}. */
    method Insert(key: int, value: V) returns (r: Ptr)
      requires Valid()
      modifies this
      ensures Valid() && loose == old(loose)
      ensures (nodes, root, shape) == InsertArena(comparer, repeatable, old(nodes), old(root), old(shape), key, value)
      ensures r == InsertedNode(comparer, repeatable, old(nodes), old(shape), key)
    {
      InsertKeeps(comparer, repeatable, nodes, root, shape, loose, key, value);
      ghost var after := InsertArena(comparer, repeatable, nodes, root, shape, key, value);
      if root == Null {
        nodes := nodes + [Node(key, value, Root, Null, Null, Null)];
        root := At(|nodes| - 1);
        size := size + 1;
        shape := after.2;
        return root;
      }
      var current := root.index;
      ghost var cur := shape;
      var side: Option<NodeType> := None;
      while side == None
        invariant nodes == old(nodes) && root == old(root) && size == old(size)
        invariant cur.Fork? && cur.id == current && Shaped(nodes, At(current), cur)
        invariant side == None ==>
          Descend(comparer, repeatable, nodes, shape, key) == Descend(comparer, repeatable, nodes, cur, key)
        invariant side.Some? ==> Descend(comparer, repeatable, nodes, shape, key) == Attach(current, side.value)
        decreases (if side == None then 1 else 0) + Count(cur)
      {
        var comp := comparer(key, nodes[current].key);
        if repeatable && comp == 0 {
          comp := 1;
        }
        if comp == 1 {
          if nodes[current].right == Null {
            side := Some(Right);
          } else {
            current := nodes[current].right.index;
            cur := cur.right;
          }
        } else if comp == -1 {
          if nodes[current].left == Null {
            side := Some(Left);
          } else {
            current := nodes[current].left.index;
            cur := cur.left;
          }
        } else if comp == 0 {
          nodes := nodes[current := nodes[current].(value := value)];
          return At(current);
        } else {
          return Null;
        }
      }
      var n := |nodes|;
      var leaf := Node(key, value, side.value, At(current), Null, Null);
      nodes := nodes[current := SetChild(nodes[current], side.value, At(n))] + [leaf];
      size := size + 1;
      shape := after.2;
      r := At(n);
    }

    /** `batchInsert(items)`: `insert` for each item in turn. */
    method BatchInsert(items: seq<(int, V)>)
      requires Valid()
      modifies this
      ensures Valid() && loose == old(loose)
      ensures (nodes, root, shape) == InsertAll(comparer, repeatable, old(nodes), old(root), old(shape), items)
    {
      var i := 0;
      while i < |items|
        invariant 0 <= i <= |items| && Valid() && loose == old(loose)
        invariant (nodes, root, shape) == InsertAll(comparer, repeatable, old(nodes), old(root), old(shape), items[..i])
      {
        assert items[..i + 1][..i] == items[..i];
        var _ := Insert(items[i].0, items[i].1);
        i := i + 1;
      }
      assert items[..i] == items;
    }
  
    /** `min()`: left links followed from the root; the pair found there is
        the first of the in-order listing. */
    method Min() returns (r: Option<(int, V)>)
      requires Valid()
      ensures r.None? <==> shape == Empty
      ensures r.Some? ==> Entries() != [] && r.value == Entries()[0]
    {
      var current := root;
      ghost var cur := shape;
      while current.At? && nodes[current.index].left.At?
        invariant Shaped(nodes, current, cur) && Leftmost(shape) == Leftmost(cur)
        invariant current == Null ==> cur == shape
        decreases cur
      {
        current := nodes[current.index].left;
        cur := cur.left;
      }
      LeftmostFirst(shape);
      InOrderWithin(nodes, shape);
      if current == Null {
        return None;
      }
      return Some((nodes[current.index].key, nodes[current.index].value));
    }

    /** `max()`: right links followed from the root; the pair found there is
        the last of the in-order listing. */
    method Max() returns (r: Option<(int, V)>)
      requires Valid()
      ensures r.None? <==> shape == Empty
      ensures r.Some? ==> Entries() != [] && r.value == Entries()[|Entries()| - 1]
    {
      var current := root;
      ghost var cur := shape;
      while current.At? && nodes[current.index].right.At?
        invariant Shaped(nodes, current, cur) && Rightmost(shape) == Rightmost(cur)
        invariant current == Null ==> cur == shape
        decreases cur
      {
        current := nodes[current.index].right;
        cur := cur.right;
      }
      RightmostLast(shape);
      InOrderWithin(nodes, shape);
      if current == Null {
        return None;
      }
      return Some((nodes[current.index].key, nodes[current.index].value));
    }

    /** `_getNextNode(x)`: the leftmost node of `x`'s right subtree. */
    method GetNextNode(x: nat) returns (r: Ptr)
      requires Valid() && x in Ids(shape)
      ensures NextOf(shape, x).None? ==> r == Null
      ensures NextOf(shape, x).Some? ==> r == At(NextOf(shape, x).value)
    {
      SubAtShaped(nodes, root, shape, x);
      var current := nodes[x].right;
      ghost var cur := SubAt(shape, x).right;
      while current.At? && nodes[current.index].left.At?
        invariant Shaped(nodes, current, cur) && NextOf(shape, x) == Leftmost(cur)
        decreases cur
      {
        current := nodes[current.index].left;
        cur := cur.left;
      }
      return current;
    }

    /** `_getPrevNode(x)`: the rightmost node of `x`'s left subtree. */
    method GetPrevNode(x: nat) returns (r: Ptr)
      requires Valid() && x in Ids(shape)
      ensures PrevOf(shape, x).None? ==> r == Null
      ensures PrevOf(shape, x).Some? ==> r == At(PrevOf(shape, x).value)
    {
      SubAtShaped(nodes, root, shape, x);
      var current := nodes[x].left;
      ghost var cur := SubAt(shape, x).left;
      while current.At? && nodes[current.index].right.At?
        invariant Shaped(nodes, current, cur) && PrevOf(shape, x) == Rightmost(cur)
        decreases cur
      {
        current := nodes[current.index].right;
        cur := cur.right;
      }
      return current;
    }

    /** The in-order entry right after node `x`'s is `e`. */
    ghost predicate EntryAfter(x: nat, e: (int, V))
      reads this
      requires Valid()
    {
      exists m :: 0 <= m < |InOrder(shape)| - 1 && InOrder(shape)[m] == x && Entries()[m + 1] == e
    }

    /** The in-order entry right before node `x`'s is `e`. */
    ghost predicate EntryBefore(x: nat, e: (int, V))
      reads this
      requires Valid()
    {
      exists m :: 0 < m < |InOrder(shape)| && InOrder(shape)[m] == x && Entries()[m - 1] == e
    }

    /** `next(key)`: null for a key not found; otherwise the in-order
        successor of the found node, but only when it lies in that node's
        right subtree (`NextOf`), and null when that subtree is empty. */
    method Next(key: int) returns (r: Option<(int, V)>)
      requires Valid() && Comparable(comparer, nodes, shape, key)
      ensures Locate(comparer, nodes, shape, key).None? ==> r.None?
      ensures Locate(comparer, nodes, shape, key).Some? ==>
        var x := Locate(comparer, nodes, shape, key).value;
        (r.None? <==> NextOf(shape, x).None?) && (r.Some? ==> EntryAfter(x, r.value))
    {
      LocateSound(comparer, nodes, shape, key);
      var node := FindNode(key);
      if node == Null {
        return None;
      }
      var next := GetNextNode(node.index);
      if next == Null {
        return None;
      }
      ghost var m := NextPosition(shape, node.index);
      InOrderWithin(nodes, shape);
      assert Entries()[m + 1] == (nodes[next.index].key, nodes[next.index].value);
      return Some((nodes[next.index].key, nodes[next.index].value));
    }

    /** `prev(key)`: the mirror image of `next`, over the left subtree. */
    method Prev(key: int) returns (r: Option<(int, V)>)
      requires Valid() && Comparable(comparer, nodes, shape, key)
      ensures Locate(comparer, nodes, shape, key).None? ==> r.None?
      ensures Locate(comparer, nodes, shape, key).Some? ==>
        var x := Locate(comparer, nodes, shape, key).value;
        (r.None? <==> PrevOf(shape, x).None?) && (r.Some? ==> EntryBefore(x, r.value))
    {
      LocateSound(comparer, nodes, shape, key);
      var node := FindNode(key);
      if node == Null {
        return None;
      }
      var prev := GetPrevNode(node.index);
      if prev == Null {
        return None;
      }
      ghost var m := PrevPosition(shape, node.index);
      InOrderWithin(nodes, shape);
      assert Entries()[m - 1] == (nodes[prev.index].key, nodes[prev.index].value);
      return Some((nodes[prev.index].key, nodes[prev.index].value));
    }

    /** `_remove(key)`: the found target takes the pair of its successor (or,
        lacking one, of its predecessor), which is then spliced out, its only
        child taking its slot and its tag but keeping its stale `parent`; a
        target with neither is unhooked itself. The node handed back is the
        detached one. `m` is the target's in-order position. */
    method RemoveNode(key: int) returns (r: Ptr, ghost m: nat)
      requires Valid() && Comparable(comparer, nodes, shape, key)
      requires Locate(comparer, nodes, shape, key).Some? ==>
        Detachable(shape, loose, Locate(comparer, nodes, shape, key).value)
      modifies this
      ensures Valid()
      ensures old(Locate(comparer, nodes, shape, key)).None? ==>
        r == Null && nodes == old(nodes) && root == old(root) && shape == old(shape) && size == old(size) &&
        loose == old(loose)
      ensures old(Locate(comparer, nodes, shape, key)).Some? ==>
        var x := old(Locate(comparer, nodes, shape, key)).value;
        var d := Victim(old(shape), x);
        var h := Heir(old(shape), x);
        (nodes, root, shape) == RemoveArena(old(nodes), old(root), old(shape), x) &&
        size == old(size) - 1 && loose == old(loose) + Tops(h) &&
        (h.Fork? && h.id !in old(loose) ==> h.id < |nodes| && nodes[h.id].parent == At(d)) &&
        r == At(d) && d < |nodes| &&
        m < |old(Entries())| && old(InOrder(shape))[m] == x && Entries() == Without(old(Entries()), m) &&
        0 <= ReportedAt(old(shape), x, m) < |old(Entries())| &&
        (nodes[d].key, nodes[d].value) == old(Entries())[ReportedAt(old(shape), x, m)]
    {
      LocateSound(comparer, nodes, shape, key);
      var target := FindNode(key);
      if target == Null {
        return Null, 0;
      }
      var x := target.index;
      m := RemoveKeeps(nodes, root, shape, loose, x);
      ghost var after := RemoveArena(nodes, root, shape, x);
      ghost var h := Heir(shape, x);
      r := Detach(x);
      size := size - 1;
      shape := after.2;
      loose := loose + Tops(h);
    }

    /** The writes of `_remove` once the target `x` is found: the successor
        or else the predecessor is spliced out after lending `x` its pair, and
        a target with neither is cut from its parent's slot or from the root.
        The detached node is returned. */
    method Detach(x: nat) returns (r: Ptr)
      requires Valid() && x in Ids(shape) && RemoveDefined(nodes, shape, x)
      modifies this
      ensures (nodes, root) == (RemoveArena(old(nodes), old(root), old(shape), x).0, RemoveArena(old(nodes), old(root), old(shape), x).1)
      ensures r == At(Victim(old(shape), x))
      ensures shape == old(shape) && size == old(size) && loose == old(loose)
    {
      ghost var after := RemoveArena(nodes, root, shape, x);
      var target := At(x);
      var next := GetNextNode(x);
      if next.At? {
        SpliceOut(x, next.index, nodes[next.index].right);
        r := next;
      } else {
        var prev := GetPrevNode(x);
        if prev.At? {
          SpliceOut(x, prev.index, nodes[prev.index].left);
          r := prev;
        } else if nodes[x].kind != Root {
          var p := nodes[x].parent.index;
          nodes := nodes[p := SetChild(nodes[p], nodes[x].kind, Null)];
          r := target;
        } else {
          root := Null;
          r := target;
        }
      }
      assert (nodes, root) == (after.0, after.1);
    }

    /** The splice step of `_remove`: the target `x` takes node `d`'s pair,
        `d`'s parent slot takes `child`, and `child` takes `d`'s tag; `d`
        itself is left as it was, `parent` and all. */
    method SpliceOut(x: nat, d: nat, child: Ptr)
      requires x < |nodes| && d < |nodes| && nodes[d].parent.At? && nodes[d].parent.index < |nodes|
      requires child.At? ==> child.index < |nodes|
      modifies this
      ensures nodes == Splice(CopyPair(old(nodes), x, d), d, child)
      ensures root == old(root) && shape == old(shape) && size == old(size) && loose == old(loose)
    {
      nodes := nodes[x := nodes[x].(key := nodes[d].key, value := nodes[d].value)];
      var p := nodes[d].parent.index;
      var kind := nodes[d].kind;
      nodes := nodes[p := SetChild(nodes[p], kind, child)];
      if child.At? {
        nodes := nodes[child.index := nodes[child.index].(kind := kind)];
      }
    }

    /** `remove(key)` for a single key: the `[key, value]` of the node
        `_remove` detached, or nothing when the key is not found. */
    method Remove(key: int) returns (out: seq<(int, V)>, ghost m: nat)
      requires Valid() && Comparable(comparer, nodes, shape, key)
      requires Locate(comparer, nodes, shape, key).Some? ==>
        Detachable(shape, loose, Locate(comparer, nodes, shape, key).value)
      modifies this
      ensures Valid() && size <= old(size)
      ensures old(Locate(comparer, nodes, shape, key)).None? ==> out == [] && Entries() == old(Entries())
      ensures old(Locate(comparer, nodes, shape, key)).Some? ==>
        var x := old(Locate(comparer, nodes, shape, key)).value;
        |out| == 1 && size == old(size) - 1 &&
        m < |old(Entries())| && old(InOrder(shape))[m] == x && Entries() == Without(old(Entries()), m) &&
        0 <= ReportedAt(old(shape), x, m) < |old(Entries())| &&
        out[0] == old(Entries())[ReportedAt(old(shape), x, m)]
    {
      var node;
      node, m := RemoveNode(key);
      if node == Null {
        return [], m;
      }
      out := [(nodes[node.index].key, nodes[node.index].value)];
    }

    /** `_rotateLeft(x)`: false when `x` has no right child; otherwise the
        right child `y` takes `x`'s slot (the root or `x.parent[x.type]`) and
        tag, `y`'s left subtree moves under `x`, and `x` becomes `y`'s left
        child, with every parent link and tag written. */
    method RotateLeft(x: nat) returns (ok: bool)
      requires Valid() && x in Ids(shape) && x !in loose
      modifies this
      ensures Valid() && size == old(size) && loose == old(loose) && x < |old(nodes)| == |nodes|
      ensures old(nodes)[x].right == Null ==> !ok && nodes == old(nodes) && root == old(root) && shape == old(shape)
      ensures old(nodes)[x].right.At? ==>
        ok && CanRotateLeft(old(nodes), x) &&
        (nodes, root) == RotateLeftArena(old(nodes), old(root), x) &&
        shape == Replace(old(shape), x, RotL(SubAt(old(shape), x)))
      ensures InOrder(shape) == old(InOrder(shape)) && Entries() == old(Entries())
    {
      RotateLeftKeeps(nodes, root, shape, loose, x);
      var right := nodes[x].right;
      var parent := nodes[x].parent;
      if right == Null {
        return false;
      }
      ghost var a := nodes;
      ghost var after := RotateLeftArena(nodes, root, x);
      ghost var u := Replace(shape, x, RotL(SubAt(shape, x)));
      var kind := nodes[x].kind;
      var y := right.index;
      nodes := nodes[y := nodes[y].(parent := parent)];
      if kind != Root {
        nodes := nodes[parent.index := SetChild(nodes[parent.index], kind, right)];
      } else {
        root := right;
      }
      nodes := nodes[y := nodes[y].(kind := kind)];
      nodes := nodes[x := nodes[x].(kind := Left)];
      var b := nodes[y].left;
      nodes := nodes[x := nodes[x].(right := b)];
      if b.At? {
        nodes := nodes[b.index := nodes[b.index].(parent := At(x), kind := Right)];
      }
      nodes := nodes[x := nodes[x].(parent := right)];
      nodes := nodes[y := nodes[y].(left := At(x))];
      assert nodes == after.0 && root == after.1;
      shape := u;
      return true;
    }

    /** `_rotateRight(x)`: the mirror image of `_rotateLeft`. */
    method RotateRight(x: nat) returns (ok: bool)
      requires Valid() && x in Ids(shape) && x !in loose
      modifies this
      ensures Valid() && size == old(size) && loose == old(loose) && x < |old(nodes)| == |nodes|
      ensures old(nodes)[x].left == Null ==> !ok && nodes == old(nodes) && root == old(root) && shape == old(shape)
      ensures old(nodes)[x].left.At? ==>
        ok && CanRotateRight(old(nodes), x) &&
        (nodes, root) == RotateRightArena(old(nodes), old(root), x) &&
        shape == Replace(old(shape), x, RotR(SubAt(old(shape), x)))
      ensures InOrder(shape) == old(InOrder(shape)) && Entries() == old(Entries())
    {
      RotateRightKeeps(nodes, root, shape, loose, x);
      var left := nodes[x].left;
      var parent := nodes[x].parent;
      if left == Null {
        return false;
      }
      ghost var a := nodes;
      ghost var after := RotateRightArena(nodes, root, x);
      ghost var u := Replace(shape, x, RotR(SubAt(shape, x)));
      var kind := nodes[x].kind;
      var y := left.index;
      nodes := nodes[y := nodes[y].(parent := parent)];
      if kind != Root {
        nodes := nodes[parent.index := SetChild(nodes[parent.index], kind, left)];
      } else {
        root := left;
      }
      nodes := nodes[y := nodes[y].(kind := kind)];
      nodes := nodes[x := nodes[x].(kind := Right)];
      var b := nodes[y].right;
      nodes := nodes[x := nodes[x].(left := b)];
      if b.At? {
        nodes := nodes[b.index := nodes[b.index].(parent := At(x), kind := Left)];
      }
      nodes := nodes[y := nodes[y].(right := At(x))];
      nodes := nodes[x := nodes[x].(parent := left)];
      assert nodes == after.0 && root == after.1;
      shape := u;
      return true;
    }

    /** The stack entries are the nodes of the stacked subtrees. */
    ghost predicate Stacked(stack: seq<nat>, frames: seq<Shape>)
      reads this
    {
      |frames| == |stack| &&
      forall i :: 0 <= i < |frames| ==> frames[i].Fork? && stack[i] == frames[i].id && Shaped(nodes, At(frames[i].id), frames[i])
    }

    /** Pushing the root of a traced subtree keeps the stack in step with its frames. */
    lemma StackedPush(stack: seq<nat>, frames: seq<Shape>, s: Shape)
      requires Stacked(stack, frames) && s.Fork? && Shaped(nodes, At(s.id), s)
      ensures Stacked(stack + [s.id], frames + [s])
    {
    }

    /** Popping the top entry drops the top frame. */
    lemma StackedPop(stack: seq<nat>, rest: seq<nat>, n: nat, frames: seq<Shape>)
      requires Stacked(stack, frames) && stack == rest + [n]
      ensures Stacked(rest, frames[..|frames| - 1])
    {
    }

    /** `preorder()`: yield a node on the way down, push it and go left; when
        stuck, pop and go right. */
    method Preorder() returns (out: seq<(V, int)>)
      requires Valid()
      ensures out == PreWalk(nodes, shape)
    {
      out := [];
      var current := root;
      var stack := new Stack<nat>([]);
      ghost var cur := shape;
      ghost var frames: seq<Shape> := [];
      ghost var done: seq<nat> := [];
      OrdersWithin(nodes, shape);
      while current.At? || stack.Size() > 0
        invariant Shaped(nodes, current, cur) && Stacked(stack.data, frames)
        invariant done + PreOrder(cur) + PendingPre(frames) == PreOrder(shape)
        invariant forall j :: 0 <= j < |done| ==> done[j] < |nodes|
        invariant out == Yields(nodes, done)
        decreases |PreOrder(shape)| - |done|, |frames|
      {
        if current.At? {
          var n := current.index;
          YieldsAppend(nodes, done, n);
          PrePush(done, cur, frames);
          StackedPush(stack.data, frames, cur);
          out := out + [(nodes[n].value, nodes[n].key)];
          stack.Push(n);
          current := nodes[n].left;
          done := done + [n];
          frames := frames + [cur];
          cur := cur.left;
          continue;
        }
        PrePop(done, frames);
        ghost var before := stack.data;
        var top := stack.Pop();
        StackedPop(before, stack.data, top.value, frames);
        current := nodes[top.value].right;
        cur := frames[|frames| - 1].right;
        frames := frames[..|frames| - 1];
      }
    }

    /** `inorder()`: push nodes on the way down the left links; when stuck,
        pop, yield the popped node and go right. */
    method Inorder() returns (out: seq<(V, int)>)
      requires Valid()
      ensures out == InWalk(nodes, shape)
    {
      out := [];
      var current := root;
      var stack := new Stack<nat>([]);
      ghost var cur := shape;
      ghost var frames: seq<Shape> := [];
      ghost var done: seq<nat> := [];
      OrdersWithin(nodes, shape);
      while current.At? || stack.Size() > 0
        invariant Shaped(nodes, current, cur) && Stacked(stack.data, frames)
        invariant done + InOrder(cur) + PendingIn(frames) == InOrder(shape)
        invariant forall j :: 0 <= j < |done| ==> done[j] < |nodes|
        invariant out == Yields(nodes, done)
        decreases |InOrder(shape)| - |done|, Count(cur)
      {
        if current.At? {
          InPush(done, cur, frames);
          StackedPush(stack.data, frames, cur);
          stack.Push(current.index);
          current := nodes[current.index].left;
          frames := frames + [cur];
          cur := cur.left;
          continue;
        }
        InPop(done, frames);
        ghost var before := stack.data;
        var node := stack.Pop();
        var n := node.value;
        StackedPop(before, stack.data, n, frames);
        YieldsAppend(nodes, done, n);
        out := out + [(nodes[n].value, nodes[n].key)];
        current := nodes[n].right;
        done := done + [n];
        cur := frames[|frames| - 1].right;
        frames := frames[..|frames| - 1];
      }
    }

    /** The state of `postorder()`'s loop: the stack holds the frames' roots,
        `current` traces `cur`, and `out` is what the yielded nodes give. */
    ghost predicate PostLoop(stack: seq<nat>, current: Ptr, out: seq<(V, int)>, done: seq<nat>, cur: Shape,
                             frames: seq<Shape>, inRight: seq<bool>, visited: Ptr)
      reads this
    {
      Shaped(nodes, current, cur) && Stacked(stack, frames) &&
      PostInv(shape, done, cur, frames, inRight, visited) &&
      (forall j :: 0 <= j < |done| ==> done[j] < |nodes|) &&
      out == Yields(nodes, done)
    }

    /** `postorder()`: push nodes on the way down the left links; when stuck,
        turn into the top node's right subtree unless it is empty or was the
        node yielded last, and otherwise yield and pop the top node. */
    method Postorder() returns (out: seq<(V, int)>)
      requires Valid()
      ensures out == PostWalk(nodes, shape)
    {
      out := [];
      var visited: Ptr := Null;
      var current := root;
      var stack := new Stack<nat>([]);
      ghost var cur := shape;
      ghost var frames: seq<Shape> := [];
      ghost var inRight: seq<bool> := [];
      ghost var done: seq<nat> := [];
      OrdersWithin(nodes, shape);
      PostOrderDistinct(shape);
      while current.At? || stack.Size() > 0
        invariant PostLoop(stack.data, current, out, done, cur, frames, inRight, visited)
        decreases |PostOrder(shape)| - |done|, 2 * Count(cur) + PostWork(frames, inRight)
      {
        if current.At? {
          PostInvPush(shape, done, cur, frames, inRight, visited);
          StackedPush(stack.data, frames, cur);
          stack.Push(current.index);
          current := nodes[current.index].left;
          frames := frames + [cur];
          inRight := inRight + [false];
          cur := cur.left;
        } else {
          out, visited, current, done, cur, frames, inRight := PostStuck(stack, out, visited, done, frames, inRight);
        }
      }
    }

    /** The stuck step of `postorder()`: with no current node, turn into the
        top node's right subtree or yield and pop the top node. */
    method PostStuck(stack: Stack<nat>, out: seq<(V, int)>, visited: Ptr,
                     ghost done: seq<nat>, ghost frames: seq<Shape>, ghost inRight: seq<bool>)
      returns (out': seq<(V, int)>, visited': Ptr, current: Ptr,
               ghost done': seq<nat>, ghost cur: Shape, ghost frames': seq<Shape>, ghost inRight': seq<bool>)
      requires Valid() && stack.data != []
      requires PostLoop(stack.data, Null, out, done, Empty, frames, inRight, visited)
      modifies stack
      ensures PostLoop(stack.data, current, out', done', cur, frames', inRight', visited')
      ensures |done| <= |done'| <= |PostOrder(shape)|
      ensures |done'| == |done| ==> 2 * Count(cur) + PostWork(frames', inRight') < PostWork(frames, inRight)
    {
      var node := stack.Top().value;
      ghost var k := |frames| - 1;
      ghost var top := frames[k];
      assert node == top.id && Shaped(nodes, nodes[node].right, top.right);
      PostInvStuck(shape, done, frames, inRight, visited);
      if nodes[node].right.At? && nodes[node].right != visited {
        PostInvRight(shape, done, frames, inRight, visited);
        out', visited', current := out, visited, nodes[node].right;
        done', cur, frames', inRight' := done, top.right, frames, inRight[k := true];
        return;
      }
      PostInvPop(shape, done, frames, inRight, visited);
      YieldsAppend(nodes, done, node);
      out' := out + [(nodes[node].value, nodes[node].key)];
      current := Null;
      visited' := At(node);
      ghost var before := stack.data;
      var _ := stack.Pop();
      StackedPop(before, stack.data, node, frames);
      done', cur, frames', inRight' := done + [node], Empty, frames[..k], inRight[..k];
    }

    /** The queue entries are the roots of the queued subtrees, with their depths. */
    ghost predicate Queued(entries: seq<(nat, nat)>, q: seq<(Shape, nat)>)
      reads this
    {
      |entries| == |q| &&
      forall i :: 0 <= i < |q| ==>
        q[i].0.Fork? && entries[i] == (q[i].0.id, q[i].1) && Shaped(nodes, At(q[i].0.id), q[i].0)
    }

    /** `sequence()`: nothing for an empty tree; otherwise the root at depth 1
        is queued, and each dequeued node is yielded with its depth while its
        left and then right child join the queue one level deeper. */
    method Sequence() returns (out: seq<(V, int, nat)>)
      requires Valid()
      ensures out == LevelWalk(nodes, shape)
    {
      out := [];
      BfsWithin(nodes, [(shape, 1)]);
      if root == Null {
        assert Bfs([(shape, 1)]) == [];
        return;
      }
      var queue := new Queue<(nat, nat)>([(root.index, 1)]);
      ghost var gq: seq<(Shape, nat)> := [(shape, 1)];
      ghost var done: seq<(nat, nat)> := [];
      while queue.size > 0
        invariant queue.Valid() && Queued(queue.Contents(), gq)
        invariant done + Bfs(gq) == Bfs([(shape, 1)])
        invariant forall j :: 0 <= j < |done| ==> done[j].0 < |nodes|
        invariant out == Triples(nodes, done)
        decreases QueueCount(gq)
      {
        var front := queue.Dequeue();
        var (node, depth) := front.value;
        TriplesAppend(nodes, done, (node, depth));
        out := out + [(nodes[node].value, nodes[node].key, depth)];
        ghost var s := gq[0].0;
        BfsAdvance(done, gq);
        assert Queued(queue.Contents(), gq[1..]);
        EnqueueChildren(queue, node, depth, s, gq[1..]);
        ghost var next := gq[1..] + Children(s, depth);
        gq := next;
        done := done + [(node, depth)];
      }
    }

    /** The enqueue step of `sequence()`: `node`'s left child and then its
        right child join the queue one level deeper. */
    method EnqueueChildren(queue: Queue<(nat, nat)>, node: nat, depth: nat, ghost s: Shape, ghost q: seq<(Shape, nat)>)
      requires queue.Valid() && Queued(queue.Contents(), q)
      requires s.Fork? && s.id == node && Shaped(nodes, At(node), s)
      modifies queue
      ensures queue.Valid() && Queued(queue.Contents(), q + Children(s, depth))
    {
      ghost var next := q;
      assert Shaped(nodes, nodes[node].left, s.left) && Shaped(nodes, nodes[node].right, s.right);
      if nodes[node].left.At? {
        ghost var e: (Shape, nat) := (s.left, depth + 1);
        QueuedPush(queue.Contents(), next, e);
        queue.Enqueue((nodes[node].left.index, depth + 1));
        next := next + [e];
      }
      if nodes[node].right.At? {
        ghost var e: (Shape, nat) := (s.right, depth + 1);
        QueuedPush(queue.Contents(), next, e);
        queue.Enqueue((nodes[node].right.index, depth + 1));
        next := next + [e];
      }
      assert next == q + Children(s, depth);
    }

    lemma QueuedPush(entries: seq<(nat, nat)>, q: seq<(Shape, nat)>, e: (Shape, nat))
      requires Queued(entries, q) && e.0.Fork? && Shaped(nodes, At(e.0.id), e.0)
      ensures Queued(entries + [(e.0.id, e.1)], q + [e])
    {
    }

    /** `depth`: the greatest depth `sequence()` yields, which is the tree's
        height (0 for an empty tree). */
    method Depth() returns (depth: nat)
      requires Valid()
      ensures depth == Height(shape)
    {
      var levels := Sequence();
      depth := 0;
      ghost var at := 0;
      var i := 0;
      while i < |levels|
        invariant 0 <= i <= |levels|
        invariant forall k :: 0 <= k < i ==> levels[k].2 <= depth
        invariant depth == 0 || (at < i && levels[at].2 == depth)
      {
        if depth < levels[i].2 {
          depth, at := levels[i].2, i;
        }
        i := i + 1;
      }
      ghost var j := LevelOrderDeepest(shape);
      if shape.Fork? {
        assert levels[j].2 == Height(shape);
      }
    }

    /** `entries()`: the in-order walk, which lists the stored pairs in
        `Entries()` order; under a ranking comparer, keys ascend. */
    method EntriesInOrder() returns (out: seq<(V, int)>)
      requires Valid()
      ensures |out| == |Entries()|
      ensures forall j :: 0 <= j < |out| ==> out[j] == (Entries()[j].1, Entries()[j].0)
    {
      out := Inorder();
      InWalkListing(nodes, shape);
    }
  }
}
