/** `AVLTree` of packages/avl/src/AVLTree.ts: a `BSTree` whose nodes carry a
    `balanceFactor`, with `_insert` and `_remove` followed by a walk up the
    parent links that adjusts factors and rotates. The BST state is the
    wrapped `tree`; the factors live in `factor`, by arena position. */
module AVLTrees {
  import opened Refs
  import opened Shapes
  import opened Search
  import opened Order
  import opened Inserting
  import opened Removal
  import opened Splicing
  import opened Removing
  import opened Climbing
  import opened Balancing
  import opened BSTrees

  class AVLTree<V> {
    /** The inherited BST fields and operations. */
    const tree: BSTree<V>
    /** `balanceFactor` of each node that has one. */
    var factor: map<nat, int>

    ghost predicate Valid()
      reads this, tree
    {
      tree.Valid() && tree.loose == {} && forall i :: i in factor ==> i < |tree.nodes|
    }

    ghost function State(): Avl<V>
      reads this, tree
    {
      Avl(tree.nodes, tree.root, tree.shape, factor)
    }

    /** `new AVLTree(iterable, comparer, repeatable)`: an empty tree, then
        `batchInsert(iterable)` through the AVL `_insert`. */
    constructor (init: seq<(int, V)>, comparer: (int, int) -> int, repeatable: bool)
      ensures Valid() && fresh(tree) && tree.comparer == comparer && tree.repeatable == repeatable
      ensures State() == AvlInsertAll(comparer, repeatable, Avl([], Null, Empty, map[]), init)
    {
      tree := new BSTree([], comparer, repeatable);
      factor := map[];
      new;
      BatchInsert(init);
    }

    /** `batchInsert(items)`: `_insert` for each item in turn. */
    method BatchInsert(items: seq<(int, V)>)
      requires Valid()
      modifies this, tree
      ensures Valid()
      ensures State() == AvlInsertAll(tree.comparer, tree.repeatable, old(State()), items)
    {
      var i := 0;
      while i < |items|
        invariant 0 <= i <= |items| && Valid()
        invariant State() == AvlInsertAll(tree.comparer, tree.repeatable, old(State()), items[..i])
      {
        var _ := Insert(items[i].0, items[i].1);
        AvlInsertAllStep(tree.comparer, tree.repeatable, old(State()), items, i);
        i := i + 1;
      }
      assert items[..i] == items;
    }

    /** `_insert(key, value)`: the BST insertion, then the balance walk
        from the new node's parent; a node the walk stops at goes to
        `_adjustment`. The new node is returned. */
    method Insert(key: int, value: V) returns (r: Ptr)
      requires Valid()
      modifies this, tree
      ensures Valid()
      ensures State() == AvlInsert(tree.comparer, tree.repeatable, old(State()), key, value)
      ensures r == InsertedNode(tree.comparer, tree.repeatable, old(tree.nodes), old(tree.shape), key)
    {
      ghost var s0 := State();
      r := tree.Insert(key, value);
      assert State() == Inserted(tree.comparer, tree.repeatable, s0, key, value);
      if r == Null {
        return;
      }
      InsertedIn(tree.comparer, tree.repeatable, s0, key, value);
      Rise(State(), r.index);
      var stop := InsertWalk(tree.nodes[r.index].parent, tree.nodes[r.index].kind);
      if stop.At? {
        var _ := Adjustment(stop.index);
      }
    }

    /** The loop of `_insert`, entered at `node` from side `from`: add 1 to
        the factor of a node reached from its left and subtract 1 otherwise,
        then stop with nothing at a factor of 0, stop at the node when its
        factor leaves [-1, 1], and otherwise go on to its parent. */
    method InsertWalk(node: Ptr, from: NodeType) returns (stop: Ptr)
      requires Valid() && (node.At? ==> node.index in Ids(tree.shape))
      modifies this
      ensures Valid() && (factor, stop) == InsertClimb(old(State()), node, from)
    {
      ghost var goal := InsertClimb(State(), node, from);
      var node, from := node, from;
      while node.At?
        invariant Valid() && (node.At? ==> node.index in Ids(tree.shape))
        invariant InsertClimb(State(), node, from) == goal
        decreases if node.At? then Depth(tree.shape, node.index) + 1 else 0
      {
        var x := node.index;
        Rise(State(), x);
        var v := Factor(factor, x) + (if from == Left then 1 else -1);
        factor := factor[x := v];
        if v == 0 {
          return Null;
        }
        if v > 1 || v < -1 {
          return node;
        }
        from := tree.nodes[x].kind;
        node := tree.nodes[x].parent;
      }
      return Null;
    }

    /** `_adjustment(x)`: rotate the first node from `x` upward that has a
        rotate type, and return it; nothing once the walk passes the root. */
    method Adjustment(x: nat) returns (r: Ptr)
      requires Valid() && x in Ids(tree.shape)
      modifies this, tree
      ensures Valid() && (State(), r) == Adjust(old(State()), x)
      decreases Depth(tree.shape, x)
    {
      Rise(State(), x);
      var k := RotateTypeOf(tree.nodes, factor, x);
      if k.Some? {
        RotateLifts(State(), x, k.value);
        Rotate(x, k.value);
        return At(x);
      }
      var p := tree.nodes[x].parent;
      if p.At? {
        r := Adjustment(p.index);
      } else {
        r := Null;
      }
    }

    /** `_rotate(x, type)`: LL turns `x` right and zeroes the factors of `x`
        and its old left child, RR is its mirror image; LR runs RR on the
        left child and LL on `x`, then sets the left child's factor to 1 when
        the grandchild's was -1, or `x`'s to -1 when it was 1; RL mirrors LR. */
    method Rotate(x: nat, k: RotateType)
      requires Valid() && x in Ids(tree.shape)
      modifies this, tree
      ensures Valid() && State() == Balancing.Rotate(old(State()), x, k)
      decreases if k == LR || k == RL then 2 else 0
    {
      match k
      case LL => RotateLLAt(x);
      case RR => RotateRRAt(x);
      case LR => RotateLRAt(x);
      case RL => RotateRLAt(x);
    }

    /** The LL case of `_rotate`. */
    method RotateLLAt(x: nat)
      requires Valid() && x in Ids(tree.shape)
      modifies this, tree
      ensures Valid() && State() == RotateLL(old(State()), x)
    {
      Kids(State(), x);
      var left := tree.nodes[x].left;
      if left.At? {
        var ok := tree.RotateRight(x);
        if ok {
          factor := factor[x := 0][left.index := 0];
        }
      }
    }

    /** The RR case of `_rotate`. */
    method RotateRRAt(x: nat)
      requires Valid() && x in Ids(tree.shape)
      modifies this, tree
      ensures Valid() && State() == RotateRR(old(State()), x)
    {
      Kids(State(), x);
      var right := tree.nodes[x].right;
      if right.At? {
        var ok := tree.RotateLeft(x);
        if ok {
          factor := factor[x := 0][right.index := 0];
        }
      }
    }

    /** The LR case of `_rotate`. */
    method RotateLRAt(x: nat)
      requires Valid() && x in Ids(tree.shape)
      modifies this, tree
      ensures Valid() && State() == RotateLR(old(State()), x)
      decreases 1
    {
      ghost var s := State();
      Kids(s, x);
      var left := tree.nodes[x].left;
      if left.At? {
        var g := tree.nodes[left.index].right;
        var bf := if g.At? then Factor(factor, g.index) else 0;
        Rotate(left.index, RR);
        ghost var s1 := State();
        assert s1 == RotateRR(s, left.index);
        Rotate(x, LL);
        ghost var s2 := State();
        assert s2 == RotateLL(s1, x);
        assert left.index < |tree.nodes| && x < |tree.nodes|;
        assert RotateLR(s, x) ==
          if bf == -1 then s2.(f := s2.f[left.index := 1]) else if bf == 1 then s2.(f := s2.f[x := -1]) else s2;
        if bf == -1 {
          factor := factor[left.index := 1];
        } else if bf == 1 {
          factor := factor[x := -1];
        }
      }
    }

    /** The RL case of `_rotate`. */
    method RotateRLAt(x: nat)
      requires Valid() && x in Ids(tree.shape)
      modifies this, tree
      ensures Valid() && State() == RotateRL(old(State()), x)
      decreases 1
    {
      ghost var s := State();
      Kids(s, x);
      var right := tree.nodes[x].right;
      if right.At? {
        var g := tree.nodes[right.index].left;
        var bf := if g.At? then Factor(factor, g.index) else 0;
        Rotate(right.index, LL);
        ghost var s1 := State();
        assert s1 == RotateLL(s, right.index);
        Rotate(x, RR);
        ghost var s2 := State();
        assert s2 == RotateRR(s1, x);
        assert right.index < |tree.nodes| && x < |tree.nodes|;
        assert RotateRL(s, x) ==
          if bf == 1 then s2.(f := s2.f[right.index := -1]) else if bf == -1 then s2.(f := s2.f[x := 1]) else s2;
        if bf == 1 {
          factor := factor[right.index := -1];
        } else if bf == -1 {
          factor := factor[x := 1];
        }
      }
    }

    /** `remove(key)` for a single key: the BST `_remove`, then the balance
        walk from the detached node's parent. The `[key, value]` of the
        detached node is returned. */
    method Remove(key: int) returns (out: seq<(int, V)>, ghost m: nat)
      requires Valid() && Comparable(tree.comparer, tree.nodes, tree.shape, key)
      requires Locate(tree.comparer, tree.nodes, tree.shape, key).Some? ==>
        Heir(tree.shape, Locate(tree.comparer, tree.nodes, tree.shape, key).value) == Empty
      modifies this, tree
      ensures Valid()
      ensures old(Locate(tree.comparer, tree.nodes, tree.shape, key)).None? ==> out == [] && State() == old(State())
      ensures old(Locate(tree.comparer, tree.nodes, tree.shape, key)).Some? ==>
        var x := old(Locate(tree.comparer, tree.nodes, tree.shape, key)).value;
        x in old(Ids(tree.shape)) && State() == AvlRemove(old(State()), x) &&
        |out| == 1 && m < |old(tree.Entries())| && old(InOrder(tree.shape))[m] == x &&
        tree.Entries() == Without(old(tree.Entries()), m) &&
        0 <= ReportedAt(old(tree.shape), x, m) < |old(tree.Entries())| &&
        out[0] == old(tree.Entries())[ReportedAt(old(tree.shape), x, m)]
    {
      ghost var s0 := State();
      ghost var found := Locate(tree.comparer, tree.nodes, tree.shape, key);
      LocateSound(tree.comparer, tree.nodes, tree.shape, key);
      var target;
      target, m := tree.RemoveNode(key);
      if target == Null {
        return [], m;
      }
      ghost var x := found.value;
      assert {} + Tops(Empty) == {};
      RemovedGood(s0, x);
      ghost var s1 := State();
      assert s1 == Removed(s0, x);
      RemoveWalk(tree.nodes[target.index].parent, tree.nodes[target.index].kind);
      ListingSame(s1.a, tree.nodes, s1.t, tree.shape);
      out := [(tree.nodes[target.index].key, tree.nodes[target.index].value)];
    }

    /** The loop of `_remove`, entered at `node` from side `from`: subtract 1
        from the factor of a node reached from its left and add 1 otherwise;
        a factor leaving [-1, 1] goes to `_adjustment`, and the walk goes on
        from the parent of the node it returns only while that node's factor
        is 0, as it goes on from an unrotated node only while its factor
        is 0. */
    method RemoveWalk(node: Ptr, from: NodeType)
      requires Valid() && (node.At? ==> node.index in Ids(tree.shape))
      modifies this, tree
      ensures Valid() && State() == RemoveClimb(old(State()), node, from, false)
    {
      ghost var goal := RemoveClimb(State(), node, from, false);
      var node, from := node, from;
      ghost var rotated := false;
      while node.At?
        invariant Valid() && (node.At? ==> node.index in Ids(tree.shape))
        invariant rotated && node.At? ==> Factor(factor, node.index) == 0
        invariant RemoveClimb(State(), node, from, rotated) == goal
        decreases if node.At? then Depth(tree.shape, node.index) + 1 else 0, if rotated then 0 else 1
      {
        node, from, rotated := RemoveStep(node.index, from, rotated);
      }
    }

    /** One step of the walk of `_remove` at `y`: where the walk goes next,
        or `Null` where it stops. */
    method RemoveStep(y: nat, from: NodeType, ghost rotated: bool) returns (next: Ptr, nextFrom: NodeType, ghost nextRotated: bool)
      requires Valid() && y in Ids(tree.shape) && (rotated ==> Factor(factor, y) == 0)
      modifies this, tree
      ensures Valid() && (next.At? ==> next.index in Ids(tree.shape))
      ensures nextRotated && next.At? ==> Factor(factor, next.index) == 0
      ensures RemoveClimb(State(), next, nextFrom, nextRotated) == RemoveClimb(old(State()), At(y), from, rotated)
      ensures next.At? ==> (Depth(tree.shape, next.index) < Depth(old(tree.shape), y) ||
        (Depth(tree.shape, next.index) == Depth(old(tree.shape), y) && nextRotated && !rotated))
    {
      Rise(State(), y);
      var v := Factor(factor, y) + (if from == Left then -1 else 1);
      factor := factor[y := v];
      if v > 1 || v < -1 {
        var z := Adjustment(y);
        if z == Null || Factor(factor, z.index) != 0 {
          return Null, from, false;
        }
        return tree.nodes[z.index].parent, tree.nodes[z.index].kind, true;
      } else if v != 0 {
        return Null, from, false;
      }
      return tree.nodes[y].parent, tree.nodes[y].kind, false;
    }
  }
}
