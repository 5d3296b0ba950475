/** The doubly linked list of packages/linklist/src/LinkList.ts. Nodes live in an
    arena `cells` and are never freed: an unlinked node keeps its stale `prev`
    and `next`, as a JavaScript object that is no longer reachable would. */
module LinkLists {
  import opened Refs

  /** A list node (`LinkNode`). */
  datatype Cell<T> = Cell(value: T, prev: Ptr, next: Ptr)

  /** The values of the cells named by `order`, in that order. */
  function ValuesOf<T>(cells: seq<Cell<T>>, order: seq<nat>): (vs: seq<T>)
    requires forall j :: 0 <= j < |order| ==> order[j] < |cells|
    ensures |vs| == |order| && forall j :: 0 <= j < |order| ==> vs[j] == cells[order[j]].value
  {
    seq(|order|, j requires 0 <= j < |order| => cells[order[j]].value)
  }

  /** The largest position holding `v`, or -1 when there is none. */
  function LastIndexOf<T(==)>(s: seq<T>, v: T): (i: int)
    ensures -1 <= i < |s|
    ensures i >= 0 ==> s[i] == v
    ensures forall j :: i < j < |s| ==> s[j] != v
  {
    if s == [] then -1
    else if s[|s| - 1] == v then |s| - 1
    else LastIndexOf(s[..|s| - 1], v)
  }

  /** JavaScript's `%` on integers: the remainder takes the sign of the dividend. */
  function JsRem(a: int, b: int): (r: int)
    requires b > 0
    ensures a >= 0 ==> 0 <= r < b
    ensures a < 0 ==> -b < r <= 0
  {
    if a >= 0 then a % b else -((-a) % b)
  }

  ghost predicate Distinct(order: seq<nat>)
  {
    forall j, k :: 0 <= j < k < |order| ==> order[j] != order[k]
  }

  ghost predicate InArena<T>(cells: seq<Cell<T>>, order: seq<nat>)
  {
    forall j :: 0 <= j < |order| ==> order[j] < |cells|
  }

  /** `next` and `prev` mirror each other along `order`, with null links at both ends. */
  ghost predicate Links<T>(cells: seq<Cell<T>>, order: seq<nat>)
    requires InArena(cells, order)
  {
    (forall j :: 0 <= j < |order| - 1 ==> cells[order[j]].next == At(order[j + 1])) &&
    (forall j :: 0 < j < |order| ==> cells[order[j]].prev == At(order[j - 1])) &&
    (order != [] ==> cells[order[|order| - 1]].next == Null && cells[order[0]].prev == Null)
  }

  /** `order` lists distinct arena cells that are linked in that order, with
      `head`/`tail` naming the ends. */
  ghost predicate Chain<T>(cells: seq<Cell<T>>, order: seq<nat>, head: Ptr, tail: Ptr)
  {
    InArena(cells, order) && Distinct(order) && Links(cells, order) &&
    head == (if order == [] then Null else At(order[0])) &&
    tail == (if order == [] then Null else At(order[|order| - 1]))
  }

  /** Linking a fresh cell after the tail keeps the chain. */
  lemma ChainPush<T>(c0: seq<Cell<T>>, o0: seq<nat>, h0: Ptr, t0: Ptr, c: seq<Cell<T>>, v: T)
    requires Chain(c0, o0, h0, t0)
    requires |c| == |c0| + 1 && c[|c0|] == Cell(v, t0, Null)
    requires t0 != Null ==> c[t0.index] == c0[t0.index].(next := At(|c0|))
    requires forall i :: 0 <= i < |c0| && At(i) != t0 ==> c[i] == c0[i]
    ensures Chain(c, o0 + [|c0|], if h0 == Null then At(|c0|) else h0, At(|c0|))
    ensures ValuesOf(c, o0 + [|c0|]) == ValuesOf(c0, o0) + [v]
  {
    var o := o0 + [|c0|];
    assert Distinct(o);
    PushLinks(c0, o0, t0, c);
    assert ValuesOf(c, o) == ValuesOf(c0, o0) + [v];
  }

  lemma PushLinks<T>(c0: seq<Cell<T>>, o0: seq<nat>, t0: Ptr, c: seq<Cell<T>>)
    requires InArena(c0, o0) && Distinct(o0) && Links(c0, o0)
    requires t0 == (if o0 == [] then Null else At(o0[|o0| - 1]))
    requires |c| == |c0| + 1 && c[|c0|].prev == t0 && c[|c0|].next == Null
    requires t0 != Null ==> c[t0.index] == c0[t0.index].(next := At(|c0|))
    requires forall i :: 0 <= i < |c0| && At(i) != t0 ==> c[i] == c0[i]
    ensures InArena(c, o0 + [|c0|]) && Links(c, o0 + [|c0|])
  {
    var o := o0 + [|c0|];
    forall j | 0 <= j < |o| - 1
      ensures c[o[j]].next == At(o[j + 1])
    {
      if j < |o0| - 1 {
        assert o[j] == o0[j] != o0[|o0| - 1];
      }
    }
    forall j | 0 < j < |o|
      ensures c[o[j]].prev == At(o[j - 1])
    {
      if j < |o0| {
        assert o[j] == o0[j];
      }
    }
  }

  /** Linking a fresh cell before the head keeps the chain. */
  lemma ChainUnshift<T>(c0: seq<Cell<T>>, o0: seq<nat>, h0: Ptr, t0: Ptr, c: seq<Cell<T>>, v: T)
    requires Chain(c0, o0, h0, t0)
    requires |c| == |c0| + 1 && c[|c0|] == Cell(v, Null, h0)
    requires h0 != Null ==> c[h0.index] == c0[h0.index].(prev := At(|c0|))
    requires forall i :: 0 <= i < |c0| && At(i) != h0 ==> c[i] == c0[i]
    ensures Chain(c, [|c0|] + o0, At(|c0|), if t0 == Null then At(|c0|) else t0)
    ensures ValuesOf(c, [|c0|] + o0) == [v] + ValuesOf(c0, o0)
  {
    var o := [|c0|] + o0;
    assert forall j :: 0 < j < |o| ==> o[j] == o0[j - 1] < |c0|;
    assert Distinct(o);
    UnshiftLinks(c0, o0, h0, c);
    assert ValuesOf(c, o) == [v] + ValuesOf(c0, o0);
  }

  lemma UnshiftLinks<T>(c0: seq<Cell<T>>, o0: seq<nat>, h0: Ptr, c: seq<Cell<T>>)
    requires InArena(c0, o0) && Distinct(o0) && Links(c0, o0)
    requires h0 == (if o0 == [] then Null else At(o0[0]))
    requires |c| == |c0| + 1 && c[|c0|].prev == Null && c[|c0|].next == h0
    requires h0 != Null ==> c[h0.index] == c0[h0.index].(prev := At(|c0|))
    requires forall i :: 0 <= i < |c0| && At(i) != h0 ==> c[i] == c0[i]
    ensures InArena(c, [|c0|] + o0) && Links(c, [|c0|] + o0)
  {
    var o := [|c0|] + o0;
    assert forall j :: 0 < j < |o| ==> o[j] == o0[j - 1] < |c0|;
    forall j | 0 <= j < |o| - 1
      ensures c[o[j]].next == At(o[j + 1])
    {
      if j > 0 {
        assert c[o[j]].next == c0[o0[j - 1]].next;
      }
    }
    forall j | 0 < j < |o|
      ensures c[o[j]].prev == At(o[j - 1])
    {
      if j > 1 {
        assert o[j] == o0[j - 1] != o0[0];
      }
    }
  }

  /** Unlinking the cell at position `k`, with its neighbours re-linked around it
      and null links where it was an end, keeps the chain of the others. */
  lemma ChainUnlink<T>(c0: seq<Cell<T>>, o0: seq<nat>, h0: Ptr, t0: Ptr, c: seq<Cell<T>>, k: nat)
    requires Chain(c0, o0, h0, t0) && k < |o0|
    requires |c| == |c0|
    requires 0 < k ==> c[o0[k - 1]] == c0[o0[k - 1]].(next := c0[o0[k]].next)
    requires k < |o0| - 1 ==> c[o0[k + 1]] == c0[o0[k + 1]].(prev := c0[o0[k]].prev)
    requires forall i :: 0 <= i < |c0| && (k == 0 || i != o0[k - 1]) && (k == |o0| - 1 || i != o0[k + 1]) ==> c[i] == c0[i]
    ensures Chain(c, o0[..k] + o0[k + 1..],
                  if k == 0 then c0[o0[k]].next else h0,
                  if k == |o0| - 1 then c0[o0[k]].prev else t0)
    ensures ValuesOf(c, o0[..k] + o0[k + 1..]) == ValuesOf(c0, o0)[..k] + ValuesOf(c0, o0)[k + 1..]
  {
    var o := o0[..k] + o0[k + 1..];
    assert Distinct(o) by {
      assert forall j :: 0 <= j < |o| ==> o[j] == (if j < k then o0[j] else o0[j + 1]);
    }
    UnlinkLinks(c0, o0, c, k);
    if |o0| > 1 {
      if k == 0 {
        assert c0[o0[0]].next == At(o0[1]);
      }
      if k == |o0| - 1 {
        assert c0[o0[k]].prev == At(o0[k - 1]);
      }
    }
    UnlinkValues(c0, o0, c, k);
  }

  /** `ChainUnlink` at the head. */
  lemma ChainShift<T>(c0: seq<Cell<T>>, o0: seq<nat>, h0: Ptr, t0: Ptr, c: seq<Cell<T>>)
    requires Chain(c0, o0, h0, t0) && o0 != [] && |c| == |c0|
    requires |o0| > 1 ==> c[o0[1]] == c0[o0[1]].(prev := Null)
    requires forall i :: 0 <= i < |c0| && (|o0| == 1 || i != o0[1]) ==> c[i] == c0[i]
    ensures Chain(c, o0[1..], if |o0| == 1 then Null else At(o0[1]), if |o0| == 1 then Null else t0)
    ensures ValuesOf(c, o0[1..]) == ValuesOf(c0, o0)[1..]
  {
    ChainUnlink(c0, o0, h0, t0, c, 0);
    assert o0[..0] + o0[1..] == o0[1..];
    assert ValuesOf(c0, o0)[..0] + ValuesOf(c0, o0)[1..] == ValuesOf(c0, o0)[1..];
  }

  /** `ChainUnlink` at the tail. */
  lemma ChainPop<T>(c0: seq<Cell<T>>, o0: seq<nat>, h0: Ptr, t0: Ptr, c: seq<Cell<T>>)
    requires Chain(c0, o0, h0, t0) && o0 != [] && |c| == |c0|
    requires |o0| > 1 ==> c[o0[|o0| - 2]] == c0[o0[|o0| - 2]].(next := Null)
    requires forall i :: 0 <= i < |c0| && (|o0| == 1 || i != o0[|o0| - 2]) ==> c[i] == c0[i]
    ensures Chain(c, o0[..|o0| - 1], if |o0| == 1 then Null else h0, if |o0| == 1 then Null else At(o0[|o0| - 2]))
    ensures ValuesOf(c, o0[..|o0| - 1]) == ValuesOf(c0, o0)[..|o0| - 1]
  {
    var k := |o0| - 1;
    ChainUnlink(c0, o0, h0, t0, c, k);
    assert o0[..k] + o0[k + 1..] == o0[..k];
    assert ValuesOf(c0, o0)[..k] + ValuesOf(c0, o0)[k + 1..] == ValuesOf(c0, o0)[..k];
  }

  lemma UnlinkValues<T>(c0: seq<Cell<T>>, o0: seq<nat>, c: seq<Cell<T>>, k: nat)
    requires InArena(c0, o0) && k < |o0| && |c| == |c0|
    requires forall i :: 0 <= i < |c0| ==> c[i].value == c0[i].value
    ensures InArena(c, o0[..k] + o0[k + 1..])
    ensures ValuesOf(c, o0[..k] + o0[k + 1..]) == ValuesOf(c0, o0)[..k] + ValuesOf(c0, o0)[k + 1..]
  {
    var o := o0[..k] + o0[k + 1..];
    assert forall j :: 0 <= j < |o| ==> o[j] == (if j < k then o0[j] else o0[j + 1]);
  }

  lemma UnlinkLinks<T>(c0: seq<Cell<T>>, o0: seq<nat>, c: seq<Cell<T>>, k: nat)
    requires InArena(c0, o0) && Distinct(o0) && Links(c0, o0) && k < |o0|
    requires |c| == |c0|
    requires 0 < k ==> c[o0[k - 1]] == c0[o0[k - 1]].(next := c0[o0[k]].next)
    requires k < |o0| - 1 ==> c[o0[k + 1]] == c0[o0[k + 1]].(prev := c0[o0[k]].prev)
    requires forall i :: 0 <= i < |c0| && (k == 0 || i != o0[k - 1]) && (k == |o0| - 1 || i != o0[k + 1]) ==> c[i] == c0[i]
    ensures InArena(c, o0[..k] + o0[k + 1..]) && Links(c, o0[..k] + o0[k + 1..])
  {
    var o := o0[..k] + o0[k + 1..];
    assert forall j :: 0 <= j < |o| ==> o[j] == (if j < k then o0[j] else o0[j + 1]);
    forall j | 0 <= j < |o| - 1
      ensures c[o[j]].next == At(o[j + 1])
    {
      if j != k - 1 && k > 0 {
        assert o[j] != o0[k - 1];
      }
    }
    forall j | 0 < j < |o|
      ensures c[o[j]].prev == At(o[j - 1])
    {
      if j != k && k < |o0| - 1 {
        assert o[j] != o0[k + 1];
      }
    }
  }

  class LinkList<T(==)> {
    var cells: seq<Cell<T>>
    var head: Ptr
    var tail: Ptr
    var size: nat
    /** The arena positions of the linked nodes, head first. */
    ghost var order: seq<nat>

    /** `next` and `prev` mirror each other along `order`, the ends are null and
        `size` counts the linked nodes. */
    ghost predicate Valid()
      reads this
    {
      size == |order| && Chain(cells, order, head, tail)
    }

    ghost function Contents(): seq<T>
      reads this
      requires Valid()
    {
      ValuesOf(cells, order)
    }

    /** Pushes every element of `init` in order. */
    constructor (init: seq<T>)
      ensures Valid() && Contents() == init
    {
      cells, head, tail, size, order := [], Null, Null, 0, [];
      new;
      var i := 0;
      while i < |init|
        invariant 0 <= i <= |init|
        invariant Valid() && Contents() == init[..i]
      {
        Push(init[i]);
        i := i + 1;
      }
    }

    predicate IsEmpty()
      reads this
    {
      size == 0
    }

    /** The head's value (`head` getter), or `None` on an empty list. */
    function Head(): (r: Option<T>)
      reads this
      requires Valid()
      ensures r == (if Contents() == [] then None else Some(Contents()[0]))
    {
      if head == Null then None else Some(cells[head.index].value)
    }

    /** The tail's value (`tail` getter), or `None` on an empty list. */
    function Tail(): (r: Option<T>)
      reads this
      requires Valid()
      ensures r == (if Contents() == [] then None else Some(Contents()[|Contents()| - 1]))
    {
      if tail == Null then None else Some(cells[tail.index].value)
    }

    method Push(value: T)
      requires Valid()
      modifies this
      ensures Valid() && Contents() == old(Contents()) + [value]
      ensures old(head) == Null ==> head == tail == At(|old(cells)|)
      ensures tail == At(|old(cells)|)
    {
      var n := |cells|;
      cells := cells + [Cell(value, Null, Null)];
      if tail != Null {
        var t := tail.index;
        cells := cells[t := cells[t].(next := At(n))];
        cells := cells[n := cells[n].(prev := tail)];
        tail := At(n);
      } else {
        tail, head := At(n), At(n);
      }
      size := size + 1;
      order := order + [n];
      ChainPush(old(cells), old(order), old(head), old(tail), cells, value);
    }

    method Unshift(value: T)
      requires Valid()
      modifies this
      ensures Valid() && Contents() == [value] + old(Contents())
      ensures old(head) == Null ==> head == tail == At(|old(cells)|)
      ensures head == At(|old(cells)|)
    {
      var n := |cells|;
      cells := cells + [Cell(value, Null, Null)];
      if head == Null || tail == Null {
        tail, head := At(n), At(n);
      } else {
        var h := head.index;
        cells := cells[h := cells[h].(prev := At(n))];
        cells := cells[n := cells[n].(next := head)];
        head := At(n);
      }
      size := size + 1;
      order := [n] + order;
      ChainUnshift(old(cells), old(order), old(head), old(tail), cells, value);
    }

    /** Removes and returns the head; an empty list yields `None` and is left alone. */
    method Shift() returns (r: Option<T>)
      requires Valid()
      modifies this
      ensures Valid()
      ensures r == (if old(Contents()) == [] then None else Some(old(Contents())[0]))
      ensures Contents() == if old(Contents()) == [] then old(Contents()) else old(Contents())[1..]
      ensures old(size) <= 1 ==> head == tail == Null
      ensures old(Contents()) == [] ==> cells == old(cells)
    {
      if head == Null {
        return None;
      }
      var h := head.index;
      if |order| > 1 {
        assert cells[order[0]].next == At(order[1]);
      }
      if cells[h].next == Null {
        head, tail := Null, Null;
      } else {
        var nx := cells[h].next.index;
        cells := cells[nx := cells[nx].(prev := Null)];
        head := At(nx);
      }
      size := size - 1;
      order := order[1..];
      r := Some(cells[h].value);
      ChainShift(old(cells), old(order), old(head), old(tail), cells);
    }

    /** Removes and returns the tail; an empty list yields `None` and is left alone. */
    method Pop() returns (r: Option<T>)
      requires Valid()
      modifies this
      ensures Valid()
      ensures r == (if old(Contents()) == [] then None else Some(old(Contents())[|old(Contents())| - 1]))
      ensures Contents() == if old(Contents()) == [] then old(Contents())
                            else old(Contents())[..|old(Contents())| - 1]
      ensures old(size) <= 1 ==> head == tail == Null
      ensures old(Contents()) == [] ==> cells == old(cells)
    {
      if tail == Null {
        return None;
      }
      var t := tail.index;
      if |order| > 1 {
        assert cells[order[|order| - 1]].prev == At(order[|order| - 2]);
      }
      if cells[t].prev == Null {
        tail, head := Null, Null;
      } else {
        var pv := cells[t].prev.index;
        cells := cells[pv := cells[pv].(next := Null)];
        tail := At(pv);
      }
      size := size - 1;
      order := order[..|order| - 1];
      r := Some(cells[t].value);
      ChainPop(old(cells), old(order), old(head), old(tail), cells);
    }

    /** Scans from the tail and returns the largest index holding `value` (`===`), or -1. */
    method IndexOf(value: T) returns (i: int)
      requires Valid()
      ensures i == LastIndexOf(Contents(), value)
    {
      var current := tail;
      i := size - 1;
      while i >= 0 && !(current != Null && cells[current.index].value == value)
        invariant -1 <= i < size
        invariant current == (if i >= 0 then At(order[i]) else Null)
        invariant forall j :: i < j < size ==> Contents()[j] != value
      {
        current := if current != Null then cells[current.index].prev else Null;
        i := i - 1;
      }
      LastIndexOfIsLast(Contents(), value, i);
    }

    /** `_findNode`: a negative index is first mapped to `size - (index % size)`,
        which is never below `size`, so only `0 <= index < size` finds a node. */
    method FindNode(index: int) returns (p: Ptr)
      requires Valid()
      ensures p == (if 0 <= index < size then At(order[index]) else Null)
    {
      var target := index;
      if target < 0 {
        if size == 0 {
          // `index % 0` is NaN in JavaScript: no position ever equals it
          return Null;
        }
        target := size - JsRem(target, size);
      } else if target >= size {
        return Null;
      }
      var current := tail;
      var i: int := size - 1;
      while i >= 0
        invariant -1 <= i < size
        invariant current == (if i >= 0 then At(order[i]) else Null)
        invariant target >= 0 && (target < size ==> target <= i)
        invariant 0 <= index < size ==> target == index
        invariant !(0 <= index < size) ==> target >= size
      {
        if i == target {
          return current;
        }
        current := if current != Null then cells[current.index].prev else Null;
        i := i - 1;
      }
      return Null;
    }

    /** The value at `index` from the head, or `None` outside `0 <= index < size`. */
    method ValueAt(index: int) returns (r: Option<T>)
      requires Valid()
      ensures r == (if 0 <= index < |Contents()| then Some(Contents()[index]) else None)
    {
      var node := FindNode(index);
      r := if node == Null then None else Some(cells[node.index].value);
    }

    /** Unlinks and returns the element at `index`; an invalid index yields `None`
        and changes nothing. */
    method RemoveAt(index: int) returns (r: Option<T>)
      requires Valid()
      modifies this
      ensures Valid()
      ensures !(0 <= index < |old(Contents())|) ==>
        r == None && Contents() == old(Contents()) && cells == old(cells)
      ensures 0 <= index < |old(Contents())| ==>
        r == Some(old(Contents())[index]) &&
        Contents() == old(Contents())[..index] + old(Contents())[index + 1..]
    {
      var node := FindNode(index);
      if node == Null {
        return None;
      }
      if node == tail {
        r := Pop();
        assert old(Contents())[..index] + old(Contents())[index + 1..] == old(Contents())[..|old(Contents())| - 1];
        return;
      }
      if node == head {
        r := Shift();
        assert old(Contents())[..index] + old(Contents())[index + 1..] == old(Contents())[1..];
        return;
      }
      assert node.index == order[index] && 0 < index < |order| - 1;
      r := UnlinkInner(node.index, index);
    }

    /** The branch of `removeAt` for a node with both neighbours: they are
        linked to each other around it. */
    method UnlinkInner(n: nat, index: nat) returns (r: Option<T>)
      requires Valid() && 0 < index < |order| - 1 && n == order[index]
      modifies this
      ensures Valid()
      ensures r == Some(old(Contents())[index])
      ensures Contents() == old(Contents())[..index] + old(Contents())[index + 1..]
    {
      assert cells[n].prev == At(order[index - 1]) && cells[n].next == At(order[index + 1]);
      var pv, nx := cells[n].prev.index, cells[n].next.index;
      cells := cells[pv := cells[pv].(next := At(nx))];
      cells := cells[nx := cells[nx].(prev := At(pv))];
      size := size - 1;
      order := order[..index] + order[index + 1..];
      r := Some(cells[n].value);
      ChainUnlink(old(cells), old(order), old(head), old(tail), cells, index);
    }

    method Clear()
      requires Valid()
      modifies this
      ensures Valid() && Contents() == [] && head == tail == Null && size == 0
    {
      head, tail := Null, Null;
      size := 0;
      order := [];
    }

    /** `entries` (and `forEach`, which has the same shape) guard the single step
        with `if` rather than `while`: at most the head is ever visited. */
    method Entries() returns (out: seq<(T, nat)>)
      requires Valid()
      ensures out == (if Contents() == [] then [] else [(Contents()[0], 0)])
      ensures |out| <= 1
    {
      out := [];
      var current := head;
      var i := 0;
      if current != Null {
        out := out + [(cells[current.index].value, i)];
        i := i + 1;
        current := cells[current.index].next;
      }
    }
  }

  lemma LastIndexOfIsLast<T>(s: seq<T>, v: T, i: int)
    requires -1 <= i < |s|
    requires i >= 0 ==> s[i] == v
    requires forall j :: i < j < |s| ==> s[j] != v
    ensures i == LastIndexOf(s, v)
  {
  }
}
