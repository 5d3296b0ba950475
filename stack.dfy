/** The last-in-first-out container used by the depth-first tree traversals
    (packages/stack/src/Stack.ts). */
module Stacks {
  import opened Refs

  class Stack<T> {
    /** The private `_data` array; its last element is the top. */
    var data: seq<T>

    /** Pushes every element of `init` in order, so the last one ends on top. */
    constructor (init: seq<T>)
      ensures data == init
      ensures init != [] ==> Top() == Some(init[|init| - 1])
    {
      data := [];
      new;
      var i := 0;
      while i < |init|
        invariant 0 <= i <= |init|
        invariant data == init[..i]
      {
        Push(init[i]);
        i := i + 1;
      }
    }

    function Size(): nat
      reads this
    {
      |data|
    }

    predicate IsEmpty()
      reads this
    {
      Size() == 0
    }

    /** The most recently pushed value, without removing it. */
    function Top(): (r: Option<T>)
      reads this
      ensures r == None <==> IsEmpty()
      ensures r != None ==> r.value == data[|data| - 1]
    {
      if IsEmpty() then None else Some(data[Size() - 1])
    }

    /** All elements, from the top down to the bottom. */
    method Values() returns (out: seq<T>)
      ensures |out| == Size()
      ensures forall i :: 0 <= i < |out| ==> out[i] == data[|data| - 1 - i]
    {
      out := [];
      var i: int := Size() - 1;
      while i >= 0
        invariant -1 <= i < |data|
        invariant |out| == |data| - 1 - i
        invariant forall j :: 0 <= j < |out| ==> out[j] == data[|data| - 1 - j]
      {
        out := out + [data[i]];
        i := i - 1;
      }
    }

    method Push(value: T)
      modifies this
      ensures data == old(data) + [value]
      ensures Size() == old(Size()) + 1 && Top() == Some(value)
    {
      data := data + [value];
    }

    /** Removes and returns the top; an empty stack yields `None` and is left alone. */
    method Pop() returns (r: Option<T>)
      modifies this
      ensures r == old(Top())
      ensures old(data) == (if r == None then data else data + [r.value])
    {
      if data == [] {
        r := None;
      } else {
        r := Some(data[|data| - 1]);
        data := data[..|data| - 1];
      }
    }

    method Clear()
      modifies this
      ensures data == [] && IsEmpty()
    {
      data := [];
    }
  }
}
