/** Small value types shared by the containers: an optional result (JavaScript's
    `undefined`/`null` returns), a nullable node reference into an arena, and regroupings of
    concatenated sequences. */
module Refs {

  /** `None` stands for a JavaScript `undefined` or `null` result. */
  datatype Option<+T> = None | Some(value: T)

  /** A nullable node reference. Nodes live in a sequence (the arena) and are
      named by their position in it; `Null` is the JavaScript `null`. */
  datatype Ptr = Null | At(index: nat)

  /** Regrouping a three-part concatenation. */
  lemma SeqAssoc3<T>(a: seq<T>, b: seq<T>, c: seq<T>)
    ensures a + (b + c) == a + b + c
  {
  }

  /** Regrouping a four-part concatenation. */
  lemma SeqAssoc<T>(b: seq<T>, m: seq<T>, a: seq<T>, z: seq<T>)
    ensures (b + m + a) + z == b + m + (a + z)
  {
  }

  /** Regrouping a prefix into a three-part concatenation. */
  lemma SeqAssoc2<T>(h: seq<T>, b: seq<T>, m: seq<T>, a: seq<T>)
    ensures h + (b + m + a) == (h + b) + m + a
  {
  }
}
