/** The BST order of packages/bst/src/BSTree.ts read off the in-order
    sequence: under a ranking comparer, a tree is ordered exactly when its
    in-order keys ascend. */
module Order {
  import opened Refs
  import opened Shapes
  import opened Search

  /** The `[key, value]` pairs of the listed nodes. */
  ghost function Entries<V>(a: seq<Node<V>>, ids: seq<nat>): (e: seq<(int, V)>)
    requires forall j :: 0 <= j < |ids| ==> ids[j] < |a|
    ensures |e| == |ids|
    ensures forall j :: 0 <= j < |ids| ==> e[j] == (a[ids[j]].key, a[ids[j]].value)
  {
    seq(|ids|, j requires 0 <= j < |ids| => (a[ids[j]].key, a[ids[j]].value))
  }

  /** `x` is not ranked after `y`; strictly before unless duplicates are allowed. */
  predicate Before(x: int, y: int, rep: bool)
  {
    x < y || (rep && x == y)
  }

  /** Keys ascending by rank (non-strictly when duplicates are allowed). */
  ghost predicate Ascending<V>(rank: int -> int, rep: bool, e: seq<(int, V)>)
  {
    forall i, j :: 0 <= i < j < |e| ==> Before(rank(e[i].0), rank(e[j].0), rep)
  }

  /** The in-order list names nodes of the tree only. */
  lemma {:induction false} InOrderMembers(t: Shape)
    ensures forall j :: 0 <= j < |InOrder(t)| ==> InOrder(t)[j] in Ids(t)
  {
    match t
    case Empty =>
    case Fork(l, x, r) =>
      InOrderMembers(l);
      InOrderMembers(r);
      var s := InOrder(t);
      var n := |InOrder(l)|;
      forall j | 0 <= j < |s| ensures s[j] in Ids(t) {
        if j < n { assert s[j] == InOrder(l)[j]; }
        else if j > n { assert s[j] == InOrder(r)[j - n - 1]; }
      }
  }

  lemma InOrderWithin<V>(a: seq<Node<V>>, t: Shape)
    requires Within(a, t)
    ensures forall j :: 0 <= j < |InOrder(t)| ==> InOrder(t)[j] < |a|
  {
    InOrderMembers(t);
  }

  /** The in-order `[key, value]` list of the tree. */
  ghost function Listing<V>(a: seq<Node<V>>, t: Shape): seq<(int, V)>
    requires Within(a, t)
  {
    InOrderWithin(a, t);
    Entries(a, InOrder(t))
  }

  /** The in-order list names every node of the tree. */
  lemma {:induction false} InOrderCovers(t: Shape)
    ensures forall i :: i in Ids(t) ==> i in InOrder(t)
  {
    match t
    case Empty =>
    case Fork(l, x, r) =>
      InOrderCovers(l);
      InOrderCovers(r);
  }

  /** In a tree without repeated positions the in-order list has no repeats
      and one entry per node. */
  lemma {:induction false} InOrderDistinct(t: Shape)
    requires Unique(t)
    ensures forall i, j :: 0 <= i < j < |InOrder(t)| ==> InOrder(t)[i] != InOrder(t)[j]
    ensures |InOrder(t)| == Count(t)
  {
    match t
    case Empty =>
    case Fork(l, x, r) =>
      InOrderDistinct(l);
      InOrderDistinct(r);
      InOrderMembers(l);
      InOrderMembers(r);
      var s := InOrder(t);
      var n := |InOrder(l)|;
      forall i, j | 0 <= i < j < |s| ensures s[i] != s[j] {
        if j < n {
          assert s[i] == InOrder(l)[i] && s[j] == InOrder(l)[j];
        } else if i > n {
          assert s[i] == InOrder(r)[i - n - 1] && s[j] == InOrder(r)[j - n - 1];
        } else if i < n && j > n {
          assert s[i] == InOrder(l)[i] && s[j] == InOrder(r)[j - n - 1];
        } else if i < n {
          assert s[i] == InOrder(l)[i];
        } else {
          assert s[j] == InOrder(r)[j - n - 1];
        }
      }
  }

  lemma EntriesAppend<V>(a: seq<Node<V>>, x: seq<nat>, y: seq<nat>)
    requires forall j :: 0 <= j < |x| ==> x[j] < |a|
    requires forall j :: 0 <= j < |y| ==> y[j] < |a|
    ensures forall j :: 0 <= j < |x + y| ==> (x + y)[j] < |a|
    ensures Entries(a, x + y) == Entries(a, x) + Entries(a, y)
  {
    assert forall j :: 0 <= j < |x + y| ==> (x + y)[j] == (if j < |x| then x[j] else y[j - |x|]);
  }

  /** The in-order listing of a fork: left listing, the node, right listing. */
  lemma ListingFork<V>(a: seq<Node<V>>, l: Shape, i: nat, r: Shape)
    requires Within(a, Fork(l, i, r)) && i < |a| && Within(a, l) && Within(a, r)
    ensures Listing(a, Fork(l, i, r)) == Listing(a, l) + [(a[i].key, a[i].value)] + Listing(a, r)
  {
    WithinFork(a, l, i, r);
    InOrderWithin(a, l);
    InOrderWithin(a, r);
    EntriesAppend(a, InOrder(l), [i]);
    EntriesAppend(a, InOrder(l) + [i], InOrder(r));
  }

  /** The multiset of pairs is the multiset of the in-order entries. */
  lemma {:induction false} PairsInOrder<V>(a: seq<Node<V>>, t: Shape)
    requires Within(a, t)
    ensures Pairs(a, t) == multiset(Listing(a, t))
  {
    match t
    case Empty =>
    case Fork(l, i, r) =>
      WithinFork(a, l, i, r);
      PairsInOrder(a, l);
      PairsInOrder(a, r);
      ListingFork(a, l, i, r);
      var e := (a[i].key, a[i].value);
      assert multiset(Listing(a, l) + [e] + Listing(a, r)) == multiset(Listing(a, l)) + multiset{e} + multiset(Listing(a, r));
  }

  /** With a ranking comparer, `Below`/`Above` are `Before` on ranks. */
  lemma RankedVerdicts(cmp: (int, int) -> int, rank: int -> int, rep: bool, x: int, y: int)
    requires Ranked(cmp, rank)
    ensures Below(cmp(x, y), rep) <==> Before(rank(x), rank(y), rep)
    ensures Above(cmp(x, y), rep) <==> Before(rank(y), rank(x), rep)
  {
  }

  /** A listing `L + [e] + R` ascends exactly when both sides ascend and `e`
      sits between them. */
  lemma AscendingSplit<V>(rank: int -> int, rep: bool, L: seq<(int, V)>, e: (int, V), R: seq<(int, V)>)
    ensures Ascending(rank, rep, L + [e] + R) <==>
      Ascending(rank, rep, L) && Ascending(rank, rep, R) &&
      (forall p :: 0 <= p < |L| ==> Before(rank(L[p].0), rank(e.0), rep)) &&
      (forall q :: 0 <= q < |R| ==> Before(rank(e.0), rank(R[q].0), rep))
  {
    if Ascending(rank, rep, L) && Ascending(rank, rep, R) &&
       (forall p :: 0 <= p < |L| ==> Before(rank(L[p].0), rank(e.0), rep)) &&
       (forall q :: 0 <= q < |R| ==> Before(rank(e.0), rank(R[q].0), rep)) {
      AscendingJoin(rank, rep, L, e, R);
    }
    if Ascending(rank, rep, L + [e] + R) {
      AscendingParts(rank, rep, L, e, R);
    }
  }

  /** The `<==` half of `AscendingSplit`. */
  lemma AscendingJoin<V>(rank: int -> int, rep: bool, L: seq<(int, V)>, e: (int, V), R: seq<(int, V)>)
    requires Ascending(rank, rep, L) && Ascending(rank, rep, R)
    requires forall p :: 0 <= p < |L| ==> Before(rank(L[p].0), rank(e.0), rep)
    requires forall q :: 0 <= q < |R| ==> Before(rank(e.0), rank(R[q].0), rep)
    ensures Ascending(rank, rep, L + [e] + R)
  {
    var s := L + [e] + R;
    var n := |L|;
    assert forall p :: 0 <= p < n ==> s[p] == L[p];
    assert s[n] == e;
    forall i, j | 0 <= i < j < |s| ensures Before(rank(s[i].0), rank(s[j].0), rep) {
      if j < n {
      } else if j == n {
      } else if i > n {
        assert s[i] == R[i - n - 1] && s[j] == R[j - n - 1];
      } else if i == n {
        assert s[j] == R[j - n - 1];
      } else {
        assert s[j] == R[j - n - 1];
        assert Before(rank(s[i].0), rank(e.0), rep);
      }
    }
  }

  /** The `==>` half of `AscendingSplit`. */
  lemma AscendingParts<V>(rank: int -> int, rep: bool, L: seq<(int, V)>, e: (int, V), R: seq<(int, V)>)
    requires Ascending(rank, rep, L + [e] + R)
    ensures Ascending(rank, rep, L) && Ascending(rank, rep, R)
    ensures forall p :: 0 <= p < |L| ==> Before(rank(L[p].0), rank(e.0), rep)
    ensures forall q :: 0 <= q < |R| ==> Before(rank(e.0), rank(R[q].0), rep)
  {
    var s := L + [e] + R;
    var n := |L|;
    assert forall p :: 0 <= p < n ==> s[p] == L[p];
    assert s[n] == e;
    assert forall q :: 0 <= q < |R| ==> s[n + 1 + q] == R[q];
    forall i, j | 0 <= i < j < |R| ensures Before(rank(R[i].0), rank(R[j].0), rep) {
      assert s[n + 1 + i] == R[i] && s[n + 1 + j] == R[j];
    }
  }

  /** The left-side condition of `Ordered`, read on the listing of that side. */
  lemma SideBelow<V>(cmp: (int, int) -> int, rank: int -> int, rep: bool, a: seq<Node<V>>, s: Shape, key: int)
    requires Ranked(cmp, rank) && Within(a, s)
    ensures (forall j :: j in Ids(s) ==> j < |a| && Below(cmp(a[j].key, key), rep)) <==>
            (forall p :: 0 <= p < |Listing(a, s)| ==> Before(rank(Listing(a, s)[p].0), rank(key), rep))
  {
    InOrderMembers(s);
    InOrderCovers(s);
    var L := Listing(a, s);
    var o := InOrder(s);
    if forall j :: j in Ids(s) ==> j < |a| && Below(cmp(a[j].key, key), rep) {
      forall p | 0 <= p < |L| ensures Before(rank(L[p].0), rank(key), rep) {
        assert o[p] in Ids(s);
        RankedVerdicts(cmp, rank, rep, a[o[p]].key, key);
      }
    }
    if forall p :: 0 <= p < |L| ==> Before(rank(L[p].0), rank(key), rep) {
      forall j | j in Ids(s) ensures j < |a| && Below(cmp(a[j].key, key), rep) {
        var p :| 0 <= p < |o| && o[p] == j;
        assert L[p].0 == a[j].key;
        RankedVerdicts(cmp, rank, rep, a[j].key, key);
      }
    }
  }

  /** The right-side condition of `Ordered`, read on the listing of that side. */
  lemma SideAbove<V>(cmp: (int, int) -> int, rank: int -> int, rep: bool, a: seq<Node<V>>, s: Shape, key: int)
    requires Ranked(cmp, rank) && Within(a, s)
    ensures (forall j :: j in Ids(s) ==> j < |a| && Above(cmp(a[j].key, key), rep)) <==>
            (forall p :: 0 <= p < |Listing(a, s)| ==> Before(rank(key), rank(Listing(a, s)[p].0), rep))
  {
    InOrderMembers(s);
    InOrderCovers(s);
    var L := Listing(a, s);
    var o := InOrder(s);
    if forall j :: j in Ids(s) ==> j < |a| && Above(cmp(a[j].key, key), rep) {
      forall p | 0 <= p < |L| ensures Before(rank(key), rank(L[p].0), rep) {
        assert o[p] in Ids(s);
        RankedVerdicts(cmp, rank, rep, a[o[p]].key, key);
      }
    }
    if forall p :: 0 <= p < |L| ==> Before(rank(key), rank(L[p].0), rep) {
      forall j | j in Ids(s) ensures j < |a| && Above(cmp(a[j].key, key), rep) {
        var p :| 0 <= p < |o| && o[p] == j;
        assert L[p].0 == a[j].key;
        RankedVerdicts(cmp, rank, rep, a[j].key, key);
      }
    }
  }

  /** Under a ranking comparer the BST order is exactly an ascending in-order listing. */
  lemma {:induction false} OrderedAscending<V>(cmp: (int, int) -> int, rank: int -> int, rep: bool,
                                               a: seq<Node<V>>, t: Shape)
    requires Ranked(cmp, rank) && Within(a, t)
    ensures Ordered(cmp, rep, a, t) <==> Ascending(rank, rep, Listing(a, t))
  {
    match t
    case Empty =>
    case Fork(l, i, r) =>
      WithinFork(a, l, i, r);
      OrderedAscending(cmp, rank, rep, a, l);
      OrderedAscending(cmp, rank, rep, a, r);
      ListingFork(a, l, i, r);
      AscendingSplit(rank, rep, Listing(a, l), (a[i].key, a[i].value), Listing(a, r));
      SideBelow(cmp, rank, rep, a, l, a[i].key);
      SideAbove(cmp, rank, rep, a, r, a[i].key);
  }

  /** `s` with the element at position `k` taken out. */
  function Without<T>(s: seq<T>, k: nat): seq<T>
    requires k < |s|
  {
    s[..k] + s[k + 1..]
  }

  lemma WithoutAt<T>(s: seq<T>, k: nat)
    requires k < |s|
    ensures |Without(s, k)| == |s| - 1
    ensures forall j :: 0 <= j < k ==> Without(s, k)[j] == s[j]
    ensures forall j :: k <= j < |s| - 1 ==> Without(s, k)[j] == s[j + 1]
  {
  }

  /** Taking an entry out of an ascending listing leaves it ascending. */
  lemma AscendingWithout<V>(rank: int -> int, rep: bool, e: seq<(int, V)>, k: nat)
    requires k < |e| && Ascending(rank, rep, e)
    ensures Ascending(rank, rep, Without(e, k))
  {
    WithoutAt(e, k);
    var w := Without(e, k);
    forall i, j | 0 <= i < j < |w| ensures Before(rank(w[i].0), rank(w[j].0), rep) {
      var i' := if i < k then i else i + 1;
      var j' := if j < k then j else j + 1;
      assert w[i] == e[i'] && w[j] == e[j'];
    }
  }

  /** Taking an entry out removes exactly that entry from the multiset. */
  lemma MultisetWithout<T>(s: seq<T>, k: nat)
    requires k < |s|
    ensures multiset(Without(s, k)) == multiset(s) - multiset{s[k]}
  {
    assert s == s[..k] + [s[k]] + s[k + 1..];
    calc {
      multiset(s);
      multiset(s[..k]) + multiset([s[k]]) + multiset(s[k + 1..]);
      multiset(Without(s, k)) + multiset{s[k]};
    }
  }

  /** The listing after a removal: if the in-order list loses the entry at
      `k`, next to or at the target's position `m`, and the target takes over
      that entry's pair, then the listing loses exactly the target's entry. */
  lemma ListingDrop<V>(a: seq<Node<V>>, b: seq<Node<V>>, t: Shape, u: Shape, target: nat, m: nat, k: nat)
    requires Within(a, t) && Within(b, u) && Unique(t)
    requires m < |InOrder(t)| && InOrder(t)[m] == target
    requires k < |InOrder(t)| && (k + 1 == m || k == m || k == m + 1) && InOrder(t)[k] < |a|
    requires InOrder(u) == Without(InOrder(t), k)
    requires forall i :: i in Ids(t) && i != target ==> i < |b| && b[i].key == a[i].key && b[i].value == a[i].value
    requires k != m ==> target < |b| && b[target].key == a[InOrder(t)[k]].key && b[target].value == a[InOrder(t)[k]].value
    ensures Listing(b, u) == Without(Listing(a, t), m)
  {
    var s := InOrder(t);
    InOrderDistinct(t);
    InOrderMembers(t);
    InOrderWithin(a, t);
    InOrderWithin(b, u);
    WithoutAt(s, k);
    var L := Listing(a, t);
    var L' := Listing(b, u);
    WithoutAt(L, m);
    forall j | 0 <= j < |L'| ensures L'[j] == Without(L, m)[j] {
      var j1 := if j < k then j else j + 1;
      var j2 := if j < m then j else j + 1;
      assert InOrder(u)[j] == s[j1];
      assert Without(L, m)[j] == L[j2];
      ListingDropAt(a, b, s, target, m, k, j1, j2);
    }
  }

  lemma ListingDropAt<V>(a: seq<Node<V>>, b: seq<Node<V>>, s: seq<nat>, target: nat, m: nat, k: nat, j1: nat, j2: nat)
    requires forall i, j :: 0 <= i < j < |s| ==> s[i] != s[j]
    requires forall j :: 0 <= j < |s| ==> s[j] < |a|
    requires m < |s| && s[m] == target && k < |s| && j1 < |s| && j2 < |s|
    requires (j1 == j2 && j1 != m) || (j1 == m && j2 == k && k != m)
    requires forall i :: i in s && i != target ==> i < |b| && b[i].key == a[i].key && b[i].value == a[i].value
    requires k != m ==> target < |b| && b[target].key == a[s[k]].key && b[target].value == a[s[k]].value
    ensures s[j1] < |b| && (b[s[j1]].key, b[s[j1]].value) == (a[s[j2]].key, a[s[j2]].value)
  {
    if j1 == j2 {
      assert s[j1] in s;
    }
  }

  /** Two trees with the same in-order positions over arenas holding the same
      pairs list the same entries. */
  lemma ListingSame<V>(a: seq<Node<V>>, b: seq<Node<V>>, t: Shape, u: Shape)
    requires Within(a, t) && InOrder(u) == InOrder(t) && |b| == |a|
    requires forall i :: 0 <= i < |a| ==> b[i].key == a[i].key && b[i].value == a[i].value
    ensures Within(b, u) && Listing(b, u) == Listing(a, t)
  {
    InOrderWithin(a, t);
    InOrderCovers(u);
    InOrderMembers(u);
    assert Within(b, u);
  }
}
