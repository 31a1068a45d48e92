/** Level batching of a dependency graph (src/planning/graph.ts). */
module Batches {
  import opened DependencyGraph
  import opened Digraph
  import opened Workflow

  /** The edges (u, v), u a predecessor of v, with both ends in `ids`. */
  ghost function Induced(g: Graph, ids: set<Id>): set<(Id, Id)>
  {
    set v, u | v in ids && u in Lookup(g.predecessors, v) && u in ids :: (u, v)
  }

  /** The longest chain of `e` that ends in `x` has exactly `k` edges. */
  ghost predicate Depth(e: set<(Id, Id)>, x: Id, k: nat)
  {
    HasChain(e, x, k) && forall n: nat | HasChain(e, x, n) :: n <= k
  }

  ghost predicate HasChain(e: set<(Id, Id)>, x: Id, n: nat)
  {
    exists a :: ReachIn(e, a, x, n)
  }

  /** A comparator that orders consistently. */
  ghost predicate Comparator(compare: (Id, Id) -> int)
  {
    && (forall a, b :: compare(a, b) <= 0 <==> compare(b, a) >= 0)
    && (forall a, b, c :: compare(a, b) <= 0 && compare(b, c) <= 0 ==> compare(a, c) <= 0)
  }

  ghost predicate SortedBy(compare: (Id, Id) -> int, ids: seq<Id>)
  {
    forall i, j | 0 <= i < j < |ids| :: compare(ids[i], ids[j]) <= 0
  }

  function Insert(compare: (Id, Id) -> int, x: Id, sorted: seq<Id>): seq<Id>
  {
    if sorted == [] || compare(x, sorted[0]) < 0 then [x] + sorted
    else [sorted[0]] + Insert(compare, x, sorted[1..])
  }

  /** A stable sort: equal ids keep their order. */
  function ToSorted(compare: (Id, Id) -> int, ids: seq<Id>): seq<Id>
  {
    if ids == [] then [] else Insert(compare, ids[|ids| - 1], ToSorted(compare, ids[..|ids| - 1]))
  }

  lemma {:induction false} InsertMembers(compare: (Id, Id) -> int, x: Id, sorted: seq<Id>)
    ensures multiset(Insert(compare, x, sorted)) == multiset(sorted) + multiset{x}
  {
    if sorted != [] && !(compare(x, sorted[0]) < 0) {
      InsertMembers(compare, x, sorted[1..]);
      assert sorted == [sorted[0]] + sorted[1..];
    }
  }

  lemma PrependSorted(compare: (Id, Id) -> int, x: Id, sorted: seq<Id>)
    requires SortedBy(compare, sorted) && forall y | y in sorted :: compare(x, y) <= 0
    ensures SortedBy(compare, [x] + sorted)
  {
  }

  lemma CompareTransitive(compare: (Id, Id) -> int, a: Id, b: Id, c: Id)
    requires Comparator(compare) && compare(a, b) <= 0 && compare(b, c) <= 0
    ensures compare(a, c) <= 0
  {
  }

  lemma CompareConverse(compare: (Id, Id) -> int, a: Id, b: Id)
    requires Comparator(compare) && compare(a, b) >= 0
    ensures compare(b, a) <= 0
  {
  }

  lemma {:induction false} InsertSorts(compare: (Id, Id) -> int, x: Id, sorted: seq<Id>)
    requires Comparator(compare) && SortedBy(compare, sorted)
    ensures SortedBy(compare, Insert(compare, x, sorted))
  {
    hide Comparator;
    if sorted == [] {
    } else if compare(x, sorted[0]) < 0 {
      forall y | y in sorted ensures compare(x, y) <= 0 {
        var j :| 0 <= j < |sorted| && sorted[j] == y;
        if j > 0 {
          CompareTransitive(compare, x, sorted[0], y);
        }
      }
      PrependSorted(compare, x, sorted);
    } else {
      var rest := sorted[1..];
      InsertSorts(compare, x, rest);
      InsertMembers(compare, x, rest);
      var tail := Insert(compare, x, rest);
      CompareConverse(compare, x, sorted[0]);
      forall y | y in tail ensures compare(sorted[0], y) <= 0 {
        assert y in multiset(tail);
        if y != x {
          assert y in multiset(rest);
          var k :| 0 <= k < |rest| && rest[k] == y;
          assert sorted[k + 1] == y;
        }
      }
      PrependSorted(compare, sorted[0], tail);
    }
  }

  lemma {:induction false} ToSortedIsSorted(compare: (Id, Id) -> int, ids: seq<Id>)
    ensures multiset(ToSorted(compare, ids)) == multiset(ids)
    ensures Comparator(compare) ==> SortedBy(compare, ToSorted(compare, ids))
  {
    if ids != [] {
      var init := ids[..|ids| - 1];
      ToSortedIsSorted(compare, init);
      InsertMembers(compare, ids[|ids| - 1], ToSorted(compare, init));
      assert ids == init + [ids[|ids| - 1]];
      if Comparator(compare) {
        InsertSorts(compare, ids[|ids| - 1], ToSorted(compare, init));
      }
    }
  }

  /** The remaining ids none of whose predecessors remains. */
  predicate IsReady(g: Graph, remaining: seq<Id>, id: Id)
  {
    forall d | d in Lookup(g.predecessors, id) :: d !in remaining
  }

  function Filter(p: Id -> bool, ids: seq<Id>): (r: seq<Id>)
    ensures forall x :: x in r <==> x in ids && p(x)
    ensures Distinct(ids) ==> Distinct(r)
    ensures |r| <= |ids|
  {
    if ids == [] then []
    else
      var init, last := Filter(p, ids[..|ids| - 1]), ids[|ids| - 1];
      assert ids == ids[..|ids| - 1] + [last];
      if p(last) then init + [last] else init
  }

  ghost function Flat(batches: seq<seq<Id>>): seq<Id>
  {
    if batches == [] then [] else Flat(batches[..|batches| - 1]) + batches[|batches| - 1]
  }

  /** Batches list the ids once each, batch `k` holding the nodes of depth `k` in comparator order. */
  ghost predicate IsLayering(e: set<(Id, Id)>, compare: (Id, Id) -> int, batches: seq<seq<Id>>)
  {
    && Distinct(Flat(batches))
    && (forall k | 0 <= k < |batches| ::
          && batches[k] != []
          && (forall x | x in batches[k] :: Depth(e, x, k))
          && (Comparator(compare) ==> SortedBy(compare, batches[k])))
  }

  /** Every remaining node ends a chain as long as the number of batches so far; predecessors of placed nodes are placed. */
  ghost predicate Pending(e: set<(Id, Id)>, placed: seq<Id>, remaining: seq<Id>, k: nat)
  {
    && (forall x | x in remaining :: HasChain(e, x, k))
    && (forall u, v :: (u, v) in e && v in placed ==> u in placed)
  }

  /** A ready node's longest chain has exactly one edge more than the deepest batch so far. */
  lemma ReadyDepth(g: Graph, ids: set<Id>, compare: (Id, Id) -> int, batches: seq<seq<Id>>, remaining: seq<Id>, x: Id)
    requires IsLayering(Induced(g, ids), compare, batches)
    requires Pending(Induced(g, ids), Flat(batches), remaining, |batches|)
    requires ids == Elements(Flat(batches)) + Elements(remaining)
    requires x in remaining && IsReady(g, remaining, x)
    ensures Depth(Induced(g, ids), x, |batches|)
  {
    hide IsLayering, Depth, HasChain, Pending;
    var e := Induced(g, ids);
    PendingChain(e, Flat(batches), remaining, |batches|, x);
    forall n: nat, a | n > 0 && ReachIn(e, a, x, n) ensures n <= |batches| {
      var u :| ReachIn(e, a, u, n - 1) && (u, x) in e;
      assert u !in remaining && u in Elements(Flat(batches));
      var k := PlacedDepth(e, compare, batches, u);
      ChainBound(e, a, u, n - 1, k);
    }
    DepthFrom(e, x, |batches|);
  }

  lemma DepthFrom(e: set<(Id, Id)>, x: Id, k: nat)
    requires HasChain(e, x, k) && forall n: nat, a | n > 0 && ReachIn(e, a, x, n) :: n <= k
    ensures Depth(e, x, k)
  {
  }

  lemma PlacedDepth(e: set<(Id, Id)>, compare: (Id, Id) -> int, batches: seq<seq<Id>>, u: Id) returns (k: nat)
    requires IsLayering(e, compare, batches) && u in Flat(batches)
    ensures k < |batches| && Depth(e, u, k)
  {
    hide SortedBy, Comparator, Distinct, Depth;
    k := FlatBatch(batches, u);
  }

  lemma PendingChain(e: set<(Id, Id)>, placed: seq<Id>, remaining: seq<Id>, k: nat, x: Id)
    requires Pending(e, placed, remaining, k) && x in remaining
    ensures HasChain(e, x, k)
  {
    hide HasChain;
  }

  lemma ChainBound(e: set<(Id, Id)>, a: Id, x: Id, n: nat, k: nat)
    requires Depth(e, x, k) && ReachIn(e, a, x, n)
    ensures n <= k
  {
    assert HasChain(e, x, n);
  }

  lemma {:induction false} FlatBatch(batches: seq<seq<Id>>, x: Id) returns (k: nat)
    requires x in Flat(batches)
    ensures k < |batches| && x in batches[k]
    decreases |batches|
  {
    var init := batches[..|batches| - 1];
    if x in batches[|batches| - 1] {
      k := |batches| - 1;
    } else {
      k := FlatBatch(init, x);
      assert init[k] == batches[k];
    }
  }

  lemma {:induction false} BatchFlat(batches: seq<seq<Id>>, k: nat, x: Id)
    requires k < |batches| && x in batches[k]
    ensures x in Flat(batches)
    decreases |batches|
  {
    if k < |batches| - 1 {
      BatchFlat(batches[..|batches| - 1], k, x);
    }
  }

  lemma LayerReady(g: Graph, ids: set<Id>, compare: (Id, Id) -> int, batches: seq<seq<Id>>, remaining: seq<Id>,
      ready: seq<Id>)
    requires IsLayering(Induced(g, ids), compare, batches)
    requires Pending(Induced(g, ids), Flat(batches), remaining, |batches|)
    requires ids == Elements(Flat(batches)) + Elements(remaining)
    requires Elements(Flat(batches)) !! Elements(remaining)
    requires ready != [] && Distinct(ready) && (Comparator(compare) ==> SortedBy(compare, ready))
    requires forall x | x in ready :: x in remaining && IsReady(g, remaining, x)
    ensures IsLayering(Induced(g, ids), compare, batches + [ready])
  {
    hide *;
    forall x | x in ready ensures Depth(Induced(g, ids), x, |batches|) {
      ReadyDepth(g, ids, compare, batches, remaining, x);
    }
    AppendLayer(Induced(g, ids), compare, batches, remaining, ready);
  }

  lemma AppendLayer(e: set<(Id, Id)>, compare: (Id, Id) -> int, batches: seq<seq<Id>>, remaining: seq<Id>, ready: seq<Id>)
    requires IsLayering(e, compare, batches)
    requires Elements(Flat(batches)) !! Elements(remaining)
    requires ready != [] && Distinct(ready) && (Comparator(compare) ==> SortedBy(compare, ready))
    requires forall x | x in ready :: x in remaining && Depth(e, x, |batches|)
    ensures IsLayering(e, compare, batches + [ready])
  {
    hide SortedBy, Comparator, Depth, Distinct, Flat, Elements;
    FlatAppend(batches, ready);
    DisjointDistinct(Flat(batches), ready, remaining);
    var more := batches + [ready];
    assert more[|batches|] == ready && forall k | 0 <= k < |batches| :: more[k] == batches[k];
  }

  lemma DisjointDistinct(a: seq<Id>, b: seq<Id>, rest: seq<Id>)
    requires Distinct(a) && Distinct(b) && Elements(a) !! Elements(rest) && forall x | x in b :: x in rest
    ensures Distinct(a + b)
  {
    forall i, j | 0 <= i < j < |a + b| ensures (a + b)[i] != (a + b)[j] {
      if i < |a| <= j {
        assert a[i] in Elements(a) && b[j - |a|] in Elements(rest);
      }
    }
  }

  lemma FlatAppend(batches: seq<seq<Id>>, ready: seq<Id>)
    ensures Flat(batches + [ready]) == Flat(batches) + ready
    ensures Elements(Flat(batches + [ready])) == Elements(Flat(batches)) + Elements(ready)
  {
    assert (batches + [ready])[..|batches|] == batches;
  }

  lemma PendingLeft(g: Graph, ids: set<Id>, placed: seq<Id>, remaining: seq<Id>, ready: seq<Id>, left: seq<Id>, k: nat)
    requires Pending(Induced(g, ids), placed, remaining, k)
    requires ids == Elements(placed) + Elements(remaining)
    requires forall x :: x in ready <==> x in remaining && IsReady(g, remaining, x)
    requires forall x :: x in left <==> x in remaining && x !in ready
    ensures Pending(Induced(g, ids), placed + ready, left, k + 1)
    ensures ids == Elements(placed + ready) + Elements(left)
  {
    hide HasChain;
    var e := Induced(g, ids);
    forall x | x in left ensures HasChain(e, x, k + 1) {
      var u :| u in Lookup(g.predecessors, x) && u in remaining;
      assert x in Elements(remaining) && u in Elements(remaining) && (u, x) in e;
      ExtendChain(e, u, x, k);
    }
    forall u, v | (u, v) in e && v in placed + ready ensures u in placed + ready {
      if v !in placed {
        assert u !in remaining && u in Elements(placed);
      }
    }
    assert Elements(placed + ready) == Elements(placed) + Elements(ready);
    assert Elements(remaining) == Elements(ready) + Elements(left);
  }

  lemma LayeringInhabited(e: set<(Id, Id)>, compare: (Id, Id) -> int, batches: seq<seq<Id>>)
    requires IsLayering(e, compare, batches)
    ensures batches != [] ==> Elements(Flat(batches)) != {}
  {
    hide SortedBy, Comparator, Depth, Distinct;
    if batches != [] {
      assert batches[|batches| - 1] != [];
      assert batches[|batches| - 1][0] in Elements(Flat(batches));
    }
  }

  lemma ExtendChain(e: set<(Id, Id)>, u: Id, x: Id, n: nat)
    requires HasChain(e, u, n) && (u, x) in e
    ensures HasChain(e, x, n + 1)
  {
    var a :| ReachIn(e, a, u, n);
    assert ReachIn(e, a, x, n + 1);
  }

  /** If every remaining node waits on a remaining one, there is a cycle. */
  lemma {:induction false} AllWaiting(e: set<(Id, Id)>, waiting: set<Id>, x: Id)
    requires Acyclic(e) && x in waiting
    requires forall v | v in waiting :: exists u | u in waiting :: (u, v) in e
    ensures false
    decreases Rank(e, x)
  {
    var u :| u in waiting && (u, x) in e;
    RankGrows(e, u, x);
    AllWaiting(e, waiting, u);
  }

  /** A layering of all the nodes leaves no room for a cycle. */
  lemma LayeringAcyclic(g: Graph, ids: set<Id>, compare: (Id, Id) -> int, batches: seq<seq<Id>>)
    requires IsLayering(Induced(g, ids), compare, batches) && Elements(Flat(batches)) == ids
    ensures Acyclic(Induced(g, ids))
  {
    hide IsLayering, Depth;
    var e := Induced(g, ids);
    forall x ensures !Reach(e, x, x) {
      if Reach(e, x, x) {
        var n: nat :| n >= 1 && ReachIn(e, x, x, n);
        var u := LastStep(e, x, x);
        assert x in Elements(Flat(batches));
        var k := PlacedDepth(e, compare, batches, x);
        var a := DeepestChain(e, x, k);
        ReachInTrans(e, a, x, x, k, n);
        ChainBound(e, a, x, k + n, k);
      }
    }
  }

  lemma DeepestChain(e: set<(Id, Id)>, x: Id, k: nat) returns (a: Id)
    requires Depth(e, x, k)
    ensures ReachIn(e, a, x, k)
  {
    a :| ReachIn(e, a, x, k);
  }

  method DependencyBatches(g: Graph, nodeIds: seq<Id>, compare: (Id, Id) -> int) returns (batches: seq<seq<Id>>)
    ensures batches != [] ==> IsLayering(Induced(g, Elements(nodeIds)), compare, batches)
    ensures batches != [] ==> Elements(Flat(batches)) == Elements(nodeIds)
    ensures batches == [] <==> nodeIds == [] || !Acyclic(Induced(g, Elements(nodeIds)))
  {
    hide IsLayering, Pending, IsReady, Induced, Acyclic, Comparator, SortedBy;
    var remaining := UniqueStrings(nodeIds);
    batches := [];
    ghost var ids := Elements(nodeIds);
    ghost var e := Induced(g, ids);
    StartPending(e, compare, remaining);
    while |remaining| > 0
      invariant Distinct(remaining) && ids == Elements(Flat(batches)) + Elements(remaining)
      invariant Elements(Flat(batches)) !! Elements(remaining)
      invariant IsLayering(e, compare, batches) && Pending(e, Flat(batches), remaining, |batches|)
      decreases |remaining|
    {
      var ready := ReadyIds(g, remaining, compare);
      if |ready| == 0 {
        Stuck(g, ids, remaining, Flat(batches));
        return [];
      }
      var left := Filter(id => id !in ready, remaining);
      LayerReady(g, ids, compare, batches, remaining, ready);
      PendingLeft(g, ids, Flat(batches), remaining, ready, left, |batches|);
      FlatAppend(batches, ready);
      StillApart(Flat(batches), remaining, ready, left);
      Shrinks(remaining, left, ready[0]);
      batches := batches + [ready];
      remaining := left;
    }
    assert Elements(remaining) == {};
    LayeringAcyclic(g, ids, compare, batches);
    if nodeIds == [] {
      LayeringInhabited(e, compare, batches);
    } else {
      assert nodeIds[0] in ids;
    }
  }

  lemma StillApart(placed: seq<Id>, remaining: seq<Id>, ready: seq<Id>, left: seq<Id>)
    requires Elements(placed) !! Elements(remaining)
    requires forall x :: x in ready ==> x in remaining
    requires forall x :: x in left <==> x in remaining && x !in ready
    ensures Elements(placed) + Elements(ready) !! Elements(left)
  {
    assert forall x :: x in Elements(left) ==> x in Elements(remaining);
  }

  method ReadyIds(g: Graph, remaining: seq<Id>, compare: (Id, Id) -> int) returns (ready: seq<Id>)
    requires Distinct(remaining)
    ensures Distinct(ready) && (Comparator(compare) ==> SortedBy(compare, ready))
    ensures forall x :: x in ready <==> x in remaining && IsReady(g, remaining, x)
  {
    hide IsReady, Comparator;
    var kept := Filter(id => IsReady(g, remaining, id), remaining);
    ready := ToSorted(compare, kept);
    ToSortedIsSorted(compare, kept);
    SameMembers(kept, ready);
  }

  lemma SameMembers(a: seq<Id>, b: seq<Id>)
    requires Distinct(a) && multiset(a) == multiset(b)
    ensures Distinct(b) && forall x :: x in b <==> x in a
  {
    forall x ensures x in b <==> x in a {
      assert x in multiset(a) <==> x in a;
      assert x in multiset(b) <==> x in b;
    }
    DistinctCounts(a);
    CountsDistinct(b);
  }

  lemma {:induction false} DistinctCounts(s: seq<Id>)
    requires Distinct(s)
    ensures forall x | x in s :: multiset(s)[x] == 1
    decreases |s|
  {
    if s != [] {
      var t, last := s[..|s| - 1], s[|s| - 1];
      DistinctCounts(t);
      assert s == t + [last];
      assert last !in t;
    }
  }

  lemma {:induction false} CountsDistinct(s: seq<Id>)
    requires forall x | x in s :: multiset(s)[x] == 1
    ensures Distinct(s)
    decreases |s|
  {
    if s != [] {
      var t, last := s[..|s| - 1], s[|s| - 1];
      assert s == t + [last];
      assert multiset(s) == multiset(t) + multiset{last};
      assert multiset(s)[last] == 1;
      assert last !in t;
      forall x | x in t ensures multiset(t)[x] == 1 {
        assert x in s;
      }
      CountsDistinct(t);
    }
  }

  lemma Shrinks(remaining: seq<Id>, left: seq<Id>, x: Id)
    requires Distinct(left) && Distinct(remaining) && x in remaining && x !in left
    requires forall y | y in left :: y in remaining
    ensures |left| < |remaining|
  {
    DistinctSize(left);
    DistinctSize(remaining);
    SubsetSize(Elements(left), Elements(remaining), x);
  }

  lemma StartPending(e: set<(Id, Id)>, compare: (Id, Id) -> int, remaining: seq<Id>)
    ensures IsLayering(e, compare, []) && Pending(e, [], remaining, 0)
  {
    forall x | x in remaining ensures HasChain(e, x, 0) {
      assert ReachIn(e, x, x, 0);
    }
  }

  lemma Stuck(g: Graph, ids: set<Id>, remaining: seq<Id>, placed: seq<Id>)
    requires remaining != [] && ids == Elements(placed) + Elements(remaining)
    requires forall x | x in remaining :: !IsReady(g, remaining, x)
    ensures !Acyclic(Induced(g, ids))
  {
    var e, waiting := Induced(g, ids), Elements(remaining);
    forall v | v in waiting ensures exists u | u in waiting :: (u, v) in e {
      var u :| u in Lookup(g.predecessors, v) && u in remaining;
      assert u in waiting && (u, v) in e;
    }
    if Acyclic(e) {
      AllWaiting(e, waiting, remaining[0]);
    }
  }
}
