/** Finite directed graphs given as edge sets: counted reachability and its laws, acyclicity, cycles given as lists of
    distinct nodes, potentials that refute cycles, the ancestor count that ranks the nodes of an acyclic graph, nodes
    that reach a sink, and reversal. Every graph argument of the project is about these edge sets. */
module Digraph {

  /** `b` is reached from `a` by exactly `n` edges. */
  ghost predicate ReachIn<T(!new)>(e: set<(T, T)>, a: T, b: T, n: nat)
  {
    if n == 0 then a == b else exists c :: ReachIn(e, a, c, n - 1) && (c, b) in e
  }

  /** `b` is reached from `a` by one or more edges. */
  ghost predicate Reach<T(!new)>(e: set<(T, T)>, a: T, b: T)
  {
    exists n: nat :: n >= 1 && ReachIn(e, a, b, n)
  }

  ghost predicate ReachStar<T(!new)>(e: set<(T, T)>, a: T, b: T)
  {
    a == b || Reach(e, a, b)
  }

  ghost predicate Acyclic<T(!new)>(e: set<(T, T)>)
  {
    forall a :: !Reach(e, a, a)
  }

  /** A cycle listed from its first node: distinct nodes, consecutive edges and the closing edge. */
  ghost predicate IsCycle<T>(e: set<(T, T)>, c: seq<T>)
  {
    && |c| >= 1
    && Distinct(c)
    && IsChain(e, c)
    && (c[|c| - 1], c[0]) in e
  }

  ghost predicate IsChain<T>(e: set<(T, T)>, c: seq<T>)
  {
    forall i, j | 0 <= i < j < |c| && j == i + 1 :: (c[i], c[j]) in e
  }

  ghost predicate Distinct<T>(s: seq<T>)
  {
    forall i, j | 0 <= i < j < |s| :: s[i] != s[j]
  }

  /** `a` stands before `b` in the source. */
  ghost predicate Precedes<T>(source: seq<T>, a: T, b: T)
  {
    exists p, q | 0 <= p < q < |source| :: source[p] == a && source[q] == b
  }

  /** The list takes its elements from the source in the source's order, none of them twice unless the source has it
      twice. */
  ghost predicate OrderedIn<T>(r: seq<T>, source: seq<T>)
  {
    (forall x | x in r :: x in source) && forall i, j | 0 <= i < j < |r| :: Precedes(source, r[i], r[j])
  }

  lemma OrderedCons<T>(x: T, r: seq<T>, source: seq<T>, kept: bool)
    requires OrderedIn(r, source)
    ensures OrderedIn((if kept then [x] else []) + r, [x] + source)
  {
    var more, longer := (if kept then [x] else []) + r, [x] + source;
    var k := if kept then 1 else 0;
    forall i, j | 0 <= i < j < |more| ensures Precedes(longer, more[i], more[j]) {
      if i < k {
        assert r[j - k] in r;
        var q :| 0 <= q < |source| && source[q] == r[j - k];
        assert longer[0] == more[i] && longer[q + 1] == more[j];
      } else {
        assert Precedes(source, r[i - k], r[j - k]);
        var p, q :| 0 <= p < q < |source| && source[p] == r[i - k] && source[q] == r[j - k];
        assert longer[p + 1] == more[i] && longer[q + 1] == more[j];
      }
    }
  }

  lemma EdgeReach<T(!new)>(e: set<(T, T)>, a: T, b: T)
    requires (a, b) in e
    ensures Reach(e, a, b)
  {
    assert ReachIn(e, a, a, 0);
    assert ReachIn(e, a, b, 1);
  }

  lemma {:induction false} ReachInTrans<T(!new)>(e: set<(T, T)>, a: T, b: T, c: T, n: nat, m: nat)
    requires ReachIn(e, a, b, n) && ReachIn(e, b, c, m)
    ensures ReachIn(e, a, c, n + m)
    decreases m
  {
    if m > 0 {
      var d :| ReachIn(e, b, d, m - 1) && (d, c) in e;
      ReachInTrans(e, a, b, d, n, m - 1);
      assert ReachIn(e, a, d, n + m - 1);
    }
  }

  lemma ReachTrans<T(!new)>(e: set<(T, T)>, a: T, b: T, c: T)
    requires ReachStar(e, a, b) && ReachStar(e, b, c)
    ensures ReachStar(e, a, c)
    ensures Reach(e, a, b) || Reach(e, b, c) ==> Reach(e, a, c)
  {
    if Reach(e, a, b) && Reach(e, b, c) {
      var n: nat :| n >= 1 && ReachIn(e, a, b, n);
      var m: nat :| m >= 1 && ReachIn(e, b, c, m);
      ReachInTrans(e, a, b, c, n, m);
    }
  }

  /** The last edge of a non-empty path. */
  lemma LastStep<T(!new)>(e: set<(T, T)>, a: T, b: T) returns (c: T)
    requires Reach(e, a, b)
    ensures ReachStar(e, a, c) && (c, b) in e
  {
    var n: nat :| n >= 1 && ReachIn(e, a, b, n);
    c :| ReachIn(e, a, c, n - 1) && (c, b) in e;
    if n - 1 >= 1 {
      assert Reach(e, a, c);
    }
  }

  /** The first edge of a non-empty path. */
  lemma {:induction false} FirstStep<T(!new)>(e: set<(T, T)>, a: T, b: T, n: nat) returns (c: T)
    requires n >= 1 && ReachIn(e, a, b, n)
    ensures (a, c) in e && ReachIn(e, c, b, n - 1)
    decreases n
  {
    var d :| ReachIn(e, a, d, n - 1) && (d, b) in e;
    if n == 1 {
      c := b;
    } else {
      c := FirstStep(e, a, d, n - 1);
    }
  }

  lemma {:induction false} ReachInMonotone<T(!new)>(e: set<(T, T)>, f: set<(T, T)>, a: T, b: T, n: nat)
    requires e <= f && ReachIn(e, a, b, n)
    ensures ReachIn(f, a, b, n)
    decreases n
  {
    if n > 0 {
      var c :| ReachIn(e, a, c, n - 1) && (c, b) in e;
      ReachInMonotone(e, f, a, c, n - 1);
    }
  }

  lemma ReachMonotone<T(!new)>(e: set<(T, T)>, f: set<(T, T)>, a: T, b: T)
    requires e <= f && Reach(e, a, b)
    ensures Reach(f, a, b)
  {
    var n: nat :| n >= 1 && ReachIn(e, a, b, n);
    ReachInMonotone(e, f, a, b, n);
  }

  lemma SubgraphAcyclic<T(!new)>(e: set<(T, T)>, f: set<(T, T)>)
    requires e <= f && Acyclic(f)
    ensures Acyclic(e)
  {
    forall a ensures !Reach(e, a, a) {
      if Reach(e, a, a) {
        ReachMonotone(e, f, a, a);
      }
    }
  }

  /** A potential that grows along every edge grows by at least the length of every path. */
  lemma {:induction false} PotentialGrows<T(!new)>(e: set<(T, T)>, f: T -> int, a: T, b: T, n: nat)
    requires forall x, y :: (x, y) in e ==> f(x) < f(y)
    requires ReachIn(e, a, b, n)
    ensures f(a) + n <= f(b)
    decreases n
  {
    if n > 0 {
      var c :| ReachIn(e, a, c, n - 1) && (c, b) in e;
      PotentialGrows(e, f, a, c, n - 1);
    }
  }

  lemma PotentialAcyclic<T(!new)>(e: set<(T, T)>, f: T -> int)
    requires forall x, y :: (x, y) in e ==> f(x) < f(y)
    ensures Acyclic(e)
  {
    forall a ensures !Reach(e, a, a) {
      if Reach(e, a, a) {
        var n: nat :| n >= 1 && ReachIn(e, a, a, n);
        PotentialGrows(e, f, a, a, n);
      }
    }
  }

  ghost function Tails<T>(e: set<(T, T)>): set<T>
  {
    set x | x in e :: x.0
  }

  ghost function Ancestors<T(!new)>(e: set<(T, T)>, v: T): set<T>
  {
    set a | a in Tails(e) && Reach(e, a, v)
  }

  /** The number of proper ancestors; it ranks every acyclic graph. */
  ghost function Rank<T(!new)>(e: set<(T, T)>, v: T): nat
  {
    |Ancestors(e, v)|
  }

  lemma SubsetSize<T>(a: set<T>, b: set<T>, x: T)
    requires a <= b && x in b && x !in a
    ensures |a| < |b|
  {
    assert a <= b - {x};
    SubsetSizeLe(a, b - {x});
  }

  lemma {:induction false} SubsetSizeLe<T>(a: set<T>, b: set<T>)
    requires a <= b
    ensures |a| <= |b|
    decreases |a|
  {
    if x :| x in a {
      SubsetSizeLe(a - {x}, b - {x});
    }
  }

  lemma RankGrows<T(!new)>(e: set<(T, T)>, a: T, b: T)
    requires Acyclic(e) && (a, b) in e
    ensures Rank(e, a) < Rank(e, b)
  {
    EdgeReach(e, a, b);
    forall x | x in Ancestors(e, a) ensures x in Ancestors(e, b) {
      ReachTrans(e, x, a, b);
    }
    assert (a, b).0 in Tails(e);
    SubsetSize(Ancestors(e, a), Ancestors(e, b), a);
  }

  lemma RankGrowsReach<T(!new)>(e: set<(T, T)>, a: T, b: T)
    requires Acyclic(e) && Reach(e, a, b)
    ensures Rank(e, a) < Rank(e, b)
  {
    var n: nat :| n >= 1 && ReachIn(e, a, b, n);
    forall x, y | (x, y) in e ensures Rank(e, x) < Rank(e, y) {
      RankGrows(e, x, y);
    }
    PotentialGrows(e, v => Rank(e, v), a, b, n);
  }

  /** A chain is a path from its first to its last node. */
  lemma {:induction false} ChainReach<T(!new)>(e: set<(T, T)>, c: seq<T>)
    requires |c| >= 1 && IsChain(e, c)
    ensures ReachIn(e, c[0], c[|c| - 1], |c| - 1)
    decreases |c|
  {
    if |c| > 1 {
      var d := c[..|c| - 1];
      ChainReach(e, d);
      assert (c[|c| - 2], c[|c| - 1]) in e;
    }
  }

  lemma CycleRefutesAcyclic<T(!new)>(e: set<(T, T)>, c: seq<T>)
    requires IsCycle(e, c)
    ensures !Acyclic(e)
  {
    ChainReach(e, c);
    assert ReachIn(e, c[0], c[0], |c|);
    assert Reach(e, c[0], c[0]);
  }

  ghost function Elements<T>(s: seq<T>): set<T>
  {
    set x | x in s
  }

  lemma {:induction false} DistinctSize<T>(s: seq<T>)
    requires Distinct(s)
    ensures |Elements(s)| == |s|
    decreases |s|
  {
    if s != [] {
      var t := s[..|s| - 1];
      DistinctSize(t);
      assert Elements(s) == Elements(t) + {s[|s| - 1]};
    }
  }

  ghost function IndexOf<T(!new)>(s: seq<T>, x: T): int
  {
    if i :| 0 <= i < |s| && s[i] == x then i else -1
  }

  /** In an acyclic graph every node of a finite set closed under successors reaches a node without successors. */
  lemma {:induction false} ReachesSink<T(!new)>(e: set<(T, T)>, vertices: set<T>, v: T) returns (sink: T)
    requires Acyclic(e) && v in vertices
    requires forall a, b :: (a, b) in e && a in vertices ==> b in vertices
    ensures sink in vertices && ReachStar(e, v, sink)
    ensures forall b :: (sink, b) !in e
    decreases Beyond(e, vertices, v)
  {
    if w :| (v, w) in e {
      RankGrows(e, v, w);
      assert Beyond(e, vertices, w) < Beyond(e, vertices, v) by {
        EdgeReach(e, v, w);
        assert Beyond(e, vertices, w) <= Beyond(e, vertices, v) by {
          forall x | x in Beyond(e, vertices, w) ensures x in Beyond(e, vertices, v) {
            ReachTrans(e, v, w, x);
          }
        }
        assert w in Beyond(e, vertices, v) && w !in Beyond(e, vertices, w);
      }
      sink := ReachesSink(e, vertices, w);
      EdgeReach(e, v, w);
      ReachTrans(e, v, w, sink);
    } else {
      sink := v;
    }
  }

  ghost function Beyond<T(!new)>(e: set<(T, T)>, vertices: set<T>, v: T): set<T>
  {
    set x | x in vertices && Reach(e, v, x)
  }

  /** A set closed under predecessors contains everything upstream of its members. */
  lemma {:induction false} UpstreamClosed<T(!new)>(e: set<(T, T)>, closed: set<T>, a: T, b: T, n: nat)
    requires forall x, y :: (x, y) in e && y in closed ==> x in closed
    requires b in closed && ReachIn(e, a, b, n)
    ensures a in closed
    decreases n
  {
    if n > 0 {
      var c :| ReachIn(e, a, c, n - 1) && (c, b) in e;
      UpstreamClosed(e, closed, a, c, n - 1);
    }
  }

  /** A set closed under successors contains everything downstream of its members. */
  lemma {:induction false} DownstreamClosed<T(!new)>(e: set<(T, T)>, closed: set<T>, a: T, b: T, n: nat)
    requires forall x, y :: (x, y) in e && x in closed ==> y in closed
    requires a in closed && ReachIn(e, a, b, n)
    ensures b in closed
    decreases n
  {
    if n > 0 {
      var c :| ReachIn(e, a, c, n - 1) && (c, b) in e;
      DownstreamClosed(e, closed, a, c, n - 1);
    }
  }

  ghost function Transpose<T>(e: set<(T, T)>): set<(T, T)>
  {
    set x | x in e :: (x.1, x.0)
  }

  lemma TransposeEdge<T>(e: set<(T, T)>, a: T, b: T)
    ensures (a, b) in e <==> (b, a) in Transpose(e)
  {
    if (a, b) in e {
      var x := (a, b);
      assert (x.1, x.0) in Transpose(e);
    }
  }

  lemma {:induction false} TransposeReachIn<T(!new)>(e: set<(T, T)>, a: T, b: T, n: nat)
    requires ReachIn(e, a, b, n)
    ensures ReachIn(Transpose(e), b, a, n)
    decreases n
  {
    if n > 0 {
      var c := FirstStep(e, a, b, n);
      TransposeReachIn(e, c, b, n - 1);
      TransposeEdge(e, a, c);
    }
  }

  lemma TransposeReach<T(!new)>(e: set<(T, T)>, a: T, b: T)
    requires Reach(e, a, b)
    ensures Reach(Transpose(e), b, a)
  {
    var n: nat :| n >= 1 && ReachIn(e, a, b, n);
    TransposeReachIn(e, a, b, n);
  }

  lemma TransposeTwice<T>(e: set<(T, T)>)
    ensures Transpose(Transpose(e)) == e
  {
    forall a: T, b: T ensures (a, b) in Transpose(Transpose(e)) <==> (a, b) in e {
      TransposeEdge(e, a, b);
      TransposeEdge(Transpose(e), b, a);
    }
  }

  lemma TransposeAcyclic<T(!new)>(e: set<(T, T)>)
    requires Acyclic(e)
    ensures Acyclic(Transpose(e))
  {
    TransposeTwice(e);
    forall a ensures !Reach(Transpose(e), a, a) {
      if Reach(Transpose(e), a, a) {
        TransposeReach(Transpose(e), a, a);
      }
    }
  }
}
