/** Breadth-first search over the dependents index (src/planning/graph.ts). */
module Reachability {
  import opened Digraph
  import opened Workflow

  type NodeIndex = map<Id, seq<Node>>

  /** (u, n.id) when `n` is listed under `u`. */
  ghost function IndexEdges(index: NodeIndex): set<(Id, Id)>
  {
    set u, n | u in index && n in index[u] :: (u, n.id)
  }

  /** `n` is listed under `nodeId` or under an id downstream of it: one or more index steps away. */
  ghost predicate Downstream(index: NodeIndex, nodeId: Id, n: Node)
  {
    exists u :: ReachStar(IndexEdges(index), nodeId, u) && n in Lookup(index, u)
  }

  ghost predicate SomeDownstream(index: NodeIndex, nodeId: Id, matches: Node -> bool)
  {
    exists n :: Downstream(index, nodeId, n) && matches(n)
  }

  /** Nodes with the same id match alike. */
  ghost predicate DecidedById(matches: Node -> bool)
  {
    forall m: Node, n: Node | m.id == n.id :: matches(m) == matches(n)
  }

  ghost function Listed(index: NodeIndex): set<Id>
  {
    set u, n | u in index && n in index[u] :: n.id
  }

  /** The nodes a search tests, in order, as long as none matches: of the nodes it meets under one id, the first. */
  ghost function Met(index: NodeIndex, queue: seq<Node>, visited: set<Id>): seq<Node>
    requires forall n | n in queue :: n.id in Listed(index)
    decreases Listed(index) - visited, |queue|
  {
    if queue == [] then []
    else
      var node, rest := queue[0], queue[1..];
      if node.id in visited then Met(index, rest, visited)
      else
        QueueListed(index, node, rest, visited);
        [node] + Met(index, rest + Lookup(index, node.id), visited + {node.id})
  }

  lemma QueueListed(index: NodeIndex, node: Node, rest: seq<Node>, visited: set<Id>)
    requires node.id in Listed(index) && (forall n | n in rest :: n.id in Listed(index)) && node.id !in visited
    ensures forall n | n in rest + Lookup(index, node.id) :: n.id in Listed(index)
    ensures Listed(index) - (visited + {node.id}) < Listed(index) - visited
  {
    assert node.id in Listed(index) - visited;
  }

  lemma StartListed(index: NodeIndex, nodeId: Id)
    ensures forall n | n in Lookup(index, nodeId) :: n.id in Listed(index)
  {
  }

  /** The nodes that are tested from a start. */
  ghost function Tested(index: NodeIndex, nodeId: Id): seq<Node>
  {
    StartListed(index, nodeId);
    Met(index, Lookup(index, nodeId), {})
  }

  ghost predicate Found(index: NodeIndex, nodeId: Id, matches: Node -> bool)
  {
    exists n | n in Tested(index, nodeId) :: matches(n)
  }

  /** Every dependent of a visited id, and of the start, is visited or waiting. */
  ghost predicate Frontier(index: NodeIndex, nodeId: Id, visited: set<Id>, queue: seq<Node>)
  {
    forall u, n | (u == nodeId || u in visited) && n in Lookup(index, u) :: n.id in visited || n in queue
  }

  lemma DownstreamStep(index: NodeIndex, nodeId: Id, m: Node, n: Node)
    requires Downstream(index, nodeId, m) && n in Lookup(index, m.id)
    ensures Downstream(index, nodeId, n)
  {
    var u :| ReachStar(IndexEdges(index), nodeId, u) && m in Lookup(index, u);
    assert (u, m.id) in IndexEdges(index);
    EdgeReach(IndexEdges(index), u, m.id);
    ReachTrans(IndexEdges(index), nodeId, u, m.id);
  }

  /** A closed visited set contains everything downstream. */
  lemma VisitedAll(index: NodeIndex, nodeId: Id, visited: set<Id>, n: Node)
    requires Frontier(index, nodeId, visited, []) && Downstream(index, nodeId, n)
    ensures n.id in visited
  {
    var e := IndexEdges(index);
    var u :| ReachStar(e, nodeId, u) && n in Lookup(index, u);
    if u != nodeId {
      var k: nat :| k >= 1 && ReachIn(e, nodeId, u, k);
      var first := FirstStep(e, nodeId, u, k);
      forall x, y | (x, y) in e && x in visited ensures y in visited {
        var m :| m in Lookup(index, x) && m.id == y;
      }
      var m :| m in Lookup(index, nodeId) && m.id == first;
      DownstreamClosed(e, visited, first, u, k - 1);
    }
  }

  /** One step of what a search meets. */
  lemma MetStep(index: NodeIndex, queue: seq<Node>, visited: set<Id>)
    requires queue != [] && forall n | n in queue :: n.id in Listed(index)
    ensures queue == [queue[0]] + queue[1..]
    ensures queue[0].id in visited ==> Met(index, queue, visited) == Met(index, queue[1..], visited)
    ensures queue[0].id !in visited ==>
              && (forall n | n in queue[1..] + Lookup(index, queue[0].id) :: n.id in Listed(index))
              && Met(index, queue, visited) ==
                 [queue[0]] + Met(index, queue[1..] + Lookup(index, queue[0].id), visited + {queue[0].id})
              && Listed(index) - (visited + {queue[0].id}) < Listed(index) - visited
  {
    if queue[0].id !in visited {
      QueueListed(index, queue[0], queue[1..], visited);
    }
  }

  /** What is tested lies downstream, under ids not visited before. */
  lemma {:induction false} MetDownstream(index: NodeIndex, nodeId: Id, queue: seq<Node>, visited: set<Id>)
    requires forall n | n in queue :: n.id in Listed(index) && Downstream(index, nodeId, n)
    ensures forall n | n in Met(index, queue, visited) :: Downstream(index, nodeId, n) && n.id !in visited
    decreases Listed(index) - visited, |queue|
  {
    hide Downstream;
    if queue != [] {
      var node, rest := queue[0], queue[1..];
      MetStep(index, queue, visited);
      hide Met, Listed;
      if node.id in visited {
        MetDownstream(index, nodeId, rest, visited);
      } else {
        forall n | n in Lookup(index, node.id) ensures Downstream(index, nodeId, n) {
          DownstreamStep(index, nodeId, node, n);
        }
        MetDownstream(index, nodeId, rest + Lookup(index, node.id), visited + {node.id});
      }
    }
  }

  /** No two tested nodes share an id. */
  lemma {:induction false} MetDistinct(index: NodeIndex, nodeId: Id, queue: seq<Node>, visited: set<Id>)
    requires forall n | n in queue :: n.id in Listed(index) && Downstream(index, nodeId, n)
    ensures forall m, n | m in Met(index, queue, visited) && n in Met(index, queue, visited) && m.id == n.id :: m == n
    decreases Listed(index) - visited, |queue|
  {
    hide Downstream;
    if queue != [] {
      var node, rest := queue[0], queue[1..];
      MetStep(index, queue, visited);
      hide Met, Listed;
      if node.id in visited {
        MetDistinct(index, nodeId, rest, visited);
      } else {
        var next := rest + Lookup(index, node.id);
        forall n | n in Lookup(index, node.id) ensures Downstream(index, nodeId, n) {
          DownstreamStep(index, nodeId, node, n);
        }
        MetDownstream(index, nodeId, next, visited + {node.id});
        MetDistinct(index, nodeId, next, visited + {node.id});
      }
    }
  }

  /** Every id downstream was visited before or is tested. */
  lemma {:induction false} MetCovers(index: NodeIndex, nodeId: Id, queue: seq<Node>, visited: set<Id>, n: Node)
    requires forall m | m in queue :: m.id in Listed(index) && Downstream(index, nodeId, m)
    requires Frontier(index, nodeId, visited, queue) && Downstream(index, nodeId, n)
    ensures n.id in visited || exists m | m in Met(index, queue, visited) :: m.id == n.id
    decreases Listed(index) - visited, |queue|
  {
    hide Downstream, Frontier;
    if queue == [] {
      VisitedAll(index, nodeId, visited, n);
    } else {
      var node, rest := queue[0], queue[1..];
      MetStep(index, queue, visited);
      hide Met, Listed;
      if node.id in visited {
        Skipped(index, nodeId, visited, node, rest);
        MetCovers(index, nodeId, rest, visited, n);
      } else {
        Expanded(index, nodeId, visited, node, rest);
        MetCovers(index, nodeId, rest + Lookup(index, node.id), visited + {node.id}, n);
      }
    }
  }

  lemma TestedDownstream(index: NodeIndex, nodeId: Id)
    ensures forall n | n in Tested(index, nodeId) :: Downstream(index, nodeId, n)
    ensures forall m, n | m in Tested(index, nodeId) && n in Tested(index, nodeId) && m.id == n.id :: m == n
    ensures forall n | Downstream(index, nodeId, n) :: exists m | m in Tested(index, nodeId) :: m.id == n.id
  {
    hide Downstream, Met;
    Seeded(index, nodeId);
    var queue := Lookup(index, nodeId);
    MetDownstream(index, nodeId, queue, {});
    MetDistinct(index, nodeId, queue, {});
    forall n | Downstream(index, nodeId, n) ensures exists m | m in Tested(index, nodeId) :: m.id == n.id {
      MetCovers(index, nodeId, queue, {}, n);
    }
  }

  /** No two different nodes downstream share an id. */
  ghost predicate OneDownstreamPerId(index: NodeIndex, nodeId: Id)
  {
    forall m, n | Downstream(index, nodeId, m) && Downstream(index, nodeId, n) && m.id == n.id :: m == n
  }

  /** A search is right about every match exactly when no two nodes downstream of its start share an id; and about one match
      whenever that does not tell nodes of one id apart. */
  lemma SearchExact(index: NodeIndex, nodeId: Id)
    ensures (forall matches :: Found(index, nodeId, matches) <==> SomeDownstream(index, nodeId, matches)) <==>
            OneDownstreamPerId(index, nodeId)
    ensures forall matches | DecidedById(matches) ::
              Found(index, nodeId, matches) <==> SomeDownstream(index, nodeId, matches)
    ensures forall matches :: Found(index, nodeId, matches) ==> SomeDownstream(index, nodeId, matches)
  {
    hide Downstream, Tested, OneDownstreamPerId, Found, SomeDownstream, DecidedById;
    forall matches
      ensures Found(index, nodeId, matches) ==> SomeDownstream(index, nodeId, matches)
      ensures OneDownstreamPerId(index, nodeId) || DecidedById(matches) ==>
                (Found(index, nodeId, matches) <==> SomeDownstream(index, nodeId, matches))
    {
      FoundExact(index, nodeId, matches);
    }
    if !OneDownstreamPerId(index, nodeId) {
      var matches := Missed(index, nodeId);
    }
  }

  lemma FoundExact(index: NodeIndex, nodeId: Id, matches: Node -> bool)
    ensures Found(index, nodeId, matches) ==> SomeDownstream(index, nodeId, matches)
    ensures OneDownstreamPerId(index, nodeId) || DecidedById(matches) ==>
              (Found(index, nodeId, matches) <==> SomeDownstream(index, nodeId, matches))
  {
    hide Downstream, Tested;
    TestedDownstream(index, nodeId);
    if n :| Downstream(index, nodeId, n) && matches(n) {
      var m :| m in Tested(index, nodeId) && m.id == n.id;
    }
  }

  /** Two nodes under one id downstream: a match for the one that is not tested. */
  lemma Missed(index: NodeIndex, nodeId: Id) returns (matches: Node -> bool)
    requires !OneDownstreamPerId(index, nodeId)
    ensures SomeDownstream(index, nodeId, matches) && !Found(index, nodeId, matches)
  {
    hide Downstream, Tested;
    TestedDownstream(index, nodeId);
    var m, n :| Downstream(index, nodeId, m) && Downstream(index, nodeId, n) && m.id == n.id && m != n;
    var missed := if m in Tested(index, nodeId) then n else m;
    matches := (x: Node) => x == missed;
    assert matches(missed);
  }

  method HasReachableDependent(nodeId: Id, index: NodeIndex, matches: Node -> bool) returns (found: bool)
    ensures found <==> Found(index, nodeId, matches)
  {
    var visited: set<Id> := {};
    var queue := Lookup(index, nodeId);
    StartListed(index, nodeId);
    assert Tested(index, nodeId) == Met(index, queue, visited);
    hide Listed, Tested, Met;
    while |queue| > 0
      invariant forall n | n in queue :: n.id in Listed(index)
      invariant Found(index, nodeId, matches) <==> exists n | n in Met(index, queue, visited) :: matches(n)
      decreases Listed(index) - visited, |queue|
    {
      MetStep(index, queue, visited);
      var node := queue[0];
      queue := queue[1..];
      if node.id in visited {
        continue;
      }
      visited := visited + {node.id};
      if matches(node) {
        return true;
      }
      queue := queue + Lookup(index, node.id);
    }
    NothingMet(index, visited);
    return false;
  }

  lemma NothingMet(index: NodeIndex, visited: set<Id>)
    ensures Met(index, [], visited) == []
  {
  }

  lemma Seeded(index: NodeIndex, nodeId: Id)
    ensures forall n | n in Lookup(index, nodeId) :: Downstream(index, nodeId, n) && n.id in Listed(index)
    ensures Frontier(index, nodeId, {}, Lookup(index, nodeId))
  {
    assert ReachStar(IndexEdges(index), nodeId, nodeId);
  }

  lemma Skipped(index: NodeIndex, nodeId: Id, visited: set<Id>, node: Node, rest: seq<Node>)
    requires Frontier(index, nodeId, visited, [node] + rest) && node.id in visited
    ensures Frontier(index, nodeId, visited, rest)
  {
  }

  lemma Expanded(index: NodeIndex, nodeId: Id, visited: set<Id>, node: Node, rest: seq<Node>)
    requires Frontier(index, nodeId, visited, [node] + rest) && Downstream(index, nodeId, node)
    ensures Frontier(index, nodeId, visited + {node.id}, rest + Lookup(index, node.id))
    ensures forall n | n in Lookup(index, node.id) :: Downstream(index, nodeId, n)
  {
    hide Downstream;
    forall n | n in Lookup(index, node.id) ensures Downstream(index, nodeId, n) {
      DownstreamStep(index, nodeId, node, n);
    }
  }

  // ---------------------------------------------------------------- the same search over another index

  /** What is tested depends on the entries alone. */
  lemma {:induction false} MetSame(index: NodeIndex, other: NodeIndex, queue: seq<Node>, visited: set<Id>)
    requires forall id :: Lookup(index, id) == Lookup(other, id)
    requires forall n | n in queue :: n.id in Listed(index) && n.id in Listed(other)
    ensures Met(index, queue, visited) == Met(other, queue, visited)
    decreases Listed(index) - visited, |queue|
  {
    if queue != [] {
      var node, rest := queue[0], queue[1..];
      if node.id in visited {
        MetSame(index, other, rest, visited);
      } else {
        QueueListed(index, node, rest, visited);
        QueueListed(other, node, rest, visited);
        MetSame(index, other, rest + Lookup(index, node.id), visited + {node.id});
      }
    }
  }

  lemma TestedSame(index: NodeIndex, other: NodeIndex, nodeId: Id)
    requires forall id :: Lookup(index, id) == Lookup(other, id)
    ensures Tested(index, nodeId) == Tested(other, nodeId)
  {
    StartListed(index, nodeId);
    StartListed(other, nodeId);
    MetSame(index, other, Lookup(index, nodeId), {});
  }
}
