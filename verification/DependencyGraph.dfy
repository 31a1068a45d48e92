/** The dependency graph and its iterative topological sort (src/planning/graph.ts). */
module DependencyGraph {
  import opened Digraph
  import opened FrameStack
  import opened Workflow
  import opened Wrappers

  /** The graph library's view: node ids in insertion order with both adjacency lists. */
  datatype Graph = Graph(ids: seq<Id>, predecessors: map<Id, seq<Id>>, successors: map<Id, seq<Id>>)

  ghost predicate WellFormed(g: Graph)
  {
    && Distinct(g.ids)
    && g.predecessors.Keys == Elements(g.ids)
    && g.successors.Keys == Elements(g.ids)
    && (forall v | v in g.predecessors :: Distinct(g.predecessors[v]))
    && (forall u | u in g.successors :: Distinct(g.successors[u]))
    && (forall u, v :: u in Lookup(g.predecessors, v) <==> v in Lookup(g.successors, u))
  }

  lemma WellFormedClosed(g: Graph)
    requires WellFormed(g)
    ensures Closed(g.predecessors)
  {
    forall v, u | v in g.predecessors && u in g.predecessors[v] ensures u in g.predecessors {
      assert u in Lookup(g.predecessors, v);
      assert v in Lookup(g.successors, u);
    }
  }

  function SetNode(g: Graph, id: Id): Graph
  {
    if id in g.predecessors then g
    else Graph(g.ids + [id], g.predecessors[id := []], g.successors[id := []])
  }

  /** Adding an edge twice has no effect. */
  function SetEdge(g: Graph, u: Id, v: Id): Graph
  {
    if u in Lookup(g.predecessors, v) then g
    else
      g.(predecessors := g.predecessors[v := Lookup(g.predecessors, v) + [u]],
         successors := g.successors[u := Lookup(g.successors, u) + [v]])
  }

  lemma SetNodeKeeps(g: Graph, id: Id)
    requires WellFormed(g)
    ensures WellFormed(SetNode(g, id))
    ensures Elements(SetNode(g, id).ids) == Elements(g.ids) + {id}
    ensures forall v :: Lookup(SetNode(g, id).predecessors, v) == Lookup(g.predecessors, v)
    ensures SetNode(g, id).ids == if id in g.ids then g.ids else g.ids + [id]
  {
    assert id in g.predecessors <==> id in g.ids;
    assert id in g.successors <==> id in g.ids;
    var h := SetNode(g, id);
    forall u
      ensures Lookup(h.successors, u) == Lookup(g.successors, u)
      ensures Lookup(h.predecessors, u) == Lookup(g.predecessors, u)
    {
    }
    assert forall u, v :: u in Lookup(g.predecessors, v) <==> v in Lookup(g.successors, u);
    assert Elements(h.ids) == Elements(g.ids) + {id};
  }

  lemma SetEdgeKeeps(g: Graph, u: Id, v: Id)
    requires WellFormed(g) && u in g.ids && v in g.ids
    ensures WellFormed(SetEdge(g, u, v)) && SetEdge(g, u, v).ids == g.ids
    ensures forall x, y :: x in Lookup(SetEdge(g, u, v).predecessors, y) <==>
                           x in Lookup(g.predecessors, y) || (x == u && y == v)
  {
    hide Lookup, Distinct;
    assert u in g.predecessors && v in g.predecessors && u in g.successors && v in g.successors;
    var h := SetEdge(g, u, v);
    if u !in Lookup(g.predecessors, v) {
      AppendLookup(g.predecessors, v, u);
      AppendLookup(g.successors, u, v);
      forall x, y
        ensures x in Lookup(h.predecessors, y) <==> x in Lookup(g.predecessors, y) || (x == u && y == v)
        ensures y in Lookup(h.successors, x) <==> y in Lookup(g.successors, x) || (x == u && y == v)
      {
      }
      DistinctAppend(g.predecessors, v, u);
      assert v !in Lookup(g.successors, u);
      DistinctAppend(g.successors, u, v);
    }
  }

  lemma DistinctAppend(m: map<Id, seq<Id>>, key: Id, x: Id)
    requires key in m && x !in Lookup(m, key) && forall y | y in m :: Distinct(m[y])
    ensures var more := m[key := Lookup(m, key) + [x]]; forall y | y in more :: Distinct(more[y])
  {
  }

  lemma AppendLookup(m: map<Id, seq<Id>>, key: Id, x: Id)
    requires key in m
    ensures forall y, z :: z in Lookup(m[key := Lookup(m, key) + [x]], y) <==> z in Lookup(m, y) || (y == key && z == x)
  {
    var more := m[key := Lookup(m, key) + [x]];
    forall y, z ensures z in Lookup(more, y) <==> z in Lookup(m, y) || (y == key && z == x) {
      if y == key {
        assert Lookup(more, y) == Lookup(m, y) + [x];
      } else {
        assert Lookup(more, y) == Lookup(m, y);
      }
    }
  }

  /** The edge (d, nodes[i].id) has been entered for the nodes before `i` and the first `j` needs of node `i`. */
  ghost predicate Entered(nodes: seq<Node>, i: nat, j: nat, u: Id, v: Id)
  {
    || (u, v) in EdgesOf(nodes, i)
    || (i < |nodes| && v == nodes[i].id && u in IdSet(nodes) && exists k ::
          0 <= k < j && k < |nodes[i].needs| && nodes[i].needs[k] == u)
  }

  ghost function EdgesOf(nodes: seq<Node>, i: nat): set<(Id, Id)>
  {
    set n, d | n in nodes[..if i <= |nodes| then i else |nodes|] && d in n.needs && d in IdSet(nodes) :: (d, n.id)
  }

  lemma EnteredAll(nodes: seq<Node>, i: nat)
    requires i < |nodes|
    ensures forall u, v :: Entered(nodes, i, |nodes[i].needs|, u, v) <==> Entered(nodes, i + 1, 0, u, v)
  {
    assert nodes[..i + 1] == nodes[..i] + [nodes[i]];
    forall u, v ensures Entered(nodes, i, |nodes[i].needs|, u, v) <==> Entered(nodes, i + 1, 0, u, v) {
      if (u, v) in EdgesOf(nodes, i + 1) {
        var n :| n in nodes[..i + 1] && u in n.needs && u in IdSet(nodes) && n.id == v;
        if n !in nodes[..i] {
          assert n == nodes[i];
        }
      }
      if (u, v) in EdgesOf(nodes, i) {
        var n :| n in nodes[..i] && u in n.needs && u in IdSet(nodes) && n.id == v;
        assert n in nodes[..i + 1];
      }
      if v == nodes[i].id && u in IdSet(nodes) && u in nodes[i].needs {
        assert nodes[i] in nodes[..i + 1];
      }
    }
  }

  lemma EnteredStep(nodes: seq<Node>, i: nat, j: nat)
    requires i < |nodes| && j < |nodes[i].needs|
    ensures forall u, v :: Entered(nodes, i, j + 1, u, v) <==>
                           Entered(nodes, i, j, u, v) || (u == nodes[i].needs[j] && v == nodes[i].id && u in IdSet(nodes))
  {
    hide EdgesOf, IdSet;
    forall u, v
      ensures Entered(nodes, i, j + 1, u, v) <==>
              Entered(nodes, i, j, u, v) || (u == nodes[i].needs[j] && v == nodes[i].id && u in IdSet(nodes))
    {
    }
  }

  /** The graph holds exactly the edges entered so far. */
  ghost predicate Holds(g: Graph, nodes: seq<Node>, i: nat, j: nat)
  {
    forall u, v :: u in Lookup(g.predecessors, v) <==> Entered(nodes, i, j, u, v)
  }

  lemma HoldsEmpty(g: Graph, nodes: seq<Node>)
    requires forall v :: Lookup(g.predecessors, v) == []
    ensures Holds(g, nodes, 0, 0)
  {
    NothingEntered(nodes);
  }

  lemma HoldsStep(g: Graph, nodes: seq<Node>, i: nat, j: nat)
    requires i < |nodes| && j < |nodes[i].needs| && Holds(g, nodes, i, j) && WellFormed(g)
    requires Elements(g.ids) == IdSet(nodes)
    ensures nodes[i].needs[j] !in IdSet(nodes) ==> Holds(g, nodes, i, j + 1)
    ensures nodes[i].needs[j] in IdSet(nodes) ==>
              && nodes[i].needs[j] in g.ids && nodes[i].id in g.ids
              && Holds(SetEdge(g, nodes[i].needs[j], nodes[i].id), nodes, i, j + 1)
  {
    assert nodes[i].id in IdSet(nodes) && forall x :: x in Elements(g.ids) ==> x in g.ids;
    hide Entered, SetEdge, WellFormed, IdSet;
    EnteredStep(nodes, i, j);
    if nodes[i].needs[j] in IdSet(nodes) {
      SetEdgeKeeps(g, nodes[i].needs[j], nodes[i].id);
    }
  }

  lemma HoldsNext(g: Graph, nodes: seq<Node>, i: nat)
    requires i < |nodes| && Holds(g, nodes, i, |nodes[i].needs|)
    ensures Holds(g, nodes, i + 1, 0)
  {
    hide Entered;
    EnteredAll(nodes, i);
  }

  lemma HoldsAll(g: Graph, nodes: seq<Node>)
    requires Holds(g, nodes, |nodes|, 0)
    ensures forall u, v :: u in Lookup(g.predecessors, v) <==> (u, v) in NeedEdges(nodes)
  {
    hide Entered, NeedEdges;
    EverythingEntered(nodes);
  }

  method CreateDependencyGraph(nodes: seq<Node>) returns (g: Graph)
    ensures WellFormed(g) && Elements(g.ids) == IdSet(nodes)
    ensures UniqueIds(nodes) ==> g.ids == Ids(nodes)
    ensures forall u, v :: u in Lookup(g.predecessors, v) <==> (u, v) in NeedEdges(nodes)
  {
    var nodeIds := set n | n in nodes :: n.id;
    hide WellFormed, Entered, SetNode, SetEdge, Holds, NeedEdges;
    g := Graph([], map[], map[]);
    EmptyGraph();
    for i := 0 to |nodes|
      invariant WellFormed(g) && Elements(g.ids) == IdSet(nodes[..i])
      invariant forall v :: Lookup(g.predecessors, v) == []
      invariant UniqueIds(nodes) ==> g.ids == Ids(nodes[..i])
    {
      SetNodeKeeps(g, nodes[i].id);
      AppendId(nodes, i, g.ids);
      g := SetNode(g, nodes[i].id);
    }
    assert nodes[..|nodes|] == nodes;
    assert nodeIds == IdSet(nodes);
    hide UniqueIds, IdSet, Lookup;
    HoldsEmpty(g, nodes);
    for i := 0 to |nodes|
      invariant WellFormed(g) && Elements(g.ids) == nodeIds
      invariant UniqueIds(nodes) ==> g.ids == Ids(nodes)
      invariant Holds(g, nodes, i, 0)
    {
      var node := nodes[i];
      for j := 0 to |node.needs|
        invariant WellFormed(g) && Elements(g.ids) == nodeIds
        invariant UniqueIds(nodes) ==> g.ids == Ids(nodes)
        invariant Holds(g, nodes, i, j)
      {
        HoldsStep(g, nodes, i, j);
        if node.needs[j] in nodeIds {
          SetEdgeKeeps(g, node.needs[j], node.id);
          g := SetEdge(g, node.needs[j], node.id);
        }
      }
      HoldsNext(g, nodes, i);
    }
    HoldsAll(g, nodes);
  }

  lemma EmptyGraph()
    ensures WellFormed(Graph([], map[], map[]))
  {
  }

  lemma AppendId(nodes: seq<Node>, i: nat, ids: seq<Id>)
    requires i < |nodes| && Elements(ids) == IdSet(nodes[..i])
    ensures IdSet(nodes[..i + 1]) == IdSet(nodes[..i]) + {nodes[i].id}
    ensures UniqueIds(nodes) ==> nodes[i].id !in ids
    ensures Ids(nodes[..i + 1]) == Ids(nodes[..i]) + [nodes[i].id]
  {
    assert nodes[..i + 1] == nodes[..i] + [nodes[i]];
    if nodes[i].id in ids {
      assert nodes[i].id in Elements(ids);
      var n :| n in nodes[..i] && n.id == nodes[i].id;
      var k :| 0 <= k < i && nodes[k] == n;
    }
  }

  lemma NothingEntered(nodes: seq<Node>)
    ensures forall u, v :: !Entered(nodes, 0, 0, u, v)
  {
  }

  lemma EverythingEntered(nodes: seq<Node>)
    ensures forall u, v :: Entered(nodes, |nodes|, 0, u, v) <==> (u, v) in NeedEdges(nodes)
  {
    assert nodes[..|nodes|] == nodes;
  }

  /** Where a running sort stands: completed nodes, the nodes on the frame stack, and both together. */
  ghost predicate Tracked(visited: set<Id>, inStack: set<Id>, path: seq<Id>, results: seq<Id>)
  {
    && Distinct(path)
    && Distinct(results)
    && inStack == Elements(path)
    && visited == inStack + Elements(results)
    && inStack !! Elements(results)
  }

  ghost function Sinks(g: Graph): set<Id>
  {
    set s | s in g.ids && Lookup(g.successors, s) == []
  }

  /** Every visited node is upstream of a sink along edges the traversal can follow. */
  ghost predicate Upstream(g: Graph, visited: set<Id>)
  {
    forall x | x in visited :: UpstreamOfSink(g, x)
  }

  ghost predicate UpstreamOfSink(g: Graph, x: Id)
  {
    exists s | s in Sinks(g) :: ReachStar(LiveEdges(g.predecessors), s, x)
  }

  lemma PushTracked(visited: set<Id>, inStack: set<Id>, path: seq<Id>, results: seq<Id>, x: Id)
    requires Tracked(visited, inStack, path, results) && x !in visited
    ensures Tracked(visited + {x}, inStack + {x}, path + [x], results)
  {
    assert Elements(path + [x]) == Elements(path) + {x};
    assert forall y :: y in path ==> y in Elements(path);
  }

  lemma PopTracked(visited: set<Id>, inStack: set<Id>, path: seq<Id>, results: seq<Id>, x: Id)
    requires Tracked(visited, inStack, path + [x], results)
    ensures Tracked(visited, inStack - {x}, path, results + [x])
  {
    var whole := path + [x];
    assert whole[|path|] == x;
    forall i, j | 0 <= i < j < |path| ensures path[i] != path[j] {
      assert whole[i] != whole[j];
    }
    assert Elements(whole) == Elements(path) + {x};
    assert Elements(results + [x]) == Elements(results) + {x};
    forall k | 0 <= k < |path| ensures path[k] != x {
      assert whole[k] != whole[|path|];
    }
    assert x in Elements(whole);
    assert x !in Elements(results);
    assert forall y :: y in results ==> y in Elements(results);
  }

  lemma PushUpstream(g: Graph, visited: set<Id>, v: Id, u: Id)
    requires Upstream(g, visited) && v in visited && (v, u) in LiveEdges(g.predecessors)
    ensures Upstream(g, visited + {u})
  {
    var s :| s in Sinks(g) && ReachStar(LiveEdges(g.predecessors), s, v);
    EdgeReach(LiveEdges(g.predecessors), v, u);
    ReachTrans(LiveEdges(g.predecessors), s, v, u);
  }

  /** A predecessor on the stack closes a cycle. */
  lemma StackHit(e: set<(Id, Id)>, visited: set<Id>, inStack: set<Id>, path: seq<Id>, results: seq<Id>, u: Id)
    requires Tracked(visited, inStack, path, results) && IsChain(e, path)
    requires path != [] && u in inStack && (path[|path| - 1], u) in e
    ensures !Acyclic(e)
  {
    var k :| 0 <= k < |path| && path[k] == u;
    SuffixIsCycle(e, path, k);
    CycleRefutesAcyclic(e, path[k..]);
  }

  class TopologicalVisit {
    const graph: Graph
    var visited: set<Id>
    var inStack: set<Id>
    var results: seq<Id>
    var frames: seq<Frame>
    ghost var path: seq<Id>

    ghost predicate Valid()
      reads this
    {
      && WellFormed(graph)
      && visited <= Elements(graph.ids)
      && Tracked(visited, inStack, path, results)
      && IsChain(LiveEdges(graph.predecessors), path)
      && SuccessorsFirst(LiveEdges(graph.predecessors), results)
      && Upstream(graph, visited)
    }

    constructor (graph: Graph)
      requires WellFormed(graph)
      ensures Valid() && this.graph == graph
      ensures frames == [] && path == [] && visited == {} && inStack == {}
    {
      this.graph := graph;
      visited, inStack, results, frames, path := {}, {}, [], [], [];
    }

    method PushTopologicalFrame(nodeId: Id)
      requires Valid() && nodeId in graph.ids && nodeId !in visited
      requires if path == [] then nodeId in Sinks(graph) else (path[|path| - 1], nodeId) in LiveEdges(graph.predecessors)
      modifies this`visited, this`inStack, this`frames, this`path
      ensures Valid()
      ensures path == old(path) + [nodeId] && visited == old(visited) + {nodeId}
      ensures frames == old(frames) + [Frame(0, nodeId)]
    {
      hide Tracked, LiveEdges, SuccessorsFirst, IsChain, Upstream, WellFormed;
      PushTracked(visited, inStack, path, results, nodeId);
      AppendChain(LiveEdges(graph.predecessors), path, nodeId);
      if path == [] {
        AddSink(graph, visited, nodeId);
      } else {
        TopVisited(visited, inStack, path, results);
        PushUpstream(graph, visited, path[|path| - 1], nodeId);
      }
      visited := visited + {nodeId};
      inStack := inStack + {nodeId};
      frames := frames + [Frame(0, nodeId)];
      path := path + [nodeId];
    }

    method CompleteTopologicalFrame(frame: Frame)
      requires Valid() && path != [] && path[|path| - 1] == frame.nodeId && frames != []
      requires forall u :: (frame.nodeId, u) in LiveEdges(graph.predecessors) ==> u in results
      modifies this`inStack, this`results, this`frames, this`path
      ensures Valid()
      ensures path == old(path)[..|old(path)| - 1] && results == old(results) + [frame.nodeId]
      ensures frames == old(frames)[..|old(frames)| - 1]
    {
      hide Tracked, LiveEdges, SuccessorsFirst, IsChain, Upstream, WellFormed;
      ghost var rest := path[..|path| - 1];
      assert path == rest + [frame.nodeId];
      PopTracked(visited, inStack, rest, results, frame.nodeId);
      PopChain(LiveEdges(graph.predecessors), rest, frame.nodeId);
      AppendOrdered(LiveEdges(graph.predecessors), results, frame.nodeId);
      inStack := inStack - {frame.nodeId};
      results := results + [frame.nodeId];
      frames := frames[..|frames| - 1];
      path := path[..|path| - 1];
    }

    /** One visit from `startId`; `ok` is false when the source throws its cycle error. */
    method VisitForTopologicalOrder(startId: Id) returns (ok: bool)
      requires Valid() && path == [] && frames == []
      requires startId in graph.ids && startId in Sinks(graph) && startId !in visited
      modifies this
      ensures ok ==> Valid() && path == [] && frames == []
      ensures ok ==> inStack == {}
      ensures ok ==> visited * Sinks(graph) == old(visited) * Sinks(graph) + {startId}
      ensures !ok ==> !Acyclic(LiveEdges(graph.predecessors))
    {
      hide Tracked, LiveEdges, SuccessorsFirst, IsChain, Upstream, WellFormed, Stacked, Explored, Sinks, Acyclic;
      PushTopologicalFrame(startId);
      assert path == [startId] && frames == [Frame(0, startId)];
      Started(graph.predecessors, {}, startId, results);
      WellFormedClosed(graph);
      while |frames| > 0
        invariant Valid()
        invariant visited * Sinks(graph) == old(visited) * Sinks(graph) + {startId}
        invariant Stacked(graph.predecessors, frames, path)
        invariant Explored(graph.predecessors, {}, frames, results)
        decreases Elements(graph.ids) - visited, |frames|,
                  if |frames| == 0 then 0
                  else |Lookup(graph.predecessors, frames[|frames| - 1].nodeId)| - frames[|frames| - 1].index
      {
        var frame := frames[|frames| - 1];
        ghost var rest, i, v := frames[..|frames| - 1], frame.index, frame.nodeId;
        assert frames == rest + [Frame(i, v)];
        var predecessors := Lookup(graph.predecessors, frame.nodeId);
        if frame.index >= |predecessors| || predecessors[frame.index] == "" {
          StackPop(graph.predecessors, rest, path, i, v);
          TopExhausted(graph.predecessors, {}, rest, path, results, i, v);
          ExplorePop(graph.predecessors, {}, rest, path, results, i, v);
          CompleteTopologicalFrame(frame);
          continue;
        }
        var predecessorId := predecessors[frame.index];
        StackAdvance(graph.predecessors, rest, path, i, v);
        frames := frames[|frames| - 1 := Frame(frame.index + 1, frame.nodeId)];
        assert frames == rest + [Frame(i + 1, v)];
        if predecessorId in inStack {
          StackHit(LiveEdges(graph.predecessors), visited, inStack, path, results, predecessorId);
          return false;
        }
        if predecessorId in visited {
          Completed(visited, inStack, path, results, predecessorId);
          ExploreFinished(graph.predecessors, {}, rest, results, i, v);
          continue;
        }
        ghost var unvisited := Elements(graph.ids) - visited;
        StackPush(graph.predecessors, rest, path, i, v);
        ExplorePush(graph.predecessors, {}, rest, results, i, v, predecessorId);
        KnownNode(graph, predecessorId);
        PredecessorNotSink(graph, v, predecessorId);
        PushTopologicalFrame(predecessorId);
        assert predecessorId in unvisited && predecessorId !in Elements(graph.ids) - visited;
      }
      StackEmpty(graph.predecessors, path);
      NothingStacked(visited, inStack, results);
      return true;
    }
  }

  lemma NothingStacked(visited: set<Id>, inStack: set<Id>, results: seq<Id>)
    requires Tracked(visited, inStack, [], results)
    ensures inStack == {}
  {
  }

  lemma PredecessorNotSink(g: Graph, v: Id, u: Id)
    requires WellFormed(g) && (v, u) in LiveEdges(g.predecessors)
    ensures u !in Sinks(g)
  {
    assert u in Lookup(g.predecessors, v);
  }

  lemma AddSink(g: Graph, visited: set<Id>, s: Id)
    requires Upstream(g, visited) && s in Sinks(g)
    ensures Upstream(g, visited + {s})
  {
    assert ReachStar(LiveEdges(g.predecessors), s, s);
  }

  lemma TopVisited(visited: set<Id>, inStack: set<Id>, path: seq<Id>, results: seq<Id>)
    requires Tracked(visited, inStack, path, results) && path != []
    ensures path[|path| - 1] in visited
  {
    assert path[|path| - 1] in Elements(path);
  }

  lemma Completed(visited: set<Id>, inStack: set<Id>, path: seq<Id>, results: seq<Id>, x: Id)
    requires Tracked(visited, inStack, path, results) && x in visited && x !in inStack
    ensures x in results
  {
    assert x in Elements(results);
  }

  lemma PopChain(e: set<(Id, Id)>, path: seq<Id>, x: Id)
    requires IsChain(e, path + [x])
    ensures IsChain(e, path)
  {
    var whole := path + [x];
    forall i, j | 0 <= i < j < |path| && j == i + 1 ensures (path[i], path[j]) in e {
      assert (whole[i], whole[j]) in e;
    }
  }

  lemma KnownNode(g: Graph, x: Id)
    requires WellFormed(g) && x in g.predecessors
    ensures x in g.ids
  {
    assert x in Elements(g.ids);
  }

  /** All nodes once, every predecessor before its dependents. */
  ghost predicate IsDependencyOrder(g: Graph, order: seq<Id>)
  {
    && Distinct(order)
    && Elements(order) == Elements(g.ids)
    && SuccessorsFirst(LiveEdges(g.predecessors), order)
  }

  /** The topological order, or `None` when the source throws its cycle error. */
  method TopologicalDependencyOrder(g: Graph) returns (r: Option<seq<Id>>)
    requires WellFormed(g)
    ensures r.Some? ==> IsDependencyOrder(g, r.value)
    ensures r.Some? <==> Acyclic(LiveEdges(g.predecessors)) && forall x | x in g.ids :: UpstreamOfSink(g, x)
  {
    hide Tracked, LiveEdges, SuccessorsFirst, IsChain, WellFormed, UpstreamOfSink, Acyclic;
    var visit := new TopologicalVisit(g);
    for i := 0 to |g.ids|
      invariant visit.Valid() && visit.graph == g && visit.path == [] && visit.frames == [] && visit.inStack == {}
      invariant Sinks(g) * Elements(g.ids[..i]) == Sinks(g) * visit.visited
    {
      var sink := g.ids[i];
      assert g.ids[..i + 1] == g.ids[..i] + [sink];
      assert Elements(g.ids[..i + 1]) == Elements(g.ids[..i]) + {sink};
      if Lookup(g.successors, sink) != [] {
        assert sink !in Sinks(g);
        assert Sinks(g) * Elements(g.ids[..i + 1]) == Sinks(g) * Elements(g.ids[..i]);
        continue;
      }
      assert sink in Sinks(g);
      DistinctAt(g, i);
      assert sink !in Elements(g.ids[..i]);
      assert sink !in visit.visited by {
        assert sink !in Sinks(g) * visit.visited;
      }
      ghost var before := visit.visited;
      var ok := visit.VisitForTopologicalOrder(sink);
      if !ok {
        return None;
      }
      assert Sinks(g) * visit.visited == Sinks(g) * before + {sink};
      assert Sinks(g) * Elements(g.ids[..i + 1]) == Sinks(g) * Elements(g.ids[..i]) + {sink};
    }
    assert g.ids[..|g.ids|] == g.ids;
    assert Sinks(g) <= visit.visited by {
      assert Sinks(g) <= Elements(g.ids);
      assert Sinks(g) * Elements(g.ids) == Sinks(g);
    }
    AllOrNotAll(g, visit.visited, visit.results);
    if |visit.visited| != |g.ids| {
      return None;
    }
    return Some(visit.results);
  }

  lemma DistinctAt(g: Graph, i: nat)
    requires WellFormed(g) && i < |g.ids|
    ensures g.ids[i] !in g.ids[..i]
  {
  }

  /** The visited count decides whether every node is upstream of a sink; if so the results order them all. */
  lemma AllOrNotAll(g: Graph, visited: set<Id>, results: seq<Id>)
    requires WellFormed(g) && visited <= Elements(g.ids)
    requires Tracked(visited, {}, [], results) && Upstream(g, visited) && Sinks(g) <= visited
    requires SuccessorsFirst(LiveEdges(g.predecessors), results)
    ensures |visited| == |g.ids| ==> IsDependencyOrder(g, results) && Acyclic(LiveEdges(g.predecessors))
    ensures |visited| == |g.ids| <==> forall x | x in g.ids :: UpstreamOfSink(g, x)
  {
    hide LiveEdges, SuccessorsFirst, UpstreamOfSink, Sinks, Acyclic;
    assert visited == Elements(results);
    DistinctSize(g.ids);
    if |visited| == |g.ids| {
      SameSize(visited, Elements(g.ids));
      ResultsAcyclic(g, results);
      forall x | x in g.ids ensures UpstreamOfSink(g, x) {
        assert x in Elements(g.ids);
      }
    }
    if forall x | x in g.ids :: UpstreamOfSink(g, x) {
      forall x | x in g.ids ensures x in visited {
        VisitedUpstream(g, visited, results, x);
      }
      assert visited == Elements(g.ids);
    }
  }

  lemma SameSize<T>(a: set<T>, b: set<T>)
    requires a <= b && |a| == |b|
    ensures a == b
  {
    if x :| x in b && x !in a {
      SubsetSize(a, b, x);
    }
  }

  lemma ResultsAcyclic(g: Graph, results: seq<Id>)
    requires WellFormed(g) && Distinct(results) && Elements(results) == Elements(g.ids)
    requires SuccessorsFirst(LiveEdges(g.predecessors), results)
    ensures Acyclic(LiveEdges(g.predecessors))
  {
    var e := LiveEdges(g.predecessors);
    forall a, b | (a, b) in e ensures -IndexOf(results, a) < -IndexOf(results, b) {
      assert a in Elements(g.ids) && a in Elements(results);
      var i := IndexOf(results, a);
      assert b in results[..i];
      var j :| 0 <= j < i && results[j] == b;
    }
    PotentialAcyclic(e, x => -IndexOf(results, x));
  }

  lemma VisitedUpstream(g: Graph, visited: set<Id>, results: seq<Id>, x: Id)
    requires visited == Elements(results) && Sinks(g) <= visited
    requires SuccessorsFirst(LiveEdges(g.predecessors), results)
    requires UpstreamOfSink(g, x)
    ensures x in visited
  {
    var e := LiveEdges(g.predecessors);
    var s :| s in Sinks(g) && ReachStar(e, s, x);
    if s != x {
      var n: nat :| n >= 1 && ReachIn(e, s, x, n);
      forall a, b | (a, b) in e && a in visited ensures b in visited {
        var i :| 0 <= i < |results| && results[i] == a;
        assert b in results[..i];
      }
      DownstreamClosed(e, visited, s, x, n);
    }
  }
}
