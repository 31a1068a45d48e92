/** The iterative search for dependency cycles (src/planning/graph.ts). */
module CycleFinder {
  import opened Digraph
  import opened FrameStack
  import opened Workflow

  datatype Mark = Visiting | Done

  /** The marks agree with the path and with the order of completion. */
  ghost predicate Marked(state: map<Id, Mark>, path: seq<Id>, finished: seq<Id>)
  {
    && Distinct(path)
    && Distinct(finished)
    && (forall x :: x in path <==> x in state && state[x] == Visiting)
    && (forall x :: x in finished <==> x in state && state[x] == Done)
  }

  ghost predicate Indexed(path: seq<Id>, pathIndex: map<Id, nat>)
  {
    && (forall x :: x in pathIndex <==> x in path)
    && (forall x | x in pathIndex :: pathIndex[x] < |path| && path[pathIndex[x]] == x)
  }

  /** What is recorded are cycles, no two with the same members. */
  ghost predicate Recorded(e: set<(Id, Id)>, cycles: seq<seq<Id>>, keys: set<set<Id>>)
  {
    && (forall c | c in cycles :: IsCycle(e, c) && Elements(c) in keys)
    && (forall k | k in keys :: exists c | c in cycles :: Elements(c) == k)
    && DistinctMembers(cycles)
  }

  /** The pairs of nodes that a recorded cycle holds together. */
  ghost function Covered(keys: set<set<Id>>): set<(Id, Id)>
  {
    set k, a, b | k in keys && a in k && b in k :: (a, b)
  }

  lemma CoveredGrows(e: set<(Id, Id)>, keys: set<set<Id>>, more: set<set<Id>>, finished: seq<Id>)
    requires keys <= more && SuccessorsFirst(e - Covered(keys), finished)
    ensures Covered(keys) <= Covered(more) && SuccessorsFirst(e - Covered(more), finished)
  {
  }

  ghost predicate DistinctMembers(cycles: seq<seq<Id>>)
  {
    forall i, j | 0 <= i < j < |cycles| :: Elements(cycles[i]) != Elements(cycles[j])
  }

  lemma PushMarked(state: map<Id, Mark>, path: seq<Id>, finished: seq<Id>, x: Id)
    requires Marked(state, path, finished) && x !in state
    ensures Marked(state[x := Visiting], path + [x], finished)
  {
  }

  lemma PushIndexed(path: seq<Id>, pathIndex: map<Id, nat>, x: Id)
    requires Indexed(path, pathIndex) && x !in path
    ensures Indexed(path + [x], pathIndex[x := |path|])
  {
  }

  lemma PopMarked(state: map<Id, Mark>, path: seq<Id>, finished: seq<Id>, x: Id)
    requires Marked(state, path + [x], finished)
    ensures Marked(state[x := Done], path, finished + [x])
  {
    var whole := path + [x];
    assert whole[|path|] == x;
    assert x in whole;
    assert Distinct(path) by {
      forall i, j | 0 <= i < j < |path| ensures path[i] != path[j] {
        assert whole[i] != whole[j];
      }
    }
    forall y ensures y in path <==> y in whole && y != x {
      if y in path {
        var i :| 0 <= i < |path| && path[i] == y;
        assert whole[i] != whole[|path|];
      }
    }
  }

  lemma PopPath(e: set<(Id, Id)>, state: map<Id, Mark>, path: seq<Id>, finished: seq<Id>, pathIndex: map<Id, nat>, x: Id)
    requires Marked(state, path + [x], finished) && Indexed(path + [x], pathIndex) && IsChain(e, path + [x])
    ensures Indexed(path, pathIndex - {x}) && IsChain(e, path) && x in state
  {
    var whole := path + [x];
    assert whole[|path|] == x;
    forall y ensures y in path <==> y in whole && y != x {
      if y in path {
        var i :| 0 <= i < |path| && path[i] == y;
        assert whole[i] != whole[|path|];
      }
    }
    assert x in whole;
    forall i, j | 0 <= i < j < |path| && j == i + 1 ensures (path[i], path[j]) in e {
      assert (whole[i], whole[j]) in e;
    }
  }

  lemma KeyCovers(keys: set<set<Id>>, cycle: seq<Id>)
    requires cycle != [] && Elements(cycle) in keys
    ensures (cycle[|cycle| - 1], cycle[0]) in Covered(keys)
  {
    assert cycle[|cycle| - 1] in Elements(cycle) && cycle[0] in Elements(cycle);
  }

  lemma RecordNew(e: set<(Id, Id)>, cycles: seq<seq<Id>>, keys: set<set<Id>>, c: seq<Id>)
    requires Recorded(e, cycles, keys) && IsCycle(e, c) && Elements(c) !in keys
    ensures Recorded(e, cycles + [c], keys + {Elements(c)})
  {
    var more := cycles + [c];
    assert more[|cycles|] == c;
    forall k | k in keys + {Elements(c)} ensures exists d | d in more :: Elements(d) == k {
      if k in keys {
        var d :| d in cycles && Elements(d) == k;
        assert d in more;
      } else {
        assert c in more;
      }
    }
    forall i, j | 0 <= i < j < |more| ensures Elements(more[i]) != Elements(more[j]) {
      if j == |cycles| {
        assert more[i] in cycles;
      }
    }
  }

  lemma OnPath(state: map<Id, Mark>, path: seq<Id>, finished: seq<Id>, x: Id)
    requires Marked(state, path, finished) && x in state
    ensures state[x] == Visiting ==> x in path
    ensures state[x] == Done ==> x in finished
  {
  }

  class CycleVisitState {
    const adjacency: map<Id, seq<Id>>
    var state: map<Id, Mark>
    var path: seq<Id>
    var pathIndex: map<Id, nat>
    var cycles: seq<seq<Id>>
    var cycleKeys: set<set<Id>>
    ghost var finished: seq<Id>

    ghost predicate Valid()
      reads this
    {
      && Closed(adjacency)
      && state.Keys <= adjacency.Keys
      && Marked(state, path, finished)
      && Indexed(path, pathIndex)
      && IsChain(LiveEdges(adjacency), path)
      && Recorded(LiveEdges(adjacency), cycles, cycleKeys)
      && SuccessorsFirst(LiveEdges(adjacency) - Covered(cycleKeys), finished)
    }

    constructor (adjacency: map<Id, seq<Id>>)
      requires Closed(adjacency)
      ensures Valid() && this.adjacency == adjacency
      ensures path == [] && state == map[] && cycles == [] && finished == []
    {
      this.adjacency := adjacency;
      state, path, pathIndex, cycles, cycleKeys, finished := map[], [], map[], [], {}, [];
    }

    method MarkVisiting(nodeId: Id)
      requires Valid() && nodeId in adjacency && nodeId !in state
      requires path != [] ==> (path[|path| - 1], nodeId) in LiveEdges(adjacency)
      modifies this`state, this`path, this`pathIndex
      ensures Valid()
      ensures path == old(path) + [nodeId] && state == old(state)[nodeId := Visiting]
    {
      PushMarked(state, path, finished, nodeId);
      PushIndexed(path, pathIndex, nodeId);
      AppendChain(LiveEdges(adjacency), path, nodeId);
      state := state[nodeId := Visiting];
      pathIndex := pathIndex[nodeId := |path|];
      path := path + [nodeId];
    }

    method MarkDone(nodeId: Id)
      requires Valid() && path != [] && path[|path| - 1] == nodeId
      requires forall w :: (nodeId, w) in LiveEdges(adjacency) - Covered(cycleKeys) ==> w in finished
      modifies this`state, this`path, this`pathIndex, this`finished
      ensures Valid()
      ensures path == old(path)[..|old(path)| - 1] && state == old(state)[nodeId := Done]
      ensures finished == old(finished) + [nodeId]
    {
      hide Marked, Indexed, Recorded, SuccessorsFirst, IsChain, LiveEdges, Closed, Covered;
      ghost var rest := path[..|path| - 1];
      assert path == rest + [nodeId];
      PopMarked(state, rest, finished, nodeId);
      PopPath(LiveEdges(adjacency), state, rest, finished, pathIndex, nodeId);
      AppendOrdered(LiveEdges(adjacency) - Covered(cycleKeys), finished, nodeId);
      state := state[nodeId := Done];
      pathIndex := pathIndex - {nodeId};
      path := path[..|path| - 1];
      finished := finished + [nodeId];
    }

    /** The part of the path from `nodeId` on is a cycle; it is recorded unless one with the same members is. */
    method RecordCycle(nodeId: Id)
      requires Valid() && nodeId in path
      requires (path[|path| - 1], nodeId) in LiveEdges(adjacency)
      modifies this`cycles, this`cycleKeys
      ensures Valid()
      ensures nodeId in pathIndex && pathIndex[nodeId] < |path| && path[pathIndex[nodeId]] == nodeId
      ensures var cycle := path[pathIndex[nodeId]..];
              && cycleKeys == old(cycleKeys) + {Elements(cycle)}
              && cycles == if Elements(cycle) in old(cycleKeys) then old(cycles) else old(cycles) + [cycle]
      ensures (path[|path| - 1], nodeId) in Covered(cycleKeys)
    {
      hide Recorded, SuccessorsFirst, IsChain, LiveEdges, Closed, IsCycle, Covered;
      hide Distinct;
      if nodeId !in pathIndex {
        assert false;
        return;
      }
      SuffixIsCycle(LiveEdges(adjacency), path, pathIndex[nodeId]);
      var cycle := path[pathIndex[nodeId]..];
      var key := set x | x in cycle;
      assert key == Elements(cycle);
      CoveredGrows(LiveEdges(adjacency), cycleKeys, cycleKeys + {key}, finished);
      KeyCovers(cycleKeys + {key}, cycle);
      if key in cycleKeys {
        assert cycleKeys + {key} == cycleKeys;
        return;
      }
      RecordNew(LiveEdges(adjacency), cycles, cycleKeys, cycle);
      cycleKeys := cycleKeys + {key};
      cycles := cycles + [cycle];
    }

    /** The depth-first visit with an explicit frame stack. */
    method VisitForCycles(startId: Id)
      requires Valid() && path == [] && startId in adjacency && startId !in state
      modifies this
      ensures Valid() && path == [] && startId in state
      ensures old(state).Keys <= state.Keys
    {
      hide Marked, Indexed, Recorded, SuccessorsFirst, IsChain, LiveEdges, IsCycle, Stacked, Explored, Covered;
      var frames := [Frame(0, startId)];
      MarkVisiting(startId);
      assert path == [startId];
      Started(adjacency, Covered(cycleKeys), startId, finished);
      while |frames| > 0
        invariant Valid() && startId in state && old(state).Keys <= state.Keys
        invariant Stacked(adjacency, frames, path)
        invariant Explored(adjacency, Covered(cycleKeys), frames, finished)
        decreases adjacency.Keys - state.Keys, |frames|,
                  if |frames| == 0 then 0 else |Lookup(adjacency, frames[|frames| - 1].nodeId)| - frames[|frames| - 1].index
      {
        var frame := frames[|frames| - 1];
        ghost var rest, i, v := frames[..|frames| - 1], frame.index, frame.nodeId;
        assert frames == rest + [Frame(i, v)];
        var dependents := Lookup(adjacency, frame.nodeId);
        if frame.index >= |dependents| || dependents[frame.index] == "" {
          StackPop(adjacency, rest, path, i, v);
          TopExhausted(adjacency, Covered(cycleKeys), rest, path, finished, i, v);
          ExplorePop(adjacency, Covered(cycleKeys), rest, path, finished, i, v);
          MarkDone(frame.nodeId);
          frames := frames[..|frames| - 1];
          continue;
        }
        var dependentId := dependents[frame.index];
        StackAdvance(adjacency, rest, path, i, v);
        frames := frames[|frames| - 1 := Frame(frame.index + 1, frame.nodeId)];
        assert frames == rest + [Frame(i + 1, v)];
        if dependentId in state && state[dependentId] == Visiting {
          OnPath(state, path, finished, dependentId);
          ghost var before := cycleKeys;
          RecordCycle(dependentId);
          CoveredGrows(LiveEdges(adjacency), before, cycleKeys, finished);
          ExploreExcused(adjacency, Covered(before), Covered(cycleKeys), rest + [Frame(i, v)], finished);
          ExploreFinished(adjacency, Covered(cycleKeys), rest, finished, i, v);
          continue;
        }
        if dependentId in state && state[dependentId] == Done {
          OnPath(state, path, finished, dependentId);
          ExploreFinished(adjacency, Covered(cycleKeys), rest, finished, i, v);
          continue;
        }
        ghost var unvisited := adjacency.Keys - state.Keys;
        StackPush(adjacency, rest, path, i, v);
        ExplorePush(adjacency, Covered(cycleKeys), rest, finished, i, v, dependentId);
        MarkVisiting(dependentId);
        assert dependentId in unvisited && dependentId !in adjacency.Keys - state.Keys;
        frames := frames + [Frame(0, dependentId)];
      }
      StackEmpty(adjacency, path);
    }
  }

  /** The ids of the declared dependents of every node (the adjacency the finder walks). */
  ghost predicate IsAdjacency(nodes: seq<Node>, adjacency: map<Id, seq<Id>>)
  {
    && adjacency.Keys == IdSet(nodes)
    && (forall u | u in adjacency :: adjacency[u] == Ids(Dependents(nodes, u)))
  }

  method BuildAdjacency(nodes: seq<Node>) returns (adjacency: map<Id, seq<Id>>)
    ensures IsAdjacency(nodes, adjacency)
  {
    hide Dependents, Kept;
    var nodeIds := set n | n in nodes :: n.id;
    var index := DependentsByNeed(nodes);
    adjacency := map[];
    for i := 0 to |nodes|
      invariant adjacency.Keys == IdSet(nodes[..i])
      invariant forall u | u in adjacency :: adjacency[u] == Ids(Dependents(nodes, u))
    {
      var id := nodes[i].id;
      AllDeclared(nodes, id);
      adjacency := adjacency[id := Kept(Ids(Lookup(index, id)), nodeIds)];
      assert nodes[..i + 1] == nodes[..i] + [nodes[i]];
    }
    assert nodes[..|nodes|] == nodes;
  }

  /** `ids.filter((id) => nodeIds.has(id))` */
  function Kept(ids: seq<Id>, nodeIds: set<Id>): (r: seq<Id>)
    ensures (forall x | x in ids :: x in nodeIds) ==> r == ids
  {
    if ids == [] then []
    else Kept(ids[..|ids| - 1], nodeIds) + (if ids[|ids| - 1] in nodeIds then [ids[|ids| - 1]] else [])
  }

  lemma AllDeclared(nodes: seq<Node>, need: Id)
    ensures forall x | x in Ids(Dependents(nodes, need)) :: x in IdSet(nodes)
  {
    forall x | x in Ids(Dependents(nodes, need)) ensures x in IdSet(nodes) {
      var i :| 0 <= i < |Dependents(nodes, need)| && Ids(Dependents(nodes, need))[i] == x;
      DependentsMembers(nodes, need, Dependents(nodes, need)[i]);
    }
  }

  lemma AdjacencyClosed(nodes: seq<Node>, adjacency: map<Id, seq<Id>>)
    requires IsAdjacency(nodes, adjacency)
    ensures Closed(adjacency)
  {
    forall u, x | u in adjacency && x in adjacency[u] ensures x in adjacency {
      AllDeclared(nodes, u);
    }
  }

  /** The need `u` of node `j` is walked: no node up to `j` that needs `u` has the empty id. */
  ghost predicate Seen(nodes: seq<Node>, j: int, u: Id)
  {
    && 0 <= j < |nodes| && u in nodes[j].needs
    && forall i | 0 <= i <= j && nodes[i].id == "" :: u !in nodes[i].needs
  }

  /** The declared needs that the finder walks. */
  ghost function SeenNeeds(nodes: seq<Node>): set<(Id, Id)>
  {
    set j, u | 0 <= j < |nodes| && u in nodes[j].needs && Seen(nodes, j, u) && u in IdSet(nodes) :: (u, nodes[j].id)
  }

  ghost predicate LiveIn(ids: seq<Id>, x: Id)
  {
    exists i :: 0 <= i < LiveLength(ids) && ids[i] == x
  }

  lemma {:induction false} LiveAppend(a: seq<Id>, b: seq<Id>, x: Id)
    ensures LiveIn(a + b, x) <==> LiveIn(a, x) || ("" !in a && LiveIn(b, x))
    decreases |a|
  {
    if a == [] {
      assert a + b == b;
    } else {
      assert (a + b)[1..] == a[1..] + b;
      LiveAppend(a[1..], b, x);
      LiveFirst(a, x);
      LiveFirst(a + b, x);
    }
  }

  lemma LiveFirst(ids: seq<Id>, x: Id)
    requires ids != []
    ensures LiveIn(ids, x) <==> ids[0] != "" && (ids[0] == x || LiveIn(ids[1..], x))
  {
    if LiveIn(ids, x) {
      var i :| 0 <= i < LiveLength(ids) && ids[i] == x;
      assert i > 0 ==> ids[1..][i - 1] == x;
    }
    if ids[0] != "" {
      assert ids[0] == x ==> 0 < LiveLength(ids);
      if i :| 0 <= i < LiveLength(ids[1..]) && ids[1..][i] == x {
        assert ids[i + 1] == x;
      }
    }
  }

  lemma {:induction false} HitsLive(n: Node, needs: seq<Id>, u: Id, x: Id)
    ensures LiveIn(Ids(NeedHits(n, needs, u)), x) <==> u in needs && n.id != "" && x == n.id
    decreases |needs|
  {
    if needs != [] {
      var init, last := needs[..|needs| - 1], needs[|needs| - 1];
      HitsLive(n, init, u, x);
      assert needs == init + [last];
      var before := NeedHits(n, init, u);
      if last == u {
        assert Ids(before + [n]) == Ids(before) + [n.id];
        LiveAppend(Ids(before), [n.id], x);
        LiveFirst([n.id], x);
        forall y | y in Ids(before) ensures y == n.id {
          var i :| 0 <= i < |before| && Ids(before)[i] == y;
          NeedHitsMembers(n, init, u, before[i]);
        }
      } else {
        assert before + [] == before;
      }
    }
  }

  lemma {:induction false} DependentsLive(nodes: seq<Node>, u: Id, x: Id)
    ensures LiveIn(Ids(Dependents(nodes, u)), x) <==> exists j :: Seen(nodes, j, u) && nodes[j].id == x
    decreases |nodes|
  {
    hide LiveIn, NeedHits;
    if nodes == [] {
      NothingLive(x);
    } else {
      var init, last := nodes[..|nodes| - 1], nodes[|nodes| - 1];
      var a, b := Dependents(init, u), NeedHits(last, last.needs, u);
      DependentsLive(init, u, x);
      HitsLive(last, last.needs, u, x);
      assert Ids(a + b) == Ids(a) + Ids(b);
      LiveAppend(Ids(a), Ids(b), x);
      BlankDependent(init, u);
      SeenLast(nodes, u, x);
    }
  }

  lemma NothingLive(x: Id)
    ensures !LiveIn(Ids([]), x)
  {
  }

  lemma BlankDependent(nodes: seq<Node>, u: Id)
    ensures "" in Ids(Dependents(nodes, u)) <==> exists i | 0 <= i < |nodes| :: nodes[i].id == "" && u in nodes[i].needs
  {
    var d := Dependents(nodes, u);
    if "" in Ids(d) {
      var k :| 0 <= k < |d| && Ids(d)[k] == "";
      DependentsMembers(nodes, u, d[k]);
      var i :| 0 <= i < |nodes| && nodes[i] == d[k];
    }
    if i :| 0 <= i < |nodes| && nodes[i].id == "" && u in nodes[i].needs {
      DependentsMembers(nodes, u, nodes[i]);
      var k :| 0 <= k < |d| && d[k] == nodes[i];
      assert Ids(d)[k] == "";
    }
  }

  lemma SeenLast(nodes: seq<Node>, u: Id, x: Id)
    requires nodes != []
    ensures var init, last := nodes[..|nodes| - 1], nodes[|nodes| - 1];
            (exists j :: Seen(nodes, j, u) && nodes[j].id == x) <==>
            || (exists j :: Seen(init, j, u) && init[j].id == x)
            || (&& !(exists i | 0 <= i < |init| :: init[i].id == "" && u in init[i].needs)
                && u in last.needs && last.id != "" && x == last.id)
  {
    var init, last := nodes[..|nodes| - 1], nodes[|nodes| - 1];
    forall j | 0 <= j < |init| ensures Seen(nodes, j, u) <==> Seen(init, j, u) {
      assert forall i | 0 <= i <= j :: nodes[i] == init[i];
    }
    assert Seen(nodes, |init|, u) <==>
           u in last.needs && last.id != "" && !(exists i | 0 <= i < |init| :: init[i].id == "" && u in init[i].needs) by {
      assert forall i | 0 <= i < |init| :: nodes[i] == init[i];
    }
  }

  /** What the finder walks are the seen needs; these are all the needs exactly when no node with an empty id needs
      a declared node. */
  lemma AdjacencyEdges(nodes: seq<Node>, adjacency: map<Id, seq<Id>>)
    requires IsAdjacency(nodes, adjacency)
    ensures LiveEdges(adjacency) == SeenNeeds(nodes)
  {
    hide Dependents;
    forall u, x ensures (u, x) in LiveEdges(adjacency) <==> (u, x) in SeenNeeds(nodes) {
      SeenPair(nodes, u, x);
      if u in IdSet(nodes) {
        DependentsLive(nodes, u, x);
        assert (u, x) in LiveEdges(adjacency) <==> LiveIn(adjacency[u], x);
      }
    }
  }

  lemma SeenPair(nodes: seq<Node>, u: Id, x: Id)
    ensures (u, x) in SeenNeeds(nodes) <==> u in IdSet(nodes) && exists j :: Seen(nodes, j, u) && nodes[j].id == x
  {
  }

  lemma SeenAll(nodes: seq<Node>)
    ensures SeenNeeds(nodes) <= NeedEdges(nodes)
    ensures SeenNeeds(nodes) == NeedEdges(nodes) <==> forall u :: (u, "") !in NeedEdges(nodes)
  {
    forall u, x | (u, x) in SeenNeeds(nodes) ensures (u, x) in NeedEdges(nodes) && x != "" {
      SeenPair(nodes, u, x);
      var j :| Seen(nodes, j, u) && nodes[j].id == x;
      NeedEdge(nodes, nodes[j], u);
    }
    if forall u :: (u, "") !in NeedEdges(nodes) {
      forall u, x | (u, x) in NeedEdges(nodes) ensures (u, x) in SeenNeeds(nodes) {
        var n :| n in nodes && u in n.needs && u in IdSet(nodes) && n.id == x;
        var j :| 0 <= j < |nodes| && nodes[j] == n;
        forall i | 0 <= i <= j && nodes[i].id == "" ensures u !in nodes[i].needs {
          assert (u, nodes[i].id) !in NeedEdges(nodes);
        }
        assert Seen(nodes, j, u);
      }
    }
  }

  /** The pairs of nodes that one of the cycles holds together. */
  ghost function Together(cycles: seq<seq<Id>>): set<(Id, Id)>
  {
    set c, a, b | c in cycles && a in c && b in c :: (a, b)
  }

  /** Genuine cycles, no two with the same members, and enough of them: without the edges inside recorded cycles
      the graph is acyclic. */
  ghost predicate CoversCycles(e: set<(Id, Id)>, cycles: seq<seq<Id>>)
  {
    && (forall c | c in cycles :: IsCycle(e, c))
    && DistinctMembers(cycles)
    && Acyclic(e - Together(cycles))
  }

  /** The recorded cycles of a flat node list. */
  method FindDependencyCycles(nodes: seq<Node>) returns (cycles: seq<seq<Id>>)
    ensures CoversCycles(SeenNeeds(nodes), cycles)
  {
    hide Marked, Indexed, IsChain, LiveEdges, Closed, IsCycle, Acyclic, SeenNeeds, Covered, Together;
    var adjacency := BuildAdjacency(nodes);
    AdjacencyClosed(nodes, adjacency);
    AdjacencyEdges(nodes, adjacency);
    var visit := new CycleVisitState(adjacency);
    for i := 0 to |nodes|
      invariant visit.Valid() && visit.adjacency == adjacency && visit.path == []
      invariant IdSet(nodes[..i]) <= visit.state.Keys
    {
      assert nodes[..i + 1] == nodes[..i] + [nodes[i]];
      if nodes[i].id in visit.state {
        continue;
      }
      visit.VisitForCycles(nodes[i].id);
    }
    assert nodes[..|nodes|] == nodes;
    cycles := visit.cycles;
    WholeGraph(adjacency, visit.state, visit.finished, cycles, visit.cycleKeys);
  }

  /** Nothing is recorded exactly when there is no cycle. */
  lemma NoneRecorded(e: set<(Id, Id)>, cycles: seq<seq<Id>>)
    requires CoversCycles(e, cycles)
    ensures cycles == [] <==> Acyclic(e)
  {
    hide Acyclic, IsCycle, DistinctMembers;
    if cycles == [] {
      assert e - Together(cycles) == e;
    } else {
      assert cycles[0] in cycles;
      CycleRefutesAcyclic(e, cycles[0]);
    }
  }

  /** Every cycle has two consecutive nodes inside one recorded cycle. */
  lemma CycleMeetsRecorded(e: set<(Id, Id)>, cycles: seq<seq<Id>>, c: seq<Id>) returns (i: nat, recorded: seq<Id>)
    requires CoversCycles(e, cycles) && IsCycle(e, c)
    ensures recorded in cycles && i < |c|
    ensures c[i] in recorded && c[if i + 1 < |c| then i + 1 else 0] in recorded
  {
    hide Acyclic, DistinctMembers;
    var f := e - Together(cycles);
    if !IsCycle(f, c) {
      if k :| 0 <= k < |c| && (c[k], c[if k + 1 < |c| then k + 1 else 0]) !in f {
        i := k;
        assert (c[i], c[if i + 1 < |c| then i + 1 else 0]) in e;
        recorded :| recorded in cycles && c[i] in recorded && c[if i + 1 < |c| then i + 1 else 0] in recorded;
      } else {
        forall i, j | 0 <= i < j < |c| && j == i + 1 ensures (c[i], c[j]) in f {
          assert (c[i], c[if i + 1 < |c| then i + 1 else 0]) in f;
        }
        assert false;
      }
    } else {
      CycleRefutesAcyclic(f, c);
    }
  }

  /** A finished search has covered every cycle. */
  lemma WholeGraph(adjacency: map<Id, seq<Id>>, state: map<Id, Mark>, finished: seq<Id>,
      cycles: seq<seq<Id>>, keys: set<set<Id>>)
    requires Closed(adjacency) && Marked(state, [], finished) && state.Keys == adjacency.Keys
    requires Recorded(LiveEdges(adjacency), cycles, keys)
    requires SuccessorsFirst(LiveEdges(adjacency) - Covered(keys), finished)
    ensures CoversCycles(LiveEdges(adjacency), cycles)
  {
    KeysTogether(LiveEdges(adjacency), cycles, keys);
    hide IsCycle, Acyclic, Covered, Together, LiveEdges, SuccessorsFirst;
    SuccessorsFirstAcyclic(LiveEdges(adjacency) - Covered(keys), adjacency, finished, state);
  }

  lemma KeysTogether(e: set<(Id, Id)>, cycles: seq<seq<Id>>, keys: set<set<Id>>)
    requires Recorded(e, cycles, keys)
    ensures Covered(keys) == Together(cycles)
  {
    hide IsCycle, DistinctMembers;
    forall a, b | (a, b) in Covered(keys) ensures (a, b) in Together(cycles) {
      var k :| k in keys && a in k && b in k;
      var c :| c in cycles && Elements(c) == k;
    }
    forall a, b | (a, b) in Together(cycles) ensures (a, b) in Covered(keys) {
      var c :| c in cycles && a in c && b in c;
      assert a in Elements(c) && b in Elements(c);
    }
  }

  lemma SuccessorsFirstAcyclic(e: set<(Id, Id)>, adjacency: map<Id, seq<Id>>, finished: seq<Id>, state: map<Id, Mark>)
    requires Marked(state, [], finished) && state.Keys == adjacency.Keys
    requires e <= LiveEdges(adjacency) && SuccessorsFirst(e, finished)
    ensures Acyclic(e)
  {
    forall a, b | (a, b) in e ensures -IndexOf(finished, a) < -IndexOf(finished, b) {
      assert a in state && a in finished;
      var i := IndexOf(finished, a);
      assert b in finished[..i];
      var j :| 0 <= j < i && finished[j] == b;
    }
    PotentialAcyclic(e, x => -IndexOf(finished, x));
  }

  /** The recorded cycles are cycles of the declared needs. */
  lemma CyclesOfNeeds(nodes: seq<Node>, cycles: seq<seq<Id>>)
    requires CoversCycles(SeenNeeds(nodes), cycles)
    ensures forall c | c in cycles :: IsCycle(NeedEdges(nodes), c)
  {
    hide NeedEdges, SeenNeeds, Acyclic;
    SeenAll(nodes);
  }
}
