/** Order in lowered plans (src/argo-graph.ts). */
module PlanOrder {
  // When the lowering keeps the order of a plan, read off the declared plan alone.

  import opened ArgoGraph
  import opened DependencyRefs
  import opened Digraph
  import opened EventOrder
  import opened FlatGraph
  import opened LeafOrder
  import opened Lowering
  import opened Unrolling
  import opened Workflow
  import opened Wrappers

  // ---------------------------------------------------------------- what is seen of a forest

  lemma DepsAgree(nodes: seq<Node>)
    requires UniqueIds(Flatten(nodes)) && Resolvable(Index(nodes))
    ensures DirectDeps(nodes) == TaskDeps(nodes)
  {
    hide Places, Flatten, Index, Resolvable, ResolveOne, Stands, ResolveExecutableDependencyIds;
    forall x, b ensures (x, b) in DirectDeps(nodes) <==> (x, b) in TaskDeps(nodes) {
      if (x, b) in DirectDeps(nodes) {
        var p :| p in Places(nodes, [], None) && p.node.Task? && p.node.id == b
                 && x in ResolveExecutableDependencyIds(Index(nodes), p.inherited + p.node.needs);
        NeedsAgree(nodes, p.inherited + p.node.needs, x);
      }
      if (x, b) in TaskDeps(nodes) {
        var p :| p in Places(nodes, [], None) && p.node.Task? && p.node.id == b && x in Index(nodes)
                 && Stands(nodes, p.inherited + p.node.needs, x);
        NeedsAgree(nodes, p.inherited + p.node.needs, x);
      }
    }
  }

  lemma NeedsAgree(nodes: seq<Node>, needs: seq<Id>, x: Id)
    requires UniqueIds(Flatten(nodes)) && Resolvable(Index(nodes))
    ensures x in ResolveExecutableDependencyIds(Index(nodes), needs) <==> x in Index(nodes) && Stands(nodes, needs, x)
  {
    hide Flatten, Index, Resolvable, ResolveOne, ReachStar, ResolveExecutableDependencyIds;
    ResolveMembers(Index(nodes), needs, x);
    forall m | m in needs ensures x in ResolveOne(Index(nodes), m) <==> StandsFor(Index(nodes), m, x) {
      OneAgrees(nodes, m, x);
    }
  }

  lemma OneAgrees(nodes: seq<Node>, id: Id, x: Id)
    requires UniqueIds(Flatten(nodes)) && Resolvable(Index(nodes))
    ensures x in ResolveOne(Index(nodes), id) <==> StandsFor(Index(nodes), id, x)
  {
    hide Flatten, Index, Resolvable, ResolveOne, StandsFor;
    IndexOfForest(nodes);
    ResolveOneMeans(Index(nodes), id, x);
  }

  lemma SeeResolved(nodes: seq<Node>, id: Id, x: Id)
    requires UniqueIds(Flatten(nodes)) && Resolvable(Index(nodes)) && x in ResolveOne(Index(nodes), id)
    ensures ReachStar(SeeEdges(nodes), x, id) && Executable(nodes, x)
  {
    hide Flatten, Index, Resolvable, ResolveOne, StandsFor, SeeEdges;
    OneAgrees(nodes, id, x);
    StandsSeen(nodes, id, x);
  }

  /** Of a forest, what is seen is the flat graph's order. */
  lemma SeenIsFlat(nodes: seq<Node>, a: Id, id: Id)
    requires Forest(nodes) && Resolvable(Index(nodes)) && Executable(nodes, a)
    ensures ReachStar(SeeEdges(nodes), a, id) <==> Covers(nodes, id, a)
    ensures Executable(nodes, id) ==> (Reach(SeeEdges(nodes), a, id) <==> Reach(DirectDeps(nodes), a, id))
  {
    hide SeeEdges, Flatten, EventEdges, DirectDeps, TaskDeps, Acyclic, Resolvable, Index, StandsFor, ResolveOne;
    DepsAgree(nodes);
    SeenIsUpstream(nodes, a, id);
    forall s ensures s in ResolveOne(Index(nodes), id) <==> StandsFor(Index(nodes), id, s) {
      OneAgrees(nodes, id, s);
    }
  }

  /** If some execution can meet all constraints, no task sees itself. */
  lemma ForestSeesNoCycle(nodes: seq<Node>)
    requires Forest(nodes)
    ensures SeesNoCycle(nodes)
  {
    hide SeeEdges, Flatten, EventEdges, DirectDeps, Resolvable, Index;
    ForestResolvable(nodes);
    forall a | Executable(nodes, a) ensures !Reach(SeeEdges(nodes), a, a) {
      SeenIsFlat(nodes, a, a);
      if Reach(DirectDeps(nodes), a, a) {
        var n: nat :| n >= 1 && ReachIn(DirectDeps(nodes), a, a, n);
        DepsBefore(nodes, a, a, n);
      }
    }
  }

  // ---------------------------------------------------------------- the conditions

  /** A nested group sees every executable node that its containers' needs see. */
  ghost predicate Anchored(nodes: seq<Node>, p: Place)
  {
    forall m, x | m in p.inherited && Executable(nodes, x) && ReachStar(SeeEdges(nodes), x, m) ::
      Reach(SeeEdges(nodes), x, p.node.id)
  }

  ghost predicate GroupsAnchored(nodes: seq<Node>)
  {
    forall p | p in Places(nodes, [], None) && p.node.Group? :: Anchored(nodes, p)
  }

  /** A task that waits for a nested group, directly or through containers, sees every executable node that the
      group's containers' needs see. */
  ghost predicate LeavesAnchored(nodes: seq<Node>)
  {
    forall q, p, m, x |
      && q in Places(nodes, [], None) && q.node.Task? && p in Places(nodes, [], None) && p.node.Group?
      && Guards(nodes, p.node.id, q) && m in p.inherited
      && Executable(nodes, x) && ReachStar(SeeEdges(nodes), x, m) ::
      Reach(SeeEdges(nodes), x, q.node.id)
  }

  lemma AnchoredMeans(nodes: seq<Node>, p: Place)
    requires Forest(nodes) && Resolvable(Index(nodes)) && p in Places(nodes, [], None) && p.node.Group?
    ensures Anchored(nodes, p) <==> FlatAnchored(nodes, p)
  {
    hide SeeEdges, Flatten, EventEdges, DirectDeps, Acyclic, Resolvable, Index, Places, Covers;
    GroupPlaced(nodes, p);
    if Anchored(nodes, p) {
      forall m, s | m in p.inherited && s in ResolveOne(Index(nodes), m) ensures Covers(nodes, p.node.id, s) {
        SeeResolved(nodes, m, s);
        SeenIsFlat(nodes, s, p.node.id);
      }
    }
    if FlatAnchored(nodes, p) {
      forall m, x | m in p.inherited && Executable(nodes, x) && ReachStar(SeeEdges(nodes), x, m)
        ensures Reach(SeeEdges(nodes), x, p.node.id)
      {
        var s := StandIn(nodes, x, m);
        SeenIsFlat(nodes, s, p.node.id);
        ReachTrans(SeeEdges(nodes), x, s, p.node.id);
      }
    }
  }

  lemma GroupPlaced(nodes: seq<Node>, p: Place)
    requires Forest(nodes) && p in Places(nodes, [], None) && p.node.Group?
    ensures p.node.id in Index(nodes) && !Executable(nodes, p.node.id)
  {
    hide EventEdges, Places, Flatten, Index;
    PlacedInFlat(nodes, p);
    IndexOfForest(nodes);
  }

  /** A node seen from `m` is, or is upstream of, a node that `m` stands for. */
  lemma StandIn(nodes: seq<Node>, x: Id, m: Id) returns (s: Id)
    requires Forest(nodes) && Resolvable(Index(nodes)) && Executable(nodes, x) && ReachStar(SeeEdges(nodes), x, m)
    ensures s in ResolveOne(Index(nodes), m) && Executable(nodes, s) && ReachStar(SeeEdges(nodes), x, s)
  {
    hide SeeEdges, Flatten, EventEdges, DirectDeps, Acyclic, Resolvable, Index;
    SeenIsFlat(nodes, x, m);
    s :| s in ResolveOne(Index(nodes), m) && ReachStar(DirectDeps(nodes), x, s);
    SeeResolved(nodes, m, s);
    if x != s {
      SeenIsFlat(nodes, x, s);
    }
  }

  lemma LeavesAnchoredMeans(nodes: seq<Node>)
    requires Forest(nodes) && Resolvable(Index(nodes))
    ensures LeavesAnchored(nodes) <==> LeavesFlatAnchored(nodes)
  {
    hide SeeEdges, Flatten, EventEdges, DirectDeps, Acyclic, Resolvable, Index, Places, Guards, ReachStar;
    if LeavesAnchored(nodes) {
      forall q, p, m, s |
        && q in Places(nodes, [], None) && q.node.Task? && p in Places(nodes, [], None) && p.node.Group?
        && Guards(nodes, p.node.id, q) && m in p.inherited && s in ResolveOne(Index(nodes), m)
        ensures Reach(DirectDeps(nodes), s, q.node.id)
      {
        TaskPlaced(nodes, q);
        SeeResolved(nodes, m, s);
        SeenIsFlat(nodes, s, q.node.id);
      }
    }
    if LeavesFlatAnchored(nodes) {
      forall q, p, m, x |
        && q in Places(nodes, [], None) && q.node.Task? && p in Places(nodes, [], None) && p.node.Group?
        && Guards(nodes, p.node.id, q) && m in p.inherited
        && Executable(nodes, x) && ReachStar(SeeEdges(nodes), x, m)
        ensures Reach(SeeEdges(nodes), x, q.node.id)
      {
        TaskPlaced(nodes, q);
        var s := StandIn(nodes, x, m);
        AnchoredAt(nodes, q, p, m, s);
        SeenIsFlat(nodes, s, q.node.id);
        ReachTrans(SeeEdges(nodes), x, s, q.node.id);
      }
    }
  }

  lemma TaskPlaced(nodes: seq<Node>, q: Place)
    requires Forest(nodes) && q in Places(nodes, [], None) && q.node.Task?
    ensures Executable(nodes, q.node.id)
  {
    hide EventEdges, Places, Flatten, Index;
    PlacedInFlat(nodes, q);
    IndexOfForest(nodes);
  }

  // ---------------------------------------------------------------- the exact results

  /** Node for node, containers included: what ends by the end of a node is what the lowering sees of it, for every
      executable node and every node, exactly when every nested group is anchored. */
  lemma NodeOrderExact(nodes: seq<Node>)
    requires Forest(nodes)
    ensures Resolvable(Index(nodes))
    ensures GroupsAnchored(nodes) <==> Faithful(nodes)
  {
    hide EventEdges, DirectDeps, Places, Covers, Forest, Anchored, FlatAnchored, Faithful, Resolvable, Index;
    LoweringExact(nodes);
    forall p | p in Places(nodes, [], None) && p.node.Group? ensures Anchored(nodes, p) <==> FlatAnchored(nodes, p) {
      AnchoredMeans(nodes, p);
    }
  }

  /** One executable node ends before another starts exactly when the other's task reaches its task. */
  ghost predicate OrderKept(nodes: seq<Node>)
    requires Resolvable(Index(nodes))
  {
    forall a, b | Executable(nodes, a) && Executable(nodes, b) ::
      Before(nodes, a, b) <==> Reach(TaskEdges(Tasks(nodes)), ArgoTaskName(a), ArgoTaskName(b))
  }

  /** For every forest, the task graph means what the nested plan means exactly when, in the declared plan, the tasks
      that wait for a nested group see what the group's containers wait for. */
  lemma OrderKeptExactly(nodes: seq<Node>)
    requires Forest(nodes)
    ensures Resolvable(Index(nodes))
    ensures OrderKept(nodes) <==> LeavesAnchored(nodes)
    ensures GroupsAnchored(nodes) ==> LeavesAnchored(nodes)
  {
    hide EventEdges, Places, DirectDeps, Resolvable, Flatten, Index, LeavesFlatAnchored, LeavesAnchored, Forest,
      GroupsFlatAnchored, GroupsAnchored, Faithful, TaskEdges, Tasks, ArgoTaskName, Before, Executable, Reach;
    LeafOrderExact(nodes);
    LeavesAnchoredMeans(nodes);
    NodeOrderExact(nodes);
    LoweringExact(nodes);
    forall a, b
      ensures Reach(TaskEdges(Tasks(nodes)), ArgoTaskName(a), ArgoTaskName(b)) <==> Reach(DirectDeps(nodes), a, b)
    {
      NamedReach(nodes, a, b);
    }
  }
}
