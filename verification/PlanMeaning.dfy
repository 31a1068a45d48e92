/** From a declared workflow to its flat execution graph: validation, ordering and lowering together. */
module PlanMeaning {
  import AG = ArgoGraph
  import opened Compile
  import opened DependencyRefs
  import opened Digraph
  import opened EventOrder
  import opened Lowering
  import opened PlanOrder
  import opened Scoping
  import opened Workflow

  function PlannedNodes(planned: seq<PlannedNode>): (r: seq<Node>)
    ensures |r| == |planned|
    ensures forall i | 0 <= i < |planned| :: r[i] == planned[i].node
  {
    seq(|planned|, i requires 0 <= i < |planned| => planned[i].node)
  }

  // ---------------------------------------------------------------- reordering the top level

  lemma {:induction false} UniqueTrees(level: seq<Node>)
    requires UniqueIds(level) && forall t | t in level :: UniqueIds(Tree(t))
    requires forall t, u | t in level && u in level && t != u :: IdSet(Tree(t)) !! IdSet(Tree(u))
    ensures UniqueIds(Flatten(level))
    decreases |level|
  {
    if level != [] {
      var t, rest := level[0], level[1..];
      UniqueTrees(rest);
      FlattenTree(level);
      forall id | id in IdSet(Flatten(rest)) ensures id !in IdSet(Tree(t)) {
        var u := TopOf(rest, id);
        var k :| 0 <= k < |rest| && rest[k] == u;
        assert level[k + 1] == u && level[0].id != level[k + 1].id;
      }
      JoinUnique(Tree(t), Flatten(rest));
    }
  }

  lemma JoinUnique(a: seq<Node>, b: seq<Node>)
    requires UniqueIds(a) && UniqueIds(b) && IdSet(a) !! IdSet(b)
    ensures UniqueIds(a + b)
  {
    forall i, j | 0 <= i < j < |a + b| ensures (a + b)[i].id != (a + b)[j].id {
      if i < |a| <= j {
        assert a[i].id in IdSet(a) && b[j - |a|].id in IdSet(b);
      }
    }
  }

  /** The same top-level nodes in another order flatten to the same nodes, still with unique ids. */
  lemma Reordered(level: seq<Node>, other: seq<Node>)
    requires UniqueIds(Flatten(level)) && UniqueIds(other)
    requires forall t :: t in other <==> t in level
    ensures UniqueIds(Flatten(other))
    ensures forall n :: n in Flatten(other) <==> n in Flatten(level)
  {
    hide UniqueIds, Tree, Flatten;
    forall t | t in other ensures UniqueIds(Tree(t)) {
      TreeUnique(level, t);
    }
    forall t, u | t in other && u in other && t != u ensures IdSet(Tree(t)) !! IdSet(Tree(u)) {
      forall id | id in IdSet(Tree(t)) ensures id !in IdSet(Tree(u)) {
        TopUnique(level, t, id);
        if id in IdSet(Tree(u)) {
          TopUnique(level, u, id);
        }
      }
    }
    UniqueTrees(other);
    forall n ensures n in Flatten(other) <==> n in Flatten(level) {
      if n in Flatten(other) {
        var t := FlatInTree(other, n);
        TreeInFlat(level, t);
      }
      if n in Flatten(level) {
        var t := FlatInTree(level, n);
        TreeInFlat(other, t);
      }
    }
  }

  lemma SameConstraints(f: seq<Node>, g: seq<Node>)
    requires forall n :: n in f <==> n in g
    ensures EventEdges(f) == EventEdges(g)
  {
    assert IdSet(f) == IdSet(g);
    assert RunEdges(f) == RunEdges(g);
    assert RefEdges(f) == RefEdges(g);
    assert OpenEdges(f) == OpenEdges(g);
    assert CloseEdges(f) == CloseEdges(g);
  }

  // ---------------------------------------------------------------- normalizing groups

  /** Two nodes that put the same constraints on events. */
  ghost predicate Alike(a: Node, b: Node)
  {
    && a.id == b.id && a.Task? == b.Task? && a.Parallel? == b.Parallel? && Children(a) == Children(b)
    && forall m :: m in Refs(a) <==> m in Refs(b)
  }

  lemma NormalizedAlike(n: Node)
    ensures Alike(NormalizeNode(n), n)
  {
  }

  /** Normalizing the top level changes no constraint. */
  lemma {:induction false} NormalizedFlat(nodes: seq<Node>)
    ensures var norm := NormalizeGroupDependencies(nodes);
            |Flatten(norm)| == |Flatten(nodes)| &&
            forall i | 0 <= i < |Flatten(nodes)| :: Alike(Flatten(norm)[i], Flatten(nodes)[i])
    decreases |nodes|
  {
    var norm := NormalizeGroupDependencies(nodes);
    if nodes != [] {
      NormalizedFlat(nodes[1..]);
      NormalizedAlike(nodes[0]);
      assert norm[1..] == NormalizeGroupDependencies(nodes[1..]);
      var inner := if nodes[0].Parallel? then Flatten(nodes[0].children) else [];
      assert Flatten(nodes) == [nodes[0]] + inner + Flatten(nodes[1..]);
      assert Flatten(norm) == [norm[0]] + inner + Flatten(norm[1..]);
    }
  }

  lemma AlikeConstraints(f: seq<Node>, g: seq<Node>)
    requires |f| == |g| && forall i | 0 <= i < |f| :: Alike(f[i], g[i])
    ensures IdSet(f) == IdSet(g) && (UniqueIds(f) <==> UniqueIds(g))
    ensures EventEdges(f) == EventEdges(g)
  {
    AlikeIds(f, g);
    AlikeIds(g, f);
    AlikeHalf(f, g);
    AlikeHalf(g, f);
  }

  lemma AlikeIds(f: seq<Node>, g: seq<Node>)
    requires |f| == |g| && forall i | 0 <= i < |f| :: Alike(f[i], g[i])
    ensures IdSet(f) <= IdSet(g) && (UniqueIds(f) ==> UniqueIds(g))
  {
    forall id | id in IdSet(f) ensures id in IdSet(g) {
      var i :| 0 <= i < |f| && f[i].id == id;
      assert g[i] in g;
    }
  }

  lemma AlikeHalf(f: seq<Node>, g: seq<Node>)
    requires |f| == |g| && forall i | 0 <= i < |f| :: Alike(f[i], g[i])
    requires IdSet(f) == IdSet(g)
    ensures EventEdges(f) <= EventEdges(g)
  {
    hide EventEdges, Alike;
    forall e | e in EventEdges(f) ensures e in EventEdges(g) {
      var n, c := EdgeOwner(f, e.0, e.1);
      var i :| 0 <= i < |f| && f[i] == n;
      AlikeOwner(f, g, n, g[i], c, e.0, e.1);
    }
  }

  lemma AlikeOwner(f: seq<Node>, g: seq<Node>, n: Node, m: Node, c: Node, x: Event, y: Event)
    requires Owns(f, n, c, x, y) && Alike(n, m) && m in g && IdSet(f) == IdSet(g)
    ensures (x, y) in EventEdges(g)
  {
    hide EventEdges;
    if x == Start(n.id) && y == End(n.id) {
      RunEdge(g, m);
    } else if y == Start(n.id) && x.End? {
      RefEdge(g, m, x.id);
    } else {
      ContainEdges(g, m, c);
    }
  }

  // ---------------------------------------------------------------- the pipeline

  /** Below the top level, which compilation does not look at, references stay among siblings and have no cycle. */
  ghost predicate NestedScoped(nodes: seq<Node>)
  {
    forall n | n in nodes && n.Parallel? :: n.children != [] && Scoped(n.children)
  }

  /** Validation supplies, at the top level, what scoping asks of every level. */
  lemma ValidatedScoped(nodes: seq<Node>)
    requires Declared(NormalizeGroupDependencies(nodes)) && Acyclic(NeedEdges(NormalizeGroupDependencies(nodes)))
    requires NestedScoped(nodes)
    ensures Scoped(NormalizeGroupDependencies(nodes))
  {
    hide Acyclic, Scoped;
    var norm := NormalizeGroupDependencies(nodes);
    forall n, m | n in norm && m in Refs(n) ensures m in n.needs && m in IdSet(norm) {
      var i :| 0 <= i < |norm| && norm[i] == n;
      assert norm[i] == NormalizeNode(nodes[i]);
    }
    assert LevelEdges(norm) == NeedEdges(norm) by {
      forall u, v ensures (u, v) in LevelEdges(norm) <==> (u, v) in NeedEdges(norm) {
        if (u, v) in LevelEdges(norm) {
          var n :| n in norm && u in Refs(n) && u in IdSet(norm) && n.id == v;
          NeedEdge(norm, n, u);
        }
        if (u, v) in NeedEdges(norm) {
          var n :| n in norm && u in n.needs && u in IdSet(norm) && n.id == v;
          assert u in Refs(n);
        }
      }
    }
    forall n | n in norm && n.Group? ensures Refs(n) != [] {
      assert GroupDeclared(n, IdSet(norm));
    }
    forall n | n in norm && n.Parallel? ensures n.children != [] && Scoped(n.children) {
      var i :| 0 <= i < |norm| && norm[i] == n;
      assert nodes[i] == n && nodes[i] in nodes;
    }
    ScopedIntro(norm);
  }

  lemma ScopedIntro(level: seq<Node>)
    requires forall n, m | n in level && m in Refs(n) :: m in IdSet(level)
    requires forall n | n in level && n.Group? :: Refs(n) != []
    requires Acyclic(LevelEdges(level))
    requires forall n | n in level && n.Parallel? :: n.children != [] && Scoped(n.children)
    ensures Scoped(level)
  {
  }

  lemma {:induction false} ReorderedScoped(level: seq<Node>, other: seq<Node>)
    requires Scoped(level) && forall t :: t in other <==> t in level
    ensures Scoped(other)
  {
    hide Acyclic;
    assert IdSet(other) == IdSet(level);
    assert LevelEdges(other) == LevelEdges(level);
  }

  /** The planned order lists exactly the validated nodes. */
  lemma OrderedNodes(nodes: seq<Node>, order: seq<PlannedNode>)
    requires UniqueIds(nodes) && OrderOk(nodes, order)
    ensures UniqueIds(PlannedNodes(order)) && forall t :: t in PlannedNodes(order) <==> t in nodes
  {
    var lowered := PlannedNodes(order);
    forall i, j | 0 <= i < j < |lowered| ensures lowered[i].id != lowered[j].id {
      assert PlannedIds(order)[i] != PlannedIds(order)[j];
    }
    forall t ensures t in lowered <==> t in nodes {
      if t in lowered {
        var i :| 0 <= i < |order| && order[i].node == t;
        assert order[i] in order;
      }
      if t in nodes {
        assert t.id in Elements(PlannedIds(order));
        var i :| 0 <= i < |order| && PlannedIds(order)[i] == t.id;
        assert order[i] in order && lowered[i] in lowered;
        SameNode(nodes, order[i].node, t);
      }
    }
  }

  /** Forest, anchoring and constraints of the planned order, from validation and scoping. */
  lemma PlannedForest(nodes: seq<Node>, plan: Plan)
    requires Declared(NormalizeGroupDependencies(nodes)) && Acyclic(NeedEdges(NormalizeGroupDependencies(nodes)))
    requires OrderOk(NormalizeGroupDependencies(nodes), plan.topologicalOrder)
    requires UniqueIds(Flatten(nodes)) && NestedScoped(nodes)
    ensures var lowered := PlannedNodes(plan.topologicalOrder);
            && Forest(lowered) && Resolvable(Index(lowered)) && GroupsFlatAnchored(lowered)
            && EventEdges(Flatten(lowered)) == EventEdges(Flatten(nodes))
            && (forall n :: n in Flatten(lowered) <==> n in Flatten(NormalizeGroupDependencies(nodes)))
  {
    hide Acyclic, EventEdges, Scoped, Forest, Declared, NestedScoped, Resolvable, OrderOk, UniqueIds, GroupsFlatAnchored,
      GroupsHeld;
    var norm, lowered := NormalizeGroupDependencies(nodes), PlannedNodes(plan.topologicalOrder);
    NormalizedFlat(nodes);
    AlikeConstraints(Flatten(norm), Flatten(nodes));
    DeclaredUnique(norm);
    OrderedNodes(norm, plan.topologicalOrder);
    Reordered(norm, lowered);
    SameConstraints(Flatten(lowered), Flatten(norm));
    ValidatedScoped(nodes);
    ReorderedScoped(norm, lowered);
    ScopedForest(lowered);
    ScopedHeld(lowered);
    AG.LoweringExact(lowered);
  }

  ghost predicate TaskIn(nodes: seq<Node>, a: Id)
  {
    exists n | n in Flatten(nodes) :: n.Task? && n.id == a
  }

  lemma TaskExecutable(nodes: seq<Node>, lowered: seq<Node>, a: Id)
    requires TaskIn(nodes, a) && UniqueIds(Flatten(lowered))
    requires forall n :: n in Flatten(lowered) <==> n in Flatten(NormalizeGroupDependencies(nodes))
    ensures Executable(lowered, a)
  {
    NormalizedFlat(nodes);
    var n :| n in Flatten(nodes) && n.Task? && n.id == a;
    var i :| 0 <= i < |Flatten(nodes)| && Flatten(nodes)[i] == n;
    var m := Flatten(NormalizeGroupDependencies(nodes))[i];
    assert m in Flatten(NormalizeGroupDependencies(nodes)) && m in Flatten(lowered) && Alike(m, n);
    IndexOfForest(lowered);
  }

  /** The constraints of the declared tree can be met, and no parallel is empty. */
  ghost predicate Satisfiable(nodes: seq<Node>)
  {
    && UniqueIds(Flatten(nodes))
    && (forall n | n in Flatten(nodes) && n.Parallel? :: n.children != [])
    && Acyclic(EventEdges(Flatten(nodes)))
  }

  lemma PlannedSatisfiable(nodes: seq<Node>, plan: Plan)
    requires Declared(NormalizeGroupDependencies(nodes)) && Satisfiable(nodes)
    requires OrderOk(NormalizeGroupDependencies(nodes), plan.topologicalOrder)
    ensures var lowered := PlannedNodes(plan.topologicalOrder);
            && Forest(lowered)
            && EventEdges(Flatten(lowered)) == EventEdges(Flatten(nodes))
            && (forall n :: n in Flatten(lowered) <==> n in Flatten(NormalizeGroupDependencies(nodes)))
  {
    hide Acyclic, EventEdges, Declared, OrderOk, UniqueIds;
    var norm, lowered := NormalizeGroupDependencies(nodes), PlannedNodes(plan.topologicalOrder);
    NormalizedFlat(nodes);
    AlikeConstraints(Flatten(norm), Flatten(nodes));
    DeclaredUnique(norm);
    OrderedNodes(norm, plan.topologicalOrder);
    Reordered(norm, lowered);
    SameConstraints(Flatten(lowered), Flatten(norm));
    hide Flatten, NormalizeGroupDependencies;
    forall n | n in Flatten(lowered) && n.Parallel? ensures n.children != [] {
      var i :| 0 <= i < |Flatten(norm)| && Flatten(norm)[i] == n;
      var m := Flatten(nodes)[i];
      assert Alike(n, m) && m in Flatten(nodes);
      AlikeParallel(nodes, m, n);
    }
  }

  lemma AlikeParallel(nodes: seq<Node>, m: Node, n: Node)
    requires m in Flatten(nodes) && Alike(n, m) && n.Parallel?
    requires forall k | k in Flatten(nodes) && k.Parallel? :: k.children != []
    ensures n.children != []
  {
    assert Children(n) == n.children;
  }

  /** What the task graph of a plan promises about the declared workflow. */
  ghost predicate OrderMeant(nodes: seq<Node>, lowered: seq<Node>)
    requires Resolvable(Index(lowered))
  {
    forall a, b | TaskIn(nodes, a) && TaskIn(nodes, b) ::
      Before(nodes, a, b) <==> Reach(AG.TaskEdges(AG.Tasks(lowered)), ArgoTaskName(a), ArgoTaskName(b))
  }

  /** End to end, for every workflow that compiles and whose constraints can be met at all: the task graph means what
      the workflow declares exactly when the planned leaves are anchored. */
  lemma WorkflowOrderExact(nodes: seq<Node>, plan: Plan)
    requires Declared(NormalizeGroupDependencies(nodes)) && Satisfiable(nodes)
    requires OrderOk(NormalizeGroupDependencies(nodes), plan.topologicalOrder)
    ensures Resolvable(Index(PlannedNodes(plan.topologicalOrder)))
    ensures OrderMeant(nodes, PlannedNodes(plan.topologicalOrder)) <==> LeavesAnchored(PlannedNodes(plan.topologicalOrder))
  {
    hide Acyclic, EventEdges, Declared, Resolvable, OrderOk, UniqueIds, LeavesAnchored, GroupsAnchored, AG.TaskEdges,
      AG.Tasks, Reach, TaskIn, Executable, Flatten;
    var lowered := PlannedNodes(plan.topologicalOrder);
    PlannedSatisfiable(nodes, plan);
    OrderKeptExactly(lowered);
    forall a ensures TaskIn(nodes, a) <==> Executable(lowered, a) {
      TaskInExactly(nodes, lowered, a);
    }
  }

  lemma TaskInExactly(nodes: seq<Node>, lowered: seq<Node>, a: Id)
    requires UniqueIds(Flatten(lowered))
    requires forall n :: n in Flatten(lowered) <==> n in Flatten(NormalizeGroupDependencies(nodes))
    ensures TaskIn(nodes, a) <==> Executable(lowered, a)
  {
    hide Flatten;
    if TaskIn(nodes, a) {
      TaskExecutable(nodes, lowered, a);
    }
    if Executable(lowered, a) {
      IndexOfForest(lowered);
      NormalizedFlat(nodes);
      var norm := Flatten(NormalizeGroupDependencies(nodes));
      var i :| 0 <= i < |norm| && norm[i] == Index(lowered)[a];
      assert Alike(norm[i], Flatten(nodes)[i]) && Flatten(nodes)[i] in Flatten(nodes);
    }
  }

  /** For every workflow that compiles and whose constraints can be met at all, the execution graph compiles exactly when
      there is an executable node, the workflow has an id and so does every executable node; what compiles is sound. */
  lemma WorkflowGraphOk(workflowId: Id, nodes: seq<Node>, plan: Plan)
    requires Declared(NormalizeGroupDependencies(nodes)) && Satisfiable(nodes)
    requires OrderOk(NormalizeGroupDependencies(nodes), plan.topologicalOrder)
    ensures Resolvable(Index(PlannedNodes(plan.topologicalOrder)))
    ensures var r := AG.CompileArgoExecutionGraph(workflowId, PlannedNodes(plan.topologicalOrder));
            && (r.Ok? <==> workflowId != "" && (exists a :: TaskIn(nodes, a)) && !TaskIn(nodes, ""))
            && (r.Ok? ==> AG.GraphOk(PlannedNodes(plan.topologicalOrder), r.value))
  {
    hide Acyclic, EventEdges, Declared, Resolvable, OrderOk, AG.GraphOk, AG.CompileArgoExecutionGraph, Flatten,
      AG.ExecutableIds, Executable, TaskIn, UniqueIds;
    var lowered := PlannedNodes(plan.topologicalOrder);
    PlannedSatisfiable(nodes, plan);
    AG.CompiledGraphOk(workflowId, lowered);
    var ids := AG.ExecutableIds(Flatten(lowered));
    forall a ensures TaskIn(nodes, a) <==> a in ids {
      TaskInExactly(nodes, lowered, a);
      ExecutableListed(lowered, a);
    }
    assert ids != [] ==> ids[0] in ids;
  }

  lemma ExecutableListed(lowered: seq<Node>, a: Id)
    requires UniqueIds(Flatten(lowered))
    ensures Executable(lowered, a) <==> a in AG.ExecutableIds(Flatten(lowered))
  {
    hide Flatten;
    IndexOfForest(lowered);
    AG.ExecutableMember(Flatten(lowered), a);
  }

  /** Scoping is enough to be satisfiable, and then any node at all supplies a task. */
  lemma ScopedSatisfiable(nodes: seq<Node>)
    requires Declared(NormalizeGroupDependencies(nodes)) && Acyclic(NeedEdges(NormalizeGroupDependencies(nodes)))
    requires UniqueIds(Flatten(nodes)) && NestedScoped(nodes)
    ensures Satisfiable(nodes)
    ensures nodes != [] ==> exists a :: TaskIn(nodes, a)
  {
    hide Acyclic, EventEdges, Scoped, Declared, NestedScoped, UniqueIds, TaskIn;
    var norm := NormalizeGroupDependencies(nodes);
    NormalizedFlat(nodes);
    AlikeConstraints(Flatten(norm), Flatten(nodes));
    ValidatedScoped(nodes);
    ScopedForest(norm);
    hide Flatten, NormalizeGroupDependencies;
    forall n | n in Flatten(nodes) && n.Parallel? ensures n.children != [] {
      var i :| 0 <= i < |Flatten(nodes)| && Flatten(nodes)[i] == n;
      var m := Flatten(norm)[i];
      assert Alike(m, n) && m in Flatten(norm);
      assert Children(m) == Children(n) || m.Parallel?;
    }
    if nodes != [] {
      var a := SomeTask(nodes);
    }
  }

  /** Scoping is enough for the planned leaves to be anchored, and so for the task graph to mean what the workflow
      declares. */
  lemma WorkflowOrderPreserved(nodes: seq<Node>, plan: Plan)
    requires Declared(NormalizeGroupDependencies(nodes)) && Acyclic(NeedEdges(NormalizeGroupDependencies(nodes)))
    requires OrderOk(NormalizeGroupDependencies(nodes), plan.topologicalOrder)
    requires UniqueIds(Flatten(nodes)) && NestedScoped(nodes)
    ensures Satisfiable(nodes) && Resolvable(Index(PlannedNodes(plan.topologicalOrder)))
    ensures LeavesAnchored(PlannedNodes(plan.topologicalOrder)) && OrderMeant(nodes, PlannedNodes(plan.topologicalOrder))
  {
    hide Acyclic, EventEdges, Declared, NestedScoped, Resolvable, OrderOk, UniqueIds, GroupsFlatAnchored, LeavesAnchored,
      GroupsAnchored, Satisfiable, Forest, AG.Faithful, OrderMeant, Flatten;
    ScopedSatisfiable(nodes);
    PlannedForest(nodes, plan);
    AG.LoweringExact(PlannedNodes(plan.topologicalOrder));
    NodeOrderExact(PlannedNodes(plan.topologicalOrder));
    OrderKeptExactly(PlannedNodes(plan.topologicalOrder));
    WorkflowOrderExact(nodes, plan);
  }

  lemma SomeTask(nodes: seq<Node>) returns (a: Id)
    requires Declared(NormalizeGroupDependencies(nodes)) && Acyclic(NeedEdges(NormalizeGroupDependencies(nodes)))
    requires NestedScoped(nodes) && nodes != []
    ensures TaskIn(nodes, a)
  {
    hide Acyclic, Declared, NestedScoped;
    ValidatedScoped(nodes);
    var norm := NormalizeGroupDependencies(nodes);
    var t := ScopedTask(norm, norm[0]);
    NormalizedFlat(nodes);
    var i :| 0 <= i < |Flatten(norm)| && Flatten(norm)[i] == t;
    assert Alike(t, Flatten(nodes)[i]) && Flatten(nodes)[i] in Flatten(nodes);
    a := t.id;
  }
}
