/** Cycles in lowered plans (src/argo-graph.ts). */
module FlatGraph {
  // What the lowering of any plan puts upstream of what, and when it has no cycle.

  import opened ArgoGraph
  import opened DependencyRefs
  import opened Digraph
  import opened EventOrder
  import opened Lowering
  import opened Unrolling
  import opened Workflow
  import opened Wrappers

  // ---------------------------------------------------------------- what the lowering sees of a declared plan

  /** What a node looks at: a task at its own and inherited needs, a container at what it stands for. A group does not
      look at the needs of the parallels around it. */
  function Looks(p: Place): seq<Id>
  {
    if p.node.Task? then p.inherited + p.node.needs else Expands(p.node)
  }

  ghost function SeeEdges(nodes: seq<Node>): set<(Id, Id)>
  {
    set p, m | p in Places(nodes, [], None) && m in Looks(p) :: (m, p.node.id)
  }

  lemma SeePlace(nodes: seq<Node>, m: Id, id: Id) returns (p: Place)
    requires UniqueIds(Flatten(nodes)) && (m, id) in SeeEdges(nodes)
    ensures p in Places(nodes, [], None) && m in Looks(p) && p.node.id == id
    ensures id in Index(nodes) && Index(nodes)[id] == p.node
  {
    hide Places, Flatten, Index;
    p :| p in Places(nodes, [], None) && m in Looks(p) && p.node.id == id;
    PlacedInFlat(nodes, p);
    IndexOfForest(nodes);
  }

  /** (x, b) when a need of task `b`, its own or inherited, stands for task `x`. */
  ghost function TaskDeps(nodes: seq<Node>): set<(Id, Id)>
  {
    set p, x | p in Places(nodes, [], None) && p.node.Task? && x in Index(nodes)
               && Stands(nodes, p.inherited + p.node.needs, x) :: (x, p.node.id)
  }

  ghost predicate Stands(nodes: seq<Node>, needs: seq<Id>, x: Id)
  {
    exists m | m in needs :: StandsFor(Index(nodes), m, x)
  }

  lemma TaskDep(nodes: seq<Node>, p: Place, m: Id, x: Id)
    requires p in Places(nodes, [], None) && p.node.Task? && m in p.inherited + p.node.needs
    requires StandsFor(Index(nodes), m, x)
    ensures (x, p.node.id) in TaskDeps(nodes)
  {
    hide Places, Index, Reach;
    assert x in Index(nodes) && Stands(nodes, p.inherited + p.node.needs, x);
  }

  lemma TaskDepPlace(nodes: seq<Node>, x: Id, b: Id) returns (p: Place, m: Id)
    requires UniqueIds(Flatten(nodes)) && (x, b) in TaskDeps(nodes)
    ensures p in Places(nodes, [], None) && p.node.Task? && p.node.id == b && Executable(nodes, b) && Executable(nodes, x)
    ensures m in p.inherited + p.node.needs && StandsFor(Index(nodes), m, x)
  {
    hide Places, Flatten, Index, Reach;
    p :| p in Places(nodes, [], None) && p.node.Task? && p.node.id == b && Stands(nodes, p.inherited + p.node.needs, x);
    m :| m in p.inherited + p.node.needs && StandsFor(Index(nodes), m, x);
    PlacedInFlat(nodes, p);
    IndexOfForest(nodes);
  }

  // ---------------------------------------------------------------- what is seen is what is upstream

  lemma ExpandSeen(nodes: seq<Node>)
    requires UniqueIds(Flatten(nodes))
    ensures ExpandEdges(Index(nodes)) <= SeeEdges(nodes)
  {
    hide Places, Flatten, Index;
    IndexOfForest(nodes);
    forall id, m | (m, id) in ExpandEdges(Index(nodes)) ensures (m, id) in SeeEdges(nodes) {
      var p := FlatIsPlaced(nodes, Index(nodes)[id]);
      assert m in Looks(p);
    }
  }

  /** What an id stands for is seen from it. */
  lemma StandsSeen(nodes: seq<Node>, id: Id, x: Id)
    requires UniqueIds(Flatten(nodes)) && StandsFor(Index(nodes), id, x)
    ensures ReachStar(SeeEdges(nodes), x, id) && Executable(nodes, x)
  {
    hide SeeEdges, Index, ExpandEdges, Flatten, Reach;
    ExpandSeen(nodes);
    if x != id {
      ReachMonotone(ExpandEdges(Index(nodes)), SeeEdges(nodes), x, id);
    }
  }

  lemma {:induction false} DepsSeen(nodes: seq<Node>, x: Id, b: Id, n: nat)
    requires UniqueIds(Flatten(nodes)) && n >= 1 && ReachIn(TaskDeps(nodes), x, b, n)
    ensures Reach(SeeEdges(nodes), x, b)
    decreases n
  {
    hide Flatten, TaskDeps, Places, StandsFor;
    var c :| ReachIn(TaskDeps(nodes), x, c, n - 1) && (c, b) in TaskDeps(nodes);
    var p, m := TaskDepPlace(nodes, c, b);
    StandsSeen(nodes, m, c);
    assert m in Looks(p) && (m, b) in SeeEdges(nodes);
    hide SeeEdges, Reach;
    EdgeReach(SeeEdges(nodes), m, b);
    ReachTrans(SeeEdges(nodes), c, m, b);
    if n > 1 {
      DepsSeen(nodes, x, c, n - 1);
      ReachTrans(SeeEdges(nodes), x, c, b);
    }
  }

  /** `a` is, or is upstream of, a task that `id` stands for. */
  ghost predicate Upstream(nodes: seq<Node>, id: Id, a: Id)
  {
    exists s :: StandsFor(Index(nodes), id, s) && ReachStar(TaskDeps(nodes), a, s)
  }

  lemma {:induction false} SeenUpstream(nodes: seq<Node>, a: Id, id: Id, n: nat)
    requires UniqueIds(Flatten(nodes)) && Executable(nodes, a) && ReachIn(SeeEdges(nodes), a, id, n)
    ensures id in Index(nodes) && Upstream(nodes, id, a)
    ensures n >= 1 && Executable(nodes, id) ==> Reach(TaskDeps(nodes), a, id)
    decreases n
  {
    hide SeeEdges, Places, Flatten, TaskDeps, Index, StandsFor, Reach;
    IndexOfForest(nodes);
    if n == 0 {
      StandsForOwn(Index(nodes), a, a);
    } else {
      var c :| ReachIn(SeeEdges(nodes), a, c, n - 1) && (c, id) in SeeEdges(nodes);
      SeenUpstream(nodes, a, c, n - 1);
      var p := SeePlace(nodes, c, id);
      var s :| StandsFor(Index(nodes), c, s) && ReachStar(TaskDeps(nodes), a, s);
      if p.node.Task? {
        TaskDep(nodes, p, c, s);
        EdgeReach(TaskDeps(nodes), s, id);
        ReachTrans(TaskDeps(nodes), a, s, id);
        StandsForOwn(Index(nodes), id, id);
      } else {
        StandsForNext(Index(nodes), id, s);
      }
    }
  }

  /** In any plan without repeated ids: what is seen from an id is what is upstream of the tasks it stands for, and between
      tasks seeing is depending. */
  lemma SeenIsUpstream(nodes: seq<Node>, a: Id, id: Id)
    requires UniqueIds(Flatten(nodes)) && Executable(nodes, a)
    ensures ReachStar(SeeEdges(nodes), a, id) <==> Upstream(nodes, id, a)
    ensures Executable(nodes, id) ==> (Reach(SeeEdges(nodes), a, id) <==> Reach(TaskDeps(nodes), a, id))
  {
    hide SeeEdges, Flatten, TaskDeps, Index, StandsFor;
    if a == id {
      SeenUpstream(nodes, a, id, 0);
    }
    if Reach(SeeEdges(nodes), a, id) {
      var n: nat :| n >= 1 && ReachIn(SeeEdges(nodes), a, id, n);
      SeenUpstream(nodes, a, id, n);
    }
    if Reach(TaskDeps(nodes), a, id) {
      var n: nat :| n >= 1 && ReachIn(TaskDeps(nodes), a, id, n);
      DepsSeen(nodes, a, id, n);
    }
    if Upstream(nodes, id, a) {
      var s :| StandsFor(Index(nodes), id, s) && ReachStar(TaskDeps(nodes), a, s);
      StandsSeen(nodes, id, s);
      if a != s {
        var n: nat :| n >= 1 && ReachIn(TaskDeps(nodes), a, s, n);
        DepsSeen(nodes, a, s, n);
      }
      ReachTrans(SeeEdges(nodes), a, s, id);
    }
  }

  // ---------------------------------------------------------------- the tasks of a lowering that ends

  ghost predicate Lowered(nodes: seq<Node>, tasks: seq<ArgoTask>)
  {
    UniqueIds(Flatten(nodes)) && TryCompileNodes(Index(nodes), nodes, [], []) == Ok(tasks)
  }

  lemma {:induction false} TaskPlaceMember(places: seq<Place>, p: Place)
    ensures p in TaskPlaces(places) <==> p in places && p.node.Task?
    decreases |places|
  {
    if places != [] {
      TaskPlaceMember(places[1..], p);
      assert places == [places[0]] + places[1..];
    }
  }

  lemma LoweredRenames(nodes: seq<Node>, tasks: seq<ArgoTask>)
    requires Lowered(nodes, tasks)
    ensures Renames(TaskEdges(tasks), TaskDeps(nodes))
  {
    hide Flatten, Index, TryCompileNodes, ArgoTaskName, TaskDeps, TaskEdges;
    forall d, t
      ensures (d, t) in TaskEdges(tasks) <==>
              exists x, b | (x, b) in TaskDeps(nodes) :: d == ArgoTaskName(x) && t == ArgoTaskName(b)
    {
      if (d, t) in TaskEdges(tasks) {
        var x, b := EdgeIsDep(nodes, tasks, d, t);
      }
      if x, b :| (x, b) in TaskDeps(nodes) && d == ArgoTaskName(x) && t == ArgoTaskName(b) {
        DepIsEdge(nodes, tasks, x, b);
      }
    }
  }

  lemma EdgeIsDep(nodes: seq<Node>, tasks: seq<ArgoTask>, d: string, t: string) returns (x: Id, b: Id)
    requires Lowered(nodes, tasks) && (d, t) in TaskEdges(tasks)
    ensures (x, b) in TaskDeps(nodes) && d == ArgoTaskName(x) && t == ArgoTaskName(b)
  {
    hide Places, Flatten, Index, TryCompileNodes, TaskPlaces, StandsFor, TaskDeps, InOrder;
    var places := TaskPlaces(Places(nodes, [], None));
    LoweredIds(nodes, tasks);
    var task :| task in tasks && d in task.dependencies && task.taskName == t;
    var i :| 0 <= i < |tasks| && tasks[i] == task;
    var p := places[i];
    assert Lowers(Index(nodes), p, task);
    TaskPlaceMember(Places(nodes, [], None), p);
    b := p.node.id;
    var m, y :| m in p.inherited + p.node.needs && StandsFor(Index(nodes), m, y) && d == ArgoTaskName(y);
    x := y;
    TaskDep(nodes, p, m, x);
  }

  lemma DepIsEdge(nodes: seq<Node>, tasks: seq<ArgoTask>, x: Id, b: Id)
    requires Lowered(nodes, tasks) && (x, b) in TaskDeps(nodes)
    ensures (ArgoTaskName(x), ArgoTaskName(b)) in TaskEdges(tasks)
  {
    hide Places, Flatten, Index, TryCompileNodes, TaskPlaces, StandsFor, TaskDeps, InOrder;
    var places := TaskPlaces(Places(nodes, [], None));
    LoweredIds(nodes, tasks);
    var p, m := TaskDepPlace(nodes, x, b);
    TaskPlaceMember(Places(nodes, [], None), p);
    var i :| 0 <= i < |places| && places[i] == p;
    assert Lowers(Index(nodes), p, tasks[i]);
    assert ArgoTaskName(x) in tasks[i].dependencies && tasks[i] in tasks;
  }

  /** Whatever a lowering yields: between two tasks, dependencies lead from one to the other exactly when the declared plan
      lets the other see it. */
  lemma SeenIsReached(nodes: seq<Node>, tasks: seq<ArgoTask>, a: Id, b: Id)
    requires Lowered(nodes, tasks) && Executable(nodes, a) && Executable(nodes, b)
    ensures Reach(TaskEdges(tasks), ArgoTaskName(a), ArgoTaskName(b)) <==> Reach(SeeEdges(nodes), a, b)
  {
    hide TaskEdges, TaskDeps, SeeEdges, Reach, ArgoTaskName, Index, Flatten, TryCompileNodes;
    LoweredRenames(nodes, tasks);
    RenamedReach(TaskEdges(tasks), TaskDeps(nodes), a, b);
    SeenIsUpstream(nodes, a, b);
  }

  /** No executable node sees itself. */
  ghost predicate SeesNoCycle(nodes: seq<Node>)
  {
    forall a | Executable(nodes, a) :: !Reach(SeeEdges(nodes), a, a)
  }

  /** Whatever a lowering yields has no cycle exactly when no executable node of the declared plan sees itself. */
  lemma AcyclicExactly(nodes: seq<Node>, tasks: seq<ArgoTask>)
    requires Lowered(nodes, tasks)
    ensures Acyclic(TaskEdges(tasks)) <==> SeesNoCycle(nodes)
  {
    hide TaskEdges, TaskDeps, SeeEdges, Reach, ArgoTaskName, Index, Flatten, TryCompileNodes, Executable;
    var e := TaskEdges(tasks);
    if Acyclic(e) {
      forall a | Executable(nodes, a) ensures !Reach(SeeEdges(nodes), a, a) {
        SeenIsReached(nodes, tasks, a, a);
      }
    }
    if SeesNoCycle(nodes) {
      LoweredRenames(nodes, tasks);
      forall t ensures !Reach(e, t, t) {
        if Reach(e, t, t) {
          var d := LastStep(e, t, t);
          var x, b :| (x, b) in TaskDeps(nodes) && d == ArgoTaskName(x) && t == ArgoTaskName(b);
          var p, m := TaskDepPlace(nodes, x, b);
          SeenIsReached(nodes, tasks, b, b);
        }
      }
    }
  }

  /** Of every plan that compiles: the graph is in order, acyclic with a terminal task downstream of every task, exactly when
      no executable node of the declared plan sees itself. */
  lemma CompiledExactly(workflowId: Id, nodes: seq<Node>)
    requires CompileArgoExecutionGraph(workflowId, nodes).Ok?
    ensures GraphOk(nodes, CompileArgoExecutionGraph(workflowId, nodes).value) <==> SeesNoCycle(nodes)
  {
    hide TaskEdges, Index, Flatten, TryCompileNodes, SeesNoCycle, GraphOk, Acyclic, TerminalDependencyItems;
    AcyclicGraphOk(workflowId, nodes);
    AcyclicExactly(nodes, CompileArgoExecutionGraph(workflowId, nodes).value.tasks);
  }
}
