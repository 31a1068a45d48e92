/** The flat execution graph (src/argo-graph.ts). */
module ArgoGraph {
  // It means what the nested plan means, and it is closed, acyclic and complete.

  import opened DependencyRefs
  import opened Digraph
  import opened EventOrder
  import opened Lowering
  import opened Unrolling
  import opened Workflow
  import opened Wrappers

  // ---------------------------------------------------------------- preservation of meaning

  /** Node for node, what the lowered graph puts upstream is what ends before the node ends. */
  ghost predicate Faithful(nodes: seq<Node>)
    requires Resolvable(Index(nodes))
  {
    forall a, n | Executable(nodes, a) && n in Flatten(nodes) ::
      ReachStar(EventEdges(Flatten(nodes)), End(a), End(n.id)) <==> Covers(nodes, n.id, a)
  }

  lemma CoversBefore(nodes: seq<Node>, id: Id, a: Id)
    requires Forest(nodes) && Resolvable(Index(nodes)) && Covers(nodes, id, a)
    ensures ReachStar(EventEdges(Flatten(nodes)), End(a), End(id))
  {
    hide EventEdges, DirectDeps, Forest;
    var e := EventEdges(Flatten(nodes));
    var s :| s in ResolveOne(Index(nodes), id) && ReachStar(DirectDeps(nodes), a, s);
    StandsBefore(nodes, id, s);
    if a != s {
      var n: nat :| n >= 1 && ReachIn(DirectDeps(nodes), a, s, n);
      DepsBefore(nodes, a, s, n);
    }
    ReachTrans(e, End(a), End(s), End(id));
  }

  lemma HeldIsFaithful(nodes: seq<Node>)
    requires Forest(nodes) && Resolvable(Index(nodes)) && GroupsHeld(nodes)
    ensures Faithful(nodes)
  {
    hide EventEdges, DirectDeps, Forest, Covers, GroupsHeld, ReachStar, Executable;
    forall a, n | Executable(nodes, a) && n in Flatten(nodes)
      ensures ReachStar(EventEdges(Flatten(nodes)), End(a), End(n.id)) <==> Covers(nodes, n.id, a)
    {
      if ReachStar(EventEdges(Flatten(nodes)), End(a), End(n.id)) {
        EndCovered(nodes, n, a);
      }
      if Covers(nodes, n.id, a) {
        CoversBefore(nodes, n.id, a);
      }
    }
  }

  lemma FaithfulIsAnchored(nodes: seq<Node>)
    requires Forest(nodes) && Resolvable(Index(nodes)) && Faithful(nodes)
    ensures GroupsFlatAnchored(nodes)
  {
    hide EventEdges, DirectDeps, Places, Covers, Acyclic;
    var flat := Flatten(nodes);
    var e := EventEdges(flat);
    forall p, m, s | p in Places(nodes, [], None) && p.node.Group? && m in p.inherited && s in ResolveOne(Index(nodes), m)
      ensures Covers(nodes, p.node.id, s)
    {
      StandsBefore(nodes, m, s);
      IndexOfForest(nodes);
      InheritedBefore(nodes, p, m);
      PlacedInFlat(nodes, p);
      RunEdge(flat, p.node);
      EdgeReach(e, Start(p.node.id), End(p.node.id));
      ReachTrans(e, End(s), End(m), Start(p.node.id));
      ReachTrans(e, End(s), Start(p.node.id), End(p.node.id));
    }
  }

  /** The lowering is faithful exactly when every nested group is anchored. */
  lemma LoweringExact(nodes: seq<Node>)
    requires Forest(nodes)
    ensures Resolvable(Index(nodes))
    ensures GroupsFlatAnchored(nodes) <==> Faithful(nodes)
    ensures GroupsHeld(nodes) ==> GroupsFlatAnchored(nodes)
  {
    hide EventEdges, DirectDeps, Places, Covers, Forest, FlatAnchored, Faithful, Resolvable;
    ForestResolvable(nodes);
    if Faithful(nodes) {
      FaithfulIsAnchored(nodes);
    }
    if GroupsHeld(nodes) {
      HeldIsFaithful(nodes);
      FaithfulIsAnchored(nodes);
    }
  }

  lemma {:induction false} TaskOrder(nodes: seq<Node>, a: Id, b: Id)
    requires Forest(nodes) && Resolvable(Index(nodes)) && Executable(nodes, a) && Executable(nodes, b)
    ensures Reach(DirectDeps(nodes), a, b) ==> Before(nodes, a, b)
    ensures GroupsFlatAnchored(nodes) && Before(nodes, a, b) ==> Reach(DirectDeps(nodes), a, b)
  {
    hide EventEdges, DirectDeps, Places, Forest, FlatAnchored, Resolvable;
    if Reach(DirectDeps(nodes), a, b) {
      var n: nat :| n >= 1 && ReachIn(DirectDeps(nodes), a, b, n);
      DepsBefore(nodes, a, b, n);
    }
    if GroupsFlatAnchored(nodes) && Before(nodes, a, b) {
      ForestUnique(nodes);
      IndexOfForest(nodes);
      var p := FlatIsPlaced(nodes, Index(nodes)[b]);
      StartCoveredTask(nodes, p, a);
    }
  }

  lemma ForestUnique(nodes: seq<Node>)
    requires Forest(nodes)
    ensures UniqueIds(Flatten(nodes))
  {
  }

  // ---------------------------------------------------------------- the graph of task names

  function Tasks(nodes: seq<Node>): seq<ArgoTask>
    requires Resolvable(Index(nodes))
  {
    CompileArgoNodes(Index(nodes), nodes, [], [])
  }

  /** (d, t) when task `t` lists task `d` among its dependencies. */
  ghost function TaskEdges(tasks: seq<ArgoTask>): set<(string, string)>
  {
    set t, d | t in tasks && d in t.dependencies :: (d, t.taskName)
  }

  lemma NamesInjective(a: Id, b: Id)
    requires ArgoTaskName(a) == ArgoTaskName(b)
    ensures a == b
  {
    assert a == ArgoTaskName(a)[5..];
    assert b == ArgoTaskName(b)[5..];
  }

  lemma TaskOfPlace(nodes: seq<Node>, t: ArgoTask)
    requires Resolvable(Index(nodes))
    ensures t in Tasks(nodes) <==>
            exists p | p in Places(nodes, [], None) ::
              p.node.Task? && t == CompileExecutableNode(Index(nodes), p.node, p.inherited)
  {
    hide Places, CompileExecutableNode, Resolvable;
    CompilesPlaces(Index(nodes), nodes, [], None, []);
    assert Tasks(nodes) == PlacedTasks(Index(nodes), Places(nodes, [], None));
    PlacedTask(Index(nodes), Places(nodes, [], None), t);
  }

  lemma DependencyNames(index: map<Id, Node>, ids: seq<Id>, d: string)
    requires Resolvable(index)
    ensures d in ResolveDependencyTaskNames(index, ids) <==>
            exists x | x in ResolveExecutableDependencyIds(index, ids) :: d == ArgoTaskName(x)
  {
    hide ResolveExecutableDependencyIds, Resolvable;
    var resolved := ResolveExecutableDependencyIds(index, ids);
    if x :| x in resolved && d == ArgoTaskName(x) {
      var i :| 0 <= i < |resolved| && resolved[i] == x;
      assert TaskNames(resolved)[i] == d;
    }
  }

  /** The edges between task names are the direct dependencies, renamed. */
  lemma NamedEdges(nodes: seq<Node>, d: string, t: string)
    requires Resolvable(Index(nodes))
    ensures (d, t) in TaskEdges(Tasks(nodes)) <==>
            exists x, b | (x, b) in DirectDeps(nodes) :: d == ArgoTaskName(x) && t == ArgoTaskName(b)
  {
    hide Places, ResolveExecutableDependencyIds, Resolvable, ArgoTaskName, Tasks, ResolveDependencyTaskNames;
    var index := Index(nodes);
    if (d, t) in TaskEdges(Tasks(nodes)) {
      var task :| task in Tasks(nodes) && d in task.dependencies && t == task.taskName;
      TaskOfPlace(nodes, task);
      var p :| p in Places(nodes, [], None) && p.node.Task? && task == CompileExecutableNode(index, p.node, p.inherited);
      DependencyNames(index, p.inherited + p.node.needs, d);
      var x :| x in ResolveExecutableDependencyIds(index, p.inherited + p.node.needs) && d == ArgoTaskName(x);
      assert (x, p.node.id) in DirectDeps(nodes);
    }
    if x, b :| (x, b) in DirectDeps(nodes) && d == ArgoTaskName(x) && t == ArgoTaskName(b) {
      var p :| p in Places(nodes, [], None) && p.node.Task? && p.node.id == b
               && x in ResolveExecutableDependencyIds(index, p.inherited + p.node.needs);
      DependencyNames(index, p.inherited + p.node.needs, d);
      var task := CompileExecutableNode(index, p.node, p.inherited);
      TaskOfPlace(nodes, task);
      assert d in task.dependencies && task in Tasks(nodes);
    }
  }

  /** The edges between names are the edges between ids, renamed. */
  ghost predicate Renames(e: set<(string, string)>, deps: set<(Id, Id)>)
  {
    forall d, t :: (d, t) in e <==> exists x, b | (x, b) in deps :: d == ArgoTaskName(x) && t == ArgoTaskName(b)
  }

  lemma NamedEdge(e: set<(string, string)>, deps: set<(Id, Id)>, d: string, t: string) returns (x: Id, b: Id)
    requires Renames(e, deps) && (d, t) in e
    ensures (x, b) in deps && d == ArgoTaskName(x) && t == ArgoTaskName(b)
  {
    hide ArgoTaskName;
    x, b :| (x, b) in deps && d == ArgoTaskName(x) && t == ArgoTaskName(b);
  }

  lemma RenamedEdge(e: set<(string, string)>, deps: set<(Id, Id)>, x: Id, b: Id)
    requires Renames(e, deps) && (x, b) in deps
    ensures (ArgoTaskName(x), ArgoTaskName(b)) in e
  {
    hide ArgoTaskName;
  }

  lemma {:induction false} NamedReachIn(e: set<(string, string)>, deps: set<(Id, Id)>, a: Id, t: string, n: nat)
    requires Renames(e, deps) && ReachIn(e, ArgoTaskName(a), t, n)
    ensures exists b :: t == ArgoTaskName(b) && ReachIn(deps, a, b, n)
    decreases n
  {
    hide ArgoTaskName, Renames;
    if n == 0 {
      assert ReachIn(deps, a, a, 0);
    } else {
      var c :| ReachIn(e, ArgoTaskName(a), c, n - 1) && (c, t) in e;
      NamedReachIn(e, deps, a, c, n - 1);
      var x :| c == ArgoTaskName(x) && ReachIn(deps, a, x, n - 1);
      var y, b := NamedEdge(e, deps, c, t);
      NamesInjective(x, y);
      assert ReachIn(deps, a, b, n);
    }
  }

  lemma {:induction false} RenamedReachIn(e: set<(string, string)>, deps: set<(Id, Id)>, a: Id, b: Id, n: nat)
    requires Renames(e, deps) && ReachIn(deps, a, b, n)
    ensures ReachIn(e, ArgoTaskName(a), ArgoTaskName(b), n)
    decreases n
  {
    hide ArgoTaskName, Renames;
    if n > 0 {
      var c :| ReachIn(deps, a, c, n - 1) && (c, b) in deps;
      RenamedReachIn(e, deps, a, c, n - 1);
      RenamedEdge(e, deps, c, b);
    }
  }

  lemma RenamedReach(e: set<(string, string)>, deps: set<(Id, Id)>, a: Id, b: Id)
    requires Renames(e, deps)
    ensures Reach(e, ArgoTaskName(a), ArgoTaskName(b)) <==> Reach(deps, a, b)
  {
    hide ArgoTaskName, Renames;
    if Reach(e, ArgoTaskName(a), ArgoTaskName(b)) {
      var n: nat :| n >= 1 && ReachIn(e, ArgoTaskName(a), ArgoTaskName(b), n);
      NamedReachIn(e, deps, a, ArgoTaskName(b), n);
      var c :| ArgoTaskName(b) == ArgoTaskName(c) && ReachIn(deps, a, c, n);
      NamesInjective(b, c);
    }
    if Reach(deps, a, b) {
      var n: nat :| n >= 1 && ReachIn(deps, a, b, n);
      RenamedReachIn(e, deps, a, b, n);
    }
  }

  lemma NamedReach(nodes: seq<Node>, a: Id, b: Id)
    requires Resolvable(Index(nodes))
    ensures Reach(TaskEdges(Tasks(nodes)), ArgoTaskName(a), ArgoTaskName(b)) <==> Reach(DirectDeps(nodes), a, b)
  {
    hide TaskEdges, DirectDeps, Resolvable, ArgoTaskName, Tasks, Reach;
    forall d, t
      ensures (d, t) in TaskEdges(Tasks(nodes)) <==>
              exists x, b | (x, b) in DirectDeps(nodes) :: d == ArgoTaskName(x) && t == ArgoTaskName(b)
    {
      NamedEdges(nodes, d, t);
    }
    RenamedReach(TaskEdges(Tasks(nodes)), DirectDeps(nodes), a, b);
  }

  /** Lowering preserves meaning: one executable node ends before another starts, in every execution of the
      nested plan, exactly when the other's task reaches its task through dependencies. */
  lemma LoweringPreservesOrder(nodes: seq<Node>, a: Id, b: Id)
    requires Forest(nodes) && Executable(nodes, a) && Executable(nodes, b)
    ensures Resolvable(Index(nodes))
    ensures Reach(TaskEdges(Tasks(nodes)), ArgoTaskName(a), ArgoTaskName(b)) ==> Before(nodes, a, b)
    ensures GroupsFlatAnchored(nodes) && Before(nodes, a, b) ==>
              Reach(TaskEdges(Tasks(nodes)), ArgoTaskName(a), ArgoTaskName(b))
  {
    hide EventEdges, DirectDeps, Places, Forest, FlatAnchored, Resolvable, Before, Reach, TaskEdges;
    ForestResolvable(nodes);
    TaskOrder(nodes, a, b);
    NamedReach(nodes, a, b);
  }

  // ---------------------------------------------------------------- closed, acyclic, complete

  function ExecutableIds(flat: seq<Node>): seq<Id>
  {
    if flat == [] then []
    else (if flat[0].Task? then [flat[0].id] else []) + ExecutableIds(flat[1..])
  }

  function TaskIds(tasks: seq<ArgoTask>): (ids: seq<Id>)
    ensures |ids| == |tasks|
    ensures forall i | 0 <= i < |tasks| :: ids[i] == tasks[i].nodeId
  {
    seq(|tasks|, i requires 0 <= i < |tasks| => tasks[i].nodeId)
  }

  lemma {:induction false} PlacedTaskIds(index: map<Id, Node>, places: seq<Place>)
    requires Resolvable(index)
    ensures TaskIds(PlacedTasks(index, places)) == ExecutableIds(PlacedNodes(places))
    ensures forall t | t in PlacedTasks(index, places) :: t.taskName == ArgoTaskName(t.nodeId)
    decreases |places|
  {
    hide Resolvable, ResolveDependencyTaskNames, ArgoTaskName;
    if places != [] {
      PlacedTaskIds(index, places[1..]);
      assert PlacedNodes(places)[1..] == PlacedNodes(places[1..]);
      var first := if places[0].node.Task? then [CompileExecutableNode(index, places[0].node, places[0].inherited)] else [];
      assert TaskIds(first) == if places[0].node.Task? then [places[0].node.id] else [];
      assert TaskIds(first + PlacedTasks(index, places[1..])) == TaskIds(first) + TaskIds(PlacedTasks(index, places[1..]));
    }
  }

  /** The tasks are the executable nodes of the flattened plan, in preorder: the same flattening the run
      manifest lists. */
  lemma TasksInPreorder(nodes: seq<Node>)
    requires Resolvable(Index(nodes))
    ensures TaskIds(Tasks(nodes)) == ExecutableIds(Flatten(nodes))
    ensures forall t | t in Tasks(nodes) :: t.taskName == ArgoTaskName(t.nodeId)
  {
    hide Places, Resolvable, PlacedTasks, ArgoTaskName;
    CompilesPlaces(Index(nodes), nodes, [], None, []);
    assert Tasks(nodes) == PlacedTasks(Index(nodes), Places(nodes, [], None));
    PlacedTaskIds(Index(nodes), Places(nodes, [], None));
    PlacesFlatten(nodes, [], None);
  }

  lemma {:induction false} ExecutableMember(flat: seq<Node>, id: Id)
    ensures id in ExecutableIds(flat) <==> exists n | n in flat :: n.Task? && n.id == id
    decreases |flat|
  {
    if flat != [] {
      ExecutableMember(flat[1..], id);
      assert flat == [flat[0]] + flat[1..];
      assert (exists n | n in flat :: n.Task? && n.id == id) <==>
             (flat[0].Task? && flat[0].id == id) || exists n | n in flat[1..] :: n.Task? && n.id == id;
    }
  }

  lemma {:induction false} ExecutableDistinct(flat: seq<Node>)
    requires UniqueIds(flat)
    ensures Distinct(ExecutableIds(flat))
    decreases |flat|
  {
    if flat != [] {
      ExecutableDistinct(flat[1..]);
      ExecutableMember(flat[1..], flat[0].id);
    }
  }

  /** No two tasks share a name. */
  ghost predicate DistinctNames(tasks: seq<ArgoTask>)
  {
    forall i, j | 0 <= i < j < |tasks| :: tasks[i].taskName != tasks[j].taskName
  }

  lemma TaskNamesDistinct(nodes: seq<Node>)
    requires Forest(nodes) && Resolvable(Index(nodes))
    ensures DistinctNames(Tasks(nodes))
  {
    hide Resolvable, Places, EventEdges, ArgoTaskName, Tasks, Acyclic, Flatten;
    TasksInPreorder(nodes);
    ListedNames(nodes, Tasks(nodes));
  }

  lemma TaskNamed(nodes: seq<Node>, a: Id) returns (t: ArgoTask)
    requires Forest(nodes) && Resolvable(Index(nodes)) && Executable(nodes, a)
    ensures t in Tasks(nodes) && t.taskName == ArgoTaskName(a)
  {
    hide Resolvable, Places, EventEdges, ArgoTaskName, Tasks, Acyclic, Flatten;
    TasksInPreorder(nodes);
    ListedNames(nodes, Tasks(nodes));
    t :| t in Tasks(nodes) && t.taskName == ArgoTaskName(a);
  }

  /** Every dependency names a task. */
  ghost predicate ClosedGraph(tasks: seq<ArgoTask>)
  {
    forall d, t | (d, t) in TaskEdges(tasks) :: exists u | u in tasks :: u.taskName == d
  }

  lemma TasksClosed(nodes: seq<Node>)
    requires Forest(nodes) && Resolvable(Index(nodes))
    ensures ClosedGraph(Tasks(nodes))
  {
    hide Resolvable, Places, EventEdges, ArgoTaskName, Tasks, Forest, DirectDeps, TaskEdges;
    forall d, t | (d, t) in TaskEdges(Tasks(nodes)) ensures exists u | u in Tasks(nodes) :: u.taskName == d {
      NamedEdges(nodes, d, t);
      var x, b :| (x, b) in DirectDeps(nodes) && d == ArgoTaskName(x) && t == ArgoTaskName(b);
      DirectDepBefore(nodes, x, b);
      var u := TaskNamed(nodes, x);
    }
  }

  lemma TasksAcyclic(nodes: seq<Node>)
    requires Forest(nodes) && Resolvable(Index(nodes))
    ensures Acyclic(TaskEdges(Tasks(nodes)))
  {
    hide Resolvable, Places, EventEdges, ArgoTaskName, Tasks, DirectDeps, TaskEdges;
    var f := TaskEdges(Tasks(nodes));
    forall t ensures !Reach(f, t, t) {
      if Reach(f, t, t) {
        var d := LastStep(f, t, t);
        NamedEdges(nodes, d, t);
        var x, b :| (x, b) in DirectDeps(nodes) && d == ArgoTaskName(x) && t == ArgoTaskName(b);
        NamedReach(nodes, b, b);
        var n: nat :| n >= 1 && ReachIn(DirectDeps(nodes), b, b, n);
        DepsBefore(nodes, b, b, n);
      }
    }
  }

  /** The tasks that no task depends on. */
  function TerminalDependencyItems(tasks: seq<ArgoTask>, all: seq<ArgoTask>): (r: seq<ArgoTask>)
    ensures forall t :: t in r <==> t in tasks && forall u | u in all :: t.taskName !in u.dependencies
  {
    if tasks == [] then []
    else
      assert tasks == [tasks[0]] + tasks[1..];
      (if forall u | u in all :: tasks[0].taskName !in u.dependencies then [tasks[0]] else [])
      + TerminalDependencyItems(tasks[1..], all)
  }

  /** Without a cycle every task reaches, through dependents, a task that nothing depends on. */
  lemma ReachesTerminal(tasks: seq<ArgoTask>, t: ArgoTask) returns (u: ArgoTask)
    requires Acyclic(TaskEdges(tasks)) && t in tasks
    ensures u in TerminalDependencyItems(tasks, tasks) && ReachStar(TaskEdges(tasks), t.taskName, u.taskName)
  {
    hide Acyclic, ReachStar;
    var names := set v | v in tasks :: v.taskName;
    assert t.taskName in names;
    var sink := ReachesSink(TaskEdges(tasks), names, t.taskName);
    u :| u in tasks && u.taskName == sink;
    forall v | v in tasks ensures u.taskName !in v.dependencies {
      assert (sink, v.taskName) !in TaskEdges(tasks);
    }
  }

  // ---------------------------------------------------------------- the compiler's entry point

  datatype Graph = Graph(workflowId: Id, tasks: seq<ArgoTask>, terminalNodeIds: seq<Id>, terminalTaskNames: seq<string>)

  /** The first repeated id stands at `i`. */
  ghost predicate RepeatsAt(flat: seq<Node>, seen: set<Id>, i: nat, id: Id)
  {
    && i < |flat| && flat[i].id == id && (id in seen || id in IdSet(flat[..i]))
    && UniqueIds(flat[..i]) && IdSet(flat[..i]) !! seen
  }

  /** The first id of a flattened plan that was seen before. */
  function FirstDuplicate(flat: seq<Node>, seen: set<Id>): (r: Option<Id>)
    ensures r.None? ==> UniqueIds(flat) && IdSet(flat) !! seen
    ensures r.Some? ==> exists i: nat :: RepeatsAt(flat, seen, i, r.value)
  {
    if flat == [] then None
    else if flat[0].id in seen then
      assert RepeatsAt(flat, seen, 0, flat[0].id);
      Some(flat[0].id)
    else
      var rest := FirstDuplicate(flat[1..], seen + {flat[0].id});
      FirstIsNew(flat, seen, rest);
      rest
  }

  lemma FirstIsNew(flat: seq<Node>, seen: set<Id>, rest: Option<Id>)
    requires flat != [] && flat[0].id !in seen
    requires rest.None? ==> UniqueIds(flat[1..]) && IdSet(flat[1..]) !! seen + {flat[0].id}
    requires rest.Some? ==> exists i: nat :: RepeatsAt(flat[1..], seen + {flat[0].id}, i, rest.value)
    ensures rest.None? ==> UniqueIds(flat) && IdSet(flat) !! seen
    ensures rest.Some? ==> exists i: nat :: RepeatsAt(flat, seen, i, rest.value)
  {
    if rest.Some? {
      var i: nat :| RepeatsAt(flat[1..], seen + {flat[0].id}, i, rest.value);
      var before := flat[1..][..i];
      assert flat[..i + 1] == [flat[0]] + before;
      forall n | n in before ensures n.id != flat[0].id {
        assert n.id in IdSet(before);
      }
      assert RepeatsAt(flat, seen, i + 1, rest.value);
    } else {
      forall n | n in flat[1..] ensures n.id != flat[0].id {
        assert n.id in IdSet(flat[1..]);
      }
    }
  }

  lemma RepeatRefutesUnique(flat: seq<Node>, i: nat, id: Id)
    requires RepeatsAt(flat, {}, i, id)
    ensures !UniqueIds(flat)
  {
    var n :| n in flat[..i] && n.id == id;
    var j :| 0 <= j < i && flat[j] == n;
    assert flat[j].id == flat[i].id;
  }

  function CompileArgoExecutionGraph(workflowId: Id, nodes: seq<Node>): (r: Result<Graph, ArgoError>)
    ensures r.Err? && r.error.DuplicateNodeId? ==> exists i: nat :: RepeatsAt(Flatten(nodes), {}, i, r.error.id)
  {
    match FirstDuplicate(Flatten(nodes), {})
    case Some(id) => Err(DuplicateNodeId(id))
    case None =>
      match TryCompileNodes(Index(nodes), nodes, [], [])
      case Err(error) =>
        NoDuplicateWithin(nodes, error);
        Err(error)
      case Ok(tasks) =>
        if workflowId == "" || tasks == [] then Err(SchemaViolation)
        else
          var terminals := TerminalDependencyItems(tasks, tasks);
          Ok(Graph(workflowId, tasks, TaskIds(terminals), NamesOf(terminals)))
  }

  lemma NoDuplicateWithin(nodes: seq<Node>, error: ArgoError)
    ensures TryCompileNodes(Index(nodes), nodes, [], []) == Err(error) ==> !error.DuplicateNodeId?
  {
    hide Places, SomeLoops;
    TryCompileExact(Index(nodes), nodes, [], None, [], error);
  }

  /** Every outcome of compiling any plan: the first repeated id, the first place whose resolution has no end or whose
      id is empty, an empty workflow id or no task, and otherwise a graph. */
  lemma CompileOutcome(workflowId: Id, nodes: seq<Node>)
    ensures var r, places := CompileArgoExecutionGraph(workflowId, nodes), Places(nodes, [], None);
            && (r.Err? && r.error.DuplicateNodeId? <==> !UniqueIds(Flatten(nodes)))
            && (r == Err(ResolutionOverflow) <==>
                UniqueIds(Flatten(nodes)) && FailsFirst(Index(nodes), places, ResolutionOverflow))
            && (r.Ok? <==> UniqueIds(Flatten(nodes)) && Clean(Index(nodes), places)
                           && workflowId != "" && ExecutableIds(Flatten(nodes)) != [])
  {
    hide Places, Flatten, Index, FailsFirst, Clean, ExecutableIds, TryCompileNodes, TerminalDependencyItems;
    var flat := Flatten(nodes);
    var duplicate := FirstDuplicate(flat, {});
    if duplicate.Some? {
      var i: nat :| RepeatsAt(flat, {}, i, duplicate.value);
      RepeatRefutesUnique(flat, i, duplicate.value);
    } else {
      TryCompileExact(Index(nodes), nodes, [], None, [], ResolutionOverflow);
      var r := TryCompileNodes(Index(nodes), nodes, [], []);
      if r.Ok? {
        LoweredIds(nodes, r.value);
        assert TaskIds(r.value) == [] <==> r.value == [];
      } else {
        NoDuplicateWithin(nodes, r.error);
      }
    }
  }

  lemma {:induction false} TaskPlaceIds(places: seq<Place>)
    ensures PlacedIds(TaskPlaces(places)) == ExecutableIds(PlacedNodes(places))
    decreases |places|
  {
    if places != [] {
      TaskPlaceIds(places[1..]);
      assert PlacedNodes(places)[1..] == PlacedNodes(places[1..]);
    }
  }

  function PlacedIds(places: seq<Place>): (ids: seq<Id>)
    ensures |ids| == |places|
    ensures forall i | 0 <= i < |places| :: ids[i] == places[i].node.id
  {
    seq(|places|, i requires 0 <= i < |places| => places[i].node.id)
  }

  /** Of any plan without repeated ids, the tasks that lowering yields when it ends. */
  lemma LoweredIds(nodes: seq<Node>, tasks: seq<ArgoTask>)
    requires UniqueIds(Flatten(nodes)) && TryCompileNodes(Index(nodes), nodes, [], []) == Ok(tasks)
    ensures TaskIds(tasks) == ExecutableIds(Flatten(nodes))
    ensures |TaskPlaces(Places(nodes, [], None))| == |tasks|
    ensures forall i | 0 <= i < |tasks| :: Lowers(Index(nodes), TaskPlaces(Places(nodes, [], None))[i], tasks[i])
  {
    hide Places, Flatten, Index, ExecutableIds, TryCompileNodes, TaskPlaces;
    IndexOfForest(nodes);
    var places := Places(nodes, [], None);
    TryCompileLowers(Index(nodes), nodes, [], None, []);
    TaskPlaceIds(places);
    PlacesFlatten(nodes, [], None);
    forall i | 0 <= i < |tasks| ensures Lowers(Index(nodes), TaskPlaces(places)[i], tasks[i]) {
      assert tasks[0 + i] == tasks[i];
    }
    hide Named;
    assert TaskIds(tasks) == PlacedIds(TaskPlaces(places));
  }

  function NamesOf(tasks: seq<ArgoTask>): (names: seq<string>)
    ensures |names| == |tasks|
    ensures forall i | 0 <= i < |tasks| :: names[i] == tasks[i].taskName
  {
    seq(|tasks|, i requires 0 <= i < |tasks| => tasks[i].taskName)
  }

  /** A compiled graph: distinct names, every dependency a task, no cycle, a terminal task downstream of every
      task, and one task per executable node of the flattened plan, in preorder. */
  ghost predicate GraphOk(nodes: seq<Node>, g: Graph)
  {
    && DistinctNames(g.tasks)
    && ClosedGraph(g.tasks)
    && Acyclic(TaskEdges(g.tasks))
    && TaskIds(g.tasks) == ExecutableIds(Flatten(nodes))
    && TerminalsReached(g.tasks, g.terminalTaskNames)
    && TerminalsExact(g.tasks, g.terminalTaskNames)
  }

  /** Every task has a terminal task downstream. */
  ghost predicate TerminalsReached(tasks: seq<ArgoTask>, terminals: seq<string>)
  {
    forall t | t in tasks :: exists u | u in terminals :: ReachStar(TaskEdges(tasks), t.taskName, u)
  }

  /** The terminals are the tasks without dependents. */
  ghost predicate TerminalsExact(tasks: seq<ArgoTask>, terminals: seq<string>)
  {
    forall u :: u in terminals <==> TerminalName(tasks, u)
  }

  ghost predicate TerminalName(tasks: seq<ArgoTask>, u: string)
  {
    (exists t | t in tasks :: t.taskName == u) && forall v :: (u, v) !in TaskEdges(tasks)
  }

  lemma TerminalNames(tasks: seq<ArgoTask>, u: string)
    ensures u in NamesOf(TerminalDependencyItems(tasks, tasks)) <==> TerminalName(tasks, u)
  {
    var terminals := TerminalDependencyItems(tasks, tasks);
    if u in NamesOf(terminals) {
      var i :| 0 <= i < |terminals| && terminals[i].taskName == u;
      assert terminals[i] in terminals;
    }
    if TerminalName(tasks, u) {
      var t :| t in tasks && t.taskName == u;
      forall v | v in tasks ensures u !in v.dependencies {
        assert (u, v.taskName) !in TaskEdges(tasks);
      }
      var i :| 0 <= i < |terminals| && terminals[i] == t;
      assert NamesOf(terminals)[i] == u;
    }
  }

  lemma ListedNames(nodes: seq<Node>, tasks: seq<ArgoTask>)
    requires UniqueIds(Flatten(nodes)) && TaskIds(tasks) == ExecutableIds(Flatten(nodes))
    requires forall t | t in tasks :: t.taskName == ArgoTaskName(t.nodeId)
    ensures DistinctNames(tasks)
    ensures forall a :: (exists t | t in tasks :: t.taskName == ArgoTaskName(a)) <==> Executable(nodes, a)
  {
    hide ArgoTaskName, ExecutableIds, Flatten, Index;
    var flat := Flatten(nodes);
    ExecutableDistinct(flat);
    forall i, j | 0 <= i < j < |tasks| ensures tasks[i].taskName != tasks[j].taskName {
      assert TaskIds(tasks)[i] != TaskIds(tasks)[j];
      assert tasks[i] in tasks && tasks[j] in tasks;
      if tasks[i].taskName == tasks[j].taskName {
        NamesInjective(tasks[i].nodeId, tasks[j].nodeId);
      }
    }
    IndexOfForest(nodes);
    forall a ensures (exists t | t in tasks :: t.taskName == ArgoTaskName(a)) <==> Executable(nodes, a) {
      ExecutableMember(flat, a);
      if t :| t in tasks && t.taskName == ArgoTaskName(a) {
        NamesInjective(t.nodeId, a);
        var i :| 0 <= i < |tasks| && tasks[i] == t;
        assert TaskIds(tasks)[i] == a;
      }
      if a in ExecutableIds(flat) {
        var i :| 0 <= i < |TaskIds(tasks)| && TaskIds(tasks)[i] == a;
        assert tasks[i] in tasks;
      }
    }
  }

  lemma LoweredNames(nodes: seq<Node>, tasks: seq<ArgoTask>)
    requires UniqueIds(Flatten(nodes)) && TryCompileNodes(Index(nodes), nodes, [], []) == Ok(tasks)
    ensures forall t | t in tasks :: t.taskName == ArgoTaskName(t.nodeId)
    ensures forall t | t in tasks :: t.taskName == "node-" + t.nodeId && t.templateName == "task-" + t.nodeId
  {
    hide Places, Flatten, Index, ExecutableIds, TryCompileNodes, TaskPlaces, Named, InOrder;
    var places := TaskPlaces(Places(nodes, [], None));
    LoweredIds(nodes, tasks);
    forall t | t in tasks
      ensures t.taskName == ArgoTaskName(t.nodeId)
      ensures t.taskName == "node-" + t.nodeId && t.templateName == "task-" + t.nodeId
    {
      var i :| 0 <= i < |tasks| && tasks[i] == t;
      assert Lowers(Index(nodes), places[i], t);
    }
  }

  /** Templates are named after their nodes: the id reads back from the name, and no two tasks share a template. */
  ghost predicate TemplatesOk(tasks: seq<ArgoTask>)
  {
    && (forall t | t in tasks :: |t.templateName| >= 5 && t.templateName[..5] == "task-" && t.templateName[5..] == t.nodeId)
    && (forall i, j | 0 <= i < j < |tasks| :: tasks[i].templateName != tasks[j].templateName)
  }

  lemma LoweredTemplates(nodes: seq<Node>, tasks: seq<ArgoTask>)
    requires UniqueIds(Flatten(nodes)) && TryCompileNodes(Index(nodes), nodes, [], []) == Ok(tasks)
    ensures TemplatesOk(tasks)
  {
    hide Places, Flatten, Index, TryCompileNodes, TaskPlaces, Lowers, ExecutableIds;
    LoweredIds(nodes, tasks);
    LoweredNames(nodes, tasks);
    ExecutableDistinct(Flatten(nodes));
    forall i, j | 0 <= i < j < |tasks| ensures tasks[i].templateName != tasks[j].templateName {
      assert TaskIds(tasks)[i] != TaskIds(tasks)[j];
      assert tasks[i] in tasks && tasks[j] in tasks;
      assert tasks[i].templateName[5..] == tasks[i].nodeId && tasks[j].templateName[5..] == tasks[j].nodeId;
    }
  }

  /** The terminal tasks, by id and by name, in the order of the tasks and each once. */
  ghost predicate TerminalsListed(tasks: seq<ArgoTask>, ids: seq<Id>, names: seq<string>)
  {
    && Paired(ids, names)
    && OrderedIn(ids, TaskIds(tasks))
    && (forall t | t in tasks :: t.nodeId in ids <==> Undepended(tasks, t.taskName))
  }

  ghost predicate Paired(ids: seq<Id>, names: seq<string>)
  {
    |ids| == |names| && forall i | 0 <= i < |ids| :: names[i] == "node-" + ids[i]
  }

  ghost predicate Undepended(tasks: seq<ArgoTask>, name: string)
  {
    forall u | u in tasks :: name !in u.dependencies
  }

  lemma {:induction false} TerminalsOrdered(tasks: seq<ArgoTask>, all: seq<ArgoTask>)
    ensures OrderedIn(TerminalDependencyItems(tasks, all), tasks)
    decreases |tasks|
  {
    hide OrderedIn;
    if tasks == [] {
      assert OrderedIn<ArgoTask>([], []) by {
        NothingOrdered();
      }
    } else {
      TerminalsOrdered(tasks[1..], all);
      OrderedCons(tasks[0], TerminalDependencyItems(tasks[1..], all), tasks[1..],
        forall u | u in all :: tasks[0].taskName !in u.dependencies);
      assert [tasks[0]] + tasks[1..] == tasks;
    }
  }

  lemma NothingOrdered()
    ensures OrderedIn<ArgoTask>([], [])
  {
  }

  lemma OrderedIds(some: seq<ArgoTask>, tasks: seq<ArgoTask>)
    requires OrderedIn(some, tasks)
    ensures OrderedIn(TaskIds(some), TaskIds(tasks))
  {
    var a, b := TaskIds(some), TaskIds(tasks);
    forall x | x in a ensures x in b {
      var k :| 0 <= k < |a| && a[k] == x;
      assert some[k] in tasks;
      var p :| 0 <= p < |tasks| && tasks[p] == some[k];
      assert b[p] == x;
    }
    forall i, j | 0 <= i < j < |a| ensures Precedes(b, a[i], a[j]) {
      assert Precedes(tasks, some[i], some[j]);
      var p, q :| 0 <= p < q < |tasks| && tasks[p] == some[i] && tasks[q] == some[j];
      assert b[p] == a[i] && b[q] == a[j];
    }
  }

  lemma TerminalsAreListed(tasks: seq<ArgoTask>)
    requires forall t | t in tasks :: t.taskName == "node-" + t.nodeId
    requires forall i, j | 0 <= i < j < |tasks| :: tasks[i].nodeId != tasks[j].nodeId
    ensures var terminals := TerminalDependencyItems(tasks, tasks);
            TerminalsListed(tasks, TaskIds(terminals), NamesOf(terminals))
  {
    var terminals := TerminalDependencyItems(tasks, tasks);
    TerminalsOrdered(tasks, tasks);
    OrderedIds(terminals, tasks);
    TerminalsPaired(tasks);
    hide TerminalDependencyItems, OrderedIn, Undepended, Paired;
    forall t | t in tasks ensures t.nodeId in TaskIds(terminals) <==> Undepended(tasks, t.taskName) {
      TerminalListed(tasks, t);
    }
  }

  lemma TerminalsPaired(tasks: seq<ArgoTask>)
    requires forall t | t in tasks :: t.taskName == "node-" + t.nodeId
    ensures var terminals := TerminalDependencyItems(tasks, tasks); Paired(TaskIds(terminals), NamesOf(terminals))
  {
    var terminals := TerminalDependencyItems(tasks, tasks);
    assert forall t | t in terminals :: t in tasks;
    hide TerminalDependencyItems;
    forall i | 0 <= i < |terminals| ensures NamesOf(terminals)[i] == "node-" + TaskIds(terminals)[i] {
      assert terminals[i] in terminals;
    }
  }

  lemma TerminalListed(tasks: seq<ArgoTask>, t: ArgoTask)
    requires t in tasks && forall i, j | 0 <= i < j < |tasks| :: tasks[i].nodeId != tasks[j].nodeId
    ensures t.nodeId in TaskIds(TerminalDependencyItems(tasks, tasks)) <==> Undepended(tasks, t.taskName)
  {
    TerminalById(tasks, TerminalDependencyItems(tasks, tasks), t);
  }

  lemma TerminalById(tasks: seq<ArgoTask>, terminals: seq<ArgoTask>, t: ArgoTask)
    requires t in tasks && forall u | u in terminals :: u in tasks
    requires forall i, j | 0 <= i < j < |tasks| :: tasks[i].nodeId != tasks[j].nodeId
    ensures t.nodeId in TaskIds(terminals) <==> t in terminals
  {
    var ids := TaskIds(terminals);
    if t.nodeId in ids {
      var k :| 0 <= k < |ids| && ids[k] == t.nodeId;
      assert terminals[k] in tasks;
      var p :| 0 <= p < |tasks| && tasks[p] == terminals[k];
      var q :| 0 <= q < |tasks| && tasks[q] == t;
      assert p == q;
    }
    if t in terminals {
      var k :| 0 <= k < |terminals| && terminals[k] == t;
      assert ids[k] == t.nodeId;
    }
  }

  lemma IdsApart(tasks: seq<ArgoTask>)
    requires Distinct(TaskIds(tasks))
    ensures forall i, j | 0 <= i < j < |tasks| :: tasks[i].nodeId != tasks[j].nodeId
  {
    forall i, j | 0 <= i < j < |tasks| ensures tasks[i].nodeId != tasks[j].nodeId {
      assert TaskIds(tasks)[i] != TaskIds(tasks)[j];
    }
  }

  lemma LoweredClosed(nodes: seq<Node>, tasks: seq<ArgoTask>)
    requires UniqueIds(Flatten(nodes)) && TryCompileNodes(Index(nodes), nodes, [], []) == Ok(tasks)
    ensures DistinctNames(tasks) && ClosedGraph(tasks)
  {
    hide Places, Flatten, Index, ExecutableIds, TryCompileNodes, TaskPlaces, DistinctNames, Named, ArgoTaskName, ReachStar;
    var places := TaskPlaces(Places(nodes, [], None));
    LoweredIds(nodes, tasks);
    LoweredNames(nodes, tasks);
    ListedNames(nodes, tasks);
    forall d, name | (d, name) in TaskEdges(tasks) ensures exists u | u in tasks :: u.taskName == d {
      var t :| t in tasks && d in t.dependencies && t.taskName == name;
      var i :| 0 <= i < |tasks| && tasks[i] == t;
      assert Lowers(Index(nodes), places[i], t);
      var x := NamedTask(nodes, places[i].inherited + places[i].node.needs, d);
    }
  }

  lemma NamedTask(nodes: seq<Node>, needs: seq<Id>, d: string) returns (x: Id)
    requires Named(Index(nodes), needs, d)
    ensures Executable(nodes, x) && d == ArgoTaskName(x)
  {
    var m, y :| m in needs && StandsFor(Index(nodes), m, y) && d == ArgoTaskName(y);
    x := y;
  }

  /** Whatever compiles, forest or not: one task per executable node, in preorder, with names and templates of its own,
      that lists exactly the tasks its inherited and own needs stand for, in the order of the needs; no dangling
      dependency; exactly the terminal tasks, each once and in order. */
  lemma CompiledMeans(workflowId: Id, nodes: seq<Node>)
    requires CompileArgoExecutionGraph(workflowId, nodes).Ok?
    ensures var g, places := CompileArgoExecutionGraph(workflowId, nodes).value, TaskPlaces(Places(nodes, [], None));
            && g.workflowId == workflowId && TaskIds(g.tasks) == ExecutableIds(Flatten(nodes))
            && |places| == |g.tasks| && (forall i | 0 <= i < |g.tasks| :: Lowers(Index(nodes), places[i], g.tasks[i]))
            && DistinctNames(g.tasks) && ClosedGraph(g.tasks) && TemplatesOk(g.tasks)
            && TerminalsExact(g.tasks, g.terminalTaskNames)
            && TerminalsListed(g.tasks, g.terminalNodeIds, g.terminalTaskNames)
  {
    hide Places, Flatten, Index, ExecutableIds, TryCompileNodes, TaskPlaces, TerminalDependencyItems, DistinctNames,
      TerminalName, ClosedGraph, Lowers, TemplatesOk, TerminalsListed;
    var g := CompileArgoExecutionGraph(workflowId, nodes).value;
    LoweredIds(nodes, g.tasks);
    LoweredClosed(nodes, g.tasks);
    LoweredTemplates(nodes, g.tasks);
    LoweredNames(nodes, g.tasks);
    ExecutableDistinct(Flatten(nodes));
    IdsApart(g.tasks);
    TerminalsAreListed(g.tasks);
    forall u ensures u in g.terminalTaskNames <==> TerminalName(g.tasks, u) {
      TerminalNames(g.tasks, u);
    }
  }

  lemma CompiledShape(workflowId: Id, nodes: seq<Node>)
    requires UniqueIds(Flatten(nodes)) && Resolvable(Index(nodes))
    ensures CompileArgoExecutionGraph(workflowId, nodes).Ok? <==>
            workflowId != "" && ExecutableIds(Flatten(nodes)) != [] && "" !in ExecutableIds(Flatten(nodes))
    ensures CompileArgoExecutionGraph(workflowId, nodes).Ok? ==>
              var g := CompileArgoExecutionGraph(workflowId, nodes).value;
              g.tasks == Tasks(nodes) && g.terminalTaskNames == NamesOf(TerminalDependencyItems(g.tasks, g.tasks))
  {
    hide Resolvable, Tasks, EventEdges, Places, Flatten, ExecutableIds, Index, Clean, TerminalDependencyItems, FailsFirst;
    CompileOutcome(workflowId, nodes);
    ResolvableClean(nodes);
    var r := TryCompileNodes(Index(nodes), nodes, [], []);
    if r.Ok? {
      TryCompileAgrees(Index(nodes), nodes, [], []);
      TasksAre(nodes);
    }
  }

  lemma TasksAre(nodes: seq<Node>)
    requires Resolvable(Index(nodes))
    ensures Tasks(nodes) == CompileArgoNodes(Index(nodes), nodes, [], [])
  {
  }

  /** In a resolvable plan only an empty id fails. */
  lemma ResolvableClean(nodes: seq<Node>)
    requires Resolvable(Index(nodes))
    ensures Clean(Index(nodes), Places(nodes, [], None)) <==> "" !in ExecutableIds(Flatten(nodes))
  {
    hide Resolvable, Places, Flatten, ExecutableIds, Index, SomeLoops;
    var places, flat := Places(nodes, [], None), Flatten(nodes);
    ExecutableMember(flat, "");
    PlacesFlatten(nodes, [], None);
    forall p | p in places ensures Failure(Index(nodes), p).None? <==> !(p.node.Task? && p.node.id == "") {
      ResolvableNeverLoops(Index(nodes), p.inherited + p.node.needs);
    }
    if n :| n in flat && n.Task? && n.id == "" {
      var i :| 0 <= i < |flat| && flat[i] == n;
      assert places[i] in places;
    }
    forall p | p in places ensures p.node in flat {
      var i :| 0 <= i < |places| && places[i] == p;
      assert flat[i] == p.node;
    }
  }

  lemma TerminalDownstream(tasks: seq<ArgoTask>)
    requires Acyclic(TaskEdges(tasks))
    ensures TerminalsReached(tasks, NamesOf(TerminalDependencyItems(tasks, tasks)))
  {
    hide ReachStar, TaskEdges, Acyclic, TerminalDependencyItems;
    var terminals := TerminalDependencyItems(tasks, tasks);
    forall t | t in tasks ensures exists u | u in NamesOf(terminals) :: ReachStar(TaskEdges(tasks), t.taskName, u) {
      var u := ReachesTerminal(tasks, t);
      var i :| 0 <= i < |terminals| && terminals[i] == u;
      assert NamesOf(terminals)[i] == u.taskName;
    }
  }

  /** A compiled graph, forest or not, is in order exactly when it has no cycle. */
  lemma AcyclicGraphOk(workflowId: Id, nodes: seq<Node>)
    requires CompileArgoExecutionGraph(workflowId, nodes).Ok?
    ensures var g := CompileArgoExecutionGraph(workflowId, nodes).value;
            GraphOk(nodes, g) <==> Acyclic(TaskEdges(g.tasks))
  {
    hide TaskEdges, Acyclic, Flatten, DistinctNames, ClosedGraph, ExecutableIds, TerminalDependencyItems, TerminalName,
      TerminalsReached, TerminalsExact, Lowers, Places, Index, TryCompileNodes;
    var g := CompileArgoExecutionGraph(workflowId, nodes).value;
    CompiledMeans(workflowId, nodes);
    if Acyclic(TaskEdges(g.tasks)) {
      TerminalDownstream(g.tasks);
    }
  }

  lemma CompiledGraphOk(workflowId: Id, nodes: seq<Node>)
    requires Forest(nodes)
    ensures Resolvable(Index(nodes))
    ensures CompileArgoExecutionGraph(workflowId, nodes).Ok? <==>
            workflowId != "" && ExecutableIds(Flatten(nodes)) != [] && "" !in ExecutableIds(Flatten(nodes))
    ensures CompileArgoExecutionGraph(workflowId, nodes).Ok? ==>
              GraphOk(nodes, CompileArgoExecutionGraph(workflowId, nodes).value) &&
              CompileArgoExecutionGraph(workflowId, nodes).value.tasks == Tasks(nodes)
  {
    hide Resolvable, Tasks, EventEdges, Acyclic, Flatten, CompileArgoExecutionGraph, ExecutableIds, GraphOk,
      TerminalDependencyItems;
    ForestResolvable(nodes);
    CompiledShape(workflowId, nodes);
    if CompileArgoExecutionGraph(workflowId, nodes).Ok? {
      TasksAcyclic(nodes);
      AcyclicGraphOk(workflowId, nodes);
    }
  }
}
