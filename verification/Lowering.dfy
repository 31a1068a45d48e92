/** Lowering a planned forest to a flat task graph (src/argo-graph.ts), and why the lowering keeps the order of events. */
module Lowering {
  import opened DependencyRefs
  import opened Digraph
  import opened EventOrder
  import opened Workflow
  import opened Wrappers

  datatype ArgoTask = ArgoTask(nodeId: Id, taskName: string, templateName: string, dependencies: seq<string>)

  function ArgoTaskName(id: Id): string
  {
    "node-" + id
  }

  function ArgoTemplateName(id: Id): string
  {
    "task-" + id
  }

  function TaskNames(ids: seq<Id>): (names: seq<string>)
    ensures |names| == |ids|
    ensures forall i | 0 <= i < |ids| :: names[i] == ArgoTaskName(ids[i])
  {
    seq(|ids|, i requires 0 <= i < |ids| => ArgoTaskName(ids[i]))
  }

  function ResolveDependencyTaskNames(index: map<Id, Node>, ids: seq<Id>): seq<string>
    requires Resolvable(index)
  {
    UniqueStrings(TaskNames(ResolveExecutableDependencyIds(index, ids)))
  }

  function CompileExecutableNode(index: map<Id, Node>, node: Node, inherited: seq<Id>): ArgoTask
    requires Resolvable(index)
  {
    ArgoTask(node.id, ArgoTaskName(node.id), ArgoTemplateName(node.id),
             ResolveDependencyTaskNames(index, inherited + node.needs))
  }

  /** Containers vanish: a parallel lowers to its children under its needs, a group to nothing. */
  function CompileArgoNodes(index: map<Id, Node>, nodes: seq<Node>, inherited: seq<Id>,
      initial: seq<ArgoTask>): seq<ArgoTask>
    requires Resolvable(index)
    decreases nodes
  {
    if nodes == [] then initial
    else
      var n := nodes[0];
      var tasks :=
        if n.Task? then initial + [CompileExecutableNode(index, n, inherited)]
        else if n.Group? then initial
        else CompileArgoNodes(index, n.children, inherited + n.needs, initial);
      CompileArgoNodes(index, nodes[1..], inherited, tasks)
  }

  // ---------------------------------------------------------------- the flat graph, node by node

  /** The task of each placed executable node, in order. */
  function PlacedTasks(index: map<Id, Node>, places: seq<Place>): seq<ArgoTask>
    requires Resolvable(index)
  {
    if places == [] then []
    else
      (if places[0].node.Task? then [CompileExecutableNode(index, places[0].node, places[0].inherited)] else [])
      + PlacedTasks(index, places[1..])
  }

  lemma {:induction false} PlacedTasksAppend(index: map<Id, Node>, a: seq<Place>, b: seq<Place>)
    requires Resolvable(index)
    ensures PlacedTasks(index, a + b) == PlacedTasks(index, a) + PlacedTasks(index, b)
    decreases |a|
  {
    hide CompileExecutableNode, Resolvable;
    if a == [] {
      assert a + b == b;
    } else {
      var whole := a + b;
      assert whole[0] == a[0] && whole[1..] == a[1..] + b;
      PlacedTasksAppend(index, a[1..], b);
      var own := if a[0].node.Task? then [CompileExecutableNode(index, a[0].node, a[0].inherited)] else [];
      assert PlacedTasks(index, whole) == own + (PlacedTasks(index, a[1..]) + PlacedTasks(index, b));
    }
  }

  lemma PlacedTasksSplit(index: map<Id, Node>, nodes: seq<Node>, inherited: seq<Id>, container: Option<Node>)
    requires Resolvable(index) && nodes != []
    ensures PlacedTasks(index, Places(nodes, inherited, container)) ==
            (if nodes[0].Task? then [CompileExecutableNode(index, nodes[0], inherited)] else [])
            + (if nodes[0].Parallel? then PlacedTasks(index, Places(nodes[0].children, inherited + nodes[0].needs,
                Some(nodes[0]))) else [])
            + PlacedTasks(index, Places(nodes[1..], inherited, container))
  {
    hide CompileExecutableNode;
    var n := nodes[0];
    var own := [Place(n, inherited, container)];
    var inner := if n.Parallel? then Places(n.children, inherited + n.needs, Some(n)) else [];
    var rest := Places(nodes[1..], inherited, container);
    PlacedTasksAppend(index, own + inner, rest);
    PlacedTasksAppend(index, own, inner);
    assert own[1..] == [];
  }

  /** The accumulating reduction lists the placed executable nodes in preorder. */
  lemma {:induction false} CompilesPlaces(index: map<Id, Node>, nodes: seq<Node>, inherited: seq<Id>,
      container: Option<Node>, initial: seq<ArgoTask>)
    requires Resolvable(index)
    ensures CompileArgoNodes(index, nodes, inherited, initial) ==
            initial + PlacedTasks(index, Places(nodes, inherited, container))
    decreases nodes
  {
    hide CompileExecutableNode, Places, PlacedTasks, Resolvable;
    if nodes == [] {
      NoPlaces(index, inherited, container);
    } else {
      var n := nodes[0];
      var rest := PlacedTasks(index, Places(nodes[1..], inherited, container));
      PlacedTasksSplit(index, nodes, inherited, container);
      if n.Task? {
        var own := CompileExecutableNode(index, n, inherited);
        CompilesPlaces(index, nodes[1..], inherited, container, initial + [own]);
        Regroup(initial, [own], [], rest);
      } else if n.Group? {
        CompilesPlaces(index, nodes[1..], inherited, container, initial);
        Regroup(initial, [], [], rest);
      } else {
        var inner := PlacedTasks(index, Places(n.children, inherited + n.needs, Some(n)));
        CompilesPlaces(index, n.children, inherited + n.needs, Some(n), initial);
        CompilesPlaces(index, nodes[1..], inherited, container, initial + inner);
        Regroup(initial, [], inner, rest);
      }
    }
  }

  lemma Regroup<T>(a: seq<T>, b: seq<T>, c: seq<T>, d: seq<T>)
    ensures a + (b + c + d) == (a + b + c) + d
    ensures a + [] == a && b + [] == b && a + [] + c == a + c
  {
  }

  lemma NoPlaces(index: map<Id, Node>, inherited: seq<Id>, container: Option<Node>)
    requires Resolvable(index)
    ensures PlacedTasks(index, Places([], inherited, container)) == []
  {
  }

  lemma {:induction false} PlacedTask(index: map<Id, Node>, places: seq<Place>, t: ArgoTask)
    requires Resolvable(index)
    ensures t in PlacedTasks(index, places) <==>
            exists p | p in places :: p.node.Task? && t == CompileExecutableNode(index, p.node, p.inherited)
    decreases |places|
  {
    if places != [] {
      PlacedTask(index, places[1..], t);
      assert places == [places[0]] + places[1..];
      assert (exists p | p in places :: p.node.Task? && t == CompileExecutableNode(index, p.node, p.inherited)) <==>
             (places[0].node.Task? && t == CompileExecutableNode(index, places[0].node, places[0].inherited)) ||
             exists p | p in places[1..] :: p.node.Task? && t == CompileExecutableNode(index, p.node, p.inherited);
    }
  }

  // ---------------------------------------------------------------- well-formed forests

  function Index(nodes: seq<Node>): map<Id, Node>
  {
    IndexInto(nodes, map[])
  }

  /** Unique ids, no empty parallel, and constraints that some execution can meet. */
  ghost predicate Forest(nodes: seq<Node>)
  {
    && UniqueIds(Flatten(nodes))
    && (forall n | n in Flatten(nodes) && n.Parallel? :: n.children != [])
    && Acyclic(EventEdges(Flatten(nodes)))
  }

  lemma IndexOfForest(nodes: seq<Node>)
    requires UniqueIds(Flatten(nodes))
    ensures Index(nodes).Keys == IdSet(Flatten(nodes))
    ensures forall n | n in Flatten(nodes) :: Index(nodes)[n.id] == n
    ensures forall x | x in Index(nodes) :: Index(nodes)[x] in Flatten(nodes) && Index(nodes)[x].id == x
  {
    IndexFinds(nodes, map[]);
    forall x | x in Index(nodes) ensures Index(nodes)[x] in Flatten(nodes) && Index(nodes)[x].id == x {
      assert x in IdSet(Flatten(nodes));
      var n :| n in Flatten(nodes) && n.id == x;
    }
  }

  /** A container ends after everything it expands to. */
  lemma ExpandsBefore(nodes: seq<Node>, n: Node, m: Id)
    requires UniqueIds(Flatten(nodes)) && n in Flatten(nodes) && m in Expands(n) && m in IdSet(Flatten(nodes))
    ensures Reach(EventEdges(Flatten(nodes)), End(m), End(n.id))
  {
    var flat := Flatten(nodes);
    var e := EventEdges(flat);
    if n.Group? {
      RefEdge(flat, n, m);
      RunEdge(flat, n);
      EdgeReach(e, End(m), Start(n.id));
      EdgeReach(e, Start(n.id), End(n.id));
      ReachTrans(e, End(m), Start(n.id), End(n.id));
    } else {
      var c :| c in Children(n) && c.id == m;
      ContainEdges(flat, n, c);
      EdgeReach(e, End(m), End(n.id));
    }
  }

  /** Satisfiable constraints make resolution terminate. */
  lemma ForestResolvable(nodes: seq<Node>)
    requires Forest(nodes)
    ensures Resolvable(Index(nodes))
  {
    hide EventEdges;
    IndexOfForest(nodes);
    var e := EventEdges(Flatten(nodes));
    forall m, id | (m, id) in ExpandEdges(Index(nodes)) ensures Rank(e, End(m)) < Rank(e, End(id)) {
      ExpandsBefore(nodes, Index(nodes)[id], m);
      RankGrowsReach(e, End(m), End(id));
    }
    PotentialAcyclic(ExpandEdges(Index(nodes)), id => Rank(e, End(id)));
  }

  /** (x, b) when executable node `b` directly depends on executable node `x`. */
  ghost function DirectDeps(nodes: seq<Node>): set<(Id, Id)>
    requires Resolvable(Index(nodes))
  {
    set p, x | p in Places(nodes, [], None) && p.node.Task?
               && x in ResolveExecutableDependencyIds(Index(nodes), p.inherited + p.node.needs) :: (x, p.node.id)
  }

  lemma DirectDep(nodes: seq<Node>, p: Place, m: Id, x: Id)
    requires Resolvable(Index(nodes)) && p in Places(nodes, [], None) && p.node.Task?
    requires m in p.inherited + p.node.needs && x in ResolveOne(Index(nodes), m)
    ensures (x, p.node.id) in DirectDeps(nodes)
  {
    ResolveMembers(Index(nodes), p.inherited + p.node.needs, x);
  }

  ghost predicate Executable(nodes: seq<Node>, a: Id)
  {
    a in Index(nodes) && Index(nodes)[a].Task?
  }

  // ---------------------------------------------------------------- lowered order implies event order

  lemma {:induction false} StandsBefore(nodes: seq<Node>, m: Id, x: Id)
    requires Forest(nodes) && Resolvable(Index(nodes)) && x in ResolveOne(Index(nodes), m)
    ensures Executable(nodes, x) && ReachStar(EventEdges(Flatten(nodes)), End(x), End(m))
    decreases Height(Index(nodes), m)
  {
    hide EventEdges;
    IndexOfForest(nodes);
    var n := Index(nodes)[m];
    if !n.Task? {
      ResolveContainer(Index(nodes), m, x);
      ExpandLower(Index(nodes), m);
      var k :| k in Expands(n) && x in ResolveOne(Index(nodes), k);
      StandsBefore(nodes, k, x);
      ExpandsBefore(nodes, n, k);
      ReachTrans(EventEdges(Flatten(nodes)), End(x), End(k), End(m));
    }
  }

  /** Everything among a node's own and inherited needs ends before the node starts. */
  lemma {:induction false} InheritedBefore(nodes: seq<Node>, p: Place, m: Id)
    requires Forest(nodes) && p in Places(nodes, [], None)
    requires m in p.inherited + p.node.needs && m in IdSet(Flatten(nodes))
    ensures Reach(EventEdges(Flatten(nodes)), End(m), Start(p.node.id))
    decreases Rank(EventEdges(Flatten(nodes)), Start(p.node.id))
  {
    hide EventEdges, Places;
    var flat := Flatten(nodes);
    var e := EventEdges(flat);
    PlacesFlatten(nodes, [], None);
    PlacedInFlat(nodes, p);
    if m in p.node.needs {
      RefEdge(flat, p.node, m);
      EdgeReach(e, End(m), Start(p.node.id));
    } else {
      PlaceFacts(nodes, [], None, p);
      var q :| q in Places(nodes, [], None) && q.node == p.container.value && p.inherited == q.inherited + q.node.needs;
      PlacedInFlat(nodes, q);
      ContainEdges(flat, q.node, p.node);
      RankGrows(e, Start(q.node.id), Start(p.node.id));
      InheritedBefore(nodes, q, m);
      EdgeReach(e, Start(q.node.id), Start(p.node.id));
      ReachTrans(e, End(m), Start(q.node.id), Start(p.node.id));
    }
  }

  lemma PlacedInFlat(nodes: seq<Node>, p: Place)
    requires p in Places(nodes, [], None)
    ensures p.node in Flatten(nodes)
  {
    PlacesFlatten(nodes, [], None);
    var i :| 0 <= i < |Places(nodes, [], None)| && Places(nodes, [], None)[i] == p;
    assert PlacedNodes(Places(nodes, [], None))[i] == p.node;
  }

  lemma FlatIsPlaced(nodes: seq<Node>, n: Node) returns (p: Place)
    requires n in Flatten(nodes)
    ensures p in Places(nodes, [], None) && p.node == n
  {
    PlacesFlatten(nodes, [], None);
    var i :| 0 <= i < |Flatten(nodes)| && Flatten(nodes)[i] == n;
    p := Places(nodes, [], None)[i];
    assert PlacedNodes(Places(nodes, [], None))[i] == p.node;
  }

  lemma DirectDepBefore(nodes: seq<Node>, x: Id, b: Id)
    requires Forest(nodes) && Resolvable(Index(nodes)) && (x, b) in DirectDeps(nodes)
    ensures Executable(nodes, x) && Before(nodes, x, b)
    ensures Reach(EventEdges(Flatten(nodes)), End(x), End(b))
  {
    hide EventEdges, Places;
    IndexOfForest(nodes);
    var e := EventEdges(Flatten(nodes));
    var p :| p in Places(nodes, [], None) && p.node.Task? && p.node.id == b
             && x in ResolveExecutableDependencyIds(Index(nodes), p.inherited + p.node.needs);
    ResolveMembers(Index(nodes), p.inherited + p.node.needs, x);
    var m :| m in p.inherited + p.node.needs && x in ResolveOne(Index(nodes), m);
    StandsBefore(nodes, m, x);
    InheritedBefore(nodes, p, m);
    ReachTrans(e, End(x), End(m), Start(b));
    PlacedInFlat(nodes, p);
    RunEdge(Flatten(nodes), p.node);
    EdgeReach(e, Start(b), End(b));
    ReachTrans(e, End(x), Start(b), End(b));
  }

  /** Order among tasks is order among events. */
  lemma {:induction false} DepsBefore(nodes: seq<Node>, a: Id, b: Id, n: nat)
    requires Forest(nodes) && Resolvable(Index(nodes)) && n >= 1 && ReachIn(DirectDeps(nodes), a, b, n)
    ensures Before(nodes, a, b) && Reach(EventEdges(Flatten(nodes)), End(a), End(b))
    decreases n
  {
    hide EventEdges, DirectDeps, Forest;
    var e := EventEdges(Flatten(nodes));
    var c :| ReachIn(DirectDeps(nodes), a, c, n - 1) && (c, b) in DirectDeps(nodes);
    DirectDepBefore(nodes, c, b);
    if n > 1 {
      DepsBefore(nodes, a, c, n - 1);
      ReachTrans(e, End(a), End(c), Start(b));
      ReachTrans(e, End(a), End(c), End(b));
    }
  }

  // ---------------------------------------------------------------- event order implies lowered order

  /** `a` is, or is upstream of, one of the tasks that `id` stands for. */
  ghost predicate Covers(nodes: seq<Node>, id: Id, a: Id)
    requires Resolvable(Index(nodes))
  {
    exists s | s in ResolveOne(Index(nodes), id) :: ReachStar(DirectDeps(nodes), a, s)
  }

  lemma CoversUpstream(nodes: seq<Node>, id: Id, a: Id, b: Id)
    requires Resolvable(Index(nodes)) && Covers(nodes, id, b) && ReachStar(DirectDeps(nodes), a, b)
    ensures Covers(nodes, id, a)
  {
    hide DirectDeps;
    var s :| s in ResolveOne(Index(nodes), id) && ReachStar(DirectDeps(nodes), b, s);
    ReachTrans(DirectDeps(nodes), a, b, s);
  }

  lemma CoversContainer(nodes: seq<Node>, id: Id, m: Id, a: Id)
    requires Resolvable(Index(nodes)) && id in Index(nodes) && m in Expands(Index(nodes)[id]) && Covers(nodes, m, a)
    ensures Covers(nodes, id, a)
  {
    hide DirectDeps;
    var s :| s in ResolveOne(Index(nodes), m) && ReachStar(DirectDeps(nodes), a, s);
    ResolveContainer(Index(nodes), id, s);
  }

  /** Everything a group's containers wait for is upstream of what the group stands for. */
  ghost predicate FlatAnchored(nodes: seq<Node>, p: Place)
    requires Resolvable(Index(nodes))
  {
    forall m, s | m in p.inherited && s in ResolveOne(Index(nodes), m) :: Covers(nodes, p.node.id, s)
  }

  ghost predicate GroupsFlatAnchored(nodes: seq<Node>)
    requires Resolvable(Index(nodes))
  {
    forall p | p in Places(nodes, [], None) && p.node.Group? :: FlatAnchored(nodes, p)
  }

  /** A group that refers to something inside its own container. */
  ghost predicate RefersInside(nodes: seq<Node>, p: Place)
  {
    p.container.Some? ==>
      exists m | m in Refs(p.node) :: m in IdSet(Flatten(nodes)) && Reach(EventEdges(Flatten(nodes)),
          Start(p.container.value.id), Start(m))
  }

  ghost predicate GroupsHeld(nodes: seq<Node>)
    requires Resolvable(Index(nodes))
  {
    forall p | p in Places(nodes, [], None) && p.node.Group? :: FlatAnchored(nodes, p) || RefersInside(nodes, p)
  }

  /** What ends before a node's end is, on the task graph, upstream of what the node stands for. */
  lemma {:induction false} EndCovered(nodes: seq<Node>, n: Node, a: Id)
    requires Forest(nodes) && Resolvable(Index(nodes)) && GroupsHeld(nodes)
    requires n in Flatten(nodes) && Executable(nodes, a)
    requires ReachStar(EventEdges(Flatten(nodes)), End(a), End(n.id))
    ensures Covers(nodes, n.id, a)
    decreases Rank(EventEdges(Flatten(nodes)), End(n.id)), 0
  {
    hide EventEdges, DirectDeps, Places, GroupsHeld, ReachStar;
    var flat := Flatten(nodes);
    var e := EventEdges(flat);
    IndexOfForest(nodes);
    if a == n.id {
      StandsForItself(nodes, n);
    } else {
      StarIsReach(e, End(a), End(n.id));
      var x := LastStep(e, End(a), End(n.id));
      IntoEnd(flat, n, x);
      RankGrows(e, x, End(n.id));
      if x == Start(n.id) {
        StarIsReach(e, End(a), Start(n.id));
        var p := FlatIsPlaced(nodes, n);
        if n.Task? {
          StartCoveredTask(nodes, p, a);
        } else if n.Group? {
          StartCoveredGroup(nodes, p, a);
        } else {
          ParallelFromStart(nodes, n, a);
          EndCovered(nodes, n.children[0], a);
          CoversContainer(nodes, n.id, n.children[0].id, a);
        }
      } else {
        var c :| c in Children(n) && x == End(c.id);
        ChildrenFlattened(nodes, n, c);
        EndCovered(nodes, c, a);
        ChildExpands(n, c);
        CoversContainer(nodes, n.id, c.id, a);
      }
    }
  }

  lemma StarIsReach<T(!new)>(e: set<(T, T)>, a: T, b: T)
    requires ReachStar(e, a, b) && a != b
    ensures Reach(e, a, b)
  {
  }

  lemma ChildExpands(n: Node, c: Node)
    requires c in Children(n)
    ensures c.id in Expands(n)
  {
    var i :| 0 <= i < |n.children| && n.children[i] == c;
    assert Ids(n.children)[i] == c.id;
  }

  lemma StandsForItself(nodes: seq<Node>, n: Node)
    requires UniqueIds(Flatten(nodes)) && Resolvable(Index(nodes)) && n in Flatten(nodes) && Executable(nodes, n.id)
    ensures Covers(nodes, n.id, n.id)
  {
    IndexOfForest(nodes);
    assert n.id in ResolveOne(Index(nodes), n.id);
  }

  /** A parallel's first child sees everything before the parallel's start, and ends before the parallel. */
  lemma ParallelFromStart(nodes: seq<Node>, n: Node, a: Id)
    requires Forest(nodes) && n in Flatten(nodes) && n.Parallel?
    requires Reach(EventEdges(Flatten(nodes)), End(a), Start(n.id))
    ensures n.children != [] && n.children[0] in Flatten(nodes) && n.children[0].id in Expands(n)
    ensures ReachStar(EventEdges(Flatten(nodes)), End(a), End(n.children[0].id))
    ensures Rank(EventEdges(Flatten(nodes)), End(n.children[0].id)) < Rank(EventEdges(Flatten(nodes)), End(n.id))
  {
    hide EventEdges;
    var flat, c := Flatten(nodes), n.children[0];
    var e := EventEdges(flat);
    assert c in Children(n);
    ChildrenFlattened(nodes, n, c);
    ChildExpands(n, c);
    ContainEdges(flat, n, c);
    RankGrows(e, End(c.id), End(n.id));
    RunEdge(flat, c);
    EdgeReach(e, Start(n.id), Start(c.id));
    EdgeReach(e, Start(c.id), End(c.id));
    ReachTrans(e, End(a), Start(n.id), Start(c.id));
    ReachTrans(e, End(a), Start(c.id), End(c.id));
  }

  /** What ends before an event that follows the end of `m` is upstream of what `m` stands for. */
  lemma {:induction false} RefCovered(nodes: seq<Node>, m: Id, a: Id, bound: nat)
    requires Forest(nodes) && Resolvable(Index(nodes)) && GroupsHeld(nodes)
    requires m in IdSet(Flatten(nodes)) && Executable(nodes, a)
    requires ReachStar(EventEdges(Flatten(nodes)), End(a), End(m))
    requires Rank(EventEdges(Flatten(nodes)), End(m)) < bound
    ensures Covers(nodes, m, a)
    decreases bound, 0
  {
    hide EventEdges, DirectDeps, Places, GroupsHeld, ReachStar;
    var n :| n in Flatten(nodes) && n.id == m;
    EndCovered(nodes, n, a);
  }

  /** What ends before a placed node starts is upstream of one of its own or inherited dependencies. */
  lemma {:induction false} StartCovered(nodes: seq<Node>, p: Place, a: Id) returns (m: Id)
    requires Forest(nodes) && Resolvable(Index(nodes)) && GroupsHeld(nodes)
    requires p in Places(nodes, [], None) && Executable(nodes, a)
    requires Reach(EventEdges(Flatten(nodes)), End(a), Start(p.node.id))
    ensures m in p.inherited + Refs(p.node) && Covers(nodes, m, a)
    decreases Rank(EventEdges(Flatten(nodes)), Start(p.node.id)), 1
  {
    hide EventEdges, DirectDeps, Places, GroupsHeld, ReachStar;
    var flat, n := Flatten(nodes), p.node;
    var e := EventEdges(flat);
    PlacedInFlat(nodes, p);
    var x := LastStep(e, End(a), Start(n.id));
    RankGrows(e, x, Start(n.id));
    IntoStart(flat, n, x);
    if d :| d in Refs(n) && d in IdSet(flat) && x == End(d) {
      m := d;
      RefCovered(nodes, m, a, Rank(e, Start(n.id)));
    } else {
      var q0 :| q0 in flat && x == Start(q0.id) && exists c | c in Children(q0) :: c.id == n.id;
      StarIsReach(e, End(a), Start(q0.id));
      var q := ContainerPlace(nodes, p, q0);
      m := StartCovered(nodes, q, a);
      assert Refs(q.node) == q.node.needs;
    }
  }

  /** The place of a node's container. */
  lemma ContainerPlace(nodes: seq<Node>, p: Place, container: Node) returns (q: Place)
    requires UniqueIds(Flatten(nodes)) && p in Places(nodes, [], None)
    requires container in Flatten(nodes) && exists c | c in Children(container) :: c.id == p.node.id
    requires Acyclic(EventEdges(Flatten(nodes)))
    ensures q in Places(nodes, [], None) && q.node == container && container.Parallel?
    ensures p.inherited == q.inherited + q.node.needs
  {
    hide EventEdges, Places;
    var c :| c in Children(container) && c.id == p.node.id;
    ChildrenFlattened(nodes, container, c);
    PlacedInFlat(nodes, p);
    SameNode(Flatten(nodes), c, p.node);
    q := FlatIsPlaced(nodes, container);
    ChildPlaced(nodes, [], None, q, c);
    UniquePlace(nodes, p, Place(c, q.inherited + q.node.needs, Some(container)));
  }

  lemma {:induction false} ChildPlaced(nodes: seq<Node>, inherited: seq<Id>, container: Option<Node>, q: Place, c: Node)
    requires q in Places(nodes, inherited, container) && c in Children(q.node)
    ensures Place(c, q.inherited + q.node.needs, Some(q.node)) in Places(nodes, inherited, container)
    decreases nodes
  {
    var head := nodes[0];
    if q == Place(head, inherited, container) {
      LevelPlaced(head.children, inherited + head.needs, Some(head), c);
    } else if head.Parallel? && q in Places(head.children, inherited + head.needs, Some(head)) {
      ChildPlaced(head.children, inherited + head.needs, Some(head), q, c);
    } else {
      ChildPlaced(nodes[1..], inherited, container, q, c);
    }
  }

  lemma {:induction false} LevelPlaced(nodes: seq<Node>, inherited: seq<Id>, container: Option<Node>, c: Node)
    requires c in nodes
    ensures Place(c, inherited, container) in Places(nodes, inherited, container)
    decreases |nodes|
  {
    if c != nodes[0] {
      assert c in nodes[1..];
      LevelPlaced(nodes[1..], inherited, container, c);
    }
  }

  lemma UniquePlace(nodes: seq<Node>, p: Place, q: Place)
    requires UniqueIds(Flatten(nodes)) && p in Places(nodes, [], None) && q in Places(nodes, [], None)
        && p.node.id == q.node.id
    ensures p == q
  {
    var places := Places(nodes, [], None);
    PlacesFlatten(nodes, [], None);
    var i :| 0 <= i < |places| && places[i] == p;
    var j :| 0 <= j < |places| && places[j] == q;
    assert Flatten(nodes)[i] == p.node && Flatten(nodes)[j] == q.node;
    assert i == j;
  }

  lemma {:induction false} StartCoveredTask(nodes: seq<Node>, p: Place, a: Id)
    requires Forest(nodes) && Resolvable(Index(nodes)) && GroupsHeld(nodes)
    requires p in Places(nodes, [], None) && Executable(nodes, a) && p.node.Task?
    requires Reach(EventEdges(Flatten(nodes)), End(a), Start(p.node.id))
    ensures Covers(nodes, p.node.id, a) && Reach(DirectDeps(nodes), a, p.node.id)
    decreases Rank(EventEdges(Flatten(nodes)), Start(p.node.id)), 2
  {
    hide EventEdges, DirectDeps, Places, GroupsHeld, ReachStar;
    var m := StartCovered(nodes, p, a);
    TaskCovered(nodes, p, a, m);
  }

  lemma TaskCovered(nodes: seq<Node>, p: Place, a: Id, m: Id)
    requires Forest(nodes) && Resolvable(Index(nodes)) && p in Places(nodes, [], None) && p.node.Task?
    requires m in p.inherited + Refs(p.node) && Covers(nodes, m, a)
    ensures Covers(nodes, p.node.id, a) && Reach(DirectDeps(nodes), a, p.node.id)
  {
    hide EventEdges, DirectDeps, Places;
    var s :| s in ResolveOne(Index(nodes), m) && ReachStar(DirectDeps(nodes), a, s);
    DirectDep(nodes, p, m, s);
    EdgeReach(DirectDeps(nodes), s, p.node.id);
    ReachTrans(DirectDeps(nodes), a, s, p.node.id);
    PlacedInFlat(nodes, p);
    IndexOfForest(nodes);
    StandsForItself(nodes, p.node);
  }

  lemma {:induction false} StartCoveredGroup(nodes: seq<Node>, p: Place, a: Id)
    requires Forest(nodes) && Resolvable(Index(nodes)) && GroupsHeld(nodes)
    requires p in Places(nodes, [], None) && Executable(nodes, a) && p.node.Group?
    requires Reach(EventEdges(Flatten(nodes)), End(a), Start(p.node.id))
    ensures Covers(nodes, p.node.id, a)
    decreases Rank(EventEdges(Flatten(nodes)), Start(p.node.id)), 2
  {
    hide EventEdges, DirectDeps, Places, ReachStar;
    PlacedInFlat(nodes, p);
    IndexOfForest(nodes);
    if FlatAnchored(nodes, p) {
      var m := StartCovered(nodes, p, a);
      GroupCovered(nodes, p, a, m);
    } else {
      var flat := Flatten(nodes);
      var e := EventEdges(flat);
      var x := LastStep(e, End(a), Start(p.node.id));
      RankGrows(e, x, Start(p.node.id));
      IntoStart(flat, p.node, x);
      if d :| d in Refs(p.node) && d in IdSet(flat) && x == End(d) {
        RefCovered(nodes, d, a, Rank(e, Start(p.node.id)));
        CoversContainer(nodes, p.node.id, d, a);
      } else {
        var q0 :| q0 in flat && x == Start(q0.id) && exists c | c in Children(q0) :: c.id == p.node.id;
        StarIsReach(e, End(a), Start(q0.id));
        var m := InsideMember(nodes, p, q0, a);
        RefCovered(nodes, m, a, Rank(e, Start(p.node.id)));
        CoversContainer(nodes, p.node.id, m, a);
      }
    }
  }

  /** A reference into the group's own container sees everything before the container's start. */
  lemma InsideMember(nodes: seq<Node>, p: Place, container: Node, a: Id) returns (m: Id)
    requires Forest(nodes) && p in Places(nodes, [], None) && p.node.Group? && RefersInside(nodes, p)
    requires container in Flatten(nodes) && exists c | c in Children(container) :: c.id == p.node.id
    requires Reach(EventEdges(Flatten(nodes)), End(a), Start(container.id))
    ensures m in Refs(p.node) && m in IdSet(Flatten(nodes))
    ensures ReachStar(EventEdges(Flatten(nodes)), End(a), End(m))
    ensures Rank(EventEdges(Flatten(nodes)), End(m)) < Rank(EventEdges(Flatten(nodes)), Start(p.node.id))
  {
    hide EventEdges, Places;
    var flat := Flatten(nodes);
    var e := EventEdges(flat);
    var q := ContainerPlace(nodes, p, container);
    PlaceContainer(nodes, p, container);
    m :| m in Refs(p.node) && m in IdSet(flat) && Reach(e, Start(container.id), Start(m));
    var n :| n in flat && n.id == m;
    RunEdge(flat, n);
    EdgeReach(e, Start(m), End(m));
    ReachTrans(e, End(a), Start(container.id), Start(m));
    ReachTrans(e, End(a), Start(m), End(m));
    PlacedInFlat(nodes, p);
    RefEdge(flat, p.node, m);
    RankGrows(e, End(m), Start(p.node.id));
  }

  lemma PlaceContainer(nodes: seq<Node>, p: Place, container: Node)
    requires UniqueIds(Flatten(nodes)) && p in Places(nodes, [], None)
    requires container in Flatten(nodes) && exists c | c in Children(container) :: c.id == p.node.id
    ensures p.container == Some(container)
  {
    hide Places;
    var c :| c in Children(container) && c.id == p.node.id;
    ChildrenFlattened(nodes, container, c);
    PlacedInFlat(nodes, p);
    SameNode(Flatten(nodes), c, p.node);
    var q := FlatIsPlaced(nodes, container);
    ChildPlaced(nodes, [], None, q, c);
    UniquePlace(nodes, p, Place(c, q.inherited + q.node.needs, Some(container)));
  }

  lemma GroupCovered(nodes: seq<Node>, p: Place, a: Id, m: Id)
    requires Forest(nodes) && Resolvable(Index(nodes)) && p in Places(nodes, [], None) && p.node.Group?
    requires p.node.id in Index(nodes) && Index(nodes)[p.node.id] == p.node
    requires FlatAnchored(nodes, p) && m in p.inherited + Refs(p.node) && Covers(nodes, m, a)
    ensures Covers(nodes, p.node.id, a)
  {
    hide EventEdges, DirectDeps, Places;
    if m in Refs(p.node) {
      CoversContainer(nodes, p.node.id, m, a);
    } else {
      var s :| s in ResolveOne(Index(nodes), m) && ReachStar(DirectDeps(nodes), a, s);
      assert Covers(nodes, p.node.id, s);
      CoversUpstream(nodes, p.node.id, a, s);
    }
  }
}
