/** When the flat graph keeps the order of executable nodes, read off the flat graph. */
module LeafOrder {
  import opened ArgoGraph
  import opened DependencyRefs
  import opened Digraph
  import opened EventOrder
  import opened Lowering
  import opened Workflow
  import opened Wrappers

  /** The ids whose end a container's end waits for: what it stands for and, for a group, what its containers need. */
  function Waits(p: Place): seq<Id>
  {
    Expands(p.node) + (if p.node.Group? then p.inherited else [])
  }

  ghost function GuardEdges(nodes: seq<Node>): set<(Id, Id)>
  {
    set p, m | p in Places(nodes, [], None) && m in Waits(p) :: (m, p.node.id)
  }

  /** A need of the placed task, its own or inherited, waits for `x`, directly or through containers. */
  ghost predicate Guards(nodes: seq<Node>, x: Id, q: Place)
  {
    exists r | r in q.inherited + q.node.needs :: ReachStar(GuardEdges(nodes), x, r)
  }

  /** Whatever a task waits for through a nested group's containers is upstream of the task in the flat graph. */
  ghost predicate LeavesFlatAnchored(nodes: seq<Node>)
    requires Resolvable(Index(nodes))
  {
    forall q, p, m, s |
      && q in Places(nodes, [], None) && q.node.Task? && p in Places(nodes, [], None) && p.node.Group?
      && Guards(nodes, p.node.id, q) && m in p.inherited && s in ResolveOne(Index(nodes), m) ::
      Reach(DirectDeps(nodes), s, q.node.id)
  }

  /** The lowering's promise: one executable node ends before another starts exactly when its task is upstream. */
  ghost predicate LeavesExact(nodes: seq<Node>)
    requires Resolvable(Index(nodes))
  {
    forall a, b | Executable(nodes, a) && Executable(nodes, b) :: Before(nodes, a, b) <==> Reach(DirectDeps(nodes), a, b)
  }

  // ---------------------------------------------------------------- the condition is necessary

  lemma GuardEdgeBefore(nodes: seq<Node>, m: Id, id: Id)
    requires Forest(nodes) && (m, id) in GuardEdges(nodes) && m in IdSet(Flatten(nodes))
    ensures id in IdSet(Flatten(nodes)) && Reach(EventEdges(Flatten(nodes)), End(m), End(id))
  {
    hide EventEdges, Places, Flatten;
    var p :| p in Places(nodes, [], None) && m in Waits(p) && p.node.id == id;
    var e := EventEdges(Flatten(nodes));
    PlacedInFlat(nodes, p);
    if m in Expands(p.node) {
      ExpandsBefore(nodes, p.node, m);
    } else {
      InheritedBefore(nodes, p, m);
      RunEdge(Flatten(nodes), p.node);
      EdgeReach(e, Start(id), End(id));
      ReachTrans(e, End(m), Start(id), End(id));
    }
  }

  lemma {:induction false} GuardBefore(nodes: seq<Node>, x: Id, r: Id, n: nat)
    requires Forest(nodes) && ReachIn(GuardEdges(nodes), x, r, n) && x in IdSet(Flatten(nodes))
    ensures r in IdSet(Flatten(nodes)) && ReachStar(EventEdges(Flatten(nodes)), End(x), End(r))
    decreases n
  {
    hide EventEdges, GuardEdges, Forest, Flatten;
    if n > 0 {
      var c :| ReachIn(GuardEdges(nodes), x, c, n - 1) && (c, r) in GuardEdges(nodes);
      GuardBefore(nodes, x, c, n - 1);
      GuardEdgeBefore(nodes, c, r);
      ReachTrans(EventEdges(Flatten(nodes)), End(x), End(c), End(r));
    }
  }

  lemma GuardEndsBefore(nodes: seq<Node>, x: Id, q: Place)
    requires Forest(nodes) && Guards(nodes, x, q) && x in IdSet(Flatten(nodes)) && q in Places(nodes, [], None)
    ensures Reach(EventEdges(Flatten(nodes)), End(x), Start(q.node.id))
  {
    hide EventEdges, GuardEdges, Forest, Flatten, Places;
    var r :| r in q.inherited + q.node.needs && ReachStar(GuardEdges(nodes), x, r);
    if x != r {
      var n: nat :| n >= 1 && ReachIn(GuardEdges(nodes), x, r, n);
      GuardBefore(nodes, x, r, n);
    }
    InheritedBefore(nodes, q, r);
    ReachTrans(EventEdges(Flatten(nodes)), End(x), End(r), Start(q.node.id));
  }

  lemma ExactIsFlatAnchored(nodes: seq<Node>)
    requires Forest(nodes) && Resolvable(Index(nodes)) && LeavesExact(nodes)
    ensures LeavesFlatAnchored(nodes)
  {
    hide EventEdges, GuardEdges, Flatten, Places, DirectDeps, Acyclic, Resolvable, Guards, Index;
    IndexOfForest(nodes);
    var e := EventEdges(Flatten(nodes));
    forall q, p, m, s |
      && q in Places(nodes, [], None) && q.node.Task? && p in Places(nodes, [], None) && p.node.Group?
      && Guards(nodes, p.node.id, q) && m in p.inherited && s in ResolveOne(Index(nodes), m)
      ensures Reach(DirectDeps(nodes), s, q.node.id)
    {
      PlacedInFlat(nodes, q);
      PlacedInFlat(nodes, p);
      StandsBefore(nodes, m, s);
      ResolvedKnown(nodes, m, s);
      InheritedBefore(nodes, p, m);
      RunEdge(Flatten(nodes), p.node);
      EdgeReach(e, Start(p.node.id), End(p.node.id));
      GuardEndsBefore(nodes, p.node.id, q);
      ReachTrans(e, End(s), End(m), Start(p.node.id));
      ReachTrans(e, End(s), Start(p.node.id), End(p.node.id));
      ReachTrans(e, End(s), End(p.node.id), Start(q.node.id));
      assert Executable(nodes, q.node.id);
      assert Before(nodes, s, q.node.id);
    }
  }

  lemma ResolvedKnown(nodes: seq<Node>, m: Id, s: Id)
    requires UniqueIds(Flatten(nodes)) && Resolvable(Index(nodes)) && s in ResolveOne(Index(nodes), m)
    ensures m in IdSet(Flatten(nodes))
  {
    IndexOfForest(nodes);
  }

  // ---------------------------------------------------------------- the condition is sufficient

  lemma GuardStep(nodes: seq<Node>, p: Place, m: Id, q: Place)
    requires p in Places(nodes, [], None) && m in Waits(p) && Guards(nodes, p.node.id, q)
    ensures Guards(nodes, m, q)
  {
    hide Places;
    var r :| r in q.inherited + q.node.needs && ReachStar(GuardEdges(nodes), p.node.id, r);
    assert (m, p.node.id) in GuardEdges(nodes);
    EdgeReach(GuardEdges(nodes), m, p.node.id);
    hide GuardEdges;
    ReachTrans(GuardEdges(nodes), m, p.node.id, r);
  }

  /** What a guarding id stands for is upstream of the task. */
  lemma {:induction false} GuardResolved(nodes: seq<Node>, q: Place, y: Id, r: Id, n: nat, x: Id)
    requires Forest(nodes) && Resolvable(Index(nodes)) && LeavesFlatAnchored(nodes)
    requires q in Places(nodes, [], None) && q.node.Task? && r in q.inherited + q.node.needs
    requires ReachIn(GuardEdges(nodes), y, r, n) && x in ResolveOne(Index(nodes), y)
    ensures Reach(DirectDeps(nodes), x, q.node.id)
    decreases n
  {
    hide EventEdges, Places, DirectDeps, Acyclic, Resolvable, Flatten, Index, ResolveOne, GuardEdges, LeavesFlatAnchored,
      Guards;
    if n == 0 {
      DirectDep(nodes, q, r, x);
      EdgeReach(DirectDeps(nodes), x, q.node.id);
    } else {
      var z := FirstStep(GuardEdges(nodes), y, r, n);
      var p := GuardPlace(nodes, y, z);
      if y in Expands(p.node) {
        ResolveContainer(Index(nodes), z, x);
        GuardResolved(nodes, q, z, r, n - 1, x);
      } else {
        GuardsFrom(nodes, z, r, n - 1, q);
        AnchoredAt(nodes, q, p, y, x);
      }
    }
  }

  lemma GuardPlace(nodes: seq<Node>, m: Id, id: Id) returns (p: Place)
    requires UniqueIds(Flatten(nodes)) && (m, id) in GuardEdges(nodes)
    ensures p in Places(nodes, [], None) && m in Waits(p) && p.node.id == id
    ensures id in Index(nodes) && Index(nodes)[id] == p.node && (m in Expands(p.node) ==> !p.node.Task?)
  {
    hide Places, Flatten, Index;
    p :| p in Places(nodes, [], None) && m in Waits(p) && p.node.id == id;
    PlacedInFlat(nodes, p);
    IndexOfForest(nodes);
  }

  lemma GuardsFrom(nodes: seq<Node>, x: Id, r: Id, n: nat, q: Place)
    requires r in q.inherited + q.node.needs && ReachIn(GuardEdges(nodes), x, r, n)
    ensures Guards(nodes, x, q)
  {
    hide GuardEdges;
    assert ReachStar(GuardEdges(nodes), x, r);
  }

  lemma AnchoredAt(nodes: seq<Node>, q: Place, p: Place, m: Id, s: Id)
    requires Resolvable(Index(nodes)) && LeavesFlatAnchored(nodes)
    requires q in Places(nodes, [], None) && q.node.Task? && p in Places(nodes, [], None) && p.node.Group?
    requires Guards(nodes, p.node.id, q) && m in p.inherited && s in ResolveOne(Index(nodes), m)
    ensures Reach(DirectDeps(nodes), s, q.node.id)
  {
    hide Places, Resolvable, Index, ResolveOne, Guards, DirectDeps;
  }

  lemma GuardTask(nodes: seq<Node>, q: Place, x: Id)
    requires Forest(nodes) && Resolvable(Index(nodes)) && LeavesFlatAnchored(nodes)
    requires q in Places(nodes, [], None) && q.node.Task? && Guards(nodes, x, q) && Executable(nodes, x)
    ensures Reach(DirectDeps(nodes), x, q.node.id)
  {
    hide EventEdges, Places, DirectDeps, Acyclic, Resolvable, Flatten, Index, GuardEdges, LeavesFlatAnchored;
    IndexOfForest(nodes);
    assert x in ResolveOne(Index(nodes), x);
    var r :| r in q.inherited + q.node.needs && ReachStar(GuardEdges(nodes), x, r);
    if x == r {
      GuardResolved(nodes, q, x, r, 0, x);
    } else {
      var n: nat :| n >= 1 && ReachIn(GuardEdges(nodes), x, r, n);
      GuardResolved(nodes, q, x, r, n, x);
    }
  }

  /** What ends before a node starts, ends by the end of one of the node's own or inherited references. */
  lemma {:induction false} StartsAfter(nodes: seq<Node>, p: Place, a: Id) returns (m: Id)
    requires Forest(nodes) && p in Places(nodes, [], None)
    requires Reach(EventEdges(Flatten(nodes)), End(a), Start(p.node.id))
    ensures m in p.inherited + Refs(p.node) && m in IdSet(Flatten(nodes))
    ensures ReachStar(EventEdges(Flatten(nodes)), End(a), End(m))
    ensures Rank(EventEdges(Flatten(nodes)), End(m)) < Rank(EventEdges(Flatten(nodes)), Start(p.node.id))
    decreases Rank(EventEdges(Flatten(nodes)), Start(p.node.id))
  {
    hide EventEdges, Places, ReachStar, Flatten;
    var flat := Flatten(nodes);
    var e := EventEdges(flat);
    PlacedInFlat(nodes, p);
    var x := LastStep(e, End(a), Start(p.node.id));
    RankGrows(e, x, Start(p.node.id));
    IntoStart(flat, p.node, x);
    if d :| d in Refs(p.node) && d in IdSet(flat) && x == End(d) {
      m := d;
    } else {
      var container :| container in flat && x == Start(container.id) && exists c | c in Children(container) ::
          c.id == p.node.id;
      StarIsReach(e, End(a), Start(container.id));
      var q := ContainerPlace(nodes, p, container);
      m := StartsAfter(nodes, q, a);
    }
  }

  /** What ends before a container ends, ends by the end of something the container waits for. */
  lemma EndsAfter(nodes: seq<Node>, p: Place, a: Id) returns (m: Id)
    requires Forest(nodes) && p in Places(nodes, [], None) && !p.node.Task?
    requires Reach(EventEdges(Flatten(nodes)), End(a), End(p.node.id))
    ensures m in Waits(p) && m in IdSet(Flatten(nodes))
    ensures ReachStar(EventEdges(Flatten(nodes)), End(a), End(m))
    ensures Rank(EventEdges(Flatten(nodes)), End(m)) < Rank(EventEdges(Flatten(nodes)), End(p.node.id))
  {
    hide EventEdges, Places, ReachStar, Flatten;
    var flat, n := Flatten(nodes), p.node;
    var e := EventEdges(flat);
    PlacedInFlat(nodes, p);
    var x := LastStep(e, End(a), End(n.id));
    RankGrows(e, x, End(n.id));
    IntoEnd(flat, n, x);
    if x != Start(n.id) {
      var c :| c in Children(n) && x == End(c.id);
      ChildrenFlattened(nodes, n, c);
      ChildExpands(n, c);
      m := c.id;
    } else {
      StarIsReach(e, End(a), Start(n.id));
      if n.Group? {
        m := StartsAfter(nodes, p, a);
      } else {
        ParallelFromStart(nodes, n, a);
        m := n.children[0].id;
      }
    }
  }

  /** What ends before a task starts is upstream of the task. */
  lemma {:induction false} LeafReaches(nodes: seq<Node>, q: Place, a: Id)
    requires Forest(nodes) && Resolvable(Index(nodes)) && LeavesFlatAnchored(nodes)
    requires q in Places(nodes, [], None) && q.node.Task? && Executable(nodes, a)
    requires Reach(EventEdges(Flatten(nodes)), End(a), Start(q.node.id))
    ensures Reach(DirectDeps(nodes), a, q.node.id)
    decreases Rank(EventEdges(Flatten(nodes)), Start(q.node.id)), 1
  {
    hide EventEdges, Places, DirectDeps, Acyclic, Resolvable, Flatten, Index, LeavesFlatAnchored, Executable;
    var m := StartsAfter(nodes, q, a);
    assert ReachStar(GuardEdges(nodes), m, m);
    GuardReaches(nodes, q, m, a, Rank(EventEdges(Flatten(nodes)), Start(q.node.id)));
  }

  /** What ends by the end of a guarding id is upstream of the task. */
  lemma {:induction false} GuardReaches(nodes: seq<Node>, q: Place, x: Id, a: Id, bound: nat)
    requires Forest(nodes) && Resolvable(Index(nodes)) && LeavesFlatAnchored(nodes)
    requires q in Places(nodes, [], None) && q.node.Task? && Executable(nodes, a)
    requires Guards(nodes, x, q) && x in IdSet(Flatten(nodes)) && ReachStar(EventEdges(Flatten(nodes)), End(a), End(x))
    requires Rank(EventEdges(Flatten(nodes)), End(x)) < bound
    ensures Reach(DirectDeps(nodes), a, q.node.id)
    decreases bound, 0
  {
    hide EventEdges, Places, DirectDeps, Acyclic, Resolvable, Flatten, LeavesFlatAnchored, Guards, ReachStar;
    var flat := Flatten(nodes);
    var e := EventEdges(flat);
    IndexOfForest(nodes);
    hide Index;
    if a == x {
      GuardTask(nodes, q, a);
    } else {
      StarIsReach(e, End(a), End(x));
      var n :| n in flat && n.id == x;
      var p := FlatIsPlaced(nodes, n);
      if n.Task? {
        GuardTask(nodes, q, x);
        TaskStartsAfter(nodes, n, a);
        LeafReaches(nodes, p, a);
        ReachTrans(DirectDeps(nodes), a, x, q.node.id);
      } else {
        var m := EndsAfter(nodes, p, a);
        GuardStep(nodes, p, m, q);
        GuardReaches(nodes, q, m, a, Rank(e, End(x)));
      }
    }
  }

  lemma TaskStartsAfter(nodes: seq<Node>, n: Node, a: Id)
    requires Forest(nodes) && n in Flatten(nodes) && n.Task? && Reach(EventEdges(Flatten(nodes)), End(a), End(n.id))
    ensures Reach(EventEdges(Flatten(nodes)), End(a), Start(n.id))
    ensures Rank(EventEdges(Flatten(nodes)), Start(n.id)) < Rank(EventEdges(Flatten(nodes)), End(n.id))
  {
    hide EventEdges, Flatten, ReachStar;
    var e := EventEdges(Flatten(nodes));
    var x := LastStep(e, End(a), End(n.id));
    IntoEnd(Flatten(nodes), n, x);
    RankGrows(e, x, End(n.id));
    StarIsReach(e, End(a), Start(n.id));
  }

  /** For every forest: the lowering keeps the order of all pairs of executable nodes, in both directions, exactly
      when what tasks wait for through nested groups' containers is upstream of them. */
  lemma LeafOrderExact(nodes: seq<Node>)
    requires Forest(nodes)
    ensures Resolvable(Index(nodes))
    ensures LeavesExact(nodes) <==> LeavesFlatAnchored(nodes)
    ensures GroupsFlatAnchored(nodes) ==> LeavesFlatAnchored(nodes)
  {
    hide EventEdges, Places, DirectDeps, Resolvable, Flatten, Index, LeavesFlatAnchored, Forest, GroupsFlatAnchored;
    ForestResolvable(nodes);
    if LeavesFlatAnchored(nodes) {
      FlatAnchoredIsExact(nodes);
    }
    if GroupsFlatAnchored(nodes) {
      forall a, b | Executable(nodes, a) && Executable(nodes, b)
        ensures Before(nodes, a, b) <==> Reach(DirectDeps(nodes), a, b)
      {
        TaskOrder(nodes, a, b);
      }
    }
    if LeavesExact(nodes) {
      ExactIsFlatAnchored(nodes);
    }
  }

  lemma FlatAnchoredIsExact(nodes: seq<Node>)
    requires Forest(nodes) && Resolvable(Index(nodes)) && LeavesFlatAnchored(nodes)
    ensures LeavesExact(nodes)
  {
    forall a, b | Executable(nodes, a) && Executable(nodes, b)
      ensures Before(nodes, a, b) <==> Reach(DirectDeps(nodes), a, b)
    {
      hide EventEdges, Places, DirectDeps, Resolvable, Flatten, LeavesFlatAnchored, GroupsFlatAnchored, Acyclic;
      TaskOrder(nodes, a, b);
      if Before(nodes, a, b) {
        IndexOfForest(nodes);
        var p := FlatIsPlaced(nodes, Index(nodes)[b]);
        LeafReaches(nodes, p, a);
      }
    }
  }
}
