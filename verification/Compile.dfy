/** Workflow validation and compilation into an execution plan (src/planning/compile.ts). */
module Compile {
  import opened Batches
  import opened CycleFinder
  import opened DependencyGraph
  import opened Digraph
  import opened FrameStack
  import opened Workflow
  import opened Wrappers

  datatype Issue =
    | DuplicateNode(id: Id)
    | EmptyGroup(id: Id)
    | MissingMember(id: Id, member: Id)
    | SelfMember(id: Id)
    | MissingDependency(id: Id, need: Id)
    | DependencyCycle(cycle: seq<Id>)

  /** A planned top-level node: the declared node, its position and the ids that depend on it. */
  datatype PlannedNode = PlannedNode(node: Node, index: nat, dependents: seq<Id>)

  datatype Plan = Plan(
    workflowId: Id, graph: Graph, topologicalOrder: seq<PlannedNode>, parallelBatches: seq<seq<PlannedNode>>)

  datatype PlannerError = MissingWorkflow | InvalidPlan(issues: seq<Issue>) | SortFoundCycle

  // ---------------------------------------------------------------- normalization

  function NormalizeNode(n: Node): Node
  {
    if n.Group? then Group(n.id, UniqueStrings(n.members + n.needs), n.members, n.unit) else n
  }

  /** Top-level groups list their members among their needs. */
  function NormalizeGroupDependencies(nodes: seq<Node>): (r: seq<Node>)
    ensures |r| == |nodes|
    ensures forall i | 0 <= i < |nodes| :: r[i] == NormalizeNode(nodes[i])
  {
    seq(|nodes|, i requires 0 <= i < |nodes| => NormalizeNode(nodes[i]))
  }

  /** A group gains its members as needs, in front of its own and each once; everything else stays as declared. */
  lemma NormalizedMeans(n: Node)
    ensures var r := NormalizeNode(n);
            && r.id == n.id && r.unit == n.unit && (!n.Group? ==> r == n)
            && (n.Group? ==>
                  && r.Group? && r.members == n.members && FirstsInOrder(n.members + n.needs, r.needs)
                  && (forall x :: x in r.needs <==> x in n.members || x in n.needs))
  {
    if n.Group? {
      UniqueInOrder(n.members + n.needs);
    }
  }

  // ---------------------------------------------------------------- validation

  /** One issue for every node whose id an earlier node has. */
  function Duplicates(nodes: seq<Node>): (issues: seq<Issue>)
    ensures issues == [] <==> UniqueIds(nodes)
  {
    if nodes == [] then []
    else
      var n := |nodes| - 1;
      UniqueStep(nodes, n);
      assert nodes[..n + 1] == nodes;
      Duplicates(nodes[..n]) + (if nodes[n].id in IdSet(nodes[..n]) then [DuplicateNode(nodes[n].id)] else [])
  }

  method DuplicateNodeIssues(nodes: seq<Node>) returns (issues: seq<Issue>)
    ensures issues == Duplicates(nodes)
  {
    hide UniqueIds;
    var seen: set<Id> := {};
    issues := [];
    for i := 0 to |nodes|
      invariant seen == IdSet(nodes[..i])
      invariant issues == Duplicates(nodes[..i])
    {
      UniqueStep(nodes, i);
      assert nodes[..i + 1][..i] == nodes[..i];
      if nodes[i].id in seen {
        issues := issues + [DuplicateNode(nodes[i].id)];
      } else {
        seen := seen + {nodes[i].id};
      }
    }
    assert nodes[..|nodes|] == nodes;
  }

  lemma UniqueStep(nodes: seq<Node>, i: nat)
    requires i < |nodes|
    ensures IdSet(nodes[..i + 1]) == IdSet(nodes[..i]) + {nodes[i].id}
    ensures UniqueIds(nodes[..i + 1]) <==> UniqueIds(nodes[..i]) && nodes[i].id !in IdSet(nodes[..i])
  {
    var longer := nodes[..i + 1];
    assert longer == nodes[..i] + [nodes[i]];
    if UniqueIds(longer) {
      forall n | n in nodes[..i] ensures n.id != nodes[i].id {
        var k :| 0 <= k < i && nodes[k] == n;
        assert longer[k].id != longer[i].id;
      }
      forall a, b | 0 <= a < b < i ensures nodes[a].id != nodes[b].id {
        assert longer[a].id != longer[b].id;
      }
    } else if UniqueIds(nodes[..i]) {
      var a, b :| 0 <= a < b < |longer| && longer[a].id == longer[b].id;
      if b == i {
        assert nodes[a] in nodes[..i];
      }
    }
  }

  function MissingNeeds(id: Id, needs: seq<Id>, nodeIds: set<Id>): (issues: seq<Issue>)
    ensures issues == [] <==> forall d | d in needs :: d in nodeIds
  {
    if needs == [] then []
    else
      (if needs[0] in nodeIds then [] else [MissingDependency(id, needs[0])]) + MissingNeeds(id, needs[1..], nodeIds)
  }

  function DependencyIssues(nodes: seq<Node>, nodeIds: set<Id>): (issues: seq<Issue>)
    ensures issues == [] <==> forall n, d | n in nodes && d in n.needs :: d in nodeIds
  {
    if nodes == [] then []
    else
      assert nodes == [nodes[0]] + nodes[1..];
      MissingNeeds(nodes[0].id, nodes[0].needs, nodeIds) + DependencyIssues(nodes[1..], nodeIds)
  }

  function MemberIssues(id: Id, members: seq<Id>, nodeIds: set<Id>): (issues: seq<Issue>)
    ensures issues == [] <==> forall m | m in members :: m in nodeIds && m != id
  {
    if members == [] then []
    else
      (if members[0] !in nodeIds then [MissingMember(id, members[0])]
       else if members[0] == id then [SelfMember(id)]
       else [])
      + MemberIssues(id, members[1..], nodeIds)
  }

  function GroupIssues(nodes: seq<Node>, nodeIds: set<Id>): (issues: seq<Issue>)
    ensures issues == [] <==> forall n | n in nodes :: GroupDeclared(n, nodeIds)
  {
    if nodes == [] then []
    else
      assert nodes == [nodes[0]] + nodes[1..];
      OneGroupIssues(nodes[0], nodeIds) + GroupIssues(nodes[1..], nodeIds)
  }

  function OneGroupIssues(n: Node, nodeIds: set<Id>): (issues: seq<Issue>)
    ensures issues == [] <==> GroupDeclared(n, nodeIds)
  {
    if n.Group? then (if n.members == [] then [EmptyGroup(n.id)] else []) + MemberIssues(n.id, n.members, nodeIds)
    else []
  }

  /** The lists go node by node, and within a node mention by mention. */
  lemma {:induction false} DependencyIssuesAppend(a: seq<Node>, b: seq<Node>, nodeIds: set<Id>)
    ensures DependencyIssues(a + b, nodeIds) == DependencyIssues(a, nodeIds) + DependencyIssues(b, nodeIds)
    decreases |a|
  {
    hide *;
    if a == [] {
      assert a + b == b;
      NoDependencyIssues(nodeIds);
    } else {
      assert (a + b)[0] == a[0] && (a + b)[1..] == a[1..] + b;
      DependencyIssuesStep(a[0], a[1..], a, nodeIds);
      DependencyIssuesStep(a[0], a[1..] + b, a + b, nodeIds);
      DependencyIssuesAppend(a[1..], b, nodeIds);
      Regrouped(MissingNeeds(a[0].id, a[0].needs, nodeIds), DependencyIssues(a[1..], nodeIds), DependencyIssues(b, nodeIds));
    }
  }

  lemma NoDependencyIssues(nodeIds: set<Id>)
    ensures DependencyIssues([], nodeIds) == []
  {
  }

  lemma DependencyIssuesStep(n: Node, rest: seq<Node>, nodes: seq<Node>, nodeIds: set<Id>)
    requires nodes != [] && nodes[0] == n && nodes[1..] == rest
    ensures DependencyIssues(nodes, nodeIds) == MissingNeeds(n.id, n.needs, nodeIds) + DependencyIssues(rest, nodeIds)
  {
  }

  lemma {:induction false} GroupIssuesAppend(a: seq<Node>, b: seq<Node>, nodeIds: set<Id>)
    ensures GroupIssues(a + b, nodeIds) == GroupIssues(a, nodeIds) + GroupIssues(b, nodeIds)
    decreases |a|
  {
    hide *;
    if a == [] {
      assert a + b == b;
      NoGroupIssues(nodeIds);
    } else {
      assert (a + b)[0] == a[0] && (a + b)[1..] == a[1..] + b;
      GroupIssuesStep(a[0], a[1..], a, nodeIds);
      GroupIssuesStep(a[0], a[1..] + b, a + b, nodeIds);
      GroupIssuesAppend(a[1..], b, nodeIds);
      Regrouped(OneGroupIssues(a[0], nodeIds), GroupIssues(a[1..], nodeIds), GroupIssues(b, nodeIds));
    }
  }

  lemma NoGroupIssues(nodeIds: set<Id>)
    ensures GroupIssues([], nodeIds) == []
  {
  }

  lemma GroupIssuesStep(n: Node, rest: seq<Node>, nodes: seq<Node>, nodeIds: set<Id>)
    requires nodes != [] && nodes[0] == n && nodes[1..] == rest
    ensures GroupIssues(nodes, nodeIds) == OneGroupIssues(n, nodeIds) + GroupIssues(rest, nodeIds)
  {
  }

  lemma {:induction false} MissingNeedsAppend(id: Id, a: seq<Id>, b: seq<Id>, nodeIds: set<Id>)
    ensures MissingNeeds(id, a + b, nodeIds) == MissingNeeds(id, a, nodeIds) + MissingNeeds(id, b, nodeIds)
    decreases |a|
  {
    if a == [] {
      assert a + b == b;
    } else {
      var whole, first := a + b, if a[0] in nodeIds then [] else [MissingDependency(id, a[0])];
      assert whole[0] == a[0] && whole[1..] == a[1..] + b;
      MissingNeedsAppend(id, a[1..], b, nodeIds);
      Regrouped(first, MissingNeeds(id, a[1..], nodeIds), MissingNeeds(id, b, nodeIds));
    }
  }

  lemma {:induction false} MemberIssuesAppend(id: Id, a: seq<Id>, b: seq<Id>, nodeIds: set<Id>)
    ensures MemberIssues(id, a + b, nodeIds) == MemberIssues(id, a, nodeIds) + MemberIssues(id, b, nodeIds)
    decreases |a|
  {
    if a == [] {
      assert a + b == b;
    } else {
      var whole := a + b;
      var first := if a[0] !in nodeIds then [MissingMember(id, a[0])] else if a[0] == id then [SelfMember(id)] else [];
      assert whole[0] == a[0] && whole[1..] == a[1..] + b;
      MemberIssuesAppend(id, a[1..], b, nodeIds);
      Regrouped(first, MemberIssues(id, a[1..], nodeIds), MemberIssues(id, b, nodeIds));
    }
  }

  lemma Regrouped(a: seq<Issue>, b: seq<Issue>, c: seq<Issue>)
    ensures a + (b + c) == (a + b) + c
  {
  }

  /** A single node reports its own mentions, a single mention at most one issue. */
  lemma SingleIssues(n: Node, d: Id, nodeIds: set<Id>)
    ensures DependencyIssues([n], nodeIds) == MissingNeeds(n.id, n.needs, nodeIds)
    ensures GroupIssues([n], nodeIds) ==
            if !n.Group? then [] else if n.members == [] then [EmptyGroup(n.id)] else MemberIssues(n.id, n.members, nodeIds)
    ensures |MissingNeeds(n.id, [d], nodeIds)| <= 1 && |MemberIssues(n.id, [d], nodeIds)| <= 1
  {
    assert [n][1..] == [] && [d][1..] == [];
  }

  lemma {:induction false} MissingNeedsMembers(id: Id, needs: seq<Id>, nodeIds: set<Id>, x: Issue)
    ensures x in MissingNeeds(id, needs, nodeIds) <==>
            x.MissingDependency? && x.id == id && x.need in needs && x.need !in nodeIds
    decreases |needs|
  {
    if needs != [] {
      MissingNeedsMembers(id, needs[1..], nodeIds, x);
      assert needs == [needs[0]] + needs[1..];
    }
  }

  lemma {:induction false} MemberIssuesMembers(id: Id, members: seq<Id>, nodeIds: set<Id>, x: Issue)
    ensures x in MemberIssues(id, members, nodeIds) <==>
            || (x.MissingMember? && x.id == id && x.member in members && x.member !in nodeIds)
            || (x.SelfMember? && x.id == id && id in members && id in nodeIds)
    decreases |members|
  {
    if members != [] {
      MemberIssuesMembers(id, members[1..], nodeIds, x);
      assert members == [members[0]] + members[1..];
    }
  }

  lemma {:induction false} DependencyIssuesMembers(nodes: seq<Node>, nodeIds: set<Id>, x: Issue)
    ensures x in DependencyIssues(nodes, nodeIds) <==>
            && x.MissingDependency? && x.need !in nodeIds && exists n | n in nodes :: n.id == x.id && x.need in n.needs
    decreases |nodes|
  {
    hide MissingNeeds;
    if nodes != [] {
      MissingNeedsMembers(nodes[0].id, nodes[0].needs, nodeIds, x);
      DependencyIssuesMembers(nodes[1..], nodeIds, x);
      assert nodes == [nodes[0]] + nodes[1..];
    }
  }

  /** What a group is reported for. */
  ghost predicate GroupAtFault(n: Node, nodeIds: set<Id>, x: Issue)
  {
    n.Group? &&
    match x
    case EmptyGroup(id) => n.id == id && n.members == []
    case MissingMember(id, m) => n.id == id && m in n.members && m !in nodeIds
    case SelfMember(id) => n.id == id && id in n.members
    case _ => false
  }

  lemma OneGroupMembers(n: Node, nodeIds: set<Id>, x: Issue)
    requires n.id in nodeIds
    ensures x in OneGroupIssues(n, nodeIds) <==> GroupAtFault(n, nodeIds, x)
  {
    hide MemberIssues, GroupDeclared;
    MemberIssuesMembers(n.id, if n.Group? then n.members else [], nodeIds, x);
  }

  lemma {:induction false} GroupIssuesMembers(nodes: seq<Node>, nodeIds: set<Id>, x: Issue)
    requires forall n | n in nodes :: n.id in nodeIds
    ensures x in GroupIssues(nodes, nodeIds) <==> exists n | n in nodes :: GroupAtFault(n, nodeIds, x)
    decreases |nodes|
  {
    hide OneGroupIssues, GroupDeclared, GroupAtFault;
    if nodes != [] {
      OneGroupMembers(nodes[0], nodeIds, x);
      GroupIssuesMembers(nodes[1..], nodeIds, x);
      assert nodes == [nodes[0]] + nodes[1..];
    }
  }

  predicate GroupDeclared(n: Node, nodeIds: set<Id>)
  {
    n.Group? ==> n.members != [] && forall m | m in n.members :: m in nodeIds && m != n.id
  }

  /** Unique ids, declared needs, and groups with declared members. */
  ghost predicate Declared(nodes: seq<Node>)
  {
    && UniqueIds(nodes)
    && (forall n, d | n in nodes && d in n.needs :: d in IdSet(nodes))
    && (forall n | n in nodes :: GroupDeclared(n, IdSet(nodes)))
  }

  function CycleIssues(cycles: seq<seq<Id>>): (issues: seq<Issue>)
    ensures |issues| == |cycles|
    ensures forall i | 0 <= i < |cycles| :: issues[i] == DependencyCycle(cycles[i])
  {
    seq(|cycles|, i requires 0 <= i < |cycles| => DependencyCycle(cycles[i]))
  }

  /** Every issue there is, in order; cycles are looked for only when ids are unique. */
  ghost predicate Reported(nodes: seq<Node>, issues: seq<Issue>, cycles: seq<seq<Id>>)
  {
    && issues == Duplicates(nodes) + GroupIssues(nodes, IdSet(nodes)) + DependencyIssues(nodes, IdSet(nodes))
        + CycleIssues(cycles)
    && (forall c | c in cycles :: IsCycle(NeedEdges(nodes), c))
    && (if UniqueIds(nodes) then CoversCycles(SeenNeeds(nodes), cycles) else cycles == [])
  }

  /** The issues say what is wrong, and all that is wrong. */
  ghost predicate Truthful(nodes: seq<Node>, issues: seq<Issue>, cycles: seq<seq<Id>>)
  {
    forall x :: x in issues <==> IsFault(nodes, cycles, x)
  }

  ghost predicate Repeated(nodes: seq<Node>, id: Id)
  {
    exists i, j | 0 <= i < j < |nodes| :: nodes[i].id == id && nodes[j].id == id
  }

  lemma {:induction false} DuplicatesMembers(nodes: seq<Node>, x: Issue)
    ensures x in Duplicates(nodes) <==> x.DuplicateNode? && Repeated(nodes, x.id)
    decreases |nodes|
  {
    if nodes != [] {
      var n := |nodes| - 1;
      DuplicatesMembers(nodes[..n], x);
      DuplicatesLast(nodes);
      hide Duplicates, UniqueIds, Repeated;
      if x.DuplicateNode? {
        RepeatedLast(nodes, x.id);
      }
    }
  }

  lemma DuplicatesLast(nodes: seq<Node>)
    requires nodes != []
    ensures var n := |nodes| - 1;
            Duplicates(nodes) ==
            Duplicates(nodes[..n]) + (if nodes[n].id in IdSet(nodes[..n]) then [DuplicateNode(nodes[n].id)] else [])
  {
  }

  lemma RepeatedLast(nodes: seq<Node>, id: Id)
    requires nodes != []
    ensures var n := |nodes| - 1;
            Repeated(nodes, id) <==> Repeated(nodes[..n], id) || (nodes[n].id == id && id in IdSet(nodes[..n]))
  {
    var n := |nodes| - 1;
    var init := nodes[..n];
    if nodes[n].id == id && id in IdSet(init) {
      var m :| m in init && m.id == id;
      var k :| 0 <= k < n && init[k] == m;
      assert nodes[k].id == id && nodes[n].id == id;
    }
    if Repeated(init, id) {
      var i, j :| 0 <= i < j < n && init[i].id == id && init[j].id == id;
      assert nodes[i].id == id && nodes[j].id == id;
    }
    if i, j :| 0 <= i < j < |nodes| && nodes[i].id == id && nodes[j].id == id {
      assert init[i] in init && init[i].id == id;
      assert j < n ==> init[j].id == id;
    }
  }

  lemma CycleIssuesMembers(cycles: seq<seq<Id>>, x: Issue)
    ensures x in CycleIssues(cycles) <==> x.DependencyCycle? && x.cycle in cycles
  {
    if x.DependencyCycle? && x.cycle in cycles {
      var i :| 0 <= i < |cycles| && cycles[i] == x.cycle;
      assert CycleIssues(cycles)[i] == x;
    }
  }

  /** Whether an issue holds of the nodes. */
  ghost predicate IsFault(nodes: seq<Node>, cycles: seq<seq<Id>>, x: Issue)
  {
    match x
    case DuplicateNode(id) => Repeated(nodes, id)
    case EmptyGroup(id) => exists n | n in nodes :: n.Group? && n.id == id && n.members == []
    case MissingMember(id, m) => m !in IdSet(nodes) && exists n | n in nodes :: n.Group? && n.id == id && m in n.members
    case SelfMember(id) => exists n | n in nodes :: n.Group? && n.id == id && id in n.members
    case MissingDependency(id, d) => d !in IdSet(nodes) && exists n | n in nodes :: n.id == id && d in n.needs
    case DependencyCycle(c) => c in cycles
  }

  lemma ReportedTruthful(nodes: seq<Node>, issues: seq<Issue>, cycles: seq<seq<Id>>)
    requires Reported(nodes, issues, cycles)
    ensures Truthful(nodes, issues, cycles)
  {
    hide Duplicates, GroupIssues, DependencyIssues, CycleIssues, Repeated, NeedEdges, CoversCycles, IsFault, IsCycle;
    forall x ensures x in issues <==> IsFault(nodes, cycles, x) {
      ReportedHolds(nodes, issues, cycles, x);
    }
  }

  lemma ReportedHolds(nodes: seq<Node>, issues: seq<Issue>, cycles: seq<seq<Id>>, x: Issue)
    requires Reported(nodes, issues, cycles)
    ensures x in issues <==> IsFault(nodes, cycles, x)
  {
    assert forall n | n in nodes :: n.id in IdSet(nodes);
    InParts(Duplicates(nodes), GroupIssues(nodes, IdSet(nodes)), DependencyIssues(nodes, IdSet(nodes)),
      CycleIssues(cycles), x);
    DuplicatesMembers(nodes, x);
    GroupIssuesMembers(nodes, IdSet(nodes), x);
    DependencyIssuesMembers(nodes, IdSet(nodes), x);
    CycleIssuesMembers(cycles, x);
    GroupFaults(nodes, x);
    hide Duplicates, GroupIssues, DependencyIssues, CycleIssues, Repeated, NeedEdges, CoversCycles, IsCycle, IdSet, UniqueIds,
      GroupAtFault;
  }

  lemma InParts(a: seq<Issue>, b: seq<Issue>, c: seq<Issue>, d: seq<Issue>, x: Issue)
    ensures x in a + b + c + d <==> x in a || x in b || x in c || x in d
  {
  }

  lemma GroupFaults(nodes: seq<Node>, x: Issue)
    ensures (exists n | n in nodes :: GroupAtFault(n, IdSet(nodes), x)) <==>
            match x
            case EmptyGroup(id) => exists n | n in nodes :: n.Group? && n.id == id && n.members == []
            case MissingMember(id, m) =>
              m !in IdSet(nodes) && exists n | n in nodes :: n.Group? && n.id == id && m in n.members
            case SelfMember(id) => exists n | n in nodes :: n.Group? && n.id == id && id in n.members
            case _ => false
  {
    hide IdSet;
  }

  method ValidateNodeGraph(nodes: seq<Node>) returns (issues: seq<Issue>, ghost cycles: seq<seq<Id>>)
    ensures Reported(nodes, issues, cycles) && Truthful(nodes, issues, cycles)
    ensures issues == [] <==> Declared(nodes) && Acyclic(SeenNeeds(nodes))
  {
    hide Acyclic, IsCycle, NeedEdges, SeenNeeds, GroupDeclared, GroupIssues, DependencyIssues, UniqueIds, Duplicates,
      CoversCycles, Truthful, CycleIssues;
    var duplicates := DuplicateNodeIssues(nodes);
    var nodeIds := set n | n in nodes :: n.id;
    issues := duplicates + GroupIssues(nodes, nodeIds) + DependencyIssues(nodes, nodeIds);
    cycles := [];
    if |duplicates| == 0 {
      var found := FindDependencyCycles(nodes);
      issues := issues + CycleIssues(found);
      cycles := found;
      NoneRecorded(SeenNeeds(nodes), cycles);
      CyclesOfNeeds(nodes, cycles);
    }
    ReportedTruthful(nodes, issues, cycles);
  }

  // ---------------------------------------------------------------- planning

  function PlannedIds(planned: seq<PlannedNode>): (ids: seq<Id>)
    ensures |ids| == |planned|
    ensures forall i | 0 <= i < |planned| :: ids[i] == planned[i].node.id
  {
    seq(|planned|, i requires 0 <= i < |planned| => planned[i].node.id)
  }

  /** The graph's values at the given ids; ids without a value are dropped. */
  function PlannedNodesForIds(values: map<Id, PlannedNode>, ids: seq<Id>): (r: seq<PlannedNode>)
    ensures (forall x | x in ids :: x in values) ==>
              |r| == |ids| && forall i | 0 <= i < |ids| :: r[i] == values[ids[i]]
  {
    if ids == [] then []
    else
      var last := ids[|ids| - 1];
      assert last in ids;
      PlannedNodesForIds(values, ids[..|ids| - 1]) + (if last in values then [values[last]] else [])
  }

  /** Every node's value: the node, its position, and the graph's successors as its dependents. */
  ghost predicate Valued(nodes: seq<Node>, g: Graph, values: map<Id, PlannedNode>)
  {
    && values.Keys == IdSet(nodes)
    && (forall i | 0 <= i < |nodes| ::
          values[nodes[i].id] == PlannedNode(nodes[i], i, Lookup(g.successors, nodes[i].id)))
  }

  method CreateWorkflowGraph(nodes: seq<Node>) returns (g: Graph, values: map<Id, PlannedNode>)
    requires UniqueIds(nodes)
    ensures WellFormed(g) && g.ids == Ids(nodes)
    ensures forall u, v :: u in Lookup(g.predecessors, v) <==> (u, v) in NeedEdges(nodes)
    ensures Valued(nodes, g, values)
  {
    hide WellFormed, NeedEdges, UniqueIds, ValuedTo;
    g := CreateDependencyGraph(nodes);
    values := map[];
    NothingValued(g);
    assert nodes[..0] == [];
    for i := 0 to |nodes|
      invariant values.Keys == IdSet(nodes[..i])
      invariant ValuedTo(nodes[..i], g, values, 0)
    {
      SetValue(nodes, g, values, i);
      values := values[nodes[i].id := PlannedNode(nodes[i], i, [])];
    }
    assert nodes[..|nodes|] == nodes;
    for i := 0 to |g.ids|
      invariant values.Keys == IdSet(nodes)
      invariant ValuedTo(nodes, g, values, i)
    {
      var id := g.ids[i];
      assert nodes[i] in nodes;
      SetDependents(nodes, g, values, i);
      values := values[id := values[id].(dependents := Lookup(g.successors, id))];
    }
    AllValued(nodes, g, values);
  }

  /** All nodes have a value and the first `i` have their dependents. */
  ghost predicate ValuedTo(nodes: seq<Node>, g: Graph, values: map<Id, PlannedNode>, i: nat)
  {
    forall j | 0 <= j < |nodes| ::
      nodes[j].id in values &&
      values[nodes[j].id] == PlannedNode(nodes[j], j, if j < i then Lookup(g.successors, nodes[j].id) else [])
  }

  lemma NothingValued(g: Graph)
    ensures ValuedTo([], g, map[], 0)
  {
  }

  lemma SetValue(nodes: seq<Node>, g: Graph, values: map<Id, PlannedNode>, i: nat)
    requires UniqueIds(nodes) && i < |nodes| && ValuedTo(nodes[..i], g, values, 0)
    ensures ValuedTo(nodes[..i + 1], g, values[nodes[i].id := PlannedNode(nodes[i], i, [])], 0)
    ensures IdSet(nodes[..i + 1]) == IdSet(nodes[..i]) + {nodes[i].id}
  {
    assert nodes[..i + 1] == nodes[..i] + [nodes[i]];
    forall j | 0 <= j < i ensures nodes[j].id in values && values[nodes[j].id] == PlannedNode(nodes[j], j, []) {
      assert nodes[..i][j] == nodes[j];
    }
  }

  lemma SetDependents(nodes: seq<Node>, g: Graph, values: map<Id, PlannedNode>, i: nat)
    requires UniqueIds(nodes) && i < |nodes| && ValuedTo(nodes, g, values, i)
    ensures nodes[i].id in values
    ensures ValuedTo(nodes, g, values[nodes[i].id := values[nodes[i].id].(dependents := Lookup(g.successors,
        nodes[i].id))], i + 1)
  {
  }

  lemma AllValued(nodes: seq<Node>, g: Graph, values: map<Id, PlannedNode>)
    requires ValuedTo(nodes, g, values, |nodes|) && values.Keys == IdSet(nodes)
    ensures Valued(nodes, g, values)
  {
  }

  function PlannedIndex(byId: map<Id, PlannedNode>, id: Id): int
  {
    if id in byId then byId[id].index else 0
  }

  function CompareIndex(byId: map<Id, PlannedNode>): (Id, Id) -> int
  {
    (l, r) => PlannedIndex(byId, l) - PlannedIndex(byId, r)
  }

  lemma CompareIndexComparator(byId: map<Id, PlannedNode>)
    ensures Comparator(CompareIndex(byId))
  {
  }

  function BatchIds(batches: seq<seq<PlannedNode>>): (r: seq<seq<Id>>)
    ensures |r| == |batches|
    ensures forall k | 0 <= k < |batches| :: r[k] == PlannedIds(batches[k])
  {
    seq(|batches|, k requires 0 <= k < |batches| => PlannedIds(batches[k]))
  }

  /** Every node once, with its position, and everything it needs earlier in the order. */
  ghost predicate OrderOk(nodes: seq<Node>, order: seq<PlannedNode>)
  {
    && Distinct(PlannedIds(order))
    && Elements(PlannedIds(order)) == IdSet(nodes)
    && (forall q | q in order :: q.index < |nodes| && nodes[q.index] == q.node)
  }

  ghost predicate NeedsEarlier(order: seq<PlannedNode>)
  {
    forall i, d :: 0 <= i < |order| && d in order[i].node.needs ==> d in PlannedIds(order)[..i]
  }

  /** `dependents` inverts `needs` and holds nothing else, and nothing twice. */
  ghost predicate DependentsOk(order: seq<PlannedNode>)
  {
    && (forall p, q | p in order && q in order :: q.node.id in p.dependents <==> p.node.id in q.node.needs)
    && (forall p | p in order :: ListsNodes(order, p.dependents))
  }

  ghost predicate ListsNodes(order: seq<PlannedNode>, ids: seq<Id>)
  {
    Distinct(ids) && forall x | x in ids :: x in PlannedIds(order)
  }

  /** The plan's graph: the nodes in order of declaration and exactly their needs. */
  ghost predicate GraphOf(nodes: seq<Node>, g: Graph)
  {
    WellFormed(g) && g.ids == Ids(nodes) && forall u, v :: u in Lookup(g.predecessors, v) <==> (u, v) in NeedEdges(nodes)
  }

  /** Batch `k` holds, in declaration order, the nodes whose longest need chain has `k` edges; together the batches
      hold the order. */
  ghost predicate BatchesOk(nodes: seq<Node>, order: seq<PlannedNode>, batches: seq<seq<PlannedNode>>)
  {
    && Distinct(Flat(BatchIds(batches)))
    && Elements(Flat(BatchIds(batches))) == IdSet(nodes)
    && (forall k, q | 0 <= k < |batches| && q in batches[k] :: q in order && Depth(NeedEdges(nodes), q.node.id, k))
    && (forall k, i, j | 0 <= k < |batches| && 0 <= i < j < |batches[k]| :: batches[k][i].index <= batches[k][j].index)
  }

  lemma OrderedValues(nodes: seq<Node>, g: Graph, values: map<Id, PlannedNode>, ids: seq<Id>)
    requires UniqueIds(nodes) && WellFormed(g) && g.ids == Ids(nodes) && Valued(nodes, g, values)
    requires IsDependencyOrder(g, ids)
    ensures forall x | x in ids :: x in values
    ensures PlannedIds(PlannedNodesForIds(values, ids)) == ids
    ensures OrderOk(nodes, PlannedNodesForIds(values, ids))
    ensures forall q | q in PlannedNodesForIds(values, ids) ::
          q.node.id in values && values[q.node.id] == q && q.dependents == Lookup(g.successors, q.node.id)
  {
    hide SuccessorsFirst, WellFormed;
    var order := PlannedNodesForIds(values, ids);
    IdsElements(nodes);
    forall x | x in ids ensures x in values {
      assert x in Elements(ids);
    }
    forall i | 0 <= i < |ids|
      ensures order[i].index < |nodes| && nodes[order[i].index] == order[i].node && order[i].node.id == ids[i]
      ensures order[i].dependents == Lookup(g.successors, ids[i])
    {
      assert ids[i] in values;
      var n :| n in nodes && n.id == ids[i];
      var k :| 0 <= k < |nodes| && nodes[k] == n;
      assert values[nodes[k].id] == PlannedNode(nodes[k], k, Lookup(g.successors, nodes[k].id));
    }
    assert PlannedIds(order) == ids;
  }

  lemma IdsElements(nodes: seq<Node>)
    ensures Elements(Ids(nodes)) == IdSet(nodes)
  {
    forall x | x in IdSet(nodes) ensures x in Ids(nodes) {
      var n :| n in nodes && n.id == x;
      var k :| 0 <= k < |nodes| && nodes[k] == n;
      assert Ids(nodes)[k] == x;
    }
  }

  lemma PlannedNeedsEarlier(nodes: seq<Node>, g: Graph, values: map<Id, PlannedNode>, ids: seq<Id>)
    requires UniqueIds(nodes) && WellFormed(g) && g.ids == Ids(nodes) && Valued(nodes, g, values) && Declared(nodes)
    requires forall u, v :: u in Lookup(g.predecessors, v) <==> (u, v) in NeedEdges(nodes)
    requires NoEmptyNeed(nodes) && IsDependencyOrder(g, ids)
    ensures NeedsEarlier(PlannedNodesForIds(values, ids))
  {
    hide WellFormed, GroupDeclared;
    OrderedValues(nodes, g, values, ids);
    var order := PlannedNodesForIds(values, ids);
    LivePredecessors(nodes, g);
    forall i, d | 0 <= i < |order| && d in order[i].node.needs ensures d in PlannedIds(order)[..i] {
      assert order[i] in order;
      NeedEdge(nodes, order[i].node, d);
      assert (ids[i], d) in LiveEdges(g.predecessors);
    }
  }

  /** No node needs the node with the empty id, if there is one. */
  ghost predicate NoEmptyNeed(nodes: seq<Node>)
  {
    forall n | n in nodes && "" in IdSet(nodes) :: "" !in n.needs
  }

  /** If no node needs the empty id, the sort walks every need. */
  lemma LivePredecessors(nodes: seq<Node>, g: Graph)
    requires WellFormed(g) && NoEmptyNeed(nodes)
    requires forall u, v :: u in Lookup(g.predecessors, v) <==> (u, v) in NeedEdges(nodes)
    ensures LiveEdges(g.predecessors) == Transpose(NeedEdges(nodes))
  {
    hide WellFormed;
    forall v, u ensures (v, u) in LiveEdges(g.predecessors) <==> (v, u) in Transpose(NeedEdges(nodes)) {
      TransposeEdge(NeedEdges(nodes), u, v);
      assert u in Lookup(g.predecessors, v) <==> (u, v) in NeedEdges(nodes);
      if v in g.predecessors {
        forall x | x in g.predecessors[v] ensures x != "" {
          assert x in Lookup(g.predecessors, v) && (x, v) in NeedEdges(nodes);
        }
        NoEmptyLive(g.predecessors[v]);
      }
    }
  }

  lemma PlannedDependents(nodes: seq<Node>, g: Graph, values: map<Id, PlannedNode>, ids: seq<Id>)
    requires UniqueIds(nodes) && WellFormed(g) && g.ids == Ids(nodes) && Valued(nodes, g, values) && Declared(nodes)
    requires forall u, v :: u in Lookup(g.predecessors, v) <==> (u, v) in NeedEdges(nodes)
    requires IsDependencyOrder(g, ids)
    ensures DependentsOk(PlannedNodesForIds(values, ids))
  {
    hide GroupDeclared, SuccessorsFirst;
    OrderedValues(nodes, g, values, ids);
    var order := PlannedNodesForIds(values, ids);
    forall p, q | p in order && q in order
      ensures q.node.id in p.dependents <==> p.node.id in q.node.needs
    {
      assert p.dependents == Lookup(g.successors, p.node.id);
      assert p.node.id in Lookup(g.predecessors, q.node.id) <==> q.node.id in Lookup(g.successors, p.node.id);
      NeedOfNode(nodes, p.node.id, q.node);
    }
    hide ListsNodes;
    PlannedListed(nodes, g, values, ids);
  }

  lemma PlannedListed(nodes: seq<Node>, g: Graph, values: map<Id, PlannedNode>, ids: seq<Id>)
    requires UniqueIds(nodes) && WellFormed(g) && g.ids == Ids(nodes) && Valued(nodes, g, values)
    requires forall u, v :: u in Lookup(g.predecessors, v) <==> (u, v) in NeedEdges(nodes)
    requires IsDependencyOrder(g, ids)
    ensures forall p | p in PlannedNodesForIds(values, ids) :: ListsNodes(PlannedNodesForIds(values, ids), p.dependents)
  {
    OrderedValues(nodes, g, values, ids);
    var order := PlannedNodesForIds(values, ids);
    hide Valued, UniqueIds, OrderOk, SuccessorsFirst, PlannedNodesForIds;
    forall p | p in order ensures ListsNodes(order, p.dependents) {
      DependentsListed(nodes, g, ids, p.node.id);
    }
  }

  lemma DependentsListed(nodes: seq<Node>, g: Graph, ids: seq<Id>, u: Id)
    requires WellFormed(g) && g.ids == Ids(nodes) && IsDependencyOrder(g, ids)
    requires forall u, v :: u in Lookup(g.predecessors, v) <==> (u, v) in NeedEdges(nodes)
    ensures Distinct(Lookup(g.successors, u)) && forall x | x in Lookup(g.successors, u) :: x in ids
  {
    hide SuccessorsFirst;
    forall x | x in Lookup(g.successors, u) ensures x in ids {
      assert u in Lookup(g.predecessors, x) && (u, x) in NeedEdges(nodes);
      assert x in IdSet(nodes);
      IdsElements(nodes);
      assert x in Elements(g.ids) && x in Elements(ids);
    }
  }

  lemma NeedOfNode(nodes: seq<Node>, d: Id, n: Node)
    requires UniqueIds(nodes) && n in nodes && d in IdSet(nodes)
    ensures (d, n.id) in NeedEdges(nodes) <==> d in n.needs
  {
    if (d, n.id) in NeedEdges(nodes) {
      var m :| m in nodes && d in m.needs && d in IdSet(nodes) && m.id == n.id;
      SameNode(nodes, m, n);
    }
  }

  /** The edges between batched nodes are the needs. */
  lemma InducedNeeds(nodes: seq<Node>, g: Graph, ids: seq<Id>)
    requires Elements(ids) == IdSet(nodes)
    requires forall u, v :: u in Lookup(g.predecessors, v) <==> (u, v) in NeedEdges(nodes)
    ensures Induced(g, Elements(ids)) == NeedEdges(nodes)
  {
    forall u, v ensures (u, v) in Induced(g, Elements(ids)) <==> (u, v) in NeedEdges(nodes) {
      assert u in Lookup(g.predecessors, v) <==> (u, v) in NeedEdges(nodes);
    }
  }

  /** The map built from the ordered nodes' entries. */
  function ById(order: seq<PlannedNode>): map<Id, PlannedNode>
  {
    if order == [] then map[]
    else ById(order[..|order| - 1])[order[|order| - 1].node.id := order[|order| - 1]]
  }

  lemma {:induction false} ByIdFinds(order: seq<PlannedNode>, i: nat)
    requires Distinct(PlannedIds(order)) && i < |order|
    ensures order[i].node.id in ById(order) && ById(order)[order[i].node.id] == order[i]
  {
    if i < |order| - 1 {
      var init := order[..|order| - 1];
      assert PlannedIds(init) == PlannedIds(order)[..|order| - 1];
      ByIdFinds(init, i);
      assert PlannedIds(order)[i] != PlannedIds(order)[|order| - 1];
    }
  }

  /** The order lists the graph's own values. */
  ghost predicate InGraph(values: map<Id, PlannedNode>, order: seq<PlannedNode>)
  {
    forall q | q in order :: q.node.id in values && values[q.node.id] == q
  }

  /** The level batches of an order: none exactly for an empty or cyclic one. */
  ghost predicate LevelBatches(g: Graph, order: seq<PlannedNode>, batches: seq<seq<PlannedNode>>)
  {
    var ids := Elements(PlannedIds(order));
    && (batches == [] <==> order == [] || !Acyclic(Induced(g, ids)))
    && (batches != [] ==>
          && IsLayering(Induced(g, ids), CompareIndex(ById(order)), BatchIds(batches))
          && Elements(Flat(BatchIds(batches))) == ids)
    && (forall k, q | 0 <= k < |batches| && q in batches[k] :: q in order)
  }

  method BuildParallelBatches(g: Graph, values: map<Id, PlannedNode>, order: seq<PlannedNode>)
    returns (batches: seq<seq<PlannedNode>>)
    ensures InGraph(values, order) ==> LevelBatches(g, order, batches)
  {
    hide IsLayering, Acyclic, Induced, InGraph, ById, CompareIndex, Flat, Elements;
    var byId := ById(order);
    var ids := DependencyBatches(g, PlannedIds(order), CompareIndex(byId));
    assert order == [] <==> PlannedIds(order) == [];
    batches := seq(|ids|, k requires 0 <= k < |ids| => PlannedNodesForIds(values, ids[k]));
    if InGraph(values, order) {
      forall k | 0 <= k < |batches|
        ensures PlannedIds(batches[k]) == ids[k] && forall q | q in batches[k] :: q in order
      {
        BatchValues(values, order, ids, k);
      }
      assert BatchIds(batches) == ids;
    }
  }

  lemma BatchValues(values: map<Id, PlannedNode>, order: seq<PlannedNode>, ids: seq<seq<Id>>, k: nat)
    requires InGraph(values, order) && k < |ids| && Elements(Flat(ids)) == Elements(PlannedIds(order))
    ensures PlannedIds(PlannedNodesForIds(values, ids[k])) == ids[k]
    ensures forall q | q in PlannedNodesForIds(values, ids[k]) :: q in order
  {
    var batch := ids[k];
    forall i | 0 <= i < |batch|
      ensures batch[i] in values && values[batch[i]] in order && values[batch[i]].node.id == batch[i]
    {
      BatchFlat(ids, k, batch[i]);
      assert batch[i] in Elements(Flat(ids)) && batch[i] in Elements(PlannedIds(order));
      var p :| 0 <= p < |order| && PlannedIds(order)[p] == batch[i];
      assert order[p] in order;
    }
    assert PlannedIds(PlannedNodesForIds(values, batch)) == batch;
  }

  lemma PlannedBatches(nodes: seq<Node>, g: Graph, order: seq<PlannedNode>, batches: seq<seq<PlannedNode>>)
    requires OrderOk(nodes, order) && LevelBatches(g, order, batches)
    requires Induced(g, Elements(PlannedIds(order))) == NeedEdges(nodes) && Acyclic(NeedEdges(nodes))
    ensures BatchesOk(nodes, order, batches)
  {
    hide Depth, NeedEdges, SortedBy, Distinct, ById, CompareIndex, Flat, Elements, Comparator, Acyclic, Induced;
    CompareIndexComparator(ById(order));
    if batches == [] {
      NothingBatched(order);
    }
    forall k, i, j | 0 <= k < |batches| && 0 <= i < j < |batches[k]|
      ensures batches[k][i].index <= batches[k][j].index
    {
      assert SortedBy(CompareIndex(ById(order)), BatchIds(batches)[k]);
      SortedPlanned(order, PlannedIds(batches[k]), batches[k], i, j);
    }
    forall k, q | 0 <= k < |batches| && q in batches[k] ensures Depth(NeedEdges(nodes), q.node.id, k) {
      var i :| 0 <= i < |batches[k]| && batches[k][i] == q;
      assert BatchIds(batches)[k][i] == q.node.id;
    }
  }

  lemma NothingBatched(order: seq<PlannedNode>)
    ensures BatchIds([]) == [] && Flat([]) == [] && Distinct(Flat(BatchIds([])))
    ensures order == [] ==> Elements(Flat(BatchIds([]))) == Elements(PlannedIds(order))
  {
  }

  lemma SortedPlanned(order: seq<PlannedNode>, ids: seq<Id>, batch: seq<PlannedNode>, i: nat, j: nat)
    requires Distinct(PlannedIds(order)) && PlannedIds(batch) == ids && forall q | q in batch :: q in order
    requires SortedBy(CompareIndex(ById(order)), ids) && i < j < |batch|
    ensures batch[i].index <= batch[j].index
  {
    assert batch[i] in order && batch[j] in order;
    var a :| 0 <= a < |order| && order[a] == batch[i];
    var b :| 0 <= b < |order| && order[b] == batch[j];
    ByIdFinds(order, a);
    ByIdFinds(order, b);
    assert CompareIndex(ById(order))(ids[i], ids[j]) <= 0;
  }

  // ---------------------------------------------------------------- the compiler

  /** What a compiled plan promises about the (normalized) nodes. */
  ghost predicate PlanOk(nodes: seq<Node>, plan: Plan)
  {
    && OrderOk(nodes, plan.topologicalOrder)
    && NeedsEarlier(plan.topologicalOrder)
    && DependentsOk(plan.topologicalOrder)
    && GraphOf(nodes, plan.graph)
    && BatchesOk(nodes, plan.topologicalOrder, plan.parallelBatches)
  }

  /** The sort succeeds exactly on acyclic needs none of which is the empty id. */
  lemma SortAgrees(nodes: seq<Node>, g: Graph)
    requires WellFormed(g) && Elements(g.ids) == IdSet(nodes)
    requires forall u, v :: u in Lookup(g.predecessors, v) <==> (u, v) in NeedEdges(nodes)
    ensures Acyclic(LiveEdges(g.predecessors)) && (forall x | x in g.ids :: UpstreamOfSink(g, x)) <==>
            Acyclic(NeedEdges(nodes)) && NoEmptyNeed(nodes)
  {
    hide Acyclic, WellFormed;
    if NoEmptyNeed(nodes) {
      SortWalksAll(nodes, g);
    } else {
      EmptyStuck(nodes, g);
    }
  }

  lemma SortWalksAll(nodes: seq<Node>, g: Graph)
    requires WellFormed(g) && Elements(g.ids) == IdSet(nodes) && NoEmptyNeed(nodes)
    requires forall u, v :: u in Lookup(g.predecessors, v) <==> (u, v) in NeedEdges(nodes)
    ensures Acyclic(LiveEdges(g.predecessors)) && (forall x | x in g.ids :: UpstreamOfSink(g, x)) <==>
            Acyclic(NeedEdges(nodes))
  {
    hide Acyclic, WellFormed;
    var e := NeedEdges(nodes);
    LivePredecessors(nodes, g);
    TransposeTwice(e);
    if Acyclic(e) {
      TransposeAcyclic(e);
      forall x | x in g.ids ensures UpstreamOfSink(g, x) {
        assert x in Elements(g.ids);
        var s := ReachesSink(e, IdSet(nodes), x);
        SinkOf(nodes, g, s);
        if s != x {
          TransposeReach(e, x, s);
        }
      }
    }
    if Acyclic(LiveEdges(g.predecessors)) {
      TransposeAcyclic(Transpose(e));
    }
  }

  /** A needed node with the empty id is never visited: it is no sink, and no list yields it. */
  lemma EmptyStuck(nodes: seq<Node>, g: Graph)
    requires WellFormed(g) && Elements(g.ids) == IdSet(nodes) && !NoEmptyNeed(nodes)
    requires forall u, v :: u in Lookup(g.predecessors, v) <==> (u, v) in NeedEdges(nodes)
    ensures "" in g.ids && !UpstreamOfSink(g, "")
  {
    var n :| n in nodes && "" in IdSet(nodes) && "" in n.needs;
    NeedEdge(nodes, n, "");
    assert "" in Elements(g.ids) && "" in Lookup(g.predecessors, n.id);
    assert n.id in Lookup(g.successors, "") && "" !in Sinks(g);
    hide WellFormed;
    forall s | s in Sinks(g) ensures !ReachStar(LiveEdges(g.predecessors), s, "") {
      NeverEmpty(g, s);
    }
  }

  lemma NeverEmpty(g: Graph, s: Id)
    requires s != ""
    ensures !ReachStar(LiveEdges(g.predecessors), s, "")
  {
    hide LiveEdges;
    if ReachStar(LiveEdges(g.predecessors), s, "") {
      var x := LastStep(LiveEdges(g.predecessors), s, "");
      LiveTarget(g.predecessors, x, "");
    }
  }

  lemma LiveTarget(lists: map<Id, seq<Id>>, u: Id, x: Id)
    requires (u, x) in LiveEdges(lists)
    ensures x != ""
  {
  }

  lemma SinkOf(nodes: seq<Node>, g: Graph, s: Id)
    requires WellFormed(g) && s in Elements(g.ids)
    requires forall u, v :: u in Lookup(g.predecessors, v) <==> (u, v) in NeedEdges(nodes)
    requires forall b :: (s, b) !in NeedEdges(nodes)
    ensures s in Sinks(g)
  {
    forall b ensures b !in Lookup(g.successors, s) {
      assert s in Lookup(g.predecessors, b) <==> (s, b) in NeedEdges(nodes);
    }
    FirstMember(Lookup(g.successors, s));
  }

  lemma FirstMember(s: seq<Id>)
    ensures s == [] || s[0] in s
  {
  }

  /** What a node waits for as it is declared: its needs and, for a group, its members. */
  function Mentions(n: Node): seq<Id>
  {
    if n.Group? then n.members + n.needs else n.needs
  }

  ghost function MentionEdges(nodes: seq<Node>): set<(Id, Id)>
  {
    set n, d | n in nodes && d in Mentions(n) :: (d, n.id)
  }

  /** A workflow as declared: unique ids, only declared ids mentioned and never the empty one, groups with members other
      than themselves, and no cycle of needs and memberships. */
  ghost predicate Acceptable(nodes: seq<Node>)
  {
    && UniqueIds(nodes)
    && (forall n, d | n in nodes && d in Mentions(n) :: d in IdSet(nodes) && d != "")
    && (forall n | n in nodes && n.Group? :: n.members != [] && n.id !in n.members)
    && Acyclic(MentionEdges(nodes))
  }

  lemma NormalizedIds(nodes: seq<Node>)
    ensures var norm := NormalizeGroupDependencies(nodes);
            IdSet(norm) == IdSet(nodes) && (UniqueIds(norm) <==> UniqueIds(nodes))
    ensures var norm := NormalizeGroupDependencies(nodes);
            && (forall n | n in nodes :: NormalizeNode(n) in norm)
            && (forall r | r in norm :: exists n | n in nodes :: r == NormalizeNode(n))
  {
    var norm := NormalizeGroupDependencies(nodes);
    forall n | n in nodes ensures NormalizeNode(n) in norm {
      var i :| 0 <= i < |nodes| && nodes[i] == n;
      assert norm[i] in norm;
    }
    forall r | r in norm ensures exists n | n in nodes :: r == NormalizeNode(n) {
      var i :| 0 <= i < |norm| && norm[i] == r;
      assert nodes[i] in nodes;
    }
    forall i | 0 <= i < |nodes| ensures norm[i].id == nodes[i].id {
    }
    assert UniqueIds(norm) <==> UniqueIds(nodes);
    forall x ensures x in IdSet(norm) <==> x in IdSet(nodes) {
      if n :| n in nodes && n.id == x {
        assert NormalizeNode(n).id == x;
      }
    }
  }

  lemma MentionedNeeds(n: Node)
    ensures NormalizeNode(n).id == n.id && NormalizeNode(n).Group? == n.Group?
    ensures forall d :: d in NormalizeNode(n).needs <==> d in Mentions(n)
    ensures n.Group? ==> NormalizeNode(n).members == n.members
  {
    NormalizedMeans(n);
  }

  /** Normalizing loses nothing: a workflow is acceptable as declared exactly when its normalized nodes are declared,
      acyclic, and need no empty id. */
  lemma AcceptableMeans(nodes: seq<Node>)
    ensures var norm := NormalizeGroupDependencies(nodes);
            Acceptable(nodes) <==> Declared(norm) && Acyclic(NeedEdges(norm)) && NoEmptyNeed(norm)
  {
    hide UniqueIds, NormalizeGroupDependencies, Mentions, IdSet, NeedEdges, MentionEdges, GroupDeclared, Acyclic;
    var norm := NormalizeGroupDependencies(nodes);
    NormalizedIds(nodes);
    NeedsMentioned(nodes);
    GroupsMentioned(nodes);
    var declared := forall n, d | n in nodes && d in Mentions(n) :: d in IdSet(nodes);
    if declared {
      EdgesMentioned(nodes);
    }
    assert Acceptable(nodes) ==> declared;
    assert Declared(norm) ==> declared;
  }

  lemma NeedsMentioned(nodes: seq<Node>)
    ensures var norm := NormalizeGroupDependencies(nodes);
            && ((forall n, d | n in norm && d in n.needs :: d in IdSet(norm)) <==>
                (forall n, d | n in nodes && d in Mentions(n) :: d in IdSet(nodes)))
            && ((forall n, d | n in norm && d in n.needs :: d != "") <==>
                (forall n, d | n in nodes && d in Mentions(n) :: d != ""))
  {
    NormalizedIds(nodes);
    forall n ensures forall d :: d in NormalizeNode(n).needs <==> d in Mentions(n) {
      MentionedNeeds(n);
    }
    hide NormalizeNode, Mentions, IdSet, UniqueIds;
  }

  lemma GroupsMentioned(nodes: seq<Node>)
    ensures var norm := NormalizeGroupDependencies(nodes);
            (forall n, d | n in nodes && d in Mentions(n) :: d in IdSet(nodes)) ==>
              ((forall n | n in norm :: GroupDeclared(n, IdSet(norm))) <==>
               (forall n | n in nodes && n.Group? :: n.members != [] && n.id !in n.members))
  {
    NormalizedIds(nodes);
    forall n | n in nodes
      ensures (forall d | d in Mentions(n) :: d in IdSet(nodes)) ==>
                (GroupDeclared(NormalizeNode(n), IdSet(nodes)) <==> (n.Group? ==> n.members != [] && n.id !in n.members))
    {
      MentionedNeeds(n);
      assert n.Group? ==> forall m | m in n.members :: m in Mentions(n);
    }
    hide NormalizeNode, Mentions, IdSet, UniqueIds, GroupDeclared;
  }

  lemma EdgesMentioned(nodes: seq<Node>)
    requires forall n, d | n in nodes && d in Mentions(n) :: d in IdSet(nodes)
    ensures NeedEdges(NormalizeGroupDependencies(nodes)) == MentionEdges(nodes)
  {
    var norm := NormalizeGroupDependencies(nodes);
    NormalizedIds(nodes);
    forall n ensures NormalizeNode(n).id == n.id && forall d :: d in NormalizeNode(n).needs <==> d in Mentions(n) {
      MentionedNeeds(n);
    }
    hide NormalizeNode, Mentions, IdSet, UniqueIds;
    forall d, id ensures (d, id) in NeedEdges(norm) <==> (d, id) in MentionEdges(nodes) {
      if (d, id) in MentionEdges(nodes) {
        var n :| n in nodes && d in Mentions(n) && n.id == id;
        NeedEdge(norm, NormalizeNode(n), d);
      }
      if (d, id) in NeedEdges(norm) {
        var r :| r in norm && d in r.needs && r.id == id;
        var n :| n in nodes && r == NormalizeNode(n);
      }
    }
  }

  /** Exactly the declared, acyclic node sets in which nothing needs the empty id compile, and what compiles is a
      sound plan. Of the others, those with an issue to report are rejected with it, the rest by the sort itself. */
  method CompileWorkflowPlan(workflows: map<Id, seq<Node>>, workflowId: Id) returns (r: Result<Plan, PlannerError>)
    ensures workflowId !in workflows <==> r == Err(MissingWorkflow)
    ensures workflowId in workflows ==>
              var nodes := NormalizeGroupDependencies(workflows[workflowId]);
              && (r.Ok? <==> Declared(nodes) && Acyclic(NeedEdges(nodes)) && NoEmptyNeed(nodes))
              && (r.Ok? ==> r.value.workflowId == workflowId && PlanOk(nodes, r.value))
              && (r.Err? && r.error.InvalidPlan? <==> !Declared(nodes) || !Acyclic(SeenNeeds(nodes)))
              && (r.Err? && r.error.InvalidPlan? ==>
                    r.error.issues != []
                    && exists cycles :: Reported(nodes, r.error.issues, cycles) && Truthful(nodes, r.error.issues, cycles))
    ensures workflowId in workflows ==> (r.Ok? <==> Acceptable(workflows[workflowId]))
  {
    hide Reported, Truthful, Acceptable, Acyclic, NeedEdges, SeenNeeds, GroupDeclared, Declared, WellFormed, UniqueIds,
      OrderOk, NeedsEarlier, DependentsOk, BatchesOk, IsDependencyOrder, LevelBatches, UpstreamOfSink, LiveEdges, NoEmptyNeed;
    if workflowId !in workflows {
      return Err(MissingWorkflow);
    }
    var nodes := NormalizeGroupDependencies(workflows[workflowId]);
    var issues, cycles := ValidateNodeGraph(nodes);
    SeenAcyclic(nodes);
    AcceptableMeans(workflows[workflowId]);
    if |issues| > 0 {
      return Err(InvalidPlan(issues));
    }
    DeclaredUnique(nodes);
    var g, values := CreateWorkflowGraph(nodes);
    IdsElements(nodes);
    var sorted := TopologicalDependencyOrder(g);
    SortAgrees(nodes, g);
    if sorted.None? {
      return Err(SortFoundCycle);
    }
    OrderedValues(nodes, g, values, sorted.value);
    var order := PlannedNodesForIds(values, sorted.value);
    assert PlannedIds(order) == sorted.value;
    var batches := BuildParallelBatches(g, values, order);
    var plan := Plan(workflowId, g, order, batches);
    CompiledPlan(nodes, g, values, sorted.value, plan);
    return Ok(plan);
  }

  lemma SeenAcyclic(nodes: seq<Node>)
    ensures Acyclic(NeedEdges(nodes)) ==> Acyclic(SeenNeeds(nodes))
  {
    hide NeedEdges, SeenNeeds, Acyclic;
    SeenAll(nodes);
    if Acyclic(NeedEdges(nodes)) {
      SubgraphAcyclic(SeenNeeds(nodes), NeedEdges(nodes));
    }
  }

  lemma DeclaredUnique(nodes: seq<Node>)
    requires Declared(nodes)
    ensures UniqueIds(nodes)
  {
  }

  lemma CompiledPlan(nodes: seq<Node>, g: Graph, values: map<Id, PlannedNode>, ids: seq<Id>, plan: Plan)
    requires UniqueIds(nodes) && Declared(nodes) && Acyclic(NeedEdges(nodes)) && NoEmptyNeed(nodes)
    requires WellFormed(g) && g.ids == Ids(nodes) && Valued(nodes, g, values)
    requires forall u, v :: u in Lookup(g.predecessors, v) <==> (u, v) in NeedEdges(nodes)
    requires IsDependencyOrder(g, ids) && plan.graph == g && plan.topologicalOrder == PlannedNodesForIds(values, ids)
    requires InGraph(values, plan.topologicalOrder) ==> LevelBatches(g, plan.topologicalOrder, plan.parallelBatches)
    ensures PlanOk(nodes, plan)
  {
    hide Acyclic, NeedEdges, GroupDeclared, WellFormed, UniqueIds, SuccessorsFirst, LevelBatches;
    IdsElements(nodes);
    OrderedValues(nodes, g, values, ids);
    PlannedNeedsEarlier(nodes, g, values, ids);
    PlannedDependents(nodes, g, values, ids);
    InducedNeeds(nodes, g, ids);
    PlannedBatches(nodes, g, plan.topologicalOrder, plan.parallelBatches);
    hide OrderOk, NeedsEarlier, DependentsOk, BatchesOk;
  }
}
