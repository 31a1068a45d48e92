/** The deterministic schedule of a ticket plan (src/planning/generate.ts): its ids, its needs, and why it passes the
    schedule checks. */
module TicketPlan {
  import opened Digraph
  import opened GeneratedIds
  import opened ScheduleChecks
  import opened Workflow

  /** Stands for trimming and lower-casing the text `<unit id>-implement`. */
  type Lower = string -> string

  const FALLBACK := "work-implement"

  function NodeIds(names: map<Id, Id>, dependencies: seq<Id>): (r: seq<Id>)
    ensures forall x :: x in r <==> exists d | d in dependencies :: d in names && names[d] == x
  {
    if dependencies == [] then []
    else
      assert dependencies == [dependencies[0]] + dependencies[1..];
      (if dependencies[0] in names then [names[dependencies[0]]] else []) + NodeIds(names, dependencies[1..])
  }

  /** The needs stand in the order of the dependencies; one that names no unit of the plan is left out. */
  lemma {:induction false} NodeIdsInOrder(names: map<Id, Id>, a: seq<Id>, d: Id, b: seq<Id>)
    ensures NodeIds(names, a + [d] + b) == NodeIds(names, a) + (if d in names then [names[d]] else []) + NodeIds(names, b)
    decreases |a|
  {
    var all := a + [d] + b;
    if a == [] {
      assert all == [d] + b && all[1..] == b;
    } else {
      assert all[1..] == a[1..] + [d] + b;
      NodeIdsInOrder(names, a[1..], d, b);
    }
  }

  ghost predicate UniqueUnits(units: seq<WorkUnit>)
  {
    forall i, j | 0 <= i < j < |units| :: units[i].id != units[j].id
  }

  /** A well-shaped node id for every unit, different units under different ids. */
  ghost predicate Named(units: seq<WorkUnit>, names: map<Id, Id>)
  {
    && names.Keys == UnitIds(units)
    && (forall u | u in names :: WellShaped(names[u]))
    && (forall u, v | u in names && v in names && names[u] == names[v] :: u == v)
  }

  /** The id that the text `<unit id>-implement` yields, before it is told apart from earlier ones. */
  ghost function Base(unit: WorkUnit, lower: Lower): string
  {
    GeneratedId(lower(unit.id + "-implement"), "work-implement")
  }

  /** Unit `i` has the first candidate for its text that no earlier unit has. */
  ghost predicate FirstFree(units: seq<WorkUnit>, lower: Lower, names: map<Id, Id>, i: nat)
    requires i < |units|
  {
    exists tries: nat ::
      && units[i].id in names && names[units[i].id] == Candidate(Base(units[i], lower), tries)
      && forall k | 0 <= k < tries :: TakenBefore(units, names, i, Candidate(Base(units[i], lower), k))
  }

  ghost predicate TakenBefore(units: seq<WorkUnit>, names: map<Id, Id>, i: nat, id: Id)
    requires i <= |units|
  {
    exists j | 0 <= j < i :: units[j].id in names && names[units[j].id] == id
  }

  ghost predicate NamedInOrder(units: seq<WorkUnit>, n: nat, lower: Lower, names: map<Id, Id>)
    requires n <= |units|
  {
    forall i | 0 <= i < n :: FirstFree(units, lower, names, i)
  }

  method NameUnits(units: seq<WorkUnit>, lower: Lower) returns (names: map<Id, Id>)
    ensures names.Keys == UnitIds(units)
    ensures UniqueUnits(units) ==> Named(units, names) && NamedInOrder(units, |units|, lower, names)
  {
    hide UniqueUnits, WellShaped, GeneratedId, Candidate;
    names := map[];
    var usedIds: set<string> := {};
    for i := 0 to |units|
      invariant names.Keys == UnitIds(units[..i])
      invariant names.Values <= usedIds
      invariant UniqueUnits(units) ==> usedIds == names.Values
      invariant UniqueUnits(units) ==> Named(units[..i], names) && NamedInOrder(units, i, lower, names)
    {
      ghost var before, used := names, usedIds;
      var id, reserved, tries := UniqueGeneratedId(lower(units[i].id + "-implement"), usedIds, FALLBACK);
      usedIds := reserved;
      names := names[units[i].id := id];
      NextUnit(units, i);
      if UniqueUnits(units) {
        NextNamed(units, i, before, id, lower, tries);
        NextInOrder(units, lower, before, i, id, tries);
      }
    }
    assert units[..|units|] == units;
  }

  lemma NextNamed(units: seq<WorkUnit>, i: nat, names: map<Id, Id>, id: Id, lower: Lower, tries: nat)
    requires UniqueUnits(units) && i < |units| && Named(units[..i], names) && id !in names.Values
    requires id == Candidate(Base(units[i], lower), tries)
    ensures Named(units[..i + 1], names[units[i].id := id])
    ensures names[units[i].id := id].Values == names.Values + {id}
  {
    NameShape(lower(units[i].id + "-implement"), tries);
    NextUnit(units, i);
    hide WellShaped, GeneratedId, Candidate, UniqueUnits;
    var more := names[units[i].id := id];
    assert forall x | x in names :: more[x] == names[x] && more[x] in names.Values;
  }

  lemma NextInOrder(units: seq<WorkUnit>, lower: Lower, names: map<Id, Id>, i: nat, id: Id, tries: nat)
    requires UniqueUnits(units) && i < |units| && names.Keys == UnitIds(units[..i])
    requires NamedInOrder(units, i, lower, names) && id == Candidate(Base(units[i], lower), tries)
    requires forall k | 0 <= k < tries :: Candidate(Base(units[i], lower), k) in names.Values
    ensures NamedInOrder(units, i + 1, lower, names[units[i].id := id])
  {
    NextUnit(units, i);
    hide Base, Candidate, UniqueUnits;
    var more, base := names[units[i].id := id], Base(units[i], lower);
    forall k | 0 <= k < tries ensures TakenBefore(units, more, i, Candidate(base, k)) {
      assert Candidate(base, k) in names.Values;
      var u :| u in names && names[u] == Candidate(base, k);
      var j :| 0 <= j < |units[..i]| && units[..i][j].id == u;
      assert units[j].id in more && more[units[j].id] == names[u];
    }
    assert more[units[i].id] == Candidate(base, tries);
    assert FirstFree(units, lower, more, i);
    forall j | 0 <= j < i ensures FirstFree(units, lower, more, j) {
      StillFree(units, lower, names, more, j);
    }
  }

  lemma StillFree(units: seq<WorkUnit>, lower: Lower, names: map<Id, Id>, more: map<Id, Id>, j: nat)
    requires j < |units| && FirstFree(units, lower, names, j)
    requires forall x | x in names :: x in more && more[x] == names[x]
    ensures FirstFree(units, lower, more, j)
  {
    hide Base, Candidate;
    var tries: nat :| names[units[j].id] == Candidate(Base(units[j], lower), tries)
      && forall k | 0 <= k < tries :: TakenBefore(units, names, j, Candidate(Base(units[j], lower), k));
    forall k | 0 <= k < tries ensures TakenBefore(units, more, j, Candidate(Base(units[j], lower), k)) {
      assert TakenBefore(units, names, j, Candidate(Base(units[j], lower), k));
    }
  }

  lemma NameShape(lowered: string, tries: nat)
    ensures WellShaped(Candidate(GeneratedId(lowered, FALLBACK), tries))
  {
    hide GeneratedId, Candidate;
    GeneratedWellShaped(lowered, FALLBACK);
    CandidateWellShaped(GeneratedId(lowered, FALLBACK), tries);
  }

  lemma NextUnit(units: seq<WorkUnit>, i: nat)
    requires i < |units|
    ensures UnitIds(units[..i + 1]) == UnitIds(units[..i]) + {units[i].id}
    ensures UniqueUnits(units) ==> units[i].id !in UnitIds(units[..i])
  {
    assert units[..i + 1] == units[..i] + [units[i]];
  }

  /** One agent node per unit, needing the nodes of its in-scope dependencies, in order. */
  function PlanNodes(units: seq<WorkUnit>, names: map<Id, Id>): (nodes: seq<Node>)
    requires names.Keys == UnitIds(units)
    ensures |nodes| == |units|
    ensures forall i | 0 <= i < |units| ::
              units[i].id in names && nodes[i] == Task(names[units[i].id], NodeIds(names, units[i].dependencies), Agent,
                  units[i].id)
  {
    seq(|units|, i requires 0 <= i < |units| =>
      assert units[i] in units;
      Task(names[units[i].id], NodeIds(names, units[i].dependencies), Agent, units[i].id))
  }

  /** The schedule for some naming of the units. */
  ghost predicate IsSchedule(units: seq<WorkUnit>, lower: Lower, names: map<Id, Id>, nodes: seq<Node>)
  {
    && names.Keys == UnitIds(units) && nodes == PlanNodes(units, names)
    && (UniqueUnits(units) ==> Named(units, names) && NamedInOrder(units, |units|, lower, names))
  }

  method TicketPlanSchedule(units: seq<WorkUnit>, lower: Lower) returns (nodes: seq<Node>)
    ensures exists names :: IsSchedule(units, lower, names, nodes)
  {
    var names := NameUnits(units, lower);
    nodes := PlanNodes(units, names);
    assert IsSchedule(units, lower, names, nodes);
  }

  // ---------------------------------------------------------------- what the schedule promises

  /** (d, u.id) when unit `u` depends on a unit of the plan. */
  ghost function UnitEdges(units: seq<WorkUnit>): set<(Id, Id)>
  {
    set u, d | u in units && d in u.dependencies && d in UnitIds(units) :: (d, u.id)
  }

  lemma {:induction false} FlatTasks(nodes: seq<Node>)
    requires forall n | n in nodes :: n.Task?
    ensures Flatten(nodes) == nodes
    decreases |nodes|
  {
    if nodes != [] {
      assert nodes == [nodes[0]] + nodes[1..];
      assert nodes[0].Task?;
      FlatTasks(nodes[1..]);
    }
  }

  lemma PlanFlat(units: seq<WorkUnit>, names: map<Id, Id>)
    requires names.Keys == UnitIds(units)
    ensures Flatten(PlanNodes(units, names)) == PlanNodes(units, names)
  {
    FlatTasks(PlanNodes(units, names));
  }

  lemma PlanUniqueIds(units: seq<WorkUnit>, names: map<Id, Id>)
    requires UniqueUnits(units) && Named(units, names)
    ensures UniqueIds(PlanNodes(units, names))
    ensures forall n | n in PlanNodes(units, names) :: WellShaped(n.id)
  {
    hide WellShaped;
    var nodes := PlanNodes(units, names);
    forall i, j | 0 <= i < j < |nodes| ensures nodes[i].id != nodes[j].id {
      assert units[i].id != units[j].id;
      assert units[i].id in names && units[j].id in names;
    }
  }

  /** Needs mirror the in-scope dependencies exactly. */
  lemma NeedsMirror(units: seq<WorkUnit>, names: map<Id, Id>, d: Id, u: Id)
    requires Named(units, names) && d in names && u in names
    ensures (names[d], names[u]) in NeedEdges(PlanNodes(units, names)) <==> (d, u) in UnitEdges(units)
  {
    hide WellShaped;
    var nodes := PlanNodes(units, names);
    if (names[d], names[u]) in NeedEdges(nodes) {
      var n :| n in nodes && names[d] in n.needs && names[d] in IdSet(nodes) && n.id == names[u];
      var i :| 0 <= i < |nodes| && nodes[i] == n;
      assert units[i] in units && units[i].id == u;
      var x :| x in units[i].dependencies && x in names && names[x] == names[d];
    }
    if (d, u) in UnitEdges(units) {
      var unit :| unit in units && d in unit.dependencies && unit.id == u;
      var i :| 0 <= i < |units| && units[i] == unit;
      assert nodes[i] in nodes && names[d] in nodes[i].needs;
      NodeOfUnit(units, names, d);
    }
  }

  lemma NodeOfUnit(units: seq<WorkUnit>, names: map<Id, Id>, u: Id)
    requires names.Keys == UnitIds(units) && u in names
    ensures names[u] in IdSet(PlanNodes(units, names))
    ensures exists n | n in PlanNodes(units, names) :: n.unit == u && n.id == names[u]
  {
    var unit :| unit in units && unit.id == u;
    var i :| 0 <= i < |units| && units[i] == unit;
    assert PlanNodes(units, names)[i] in PlanNodes(units, names);
  }

  /** Every need edge of the schedule names two units. */
  lemma NeedEdgeUnits(units: seq<WorkUnit>, names: map<Id, Id>, a: Id, b: Id) returns (d: Id, u: Id)
    requires Named(units, names) && (a, b) in NeedEdges(PlanNodes(units, names))
    ensures d in names && u in names && names[d] == a && names[u] == b && (d, u) in UnitEdges(units)
  {
    var nodes := PlanNodes(units, names);
    var n :| n in nodes && a in n.needs && a in IdSet(nodes) && n.id == b;
    var i :| 0 <= i < |nodes| && nodes[i] == n;
    assert units[i] in units;
    u := units[i].id;
    d :| d in units[i].dependencies && d in names && names[d] == a;
    NeedsMirror(units, names, d, u);
  }

  /** The schedule is acyclic exactly when the units' dependencies are. */
  lemma PlanAcyclic(units: seq<WorkUnit>, names: map<Id, Id>)
    requires UniqueUnits(units) && Named(units, names)
    ensures Acyclic(NeedEdges(PlanNodes(units, names))) <==> Acyclic(UnitEdges(units))
  {
    assert names.Keys == UnitIds(units);
    hide Named, NeedEdges, Acyclic, UnitEdges;
    var e, f := NeedEdges(PlanNodes(units, names)), UnitEdges(units);
    if Acyclic(e) {
      forall d, u | (d, u) in f ensures UnitRank(names, e, d) < UnitRank(names, e, u) {
        UnitEdgeNamed(units, names, d, u);
        RankGrows(e, names[d], names[u]);
      }
      PotentialAcyclic(f, u => UnitRank(names, e, u));
    }
    if Acyclic(f) {
      forall a, b | (a, b) in e ensures NameRank(names, f, a) < NameRank(names, f, b) {
        var d, u := NeedEdgeUnits(units, names, a, b);
        UnitOfName(units, names, d);
        UnitOfName(units, names, u);
        RankGrows(f, d, u);
      }
      PotentialAcyclic(e, a => NameRank(names, f, a));
    }
  }

  ghost function UnitRank(names: map<Id, Id>, e: set<(Id, Id)>, u: Id): int
  {
    if u in names then Rank(e, names[u]) else 0
  }

  ghost function NameRank(names: map<Id, Id>, f: set<(Id, Id)>, a: Id): int
  {
    if u :| u in names && names[u] == a then Rank(f, u) else 0
  }

  lemma UnitEdgeNamed(units: seq<WorkUnit>, names: map<Id, Id>, d: Id, u: Id)
    requires Named(units, names) && (d, u) in UnitEdges(units)
    ensures d in names && u in names && (names[d], names[u]) in NeedEdges(PlanNodes(units, names))
  {
    assert d in UnitIds(units) && u in UnitIds(units);
    NeedsMirror(units, names, d, u);
  }

  lemma UnitOfName(units: seq<WorkUnit>, names: map<Id, Id>, u: Id)
    requires Named(units, names) && u in names
    ensures forall v | v in names && names[v] == names[u] :: v == u
  {
  }

  // ---------------------------------------------------------------- the schedule passes the checks

  lemma NoMissingUnits(units: seq<WorkUnit>, names: map<Id, Id>)
    requires Named(units, names) && "" !in UnitIds(units)
    ensures MissingAssignedWorkUnits(PlanNodes(units, names), units) == []
  {
    hide Flatten, WellShaped;
    PlanFlat(units, names);
    forall id | id in UnitIds(units) ensures Assigned(PlanNodes(units, names), id) {
      NodeOfUnit(units, names, id);
    }
    NoMembers(MissingAssignedWorkUnits(PlanNodes(units, names), units));
  }

  lemma NoMembers(ids: seq<Id>)
    ensures (forall x :: x !in ids) ==> ids == []
  {
    assert ids == [] || ids[0] in ids;
  }

  lemma {:induction false} DependenciesOfMember(units: seq<WorkUnit>, all: set<Id>, unit: WorkUnit)
    requires UniqueUnits(units) && unit in units
    ensures DependenciesOf(units, all, unit.id) == InScope(unit.dependencies, all)
    decreases |units|
  {
    var last := units[|units| - 1];
    if unit != last {
      var i :| 0 <= i < |units| - 1 && units[i] == unit;
      assert units[i].id != last.id;
      assert unit in units[..|units| - 1];
      DependenciesOfMember(units[..|units| - 1], all, unit);
    }
  }

  lemma NeedFollows(nodes: seq<Node>, need: Id, n: Node)
    requires n in nodes && need in n.needs
    ensures FollowsById(nodes, need, n.id)
  {
    assert ReachStar(FollowEdges(nodes), need, need) && Follows(n, need);
    assert FollowsEventually(nodes, need, n);
  }

  lemma NeedsPrerequisite(units: seq<WorkUnit>, names: map<Id, Id>, implements: Node -> bool, n: Node, d: Id)
    requires UniqueUnits(units) && Named(units, names)
    requires n in PlanNodes(units, names) && MustFollow(units, implements, n, d)
    ensures d in names && names[d] in n.needs && d in UnitIds(units)
  {
    hide WellShaped;
    var nodes := PlanNodes(units, names);
    var i :| 0 <= i < |nodes| && nodes[i] == n;
    assert units[i] in units;
    DependenciesOfMember(units, UnitIds(units), units[i]);
  }

  /** Whatever nodes count as implementation nodes, each follows all the units it must follow. */
  lemma NoMissingEdges(units: seq<WorkUnit>, names: map<Id, Id>, implements: Node -> bool, n: Node, d: Id)
    requires UniqueUnits(units) && Named(units, names) && "" !in UnitIds(units)
    requires n in PlanNodes(units, names) && MustFollow(units, implements, n, d)
    ensures !Unlinked(Flatten(PlanNodes(units, names)), n, d)
  {
    hide Flatten, WellShaped, FollowEdges;
    PlanFlat(units, names);
    var nodes := PlanNodes(units, names);
    NeedsPrerequisite(units, names, implements, n, d);
    NodeOfUnit(units, names, d);
    hide PlanNodes, Named, UniqueUnits, MustFollow;
    var source :| source in nodes && source.unit == d && source.id == names[d];
    NeedFollows(nodes, source.id, n);
  }
}
