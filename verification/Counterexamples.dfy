/** Plans the compiler accepts, or validates, without meeting its promise: lost order, exhausted stacks, cycles, empty ids
    and merges that a check does not see. */
module Counterexamples {
  import AG = ArgoGraph
  import opened Compile
  import opened CycleFinder
  import opened DependencyRefs
  import opened Digraph
  import opened EventOrder
  import opened FlatGraph
  import opened Lowering
  import opened PlanOrder
  import opened Reachability
  import opened ScheduleChecks
  import opened Unrolling
  import opened Workflow
  import opened Wrappers

  /** A plan without groups at its top level is accepted if its needs are declared and have smaller ranks. */
  lemma Accepted(nodes: seq<Node>, rank: Id -> int)
    requires UniqueIds(nodes) && forall n | n in nodes :: !n.Group?
    requires forall n, d | n in nodes && d in n.needs :: d in IdSet(nodes) && rank(d) < rank(n.id)
    ensures Declared(NormalizeGroupDependencies(nodes)) && Acyclic(NeedEdges(NormalizeGroupDependencies(nodes)))
  {
    assert NormalizeGroupDependencies(nodes) == nodes;
    hide IdSet, UniqueIds;
    forall a, b | (a, b) in NeedEdges(nodes) ensures rank(a) < rank(b) {
      var n :| n in nodes && a in n.needs && n.id == b;
    }
    PotentialAcyclic(NeedEdges(nodes), rank);
  }

  // ------------------------------------------------------- a nested group that leaves its parallel

  const GATE := Task("gate", [], Agent, "")
  const OTHER := Task("b", [], Agent, "")
  const GROUP := Group("group", [], ["b"], "")
  const CHECKS := Parallel("checks", ["gate"], [GROUP], "")
  const RELEASE := Task("release", ["checks"], Agent, "")

  function Escaping(): seq<Node>
  {
    [GATE, OTHER, CHECKS, RELEASE]
  }

  lemma EscapingFlat()
    ensures Flatten(Escaping()) == [GATE, OTHER, CHECKS, GROUP, RELEASE]
    ensures Places(Escaping(), [], None) ==
            [Place(GATE, [], None), Place(OTHER, [], None), Place(CHECKS, [], None),
             Place(GROUP, ["gate"], Some(CHECKS)), Place(RELEASE, [], None)]
  {
    var s := Escaping();
    assert s[1..] == [OTHER, CHECKS, RELEASE] && s[1..][1..] == [CHECKS, RELEASE] && s[1..][1..][1..] == [RELEASE];
    assert [GROUP][1..] == [] && [RELEASE][1..] == [];
    assert Flatten([GROUP]) == [GROUP] && Flatten([RELEASE]) == [RELEASE];
    assert Flatten([CHECKS, RELEASE]) == [CHECKS, GROUP, RELEASE];
    assert Flatten([OTHER, CHECKS, RELEASE]) == [OTHER, CHECKS, GROUP, RELEASE];
    assert Places([GROUP], ["gate"], Some(CHECKS)) == [Place(GROUP, ["gate"], Some(CHECKS))];
    assert [] + CHECKS.needs == ["gate"];
    assert Places([RELEASE], [], None) == [Place(RELEASE, [], None)];
    assert Places([CHECKS, RELEASE], [], None) == [Place(CHECKS, [], None), Place(GROUP, ["gate"], Some(CHECKS)),
        Place(RELEASE, [], None)];
    assert Places([OTHER, CHECKS, RELEASE], [], None) ==
           [Place(OTHER, [], None), Place(CHECKS, [], None), Place(GROUP, ["gate"], Some(CHECKS)), Place(RELEASE, [], None)];
  }

  function Moment(e: Event): int
  {
    match e
    case Start(id) => if id == "checks" then 2 else if id == "group" then 3 else if id == "release" then 6 else 0
    case End(id) => if id == "group" then 4 else if id == "checks" then 5 else if id == "release" then 7 else 1
  }

  lemma MomentRun(id: Id)
    ensures Moment(Start(id)) < Moment(End(id))
  {
  }

  lemma MomentRef(n: Node, m: Id)
    requires n in [GATE, OTHER, CHECKS, GROUP, RELEASE] && m in Refs(n)
    ensures Moment(End(m)) < Moment(Start(n.id))
  {
    if n == GATE || n == OTHER {
    } else if n == CHECKS {
      assert m == "gate";
    } else if n == GROUP {
      assert m == "b";
    } else {
      assert m == "checks";
    }
  }

  lemma MomentChild(n: Node, c: Node)
    requires n in [GATE, OTHER, CHECKS, GROUP, RELEASE] && c in Children(n)
    ensures Moment(Start(n.id)) < Moment(Start(c.id)) && Moment(End(c.id)) < Moment(End(n.id))
  {
    assert n == CHECKS && c == GROUP;
  }

  lemma EscapingForest()
    ensures Forest(Escaping())
  {
    EscapingUnique();
    var flat := Flatten(Escaping());
    assert Acyclic(EventEdges(flat)) by {
      hide Flatten, EventEdges, Moment;
      EscapingFlat();
      forall x, y | (x, y) in EventEdges(flat) ensures Moment(x) < Moment(y) {
        var n, c := EdgeOwner(flat, x, y);
        if x == Start(n.id) && y == End(n.id) {
          MomentRun(n.id);
        } else if y == Start(n.id) && x.End? {
          MomentRef(n, x.id);
        } else {
          MomentChild(n, c);
        }
      }
      PotentialAcyclic(EventEdges(flat), e => Moment(e));
    }
  }

  lemma EscapingUnique()
    ensures UniqueIds(Flatten(Escaping())) && forall n | n in Flatten(Escaping()) && n.Parallel? :: n.children != []
  {
    hide Flatten;
    EscapingFlat();
  }

  lemma EscapingIds()
    ensures IdSet(Escaping()) == {"gate", "b", "checks", "release"} && UniqueIds(Escaping())
  {
    assert GATE in Escaping() && OTHER in Escaping() && CHECKS in Escaping() && RELEASE in Escaping();
  }

  /** The compiler accepts the plan. */
  lemma EscapingAccepted()
    ensures Declared(NormalizeGroupDependencies(Escaping())) && Acyclic(NeedEdges(NormalizeGroupDependencies(Escaping())))
  {
    var nodes := Escaping();
    EscapingIds();
    hide Moment, IdSet, UniqueIds;
    forall n, d | n in nodes && d in n.needs ensures d in IdSet(nodes) && Moment(Start(d)) < Moment(Start(n.id)) {
      assert n in [GATE, OTHER, CHECKS, GROUP, RELEASE];
      MomentRun(d);
      MomentRef(n, d);
      assert n == CHECKS || n == RELEASE;
    }
    Accepted(nodes, id => Moment(Start(id)));
  }

  lemma EscapingBefore()
    ensures Before(Escaping(), "gate", "release")
  {
    hide EventEdges;
    EscapingFlat();
    var flat := Flatten(Escaping());
    var e := EventEdges(flat);
    assert GATE in flat && CHECKS in flat && RELEASE in flat;
    RefEdge(flat, CHECKS, "gate");
    RunEdge(flat, CHECKS);
    RefEdge(flat, RELEASE, "checks");
    EdgeReach(e, End("gate"), Start("checks"));
    EdgeReach(e, Start("checks"), End("checks"));
    EdgeReach(e, End("checks"), Start("release"));
    ReachTrans(e, End("gate"), Start("checks"), End("checks"));
    ReachTrans(e, End("gate"), End("checks"), Start("release"));
  }

  lemma EscapingResolves(s: Id)
    requires Resolvable(Index(Escaping())) && s in ResolveOne(Index(Escaping()), "checks")
    ensures s == "b"
  {
    EscapingIndex();
    hide Resolvable, Index, ResolveOne;
    var index := Index(Escaping());
    ResolveContainer(index, "checks", s);
    assert Expands(CHECKS) == ["group"];
    ResolveContainer(index, "group", s);
    assert Expands(GROUP) == ["b"];
    ResolveTask(index, "b", s);
  }

  lemma ResolveTask(index: map<Id, Node>, id: Id, s: Id)
    requires Resolvable(index) && id in index && index[id].Task? && index[id].id == id
    ensures s in ResolveOne(index, id) <==> s == id
  {
  }

  lemma EscapingIndex()
    ensures var index := Index(Escaping());
            && "checks" in index && index["checks"] == CHECKS
            && "group" in index && index["group"] == GROUP
            && "b" in index && index["b"] == OTHER
  {
    hide Resolvable, Flatten, Places, Index;
    EscapingFlat();
    EscapingUnique();
    IndexOfForest(Escaping());
    assert CHECKS in Flatten(Escaping()) && GROUP in Flatten(Escaping()) && OTHER in Flatten(Escaping());
    assert CHECKS.id == "checks" && GROUP.id == "group" && OTHER.id == "b";
  }

  /** The flat graph lets `release` start before `gate` ends, although `gate` gates the parallel that `release` needs. */
  lemma EscapingGroupLosesOrder()
    ensures Declared(NormalizeGroupDependencies(Escaping())) && Acyclic(NeedEdges(NormalizeGroupDependencies(Escaping())))
    ensures Forest(Escaping()) && Resolvable(Index(Escaping())) && !LeavesAnchored(Escaping())
    ensures Before(Escaping(), "gate", "release")
    ensures !Reach(AG.TaskEdges(AG.Tasks(Escaping())), ArgoTaskName("gate"), ArgoTaskName("release"))
  {
    hide EventEdges, Resolvable, Acyclic, Declared, GroupsAnchored, GroupsFlatAnchored, LeavesAnchored, DirectDeps, Before,
      AG.TaskEdges;
    EscapingAccepted();
    EscapingForest();
    EscapingBefore();
    ForestResolvable(Escaping());
    var nodes := Escaping();
    if Reach(DirectDeps(nodes), "gate", "release") {
      var n: nat :| n >= 1 && ReachIn(DirectDeps(nodes), "gate", "release", n);
      var b := FirstStep(DirectDeps(nodes), "gate", "release", n);
      NothingOnGate(b);
    }
    AG.NamedReach(nodes, "gate", "release");
    EscapingTasks();
    AG.LoweringPreservesOrder(nodes, "gate", "release");
    OrderKeptExactly(nodes);
  }

  lemma EscapingTasks()
    ensures Executable(Escaping(), "gate") && Executable(Escaping(), "release")
  {
    EscapingFlat();
    EscapingForest();
    IndexOfForest(Escaping());
    assert GATE in Flatten(Escaping()) && RELEASE in Flatten(Escaping());
  }

  lemma NothingOnGate(b: Id)
    requires Resolvable(Index(Escaping()))
    ensures ("gate", b) !in DirectDeps(Escaping())
  {
    hide Resolvable, Places, Flatten, ResolveExecutableDependencyIds, ResolveOne, Index;
    EscapingFlat();
    if ("gate", b) in DirectDeps(Escaping()) {
      var p :| p in Places(Escaping(), [], None) && p.node.Task? && p.node.id == b
               && "gate" in ResolveExecutableDependencyIds(Index(Escaping()), p.inherited + p.node.needs);
      ResolveMembers(Index(Escaping()), p.inherited + p.node.needs, "gate");
      var m :| m in p.inherited + p.node.needs && "gate" in ResolveOne(Index(Escaping()), m);
      assert m == "checks";
      EscapingResolves("gate");
    }
  }

  // ------------------------------------------------------- a parallel whose group stands for the parallel

  const TURN := Group("turn", [], ["ring"], "")
  const RING := Parallel("ring", [], [TURN], "")
  const AFTER := Task("after", ["ring"], Agent, "")
  const FREE := Task("free", [], Agent, "")

  function Ringed(task: Node): seq<Node>
  {
    [RING, task]
  }

  lemma RingedPlaces(task: Node)
    requires task.Task?
    ensures Flatten(Ringed(task)) == [RING, TURN, task]
    ensures Places(Ringed(task), [], None) == [Place(RING, [], None), Place(TURN, [], Some(RING)), Place(task, [], None)]
  {
    var s := Ringed(task);
    assert s[1..] == [task] && [task][1..] == [] && [TURN][1..] == [];
    assert Flatten([TURN]) == [TURN] && Flatten([task]) == [task];
    assert Places([TURN], [], Some(RING)) == [Place(TURN, [], Some(RING))];
    assert Places([task], [], None) == [Place(task, [], None)];
    var none: seq<Id> := [];
    assert none + RING.needs == none;
  }

  /** The compiler accepts both plans. */
  lemma RingedAccepted(task: Node)
    requires task == AFTER || task == FREE
    ensures Declared(NormalizeGroupDependencies(Ringed(task)))
    ensures Acyclic(NeedEdges(NormalizeGroupDependencies(Ringed(task))))
  {
    var nodes := Ringed(task);
    assert RING in nodes && task in nodes;
    assert IdSet(nodes) == {"ring", task.id};
    Accepted(nodes, id => if id == "ring" then 0 else 1);
  }

  lemma RingedIndex(task: Node)
    requires task == AFTER || task == FREE
    ensures UniqueIds(Flatten(Ringed(task)))
    ensures var index := Index(Ringed(task));
            "ring" in index && index["ring"] == RING && "turn" in index && index["turn"] == TURN
  {
    hide Flatten, Places, Index;
    RingedPlaces(task);
    IndexOfForest(Ringed(task));
    assert RING in Flatten(Ringed(task)) && TURN in Flatten(Ringed(task));
  }

  lemma RingLoops(task: Node)
    requires task == AFTER || task == FREE
    ensures Loops(Index(Ringed(task)), "ring")
  {
    hide Index, Reach;
    RingedIndex(task);
    var e := ExpandEdges(Index(Ringed(task)));
    assert Expands(RING) == ["turn"] && Expands(TURN) == ["ring"];
    assert ("turn", "ring") in e && ("ring", "turn") in e;
    EdgeReach(e, "turn", "ring");
    EdgeReach(e, "ring", "turn");
    ReachTrans(e, "ring", "turn", "ring");
    assert ReachStar(e, "ring", "ring");
  }

  /** An accepted plan that overflows the stack: a task needs a parallel whose group stands for the parallel. */
  lemma NeededRingOverflows(workflowId: Id)
    ensures Declared(NormalizeGroupDependencies(Ringed(AFTER)))
    ensures Acyclic(NeedEdges(NormalizeGroupDependencies(Ringed(AFTER))))
    ensures AG.CompileArgoExecutionGraph(workflowId, Ringed(AFTER)) == Err(ResolutionOverflow)
  {
    hide Declared, Acyclic, Places, Flatten, Index, AG.CompileArgoExecutionGraph, Loops;
    RingedAccepted(AFTER);
    RingedPlaces(AFTER);
    RingedIndex(AFTER);
    RingLoops(AFTER);
    var index, places := Index(Ringed(AFTER)), Places(Ringed(AFTER), [], None);
    assert places[2].inherited + places[2].node.needs == ["ring"];
    assert FailsAt(index, places, 2, ResolutionOverflow);
    AG.CompileOutcome(workflowId, Ringed(AFTER));
  }

  /** The same containers compile when no task needs them, although they do not resolve. */
  lemma FreeRingCompiles(workflowId: Id)
    requires workflowId != ""
    ensures Declared(NormalizeGroupDependencies(Ringed(FREE)))
    ensures Acyclic(NeedEdges(NormalizeGroupDependencies(Ringed(FREE))))
    ensures !Resolvable(Index(Ringed(FREE)))
    ensures AG.CompileArgoExecutionGraph(workflowId, Ringed(FREE)).Ok?
  {
    hide Declared, Places, Flatten, Index, AG.CompileArgoExecutionGraph, Reach;
    RingedAccepted(FREE);
    RingedPlaces(FREE);
    RingedIndex(FREE);
    RingLoops(FREE);
    AG.ExecutableMember(Flatten(Ringed(FREE)), "free");
    assert FREE in Flatten(Ringed(FREE));
    AG.CompileOutcome(workflowId, Ringed(FREE));
  }

  // ------------------------------------------------------- children that need each other

  const ONE := Task("one", ["two"], Agent, "")
  const TWO := Task("two", ["one"], Agent, "")
  const BOX := Parallel("box", [], [ONE, TWO], "")

  lemma BoxPlaces()
    ensures Flatten([BOX]) == [BOX, ONE, TWO]
    ensures Places([BOX], [], None) == [Place(BOX, [], None), Place(ONE, [], Some(BOX)), Place(TWO, [], Some(BOX))]
  {
    var children := [ONE, TWO];
    assert [BOX][1..] == [] && children[1..] == [TWO] && [TWO][1..] == [];
    assert Flatten([]) == [] && Flatten([TWO]) == [TWO] + [] + [];
    assert Flatten(children) == [ONE] + [] + [TWO];
    assert Flatten([BOX]) == [BOX] + Flatten(children) + [];
    hide Flatten;
    assert Places([TWO], [], Some(BOX)) == [Place(TWO, [], Some(BOX))] + [] + [];
    assert Places(children, [], Some(BOX)) == [Place(ONE, [], Some(BOX))] + [] + Places([TWO], [], Some(BOX));
    var none: seq<Id> := [];
    assert none + BOX.needs == none;
    assert Places([BOX], [], None) == [Place(BOX, [], None)] + Places(children, [], Some(BOX)) + [];
  }

  lemma BoxAccepted()
    ensures Declared(NormalizeGroupDependencies([BOX])) && Acyclic(NeedEdges(NormalizeGroupDependencies([BOX])))
  {
    Accepted([BOX], id => 0);
  }

  lemma BoxIndex()
    ensures UniqueIds(Flatten([BOX])) && Executable([BOX], "one") && Executable([BOX], "two")
  {
    hide Flatten, Places, Index;
    BoxPlaces();
    IndexOfForest([BOX]);
    assert ONE in Flatten([BOX]) && TWO in Flatten([BOX]);
  }

  lemma BoxClean()
    ensures Clean(Index([BOX]), Places([BOX], [], None))
  {
    hide Flatten, Places, Index, Loops;
    BoxPlaces();
    BoxIndex();
    forall id | id == "one" || id == "two" ensures !Loops(Index([BOX]), id) {
      if Loops(Index([BOX]), id) {
        var m := LoopStep(Index([BOX]), id);
      }
    }
  }

  lemma BoxSeesItself()
    ensures !SeesNoCycle([BOX])
  {
    hide Flatten, Places, Index, Reach;
    BoxPlaces();
    BoxIndex();
    var e, places := SeeEdges([BOX]), Places([BOX], [], None);
    assert places[1] in places && places[2] in places;
    assert "two" in Looks(places[1]) && "one" in Looks(places[2]);
    assert ("two", "one") in e && ("one", "two") in e;
    EdgeReach(e, "two", "one");
    EdgeReach(e, "one", "two");
    ReachTrans(e, "one", "two", "one");
  }

  /** Two children of a parallel need each other: the compiler looks for cycles at the top level only, and the execution
      graph compiles with a cycle. */
  lemma BoxedCycleCompiles(workflowId: Id)
    requires workflowId != ""
    ensures Declared(NormalizeGroupDependencies([BOX])) && Acyclic(NeedEdges(NormalizeGroupDependencies([BOX])))
    ensures AG.CompileArgoExecutionGraph(workflowId, [BOX]).Ok?
    ensures !Acyclic(AG.TaskEdges(AG.CompileArgoExecutionGraph(workflowId, [BOX]).value.tasks))
  {
    hide Declared, Acyclic, Places, Flatten, Index, AG.CompileArgoExecutionGraph, Clean, SeesNoCycle, AG.GraphOk;
    BoxAccepted();
    BoxPlaces();
    BoxIndex();
    BoxClean();
    BoxSeesItself();
    AG.ExecutableMember(Flatten([BOX]), "one");
    assert ONE in Flatten([BOX]);
    AG.CompileOutcome(workflowId, [BOX]);
    CompiledExactly(workflowId, [BOX]);
    AG.AcyclicGraphOk(workflowId, [BOX]);
  }

  // ------------------------------------------------------- a second node under the merge's id

  const W1 := Task("w1", [], Agent, "")
  const W2 := Task("w2", [], Agent, "")
  const WRITERS := Parallel("p", [], [W1, W2], "")
  const HIDER := Task("m", ["p"], Agent, "")
  const WRAP := Parallel("r", [], [HIDER], "")
  const MERGE := Task("m", ["p"], Builtin("drain-merge"), "")

  function Merging(): seq<Node>
  {
    [WRITERS, WRAP, MERGE]
  }

  predicate IsMerge(n: Node)
  {
    n.Task? && n.kind == Builtin("drain-merge")
  }

  lemma MergingAccepted()
    ensures Declared(NormalizeGroupDependencies(Merging())) && Acyclic(NeedEdges(NormalizeGroupDependencies(Merging())))
  {
    var nodes := Merging();
    assert WRITERS in nodes && WRAP in nodes && MERGE in nodes;
    assert IdSet(nodes) == {"p", "r", "m"};
    Accepted(nodes, id => if id == "p" then 0 else 1);
  }

  lemma MergingFlat()
    ensures Flatten(Merging()) == [WRITERS, W1, W2, WRAP, HIDER, MERGE]
  {
    var nodes := Merging();
    assert nodes[1..] == [WRAP, MERGE] && [WRAP, MERGE][1..] == [MERGE] && [MERGE][1..] == [];
    assert [W1, W2][1..] == [W2] && [W2][1..] == [] && [HIDER][1..] == [];
    assert Flatten([W2]) == [W2] && Flatten([W1, W2]) == [W1] + [] + [W2] && Flatten([HIDER]) == [HIDER];
    assert Flatten([MERGE]) == [MERGE] && Flatten([WRAP, MERGE]) == [WRAP] + [HIDER] + [MERGE];
    assert Flatten(nodes) == [WRITERS] + ([W1] + [] + [W2]) + ([WRAP] + [HIDER] + [MERGE]);
  }

  lemma WritersDependents()
    ensures Dependents([WRITERS, W1, W2, WRAP, HIDER, MERGE], "p") == [HIDER, MERGE]
  {
    var before := [WRITERS, W1, W2, WRAP];
    NoDependents(before, "p");
    assert HIDER.needs == ["p"] && MERGE.needs == ["p"];
    TwoDependents(before, HIDER, MERGE, "p");
    hide *;
    assert before + [HIDER] + [MERGE] == [WRITERS, W1, W2, WRAP, HIDER, MERGE];
  }

  lemma TwoDependents(before: seq<Node>, m: Node, n: Node, need: Id)
    requires Dependents(before, need) == [] && m.needs == [need] && n.needs == [need]
    ensures Dependents(before + [m] + [n], need) == [m, n]
  {
    hide *;
    NeedsOnce(m, need);
    NeedsOnce(n, need);
    DependentsAppend(before, [m], need);
    DependentsAppend(before + [m], [n], need);
  }

  lemma NeedsOnce(n: Node, need: Id)
    requires n.needs == [need]
    ensures Dependents([n], need) == [n]
  {
    OneDependent(n, need);
    assert n.needs[..0] == [] && NeedHits(n, [], need) == [];
    assert NeedHits(n, n.needs, need) == [] + [n];
  }

  lemma NoDependents(nodes: seq<Node>, id: Id)
    requires forall n | n in nodes :: id !in n.needs
    ensures Dependents(nodes, id) == []
  {
    var found := Dependents(nodes, id);
    hide Dependents;
    if found != [] {
      DependentsMembers(nodes, id, found[0]);
    }
  }

  /** The index lists the agent "m" before the merge. */
  lemma HiderFirst()
    ensures Lookup(FollowIndex(Merging()), "p") != [] && Lookup(FollowIndex(Merging()), "p")[0] == HIDER
  {
    MergingFlat();
    WritersDependents();
    FollowIndexIsFull(Merging());
    hide FollowIndex, Flatten, Containers, Dependents;
  }

  lemma MergeFollows()
    ensures FollowsEventually(Flatten(Merging()), "p", MERGE)
  {
    MergingFlat();
    hide Flatten;
    assert ReachStar(FollowEdges(Flatten(Merging())), "p", "p") && Follows(MERGE, "p");
  }

  lemma HiderExamined()
    ensures HIDER in Examined(Merging(), "p")
  {
    HiderFirst();
    var index := FollowIndex(Merging());
    hide FollowIndex;
    StartListed(index, "p");
    MetStep(index, Lookup(index, "p"), {});
  }

  /** The merge is never tested, because the agent under its id is met before. */
  lemma MergeUntested(m: Node)
    requires m in Examined(Merging(), "p")
    ensures !IsMerge(m)
  {
    HiderExamined();
    var index := FollowIndex(Merging());
    FollowIndexIsFull(Merging());
    hide FollowIndex, Tested, Flatten, Downstream, FollowsEventually;
    TestedDownstream(index, "p");
    DownstreamMeans(Merging(), index, "p", m);
    FollowerListed(Flatten(Merging()), "p", m);
    MergingFlat();
    assert HIDER.id == m.id ==> HIDER == m;
  }

  lemma FollowerListed(flat: seq<Node>, a: Id, m: Node)
    requires FollowsEventually(flat, a, m)
    ensures m in flat
  {
  }

  /** The compiler accepts the plan and a merge follows the writers, yet the check reports the writers. */
  method MergedYetReported(writes: Node -> bool) returns (issues: seq<Node>)
    requires writes(W1) && writes(W2)
    ensures Declared(NormalizeGroupDependencies(Merging())) && Acyclic(NeedEdges(NormalizeGroupDependencies(Merging())))
    ensures !Unsafe(Flatten(Merging()), WRITERS, writes, IsMerge) && WRITERS in issues
  {
    MergingAccepted();
    MergingFlat();
    MergeFollows();
    hide Declared, Acyclic, Flatten, Examined, FollowsEventually;
    assert Integrated(Flatten(Merging()), "p", IsMerge);
    var children := WRITERS.children;
    assert writes(children[0]) && writes(children[1]);
    assert TwoWrite(children, writes);
    forall m | m in Examined(Merging(), "p") ensures !IsMerge(m) {
      MergeUntested(m);
    }
    ghost var at;
    issues, at := UnsafeParallelWorktreeIssues(Merging(), writes, IsMerge);
  }

  // ------------------------------------------------------- an empty id

  const EMPTY := Task("", ["first"], Agent, "")
  const SECOND := Task("second", ["first"], Agent, "")
  const FIRST := Task("first", ["second"], Agent, "")

  function Blank(): seq<Node>
  {
    [EMPTY, SECOND, FIRST]
  }

  lemma BlankIds()
    ensures IdSet(Blank()) == {"", "second", "first"} && UniqueIds(Blank())
  {
    assert EMPTY in Blank() && SECOND in Blank() && FIRST in Blank();
  }

  /** An empty id hides needs from the finder: it reports nothing although "first" and "second" need each other.
      Nothing needs the empty id, so the sort meets the cycle and rejects the nodes with its own error. */
  lemma EmptyIdHidesCycle()
    ensures Declared(Blank()) && NoEmptyNeed(Blank())
    ensures !Acyclic(NeedEdges(Blank())) && Acyclic(SeenNeeds(Blank()))
  {
    BlankCyclic();
    BlankIds();
    hide NeedEdges, IdSet, UniqueIds;
    forall u, v | (u, v) in SeenNeeds(Blank()) ensures Step(u) < Step(v) {
      var j :| Seen(Blank(), j, u) && Blank()[j].id == v;
      assert Blank()[0].id == "" && "first" in Blank()[0].needs;
    }
    PotentialAcyclic(SeenNeeds(Blank()), id => Step(id));
  }

  lemma BlankCyclic()
    ensures !Acyclic(NeedEdges(Blank()))
  {
    var nodes := Blank();
    BlankIds();
    hide NeedEdges, IdSet;
    NeedEdge(nodes, SECOND, "first");
    NeedEdge(nodes, FIRST, "second");
    EdgeReach(NeedEdges(nodes), "first", "second");
    EdgeReach(NeedEdges(nodes), "second", "first");
    ReachTrans(NeedEdges(nodes), "first", "second", "first");
  }

  function Step(id: Id): int
  {
    if id == "second" then 0 else 1
  }

  const NAMELESS := Task("", [], Agent, "")
  const NEEDY := Task("a", [""], Agent, "")

  function Needed(): seq<Node>
  {
    [NAMELESS, NEEDY]
  }

  /** A declared, acyclic node set without any issue that the sort rejects as cyclic: a node needs the empty id. */
  lemma EmptyNeedIsRejected()
    ensures Declared(Needed()) && Acyclic(NeedEdges(Needed())) && Acyclic(SeenNeeds(Needed())) && !NoEmptyNeed(Needed())
  {
    var nodes := Needed();
    assert NAMELESS in nodes && NEEDY in nodes;
    assert IdSet(nodes) == {"", "a"};
    forall u, v | (u, v) in NeedEdges(nodes) ensures Depth(u) < Depth(v) {
    }
    PotentialAcyclic(NeedEdges(nodes), id => Depth(id));
    SeenAcyclic(nodes);
  }

  /** Both are rejected by the sort's own error, with no issue to show: the first has a cycle, the second has none. */
  method CompileEmptyIds() returns (blank: Result<Plan, PlannerError>, needed: Result<Plan, PlannerError>)
    ensures blank == Err(SortFoundCycle) && needed == Err(SortFoundCycle)
  {
    hide NoEmptyNeed, Declared, Acyclic, NeedEdges, SeenNeeds, PlanOk, Reported;
    EmptyIdHidesCycle();
    EmptyNeedIsRejected();
    assert NormalizeGroupDependencies(Blank()) == Blank() && NormalizeGroupDependencies(Needed()) == Needed();
    blank := CompileWorkflowPlan(map["w" := Blank()], "w");
    needed := CompileWorkflowPlan(map["w" := Needed()], "w");
  }

  function Depth(id: Id): int
  {
    if id == "" then 0 else 1
  }
}
