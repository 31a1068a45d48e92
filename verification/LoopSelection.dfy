/** What the loop selects under the readiness rule of tickets (src/tickets/ticket-selection.ts). */
module LoopSelection {
  import opened LoopController
  import opened Wrappers

  ghost predicate DoneIn(view: seq<Task>, id: Id)
  {
    exists t | t in view :: t.id == id && t.status == "Done"
  }

  /** The dependencies of a ticket that the graph knows; the others do not block. */
  ghost function Predecessors(graph: seq<Task>, id: Id): set<Id>
  {
    set t, d | t in graph && t.id == id && d in t.dependencies && d in TaskIds(graph) :: d
  }

  /** Still to do, all children in the view done, and all predecessors in the view and done. */
  ghost predicate ReadyIn(graph: seq<Task>, view: seq<Task>, id: Id)
  {
    && (exists t | t in view :: t.id == id && t.status == "To Do")
    && (forall c | c in view && c.parentTaskId == Some(id) :: c.status == "Done")
    && (forall d | d in Predecessors(graph, id) :: DoneIn(view, d))
  }

  ghost predicate DistinctTasks(tasks: seq<Task>)
  {
    forall i, j | 0 <= i < j < |tasks| :: tasks[i].id != tasks[j].id
  }

  /** Whatever order a strategy puts ready tickets in, it selects a ready one. */
  ghost predicate SelectsReady(env: Env)
  {
    forall g, v :: env.selectNext(g, v).Some? ==> ReadyIn(g, v, env.selectNext(g, v).value)
  }

  /** Without a root ticket every ready ticket is in scope. */
  ghost predicate SelectsAny(env: Env)
  {
    forall g, v, id :: env.selectNext(g, v).None? ==> !ReadyIn(g, v, id)
  }

  /** A ticket that is done: by its record, or because the run passed it. */
  ghost predicate Settled(graph: seq<Task>, passed: set<Id>, id: Id)
  {
    exists t | t in graph :: t.id == id && (id in passed || t.status == "Done")
  }

  /** A ticket of the graph may run: to do and not passed, all its predecessors settled, and all its children settled. */
  ghost predicate MayRun(graph: seq<Task>, passed: set<Id>, id: Id)
  {
    && (exists t | t in graph :: t.id == id && t.status == "To Do") && id !in passed
    && (forall c | c in graph && c.parentTaskId == Some(id) :: c.status == "Done" || c.id in passed)
    && (forall d | d in Predecessors(graph, id) :: Settled(graph, passed, d))
  }

  lemma OverlaidMember(graph: seq<Task>, passed: set<Id>, t: Task)
    ensures t in OverlayGraph(graph, passed) <==> exists g | g in graph :: t == Overlaid(g, passed)
  {
    var view := OverlayGraph(graph, passed);
    if t in view {
      var i :| 0 <= i < |view| && view[i] == t;
      assert graph[i] in graph;
    }
    if g :| g in graph && t == Overlaid(g, passed) {
      var i :| 0 <= i < |graph| && graph[i] == g;
      assert view[i] in view;
    }
  }

  /** In the overlay of the whole graph, ready is what may run. */
  lemma ReadyMeans(graph: seq<Task>, passed: set<Id>, id: Id)
    ensures ReadyIn(graph, OverlayGraph(graph, passed), id) <==> MayRun(graph, passed, id)
  {
    DoneMeans(graph, passed);
    ToDoMeans(graph, passed, id);
    ChildrenMean(graph, passed, id);
    hide OverlayGraph, DoneIn, Settled, Predecessors;
  }

  lemma ToDoMeans(graph: seq<Task>, passed: set<Id>, id: Id)
    ensures (exists t | t in OverlayGraph(graph, passed) :: t.id == id && t.status == "To Do") <==>
            ((exists t | t in graph :: t.id == id && t.status == "To Do") && id !in passed)
  {
    var view := OverlayGraph(graph, passed);
    hide OverlayGraph;
    if t :| t in view && t.id == id && t.status == "To Do" {
      OverlaidMember(graph, passed, t);
    }
    if t :| t in graph && t.id == id && t.status == "To Do" && id !in passed {
      OverlaidMember(graph, passed, t);
    }
  }

  lemma ChildrenMean(graph: seq<Task>, passed: set<Id>, id: Id)
    ensures (forall c | c in OverlayGraph(graph, passed) && c.parentTaskId == Some(id) :: c.status == "Done") <==>
            (forall c | c in graph && c.parentTaskId == Some(id) :: c.status == "Done" || c.id in passed)
  {
    var view := OverlayGraph(graph, passed);
    hide OverlayGraph;
    if c :| c in view && c.parentTaskId == Some(id) && c.status != "Done" {
      OverlaidMember(graph, passed, c);
    }
    if c :| c in graph && c.parentTaskId == Some(id) && c.status != "Done" && c.id !in passed {
      OverlaidMember(graph, passed, c);
    }
  }

  lemma DoneMeans(graph: seq<Task>, passed: set<Id>)
    ensures forall d :: DoneIn(OverlayGraph(graph, passed), d) <==> Settled(graph, passed, d)
  {
    forall d ensures DoneIn(OverlayGraph(graph, passed), d) <==> Settled(graph, passed, d) {
      if DoneIn(OverlayGraph(graph, passed), d) {
        var t :| t in OverlayGraph(graph, passed) && t.id == d && t.status == "Done";
        OverlaidMember(graph, passed, t);
      }
      if Settled(graph, passed, d) {
        var g :| g in graph && g.id == d && (d in passed || g.status == "Done");
        OverlaidMember(graph, passed, Overlaid(g, passed));
      }
    }
  }

  /** A view without some resolved tickets. */
  ghost predicate Reduced(full: seq<Task>, view: seq<Task>, resolved: set<Id>)
  {
    && (forall t | t in view :: t in full)
    && (forall t | t in full && t !in view :: t.id in resolved && t.status == "To Do")
  }

  /** The selection comes from the view with some resolved tickets dropped, in which it is ready. */
  lemma {:induction false} ChainReady(env: Env, graph: seq<Task>, full: seq<Task>, view: seq<Task>, passed: set<Id>,
      blocked: set<Id>) returns (last: seq<Task>)
    requires SelectsReady(env) && DistinctTasks(full) && Reduced(full, view, passed + blocked)
    ensures Reduced(full, last, passed + blocked)
    ensures var r := SelectReadyChain(env, graph, view, passed, blocked);
            && (r.Some? ==> ReadyIn(graph, last, r.value))
            && (r.None? && SelectsAny(env) ==> forall id :: !ReadyIn(graph, last, id))
    decreases |view|
  {
    hide ReadyIn, DistinctTasks;
    var selected := env.selectNext(graph, view);
    last := view;
    if selected.Some? && (selected.value in passed || selected.value in blocked) {
      var id := selected.value;
      assert ReadyIn(graph, view, id);
      StillToDo(graph, full, view, passed + blocked, id);
      last := ChainReady(env, graph, full, Without(view, id), passed, blocked);
    }
  }

  lemma StillToDo(graph: seq<Task>, full: seq<Task>, view: seq<Task>, resolved: set<Id>, id: Id)
    requires DistinctTasks(full) && Reduced(full, view, resolved) && ReadyIn(graph, view, id) && id in resolved
    ensures Reduced(full, Without(view, id), resolved) && |Without(view, id)| < |view|
  {
    var t :| t in view && t.id == id && t.status == "To Do";
    forall u | u in view && u.id == id ensures u == t {
      var i :| 0 <= i < |full| && full[i] == u;
      var j :| 0 <= j < |full| && full[j] == t;
      assert i == j;
    }
  }

  /** What is selected may run but for blocked children: its predecessors are settled, and of its children those that are
      not settled are blocked. When nothing is selected and no root ticket narrows the scope, no unresolved ticket may
      run. */
  lemma SelectedMayRun(env: Env, s: DrainState)
    requires SelectsReady(env) && env.buildGraph(s.tasks).Some? && DistinctTasks(env.buildGraph(s.tasks).value)
    ensures var graph, r := env.buildGraph(s.tasks).value, SelectReadyExcluding(env, s).value;
            && (r.Some? ==>
                  && r.value !in s.passed && r.value !in s.blocked
                  && (exists t | t in graph :: t.id == r.value && t.status == "To Do")
                  && (forall d | d in Predecessors(graph, r.value) :: Settled(graph, s.passed, d))
                  && (forall c | c in graph && c.parentTaskId == Some(r.value) ::
                        c.status == "Done" || c.id in s.passed || c.id in s.blocked))
            && (r.None? && SelectsAny(env) ==> forall id | id !in s.blocked :: !MayRun(graph, s.passed, id))
  {
    hide Predecessors, ReadyIn, Settled;
    var graph := env.buildGraph(s.tasks).value;
    var view := OverlayGraph(graph, s.passed);
    OverlaidDistinct(graph, s.passed);
    var r := SelectReadyChain(env, graph, view, s.passed, s.blocked);
    var last := ChainReady(env, graph, view, view, s.passed, s.blocked);
    if r.Some? {
      LastReady(graph, view, last, s.passed, s.blocked, r.value);
    } else if SelectsAny(env) {
      forall id | id !in s.blocked && MayRun(graph, s.passed, id) ensures ReadyIn(graph, last, id) {
        ReadyMeans(graph, s.passed, id);
        StaysReady(graph, view, last, s.passed + s.blocked, id);
      }
    }
  }

  lemma OverlaidDistinct(graph: seq<Task>, passed: set<Id>)
    requires DistinctTasks(graph)
    ensures DistinctTasks(OverlayGraph(graph, passed))
  {
  }

  lemma LastReady(graph: seq<Task>, view: seq<Task>, last: seq<Task>, passed: set<Id>, blocked: set<Id>, id: Id)
    requires view == OverlayGraph(graph, passed) && Reduced(view, last, passed + blocked) && ReadyIn(graph, last, id)
    ensures exists t | t in graph :: t.id == id && t.status == "To Do"
    ensures forall d | d in Predecessors(graph, id) :: Settled(graph, passed, d)
    ensures forall c | c in graph && c.parentTaskId == Some(id) :: c.status == "Done" || c.id in passed || c.id in blocked
  {
    hide Predecessors, OverlayGraph;
    DoneMeans(graph, passed);
    var t :| t in last && t.id == id && t.status == "To Do";
    OverlaidMember(graph, passed, t);
    forall d | d in Predecessors(graph, id) ensures Settled(graph, passed, d) {
      assert DoneIn(last, d);
    }
    forall c | c in graph && c.parentTaskId == Some(id) ensures c.status == "Done" || c.id in passed || c.id in blocked {
      OverlaidMember(graph, passed, Overlaid(c, passed));
    }
  }

  /** Dropping resolved tickets that are still to do does not stop another ticket from being ready. */
  lemma StaysReady(graph: seq<Task>, full: seq<Task>, last: seq<Task>, resolved: set<Id>, id: Id)
    requires Reduced(full, last, resolved) && ReadyIn(graph, full, id) && id !in resolved
    ensures ReadyIn(graph, last, id)
  {
    hide Predecessors;
  }

  // ---------------------------------------------------------------- a parent with a blocked child

  const PARENT := Task("parent", "To Do", None, [])
  const CHILD := Task("child", "To Do", Some("parent"), [])

  /** Nothing but the child is ready while it is in the view. */
  lemma ChildFirst(id: Id)
    ensures ReadyIn([PARENT, CHILD], [PARENT, CHILD], id) <==> id == "child"
  {
    var graph := [PARENT, CHILD];
    assert PARENT in graph && CHILD in graph;
  }

  lemma ParentAlone(id: Id)
    ensures ReadyIn([PARENT, CHILD], [PARENT], id) <==> id == "parent"
  {
    assert PARENT in [PARENT];
  }

  /** A ticket whose child is not done may not run. Yet once the child is blocked and dropped from the view the ticket is
      ready in it, so that every strategy selects it, if no root ticket narrows the scope. */
  lemma ParentOfBlockedSelected(env: Env)
    requires SelectsReady(env) && SelectsAny(env) && env.buildGraph([PARENT, CHILD]) == Some([PARENT, CHILD])
    ensures !MayRun([PARENT, CHILD], {}, "parent")
    ensures ReadyIn([PARENT, CHILD], [PARENT, CHILD], "child") && ReadyIn([PARENT, CHILD], [PARENT], "parent")
    ensures SelectReadyExcluding(env, DrainState({}, {"child"}, [PARENT, CHILD])) == Some(Some("parent"))
  {
    var graph := [PARENT, CHILD];
    assert PARENT in graph && CHILD in graph;
    assert OverlayGraph(graph, {}) == graph;
    assert graph[1..] == [CHILD] && [CHILD][1..] == [];
    assert Without([CHILD], "child") == [];
    assert Without(graph, "child") == [PARENT];
    ChildFirst("child");
    ParentAlone("parent");
    Selects(env, graph, graph, "child");
    Selects(env, graph, [PARENT], "parent");
    hide ReadyIn, SelectsReady, SelectsAny, MayRun, Without, OverlayGraph;
    assert SelectReadyChain(env, graph, [PARENT], {}, {"child"}) == Some("parent");
    assert SelectReadyChain(env, graph, graph, {}, {"child"}) == Some("parent");
  }

  /** The only ready ticket of a view is selected. */
  lemma Selects(env: Env, graph: seq<Task>, view: seq<Task>, id: Id)
    requires SelectsReady(env) && SelectsAny(env) && graph == [PARENT, CHILD]
    requires (view == graph && id == "child") || (view == [PARENT] && id == "parent")
    ensures env.selectNext(graph, view) == Some(id)
  {
    if view == graph {
      forall x ensures ReadyIn(graph, view, x) <==> x == id {
        ChildFirst(x);
      }
    } else {
      forall x ensures ReadyIn(graph, view, x) <==> x == id {
        ParentAlone(x);
      }
    }
    hide ReadyIn;
    assert ReadyIn(graph, view, id);
  }

  /** A selected ticket may run exactly when none of its unsettled children is blocked. */
  lemma SelectedMayRunExactly(env: Env, s: DrainState, id: Id)
    requires SelectsReady(env) && env.buildGraph(s.tasks).Some? && DistinctTasks(env.buildGraph(s.tasks).value)
    requires SelectReadyExcluding(env, s) == Some(Some(id))
    ensures var graph := env.buildGraph(s.tasks).value;
            MayRun(graph, s.passed, id) <==>
            !exists c | c in graph && c.parentTaskId == Some(id) ::
              c.id in s.blocked && c.id !in s.passed && c.status != "Done"
  {
    hide Predecessors, Settled;
    SelectedMayRun(env, s);
  }

  // ---------------------------------------------------------------- whole runs

  ghost predicate DistinctGraphs(env: Env)
  {
    forall tasks :: env.buildGraph(tasks).Some? ==> DistinctTasks(env.buildGraph(tasks).value)
  }

  /** A ticket may run but for its blocked children. */
  ghost predicate MayRunBut(graph: seq<Task>, passed: set<Id>, blocked: set<Id>, id: Id)
  {
    && (exists t | t in graph :: t.id == id && t.status == "To Do") && id !in passed + blocked
    && (forall c | c in graph && c.parentTaskId == Some(id) :: c.status == "Done" || c.id in passed || c.id in blocked)
    && (forall d | d in Predecessors(graph, id) :: Settled(graph, passed, d))
  }

  /** Every completed run without a root ticket resolves only tickets that may run, but for blocked children, by the graph
      of the backlog it then has, and ends where by that graph no ticket other than the blocked ones may run. */
  lemma RunEndsIdle(env: Env, initial: Option<seq<Task>>, universe: set<Id>)
    returns (segments: seq<Segment>, states: seq<DrainState>, times: seq<nat>)
    requires Honest(env) && Bounded(env, universe) && SelectsReady(env) && SelectsAny(env) && DistinctGraphs(env)
    requires initial.Some? ==> TaskIds(initial.value) <= universe
    requires RunLoopController(env, initial, universe).Completed?
    ensures initial.Some? && IsCourse(env, segments, states, times) && states[0] == DrainState({}, {}, initial.value)
    ensures RunLoopController(env, initial, universe).trace ==
            [LoopStart, GraphSnapshot] + Joined(segments)
            + [LoopFinish(|states[|segments|].passed|, |states[|segments|].blocked|)]
    ensures forall i | 0 <= i < |segments| ::
              && env.buildGraph(states[i].tasks).Some?
              && MayRunBut(env.buildGraph(states[i].tasks).value, states[i].passed, states[i].blocked, segments[i].ticketId)
    ensures var final := states[|segments|];
            && final.passed == Tickets(segments, Passed) && final.blocked == Tickets(segments, Blocked)
            && env.buildGraph(final.tasks).Some?
            && forall id | id !in final.blocked :: !MayRun(env.buildGraph(final.tasks).value, final.passed, id)
  {
    segments, states, times := RunTrace(env, initial, universe);
    hide AreSegments, Joined, Honest, Bounded, SelectsReady, SelectsAny, RunLoopController, MayRun, Tickets, MayRunBut,
      DistinctTasks;
    forall i | 0 <= i < |segments|
      ensures env.buildGraph(states[i].tasks).Some?
      ensures MayRunBut(env.buildGraph(states[i].tasks).value, states[i].passed, states[i].blocked, segments[i].ticketId)
    {
      assert Advances(env, states[i], times[i], segments[i], states[i + 1], times[i + 1]);
      SelectedBut(env, states[i], segments[i].ticketId);
    }
    FinalCounts(segments);
    SelectedMayRun(env, states[|segments|]);
  }

  lemma SelectedBut(env: Env, s: DrainState, id: Id)
    requires SelectsReady(env) && DistinctGraphs(env) && SelectReadyExcluding(env, s) == Some(Some(id))
    ensures env.buildGraph(s.tasks).Some? && MayRunBut(env.buildGraph(s.tasks).value, s.passed, s.blocked, id)
  {
    SelectedMayRun(env, s);
  }

  lemma FinalCounts(segments: seq<Segment>)
    requires forall i, j | 0 <= i < j < |segments| :: segments[i].ticketId != segments[j].ticketId
    ensures SegmentCount(segments, Passed) == |Tickets(segments, Passed)|
    ensures SegmentCount(segments, Blocked) == |Tickets(segments, Blocked)|
  {
    TicketCount(segments, Passed);
    TicketCount(segments, Blocked);
  }
}
