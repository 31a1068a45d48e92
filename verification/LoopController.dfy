/** The loop controller (src/loop/controller.ts). */
module LoopController {
  // A sequential drain over an adversarial environment.

  import opened Wrappers

  type Id = string

  datatype Phase = PhaseSucceeded | PhaseFailed | PhaseError

  datatype Signal = Merged | Fixable | InfraDown | Indeterminate

  datatype Resolution = Passed | Blocked

  datatype LoopState = StateRunning | StateMerging | StatePassed | StateBlocked

  datatype Mode = CreateNewPr | UpdateExistingPr

  datatype Task = Task(id: Id, status: string, parentTaskId: Option<Id>, dependencies: seq<Id>)

  /** What an outside observer sees: emitted events and the effects that leave a mark. */
  datatype Action =
    | LoopStart
    | GraphSnapshot
    | Transition(ticketId: Id, loopState: LoopState)
    | LoopFinish(passed: nat, blocked: nat)
    | Submit(ticketId: Id, mode: Mode)
    | Merge(ticketId: Id, classification: Signal)
    | Sleep(ticketId: Id)

  /** The injected effects. Each answers according to the number of calls made so far; `None` is a failed effect.
      Selection reads the dependencies of the whole graph and the tickets of a view of it. */
  datatype Env = Env(
    submitRun: nat -> bool,
    pollPhase: nat -> Option<Phase>,
    resolvePr: nat -> Option<bool>,
    classifyChecks: nat -> Option<Signal>,
    merge: nat -> Option<bool>,
    refreshBacklog: nat -> Option<seq<Task>>,
    buildGraph: seq<Task> -> Option<seq<Task>>,
    selectNext: (seq<Task>, seq<Task>) -> Option<Id>,
    maxMergePolls: nat,
    maxRemediationAttempts: nat)

  /** A computation that ran to completion, or was cut short by a failed effect. */
  datatype Outcome<T> = Completed(trace: seq<Action>, time: nat, value: T) | Failed(trace: seq<Action>)

  function Prefixed<T>(actions: seq<Action>, outcome: Outcome<T>): Outcome<T>
  {
    match outcome
    case Completed(trace, time, value) => Completed(actions + trace, time, value)
    case Failed(trace) => Failed(actions + trace)
  }

  function Resolved(ticketId: Id, resolution: Resolution, time: nat): Outcome<Resolution>
  {
    Completed([Transition(ticketId, if resolution.Passed? then StatePassed else StateBlocked)], time, resolution)
  }

  /** Poll the pull request until it is merged or a bound is exhausted. */
  function ResolveMerge(env: Env, ticketId: Id, polls: nat, remediations: nat, time: nat): Outcome<Resolution>
    requires polls <= env.maxMergePolls && remediations <= env.maxRemediationAttempts
    decreases env.maxMergePolls - polls + env.maxRemediationAttempts - remediations
  {
    match env.classifyChecks(time)
    case None => Failed([])
    case Some(Merged) => Resolved(ticketId, Passed, time + 1)
    case Some(Fixable) =>
      if remediations >= env.maxRemediationAttempts then Resolved(ticketId, Blocked, time + 1)
      else if !env.submitRun(time + 1) then Failed([Submit(ticketId, UpdateExistingPr)])
      else Prefixed([Submit(ticketId, UpdateExistingPr)], ResolveMerge(env, ticketId, polls, remediations + 1, time + 2))
    case Some(InfraDown) =>
      (match env.merge(time + 1)
       case None => Failed([Merge(ticketId, InfraDown)])
       case Some(merged) =>
         Prefixed([Merge(ticketId, InfraDown)], Resolved(ticketId, if merged then Passed else Blocked, time + 2)))
    case Some(Indeterminate) =>
      if polls >= env.maxMergePolls then Resolved(ticketId, Blocked, time + 1)
      else Prefixed([Sleep(ticketId)], ResolveMerge(env, ticketId, polls + 1, remediations, time + 2))
  }

  function ResolveTicket(env: Env, ticketId: Id, time: nat): Outcome<Resolution>
  {
    var opening := [Transition(ticketId, StateRunning), Submit(ticketId, CreateNewPr)];
    if !env.submitRun(time) then Failed(opening)
    else
      match env.pollPhase(time + 1)
      case None => Failed(opening)
      case Some(phase) =>
        if !phase.PhaseSucceeded? then Prefixed(opening, Resolved(ticketId, Blocked, time + 2))
        else
          match env.resolvePr(time + 2)
          case None => Failed(opening)
          case Some(found) =>
            if !found then Prefixed(opening, Resolved(ticketId, Blocked, time + 3))
            else
              var arming := opening + [Transition(ticketId, StateMerging), Merge(ticketId, Fixable)];
              match env.merge(time + 3)
              case None => Failed(arming)
              case Some(_) => Prefixed(arming, ResolveMerge(env, ticketId, 0, 0, time + 4))
  }

  // ---------------------------------------------------------------- selection

  ghost function TaskIds(tasks: seq<Task>): set<Id>
  {
    set t | t in tasks :: t.id
  }

  function Without(tasks: seq<Task>, id: Id): (r: seq<Task>)
    ensures |r| <= |tasks|
    ensures forall t :: t in r <==> t in tasks && t.id != id
    ensures (exists t | t in tasks :: t.id == id) ==> |r| < |tasks|
  {
    if tasks == [] then []
    else
      assert tasks == [tasks[0]] + tasks[1..];
      (if tasks[0].id == id then [] else [tasks[0]]) + Without(tasks[1..], id)
  }

  function Overlaid(task: Task, passed: set<Id>): Task
  {
    if task.id in passed then task.(status := "Done") else task
  }

  /** Passed tickets count as done in the view that selection reads. */
  function OverlayGraph(tasks: seq<Task>, passed: set<Id>): (r: seq<Task>)
    ensures |r| == |tasks|
    ensures forall i | 0 <= i < |tasks| :: r[i] == Overlaid(tasks[i], passed)
  {
    seq(|tasks|, i requires 0 <= i < |tasks| =>
      Overlaid(tasks[i], passed))
  }

  /** The first selected ticket that is not resolved yet, dropping resolved ones from the view. */
  function SelectReadyChain(env: Env, graph: seq<Task>, view: seq<Task>, passed: set<Id>, blocked: set<Id>)
    : (r: Option<Id>)
    ensures r.Some? ==> r.value !in passed && r.value !in blocked
    decreases |view|
  {
    match env.selectNext(graph, view)
    case None => None
    case Some(id) =>
      if id in passed || id in blocked then
        var remaining := Without(view, id);
        if |remaining| == |view| then None else SelectReadyChain(env, graph, remaining, passed, blocked)
      else Some(id)
  }

  /** A selected ticket belongs to the view, and a graph holds only tickets it was built from. */
  ghost predicate Honest(env: Env)
  {
    && (forall g, v :: env.selectNext(g, v).Some? ==> env.selectNext(g, v).value in TaskIds(v))
    && (forall v :: env.buildGraph(v).Some? ==> TaskIds(env.buildGraph(v).value) <= TaskIds(v))
  }

  lemma {:induction false} SelectedFromView(env: Env, graph: seq<Task>, view: seq<Task>, passed: set<Id>,
      blocked: set<Id>)
    requires Honest(env) && SelectReadyChain(env, graph, view, passed, blocked).Some?
    ensures SelectReadyChain(env, graph, view, passed, blocked).value in TaskIds(view)
    decreases |view|
  {
    var id := env.selectNext(graph, view).value;
    if id in passed || id in blocked {
      SelectedFromView(env, graph, Without(view, id), passed, blocked);
    }
  }

  // ---------------------------------------------------------------- the drain

  datatype DrainState = DrainState(passed: set<Id>, blocked: set<Id>, tasks: seq<Task>)

  datatype Summary = Summary(passed: nat, blocked: nat)

  /** Every backlog the run ever sees stays within a finite set of ids. */
  ghost predicate Bounded(env: Env, universe: set<Id>)
  {
    forall t :: env.refreshBacklog(t).Some? ==> TaskIds(env.refreshBacklog(t).value) <= universe
  }

  function SelectReadyExcluding(env: Env, s: DrainState): Option<Option<Id>>
  {
    match env.buildGraph(s.tasks)
    case None => None
    case Some(graph) => Some(SelectReadyChain(env, graph, OverlayGraph(graph, s.passed), s.passed, s.blocked))
  }

  lemma SelectedInUniverse(env: Env, s: DrainState, id: Id)
    requires Honest(env) && SelectReadyExcluding(env, s) == Some(Some(id))
    ensures id in TaskIds(s.tasks) && id !in s.passed && id !in s.blocked
  {
    var graph := env.buildGraph(s.tasks).value;
    var view := OverlayGraph(graph, s.passed);
    SelectedFromView(env, graph, view, s.passed, s.blocked);
    var t :| t in view && t.id == id;
    var i :| 0 <= i < |view| && view[i] == t;
    assert graph[i].id == id && graph[i] in graph;
  }

  function DrainStep(env: Env, s: DrainState, time: nat, ghost universe: set<Id>): Outcome<Summary>
    requires Honest(env) && Bounded(env, universe) && TaskIds(s.tasks) <= universe
    decreases universe - s.passed - s.blocked
  {
    match SelectReadyExcluding(env, s)
    case None => Failed([])
    case Some(None) => Completed([], time, Summary(|s.passed|, |s.blocked|))
    case Some(Some(id)) =>
      SelectedInUniverse(env, s, id);
      match ResolveTicket(env, id, time)
      case Failed(trace) => Failed(trace)
      case Completed(trace, later, resolution) =>
        assert id in universe - s.passed - s.blocked;
        if resolution.Passed? then
          match env.refreshBacklog(later)
          case None => Failed(trace)
          case Some(refreshed) =>
            Prefixed(trace, DrainStep(env, DrainState(s.passed + {id}, s.blocked, refreshed), later + 1, universe))
        else Prefixed(trace, DrainStep(env, DrainState(s.passed, s.blocked + {id}, s.tasks), later, universe))
  }

  function RunLoopController(env: Env, initial: Option<seq<Task>>, ghost universe: set<Id>): Outcome<Summary>
    requires Honest(env) && Bounded(env, universe)
    requires initial.Some? ==> TaskIds(initial.value) <= universe
  {
    if initial.None? || env.buildGraph(initial.value).None? then Failed([])
    else
      match DrainStep(env, DrainState({}, {}, initial.value), 0, universe)
      case Failed(trace) => Failed([LoopStart, GraphSnapshot] + trace)
      case Completed(trace, time, summary) =>
        Completed([LoopStart, GraphSnapshot] + trace + [LoopFinish(summary.passed, summary.blocked)], time, summary)
  }

  // ---------------------------------------------------------------- segments of the trace

  function Count(trace: seq<Action>, a: Action): nat
  {
    multiset(trace)[a]
  }

  function Transitions(trace: seq<Action>): seq<LoopState>
  {
    if trace == [] then []
    else
      Transitions(trace[..|trace| - 1])
      + if trace[|trace| - 1].Transition? then [trace[|trace| - 1].loopState] else []
  }

  lemma {:induction false} TransitionsAppend(a: seq<Action>, b: seq<Action>)
    ensures Transitions(a + b) == Transitions(a) + Transitions(b)
    decreases |b|
  {
    if b == [] {
      assert a + b == a;
    } else {
      assert (a + b)[..|a + b| - 1] == a + b[..|b| - 1];
      TransitionsAppend(a, b[..|b| - 1]);
    }
  }

  /** Every action concerns the ticket; no start, snapshot or finish. */
  ghost predicate About(trace: seq<Action>, ticketId: Id)
  {
    forall a | a in trace :: (a.Transition? || a.Submit? || a.Merge? || a.Sleep?) && a.ticketId == ticketId
  }

  /** One ticket's stretch of the trace. */
  ghost predicate IsSegment(env: Env, trace: seq<Action>, ticketId: Id, resolution: Resolution)
  {
    && About(trace, ticketId)
    && Transitions(trace) in
         (if resolution.Passed? then {[StateRunning, StateMerging, StatePassed]}
          else {[StateRunning, StateBlocked], [StateRunning, StateMerging, StateBlocked]})
    && Count(trace, Submit(ticketId, CreateNewPr)) == 1
    && Count(trace, Submit(ticketId, UpdateExistingPr)) <= env.maxRemediationAttempts
    && Count(trace, Sleep(ticketId)) <= env.maxMergePolls
    && Count(trace, Merge(ticketId, InfraDown)) <= 1
    && Count(trace, Merge(ticketId, Fixable)) <= 1
  }

  /** The merge-resolution part: bounded effects, then exactly one terminal transition. */
  ghost predicate IsMergePart(env: Env, trace: seq<Action>, ticketId: Id, resolution: Resolution, polls: nat,
      remediations: nat)
  {
    && About(trace, ticketId)
    && Transitions(trace) == [if resolution.Passed? then StatePassed else StateBlocked]
    && Count(trace, Submit(ticketId, CreateNewPr)) == 0
    && Count(trace, Submit(ticketId, UpdateExistingPr)) + remediations <= env.maxRemediationAttempts
    && Count(trace, Sleep(ticketId)) + polls <= env.maxMergePolls
    && Count(trace, Merge(ticketId, InfraDown)) <= 1
    && Count(trace, Merge(ticketId, Fixable)) == 0
  }

  lemma TerminalPart(env: Env, ticketId: Id, resolution: Resolution, time: nat, polls: nat, remediations: nat)
    requires polls <= env.maxMergePolls && remediations <= env.maxRemediationAttempts
    ensures IsMergePart(env, Resolved(ticketId, resolution, time).trace, ticketId, resolution, polls, remediations)
    ensures Count(Resolved(ticketId, resolution, time).trace, Merge(ticketId, InfraDown)) == 0
  {
    var trace := Resolved(ticketId, resolution, time).trace;
    assert trace[..0] == [];
  }

  lemma PrefixPart(a: Action, trace: seq<Action>)
    ensures Transitions([a] + trace) == (if a.Transition? then [a.loopState] else []) + Transitions(trace)
    ensures forall x :: Count([a] + trace, x) == Count(trace, x) + if x == a then 1 else 0
  {
    TransitionsAppend([a], trace);
    assert [a][..0] == [];
  }

  /** An update submit, a sleep or a last merge in front of a merge part, each charged to its own bound. */
  lemma ExtendPart(env: Env, a: Action, trace: seq<Action>, ticketId: Id, resolution: Resolution, polls: nat,
      remediations: nat)
    requires a in {Submit(ticketId, UpdateExistingPr), Sleep(ticketId), Merge(ticketId, InfraDown)}
    requires IsMergePart(env, trace, ticketId, resolution,
                         if a.Sleep? then polls + 1 else polls, if a.Submit? then remediations + 1 else remediations)
    requires a.Merge? ==> Count(trace, Merge(ticketId, InfraDown)) == 0
    ensures IsMergePart(env, [a] + trace, ticketId, resolution, polls, remediations)
  {
    hide Count, Transitions;
    PrefixPart(a, trace);
    assert [] + Transitions(trace) == Transitions(trace);
  }

  lemma {:induction false} MergePart(env: Env, ticketId: Id, polls: nat, remediations: nat, time: nat)
    requires polls <= env.maxMergePolls && remediations <= env.maxRemediationAttempts
    requires ResolveMerge(env, ticketId, polls, remediations, time).Completed?
    ensures var r := ResolveMerge(env, ticketId, polls, remediations, time);
            IsMergePart(env, r.trace, ticketId, r.value, polls, remediations)
    decreases env.maxMergePolls - polls + env.maxRemediationAttempts - remediations
  {
    hide IsMergePart, Count;
    match env.classifyChecks(time).value
    case Merged => TerminalPart(env, ticketId, Passed, time + 1, polls, remediations);
    case Fixable =>
      if remediations >= env.maxRemediationAttempts {
        TerminalPart(env, ticketId, Blocked, time + 1, polls, remediations);
      } else {
        var rest := ResolveMerge(env, ticketId, polls, remediations + 1, time + 2);
        MergePart(env, ticketId, polls, remediations + 1, time + 2);
        ExtendPart(env, Submit(ticketId, UpdateExistingPr), rest.trace, ticketId, rest.value, polls, remediations);
      }
    case InfraDown =>
      var resolution := if env.merge(time + 1).value then Passed else Blocked;
      TerminalPart(env, ticketId, resolution, time + 2, polls, remediations);
      ExtendPart(env, Merge(ticketId, InfraDown), Resolved(ticketId, resolution, time + 2).trace, ticketId, resolution,
          polls, remediations);
    case Indeterminate =>
      if polls >= env.maxMergePolls {
        TerminalPart(env, ticketId, Blocked, time + 1, polls, remediations);
      } else {
        var rest := ResolveMerge(env, ticketId, polls + 1, remediations, time + 2);
        MergePart(env, ticketId, polls + 1, remediations, time + 2);
        ExtendPart(env, Sleep(ticketId), rest.trace, ticketId, rest.value, polls, remediations);
      }
  }

  lemma OpeningPart(env: Env, ticketId: Id, time: nat)
    ensures IsSegment(env, [Transition(ticketId, StateRunning), Submit(ticketId, CreateNewPr)]
                           + Resolved(ticketId, Blocked, time).trace, ticketId, Blocked)
  {
    hide IsMergePart, Count, Transitions;
    var last := Resolved(ticketId, Blocked, time).trace;
    TerminalPart(env, ticketId, Blocked, time, 0, 0);
    MergePartCounts(env, last, ticketId, Blocked);
    var one := [Submit(ticketId, CreateNewPr)] + last;
    PrefixPart(Submit(ticketId, CreateNewPr), last);
    PrefixPart(Transition(ticketId, StateRunning), one);
    assert [Transition(ticketId, StateRunning), Submit(ticketId, CreateNewPr)] + last ==
           [Transition(ticketId, StateRunning)] + one;
    assert [StateRunning] + ([] + [StateBlocked]) == [StateRunning, StateBlocked];
    assert Transitions(one) == [StateBlocked];
  }

  lemma MergePartCounts(env: Env, trace: seq<Action>, ticketId: Id, resolution: Resolution)
    requires IsMergePart(env, trace, ticketId, resolution, 0, 0)
    ensures About(trace, ticketId) && Transitions(trace) == [if resolution.Passed? then StatePassed else StateBlocked]
    ensures Count(trace, Submit(ticketId, CreateNewPr)) == 0
    ensures Count(trace, Submit(ticketId, UpdateExistingPr)) <= env.maxRemediationAttempts
    ensures Count(trace, Sleep(ticketId)) <= env.maxMergePolls
    ensures Count(trace, Merge(ticketId, InfraDown)) <= 1 && Count(trace, Merge(ticketId, Fixable)) == 0
  {
  }

  lemma ArmedPart(env: Env, trace: seq<Action>, ticketId: Id, resolution: Resolution)
    requires IsMergePart(env, trace, ticketId, resolution, 0, 0)
    ensures IsSegment(env, [Transition(ticketId, StateRunning), Submit(ticketId, CreateNewPr)]
                           + [Transition(ticketId, StateMerging), Merge(ticketId, Fixable)] + trace, ticketId, resolution)
  {
    hide IsMergePart, Count, Transitions;
    MergePartCounts(env, trace, ticketId, resolution);
    var t1 := [Merge(ticketId, Fixable)] + trace;
    var t2 := [Transition(ticketId, StateMerging)] + t1;
    var t3 := [Submit(ticketId, CreateNewPr)] + t2;
    PrefixPart(Merge(ticketId, Fixable), trace);
    PrefixPart(Transition(ticketId, StateMerging), t1);
    PrefixPart(Submit(ticketId, CreateNewPr), t2);
    PrefixPart(Transition(ticketId, StateRunning), t3);
    assert [Transition(ticketId, StateRunning), Submit(ticketId, CreateNewPr)]
           + [Transition(ticketId, StateMerging), Merge(ticketId, Fixable)] + trace ==
           [Transition(ticketId, StateRunning)] + t3;
    var terminal := if resolution.Passed? then StatePassed else StateBlocked;
    assert Transitions(t1) == [terminal] && Transitions(t2) == [StateMerging, terminal]
        && Transitions(t3) == [StateMerging, terminal];
    assert [StateRunning] + [StateMerging, terminal] == [StateRunning, StateMerging, terminal];
  }

  /** Every resolved ticket leaves one well-formed segment. */
  lemma TicketSegment(env: Env, ticketId: Id, time: nat)
    requires ResolveTicket(env, ticketId, time).Completed?
    ensures IsSegment(env, ResolveTicket(env, ticketId, time).trace, ticketId, ResolveTicket(env, ticketId, time).value)
  {
    hide IsSegment;
    var phase := env.pollPhase(time + 1).value;
    if !phase.PhaseSucceeded? {
      OpeningPart(env, ticketId, time + 2);
    } else if !env.resolvePr(time + 2).value {
      OpeningPart(env, ticketId, time + 3);
    } else {
      MergePart(env, ticketId, 0, 0, time + 4);
      var rest := ResolveMerge(env, ticketId, 0, 0, time + 4);
      ArmedPart(env, rest.trace, ticketId, rest.value);
    }
  }

  /** The `j`th look at the pull request found it merged, or found the checks down and an admin merge landed it. */
  ghost predicate LandedAt(env: Env, time: nat, j: nat)
  {
    || env.classifyChecks(time + 2 * j) == Some(Merged)
    || (env.classifyChecks(time + 2 * j) == Some(InfraDown) && env.merge(time + 2 * j + 1) == Some(true))
  }

  ghost predicate Landed(env: Env, time: nat, end: nat)
  {
    exists j: nat :: time + 2 * j < end && LandedAt(env, time, j)
  }

  /** A pull request counts as passed exactly when it was seen merged: never on an indeterminate or failed state. */
  lemma {:induction false} PassedIsLanded(env: Env, ticketId: Id, polls: nat, remediations: nat, time: nat)
    requires polls <= env.maxMergePolls && remediations <= env.maxRemediationAttempts
    requires ResolveMerge(env, ticketId, polls, remediations, time).Completed?
    ensures var r := ResolveMerge(env, ticketId, polls, remediations, time);
            r.time > time && (r.value.Passed? <==> Landed(env, time, r.time))
    decreases env.maxMergePolls - polls + env.maxRemediationAttempts - remediations
  {
    var r, signal := ResolveMerge(env, ticketId, polls, remediations, time), env.classifyChecks(time).value;
    if signal.Fixable? && remediations < env.maxRemediationAttempts {
      PassedIsLanded(env, ticketId, polls, remediations + 1, time + 2);
      LandedLater(env, time, r.time);
    } else if signal.Indeterminate? && polls < env.maxMergePolls {
      PassedIsLanded(env, ticketId, polls + 1, remediations, time + 2);
      LandedLater(env, time, r.time);
    } else {
      assert r.value.Passed? <==> LandedAt(env, time, 0);
    }
  }

  lemma LandedLater(env: Env, time: nat, end: nat)
    requires !LandedAt(env, time, 0)
    ensures Landed(env, time + 2, end) <==> Landed(env, time, end)
  {
    if Landed(env, time + 2, end) {
      var j: nat :| time + 2 + 2 * j < end && LandedAt(env, time + 2, j);
      assert time + 2 * (j + 1) == time + 2 + 2 * j;
      assert LandedAt(env, time, j + 1);
    }
    if Landed(env, time, end) {
      var j: nat :| time + 2 * j < end && LandedAt(env, time, j);
      assert j > 0 && time + 2 * j == time + 2 + 2 * (j - 1);
      assert LandedAt(env, time + 2, j - 1);
    }
  }

  /** A ticket passes exactly when its run succeeded, left a pull request, and that was seen merged. */
  lemma TicketPasses(env: Env, ticketId: Id, time: nat)
    requires ResolveTicket(env, ticketId, time).Completed?
    ensures var r := ResolveTicket(env, ticketId, time);
            r.value.Passed? <==>
            && env.pollPhase(time + 1) == Some(PhaseSucceeded)
            && env.resolvePr(time + 2) == Some(true)
            && Landed(env, time + 4, r.time)
  {
    if env.pollPhase(time + 1) == Some(PhaseSucceeded) && env.resolvePr(time + 2) == Some(true) {
      PassedIsLanded(env, ticketId, 0, 0, time + 4);
    }
  }

  // ---------------------------------------------------------------- what decides a pull request

  /** The number of fixable looks before look `k`; look `j` is made at time + 2 * j. */
  function Fixes(env: Env, time: nat, k: nat): (n: nat)
    ensures n <= k
  {
    if k == 0 then 0
    else Fixes(env, time, k - 1) + if env.classifyChecks(time + 2 * (k - 1)) == Some(Fixable) then 1 else 0
  }

  /** Look `j` decides nothing: checks that can be fixed, with a remediation left that starts, or an unclear state, with a
      poll left. */
  ghost predicate GoesOn(env: Env, polls: nat, remediations: nat, time: nat, j: nat)
  {
    || (env.classifyChecks(time + 2 * j) == Some(Fixable)
        && remediations + Fixes(env, time, j) < env.maxRemediationAttempts && env.submitRun(time + 2 * j + 1))
    || (env.classifyChecks(time + 2 * j) == Some(Indeterminate) && polls + (j - Fixes(env, time, j)) < env.maxMergePolls)
  }

  /** Look `k` is the first that decides. */
  ghost predicate DecidesAt(env: Env, polls: nat, remediations: nat, time: nat, k: nat)
  {
    !GoesOn(env, polls, remediations, time, k) && forall j | 0 <= j < k :: GoesOn(env, polls, remediations, time, j)
  }

  /** What the first `k` looks do: one update for each fixable one, one pause for each other. */
  function LookActions(env: Env, ticketId: Id, time: nat, k: nat): (r: seq<Action>)
    ensures |r| == k
    ensures forall j | 0 <= j < k ::
              r[j] == if env.classifyChecks(time + 2 * j) == Some(Fixable) then Submit(ticketId, UpdateExistingPr)
                      else Sleep(ticketId)
  {
    seq(k, j requires 0 <= j < k =>
      if env.classifyChecks(time + 2 * j) == Some(Fixable) then Submit(ticketId, UpdateExistingPr) else Sleep(ticketId))
  }

  ghost predicate Spent(env: Env, polls: nat, remediations: nat, time: nat, k: nat)
  {
    || (env.classifyChecks(time + 2 * k) == Some(Fixable)
        && remediations + Fixes(env, time, k) >= env.maxRemediationAttempts)
    || (env.classifyChecks(time + 2 * k) == Some(Indeterminate) && polls + (k - Fixes(env, time, k)) >= env.maxMergePolls)
  }

  ghost predicate Interrupted(env: Env, time: nat, k: nat)
  {
    || env.classifyChecks(time + 2 * k) == None
    || (env.classifyChecks(time + 2 * k) == Some(InfraDown) && env.merge(time + 2 * k + 1) == None)
    || (env.classifyChecks(time + 2 * k) == Some(Fixable) && !env.submitRun(time + 2 * k + 1))
  }

  /** How the deciding look ends the merge: landed, out of attempts, refused by an admin merge, or cut short. */
  ghost predicate Verdict(env: Env, ticketId: Id, polls: nat, remediations: nat, time: nat, k: nat, r: Outcome<Resolution>)
  {
    var look, before := env.classifyChecks(time + 2 * k), LookActions(env, ticketId, time, k);
    var tried := if look == Some(InfraDown) then [Merge(ticketId, InfraDown)] else [];
    if Spent(env, polls, remediations, time, k) then
      r == Completed(before + [Transition(ticketId, StateBlocked)], time + 2 * k + 1, Blocked)
    else if Interrupted(env, time, k) then
      r == Failed(before + (if look == Some(Fixable) then [Submit(ticketId, UpdateExistingPr)] else tried))
    else if LandedAt(env, time, k) then
      r == Completed(before + tried + [Transition(ticketId, StatePassed)], time + 2 * k + 1 + |tried|, Passed)
    else
      r == Completed(before + [Merge(ticketId, InfraDown), Transition(ticketId, StateBlocked)], time + 2 * k + 2, Blocked)
  }

  /** The merge loop is decided by the first look that does not go on, and leaves exactly what the looks before it do. */
  lemma {:induction false} MergeDecided(env: Env, ticketId: Id, polls: nat, remediations: nat, time: nat) returns (k: nat)
    requires polls <= env.maxMergePolls && remediations <= env.maxRemediationAttempts
    ensures DecidesAt(env, polls, remediations, time, k)
    ensures Verdict(env, ticketId, polls, remediations, time, k, ResolveMerge(env, ticketId, polls, remediations, time))
    decreases env.maxMergePolls - polls + env.maxRemediationAttempts - remediations
  {
    if !GoesOn(env, polls, remediations, time, 0) {
      k := 0;
      VerdictNow(env, ticketId, polls, remediations, time);
    } else {
      var fixable := env.classifyChecks(time) == Some(Fixable);
      var p, m := if fixable then polls else polls + 1, if fixable then remediations + 1 else remediations;
      MergeGoesOn(env, ticketId, polls, remediations, time);
      hide GoesOn, ResolveMerge, Verdict;
      var later := MergeDecided(env, ticketId, p, m, time + 2);
      k := later + 1;
      DecidesLater(env, polls, remediations, time, later);
      VerdictLater(env, ticketId, polls, remediations, time, later, ResolveMerge(env, ticketId, p, m, time + 2));
    }
  }

  lemma VerdictNow(env: Env, ticketId: Id, polls: nat, remediations: nat, time: nat)
    requires polls <= env.maxMergePolls && remediations <= env.maxRemediationAttempts
    requires !GoesOn(env, polls, remediations, time, 0)
    ensures Verdict(env, ticketId, polls, remediations, time, 0, ResolveMerge(env, ticketId, polls, remediations, time))
  {
    assert Fixes(env, time, 0) == 0 && LookActions(env, ticketId, time, 0) == [];
  }

  lemma MergeGoesOn(env: Env, ticketId: Id, polls: nat, remediations: nat, time: nat)
    requires polls <= env.maxMergePolls && remediations <= env.maxRemediationAttempts
    requires GoesOn(env, polls, remediations, time, 0)
    ensures var fixable := env.classifyChecks(time) == Some(Fixable);
            var p, m := if fixable then polls else polls + 1, if fixable then remediations + 1 else remediations;
            && p <= env.maxMergePolls && m <= env.maxRemediationAttempts
            && env.maxMergePolls - p + env.maxRemediationAttempts - m <
               env.maxMergePolls - polls + env.maxRemediationAttempts - remediations
            && ResolveMerge(env, ticketId, polls, remediations, time) ==
               Prefixed([if fixable then Submit(ticketId, UpdateExistingPr) else Sleep(ticketId)],
                 ResolveMerge(env, ticketId, p, m, time + 2))
  {
    assert Fixes(env, time, 0) == 0;
  }

  lemma DecidesLater(env: Env, polls: nat, remediations: nat, time: nat, k: nat)
    requires GoesOn(env, polls, remediations, time, 0)
    requires var fixable := env.classifyChecks(time) == Some(Fixable);
             DecidesAt(env, if fixable then polls else polls + 1, if fixable then remediations + 1 else remediations,
               time + 2, k)
    ensures DecidesAt(env, polls, remediations, time, k + 1)
  {
    var fixable := env.classifyChecks(time) == Some(Fixable);
    var p, m := if fixable then polls else polls + 1, if fixable then remediations + 1 else remediations;
    assert fixable || env.classifyChecks(time) == Some(Indeterminate);
    forall j | 1 <= j <= k + 1 ensures GoesOn(env, polls, remediations, time, j) <==> GoesOn(env, p, m, time + 2, j - 1) {
      FixesLater(env, time, j - 1);
      assert time + 2 * j == time + 2 + 2 * (j - 1);
    }
    hide GoesOn;
  }

  lemma {:induction false} FixesLater(env: Env, time: nat, k: nat)
    ensures Fixes(env, time, k + 1) ==
            Fixes(env, time + 2, k) + if env.classifyChecks(time) == Some(Fixable) then 1 else 0
    decreases k
  {
    if k > 0 {
      FixesLater(env, time, k - 1);
      assert time + 2 + 2 * (k - 1) == time + 2 * k;
    } else {
      assert Fixes(env, time, 0) == 0;
    }
  }

  lemma LookFirst(env: Env, ticketId: Id, time: nat, k: nat)
    ensures LookActions(env, ticketId, time, k + 1) ==
            [if env.classifyChecks(time) == Some(Fixable) then Submit(ticketId, UpdateExistingPr) else Sleep(ticketId)]
            + LookActions(env, ticketId, time + 2, k)
  {
    var a, b := LookActions(env, ticketId, time, k + 1), LookActions(env, ticketId, time + 2, k);
    forall j | 0 <= j < k ensures a[j + 1] == b[j] {
      assert time + 2 * (j + 1) == time + 2 + 2 * j;
    }
  }

  lemma VerdictLater(env: Env, ticketId: Id, polls: nat, remediations: nat, time: nat, k: nat, r: Outcome<Resolution>)
    requires GoesOn(env, polls, remediations, time, 0)
    requires var fixable := env.classifyChecks(time) == Some(Fixable);
             Verdict(env, ticketId, if fixable then polls else polls + 1, if fixable then remediations + 1 else remediations,
               time + 2, k, r)
    ensures var first := if env.classifyChecks(time) == Some(Fixable) then Submit(ticketId, UpdateExistingPr)
                         else Sleep(ticketId);
            Verdict(env, ticketId, polls, remediations, time, k + 1, Prefixed([first], r))
  {
    FixesLater(env, time, k);
    LookFirst(env, ticketId, time, k);
    assert time + 2 * (k + 1) == time + 2 + 2 * k;
    hide Fixes, LookActions;
  }

  /** A ticket's course, case by case: how far it gets and what it leaves. */
  lemma TicketCourse(env: Env, ticketId: Id, time: nat)
    ensures var r := ResolveTicket(env, ticketId, time);
            var opening := [Transition(ticketId, StateRunning), Submit(ticketId, CreateNewPr)];
            var blocked := opening + [Transition(ticketId, StateBlocked)];
            && (!env.submitRun(time) || env.pollPhase(time + 1) == None ==> r == Failed(opening))
            && (env.submitRun(time) ==>
                  match env.pollPhase(time + 1)
                  case None => true
                  case Some(PhaseFailed) => r == Completed(blocked, time + 2, Blocked)
                  case Some(PhaseError) => r == Completed(blocked, time + 2, Blocked)
                  case Some(PhaseSucceeded) =>
                    && (env.resolvePr(time + 2) == None ==> r == Failed(opening))
                    && (env.resolvePr(time + 2) == Some(false) ==> r == Completed(blocked, time + 3, Blocked))
                    && (env.resolvePr(time + 2) == Some(true) ==>
                          var armed := opening + [Transition(ticketId, StateMerging), Merge(ticketId, Fixable)];
                          if env.merge(time + 3) == None then r == Failed(armed)
                          else Follows(armed, ResolveMerge(env, ticketId, 0, 0, time + 4), r)))
  {
  }

  /** `r` is `rest` after the given actions. */
  ghost predicate Follows<T>(actions: seq<Action>, rest: Outcome<T>, r: Outcome<T>)
  {
    && r.Completed? == rest.Completed? && r.trace == actions + rest.trace
    && (r.Completed? ==> r.time == rest.time && r.value == rest.value)
  }

  // ---------------------------------------------------------------- whole runs

  datatype Segment = Segment(ticketId: Id, resolution: Resolution, actions: seq<Action>)

  function Joined(segments: seq<Segment>): seq<Action>
  {
    if segments == [] then [] else segments[0].actions + Joined(segments[1..])
  }

  ghost function Tickets(segments: seq<Segment>, resolution: Resolution): set<Id>
  {
    set s | s in segments && s.resolution == resolution :: s.ticketId
  }

  /** Well-formed segments of pairwise different tickets, none of them resolved before. */
  ghost predicate AreSegments(env: Env, segments: seq<Segment>, resolved: set<Id>)
  {
    && (forall s | s in segments :: IsSegment(env, s.actions, s.ticketId, s.resolution) && s.ticketId !in resolved)
    && (forall i, j | 0 <= i < j < |segments| :: segments[i].ticketId != segments[j].ticketId)
  }

  /** One ticket of a drain: it was selected in `s`, resolved from `time` on, and left the next state, with a refreshed
      backlog if it passed. */
  ghost predicate Advances(env: Env, s: DrainState, time: nat, x: Segment, next: DrainState, later: nat)
  {
    && SelectReadyExcluding(env, s) == Some(Some(x.ticketId))
    && var r := ResolveTicket(env, x.ticketId, time);
    && r.Completed? && r.trace == x.actions && r.value == x.resolution
    && if x.resolution.Passed? then
         && env.refreshBacklog(r.time) == Some(next.tasks) && later == r.time + 1
         && next.passed == s.passed + {x.ticketId} && next.blocked == s.blocked
       else next == DrainState(s.passed, s.blocked + {x.ticketId}, s.tasks) && later == r.time
  }

  /** The states and times between the tickets of a drain. */
  ghost predicate IsCourse(env: Env, segments: seq<Segment>, states: seq<DrainState>, times: seq<nat>)
  {
    && |states| == |times| == |segments| + 1
    && forall i | 0 <= i < |segments| :: Advances(env, states[i], times[i], segments[i], states[i + 1], times[i + 1])
  }

  /** Why a drain is cut short in `s`, and what its last ticket left: no graph, a failed effect of the ticket, or no
      refreshed backlog after it passed. */
  ghost predicate CutShort(env: Env, s: DrainState, time: nat, actions: seq<Action>)
  {
    var selected := SelectReadyExcluding(env, s);
    || (selected.None? && actions == [])
    || (selected.Some? && selected.value.Some? &&
        var r := ResolveTicket(env, selected.value.value, time);
        r.trace == actions && (r.Completed? ==> r.value.Passed? && env.refreshBacklog(r.time).None?))
  }

  /** A course of tickets from `s` on, and how the drain ends: where nothing can be selected, or cut short. */
  ghost predicate DrainsTo(env: Env, s: DrainState, time: nat, drain: Outcome<Summary>, segments: seq<Segment>,
      states: seq<DrainState>, times: seq<nat>, rest: seq<Action>)
  {
    && IsCourse(env, segments, states, times) && states[0] == s && times[0] == time
    && drain.trace == Joined(segments) + rest
    && EndsIn(env, drain, states[|segments|], times[|segments|], rest)
  }

  ghost predicate EndsIn(env: Env, drain: Outcome<Summary>, final: DrainState, time: nat, rest: seq<Action>)
  {
    match drain
    case Completed(_, end, summary) =>
      && SelectReadyExcluding(env, final) == Some(None) && rest == [] && end == time
      && summary.passed == |final.passed| && summary.blocked == |final.blocked|
    case Failed(_) => CutShort(env, final, time, rest)
  }

  /** A drain goes on, ticket by ticket, until nothing can be selected or an effect fails; a completed one ends in a state
      in which nothing can be selected. Its tickets are different and unresolved before, and its summary counts the
      passed and blocked ones of the final state. */
  lemma {:induction false} DrainSegments(env: Env, s: DrainState, time: nat, universe: set<Id>)
    returns (segments: seq<Segment>, states: seq<DrainState>, times: seq<nat>, rest: seq<Action>)
    requires Honest(env) && Bounded(env, universe) && TaskIds(s.tasks) <= universe && s.passed !! s.blocked
    ensures DrainsTo(env, s, time, DrainStep(env, s, time, universe), segments, states, times, rest)
    ensures |states| == |times| == |segments| + 1
    ensures AreSegments(env, segments, s.passed + s.blocked)
    ensures forall x | x in segments :: x.ticketId in universe
    ensures states[|segments|].passed == s.passed + Tickets(segments, Passed)
    ensures states[|segments|].blocked == s.blocked + Tickets(segments, Blocked)
    decreases universe - s.passed - s.blocked
  {
    hide AreSegments, Tickets, Joined, Honest, Bounded, SelectReadyExcluding, ResolveTicket, IsCourse, EndsIn, Advances;
    if GoesFurther(env, s, time) {
      var id := SelectReadyExcluding(env, s).value.value;
      SelectedInUniverse(env, s, id);
      var ticket := ResolveTicket(env, id, time);
      TicketSegment(env, id, time);
      var first := Segment(id, ticket.value, ticket.trace);
      var next, later := AfterTicket(env, s, id, ticket.value, ticket.time, universe);
      assert id in universe - s.passed - s.blocked;
      DrainFurther(env, s, time, universe, next, later);
      hide DrainStep, DrainsTo, GoesFurther;
      var more, nexts, laters, end := DrainSegments(env, next, later, universe);
      PrependSegment(env, s, next, first, more);
      DrainPrepended(env, s, time, DrainStep(env, s, time, universe), first, next, later,
        DrainStep(env, next, later, universe), more, nexts, laters, end);
      segments, states, times, rest := [first] + more, [s] + nexts, [time] + laters, end;
      assert states[|segments|] == nexts[|more|];
    } else {
      segments, states, times := [], [s], [time];
      rest := DrainStep(env, s, time, universe).trace;
      NoSegments(env, s);
      DrainStops(env, s, time, universe);
      NoCourse(env, s, time);
      assert [] + rest == rest;
    }
  }

  lemma DrainPrepended(env: Env, s: DrainState, time: nat, drain: Outcome<Summary>, first: Segment, next: DrainState,
      later: nat, tail: Outcome<Summary>, more: seq<Segment>, nexts: seq<DrainState>, laters: seq<nat>, rest: seq<Action>)
    requires DrainsTo(env, next, later, tail, more, nexts, laters, rest) && drain == Prefixed(first.actions, tail)
    requires Advances(env, s, time, first, next, later)
    requires Joined([first] + more) == first.actions + Joined(more)
    ensures DrainsTo(env, s, time, drain, [first] + more, [s] + nexts, [time] + laters, rest)
  {
    hide Advances, Joined, EndsIn;
    CoursePrepended(env, s, time, first, more, nexts, laters);
    EndKept(env, first.actions, drain, tail, nexts[|more|], laters[|more|], rest);
    assert first.actions + (Joined(more) + rest) == (first.actions + Joined(more)) + rest;
  }

  /** A ticket can be selected and resolved, and the backlog read again if it passes. */
  ghost predicate GoesFurther(env: Env, s: DrainState, time: nat)
  {
    var selected := SelectReadyExcluding(env, s);
    && selected.Some? && selected.value.Some?
    && var r := ResolveTicket(env, selected.value.value, time);
    r.Completed? && (r.value.Passed? ==> env.refreshBacklog(r.time).Some?)
  }

  lemma NoCourse(env: Env, s: DrainState, time: nat)
    ensures IsCourse(env, [], [s], [time])
  {
  }

  lemma DrainStops(env: Env, s: DrainState, time: nat, universe: set<Id>)
    requires Honest(env) && Bounded(env, universe) && TaskIds(s.tasks) <= universe && !GoesFurther(env, s, time)
    ensures EndsIn(env, DrainStep(env, s, time, universe), s, time, DrainStep(env, s, time, universe).trace)
  {
    hide Honest, Bounded, SelectReadyExcluding, ResolveTicket;
  }

  lemma DrainFurther(env: Env, s: DrainState, time: nat, universe: set<Id>, next: DrainState, later: nat)
    requires Honest(env) && Bounded(env, universe) && TaskIds(s.tasks) <= universe && GoesFurther(env, s, time)
    requires TaskIds(next.tasks) <= universe
    requires var id := SelectReadyExcluding(env, s).value.value; var ticket := ResolveTicket(env, id, time);
             && next.passed == (if ticket.value.Passed? then s.passed + {id} else s.passed)
             && next.blocked == (if ticket.value.Passed? then s.blocked else s.blocked + {id})
             && next.tasks == (if ticket.value.Passed? then env.refreshBacklog(ticket.time).value else s.tasks)
             && later == if ticket.value.Passed? then ticket.time + 1 else ticket.time
    ensures var id := SelectReadyExcluding(env, s).value.value; var ticket := ResolveTicket(env, id, time);
            && DrainStep(env, s, time, universe) == Prefixed(ticket.trace, DrainStep(env, next, later, universe))
            && Advances(env, s, time, Segment(id, ticket.value, ticket.trace), next, later)
  {
    hide Honest, Bounded, SelectReadyExcluding, ResolveTicket;
    assert next == DrainState(next.passed, next.blocked, next.tasks);
  }

  lemma EndKept(env: Env, actions: seq<Action>, drain: Outcome<Summary>, tail: Outcome<Summary>, final: DrainState,
      time: nat, rest: seq<Action>)
    requires EndsIn(env, tail, final, time, rest) && drain == Prefixed(actions, tail)
    ensures EndsIn(env, drain, final, time, rest)
  {
    hide SelectReadyExcluding, CutShort;
  }

  lemma CoursePrepended(env: Env, s: DrainState, time: nat, first: Segment, more: seq<Segment>, nexts: seq<DrainState>,
      laters: seq<nat>)
    requires IsCourse(env, more, nexts, laters) && Advances(env, s, time, first, nexts[0], laters[0])
    ensures IsCourse(env, [first] + more, [s] + nexts, [time] + laters)
  {
    hide Advances;
    var segments, states, times := [first] + more, [s] + nexts, [time] + laters;
    forall i | 0 <= i < |segments| ensures Advances(env, states[i], times[i], segments[i], states[i + 1], times[i + 1]) {
      if i > 0 {
        assert Advances(env, nexts[i - 1], laters[i - 1], more[i - 1], nexts[i], laters[i]);
      }
    }
  }

  lemma NoSegments(env: Env, s: DrainState)
    ensures Joined([]) == [] && AreSegments(env, [], s.passed + s.blocked)
    ensures s.passed + Tickets([], Passed) == s.passed && s.blocked + Tickets([], Blocked) == s.blocked
  {
  }

  /** The state in which the drain continues after a ticket. */
  lemma AfterTicket(env: Env, s: DrainState, id: Id, resolution: Resolution, time: nat, universe: set<Id>)
    returns (next: DrainState, later: nat)
    requires Honest(env) && Bounded(env, universe) && TaskIds(s.tasks) <= universe
    requires resolution.Passed? ==> env.refreshBacklog(time).Some?
    ensures TaskIds(next.tasks) <= universe
    ensures next.passed == (if resolution.Passed? then s.passed + {id} else s.passed)
    ensures next.blocked == (if resolution.Passed? then s.blocked else s.blocked + {id})
    ensures next.tasks == (if resolution.Passed? then env.refreshBacklog(time).value else s.tasks)
    ensures later == if resolution.Passed? then time + 1 else time
  {
    if resolution.Passed? {
      next, later := DrainState(s.passed + {id}, s.blocked, env.refreshBacklog(time).value), time + 1;
    } else {
      next, later := DrainState(s.passed, s.blocked + {id}, s.tasks), time;
    }
  }

  lemma PrependSegment(env: Env, s: DrainState, next: DrainState, first: Segment, rest: seq<Segment>)
    requires IsSegment(env, first.actions, first.ticketId, first.resolution)
    requires first.ticketId !in s.passed + s.blocked
    requires next.passed == (if first.resolution.Passed? then s.passed + {first.ticketId} else s.passed)
    requires next.blocked == (if first.resolution.Passed? then s.blocked else s.blocked + {first.ticketId})
    requires AreSegments(env, rest, next.passed + next.blocked)
    ensures AreSegments(env, [first] + rest, s.passed + s.blocked)
    ensures s.passed + Tickets([first] + rest, Passed) == next.passed + Tickets(rest, Passed)
    ensures s.blocked + Tickets([first] + rest, Blocked) == next.blocked + Tickets(rest, Blocked)
    ensures Joined([first] + rest) == first.actions + Joined(rest)
  {
    hide IsSegment;
    var all := [first] + rest;
    assert all[1..] == rest;
    assert forall x :: x in all <==> x == first || x in rest;
    assert first.ticketId in next.passed + next.blocked;
    TicketsCons(first, rest, Passed);
    TicketsCons(first, rest, Blocked);
    forall i, j | 0 <= i < j < |all| ensures all[i].ticketId != all[j].ticketId {
      if i == 0 {
        assert all[j] == rest[j - 1] && rest[j - 1] in rest;
      }
    }
  }

  lemma TicketsCons(first: Segment, rest: seq<Segment>, resolution: Resolution)
    ensures Tickets([first] + rest, resolution) ==
            Tickets(rest, resolution) + if first.resolution == resolution then {first.ticketId} else {}
  {
    assert forall x :: x in [first] + rest <==> x == first || x in rest;
  }

  lemma {:induction false} TicketCount(segments: seq<Segment>, resolution: Resolution)
    requires forall i, j | 0 <= i < j < |segments| :: segments[i].ticketId != segments[j].ticketId
    ensures |Tickets(segments, resolution)| == SegmentCount(segments, resolution)
    decreases |segments|
  {
    if segments != [] {
      var rest, first := segments[1..], segments[0];
      TicketCount(rest, resolution);
      assert segments == [first] + rest;
      TicketsCons(first, rest, resolution);
      forall x | x in rest ensures x.ticketId != first.ticketId {
        var k :| 0 <= k < |rest| && rest[k] == x;
        assert segments[k + 1] == x;
      }
    }
  }

  function SegmentCount(segments: seq<Segment>, resolution: Resolution): nat
  {
    if segments == [] then 0
    else (if segments[0].resolution == resolution then 1 else 0) + SegmentCount(segments[1..], resolution)
  }

  /** The trace of every completed run: start, snapshot, one well-formed segment per resolved ticket, no ticket
      twice, and a finish that counts the segments that ended passed and blocked. The run resolves ticket after ticket,
      from the initial backlog on, until nothing can be selected. */
  lemma RunTrace(env: Env, initial: Option<seq<Task>>, universe: set<Id>)
    returns (segments: seq<Segment>, states: seq<DrainState>, times: seq<nat>)
    requires Honest(env) && Bounded(env, universe)
    requires initial.Some? ==> TaskIds(initial.value) <= universe
    requires RunLoopController(env, initial, universe).Completed?
    ensures AreSegments(env, segments, {})
    ensures forall x | x in segments :: x.ticketId in universe
    ensures RunLoopController(env, initial, universe).trace ==
            [LoopStart, GraphSnapshot] + Joined(segments)
            + [LoopFinish(SegmentCount(segments, Passed), SegmentCount(segments, Blocked))]
    ensures initial.Some? && IsCourse(env, segments, states, times) && states[0] == DrainState({}, {}, initial.value)
    ensures var final := states[|segments|];
            && SelectReadyExcluding(env, final) == Some(None)
            && final.passed == Tickets(segments, Passed) && final.blocked == Tickets(segments, Blocked)
  {
    hide IsSegment, Honest, Bounded, IsCourse, SelectReadyExcluding;
    var s := DrainState({}, {}, initial.value);
    var rest;
    segments, states, times, rest := DrainSegments(env, s, 0, universe);
    assert s.passed + s.blocked == {};
    assert s.passed + Tickets(segments, Passed) == Tickets(segments, Passed);
    assert s.blocked + Tickets(segments, Blocked) == Tickets(segments, Blocked);
    TicketCount(segments, Passed);
    TicketCount(segments, Blocked);
  }

  /** The trace of a run that an effect cuts short: nothing before there is a graph; otherwise start, snapshot, the
      segments of the tickets resolved so far, and what the interrupted one left. */
  lemma RunCutShort(env: Env, initial: Option<seq<Task>>, universe: set<Id>)
    returns (segments: seq<Segment>, states: seq<DrainState>, times: seq<nat>, rest: seq<Action>)
    requires Honest(env) && Bounded(env, universe)
    requires initial.Some? ==> TaskIds(initial.value) <= universe
    requires RunLoopController(env, initial, universe).Failed?
    ensures initial.None? || env.buildGraph(initial.value).None? ==> RunLoopController(env, initial, universe).trace == []
    ensures initial.Some? && env.buildGraph(initial.value).Some? ==>
              && RunLoopController(env, initial, universe).trace == [LoopStart, GraphSnapshot] + (Joined(segments) + rest)
              && AreSegments(env, segments, {}) && IsCourse(env, segments, states, times)
              && states[0] == DrainState({}, {}, initial.value) && CutShort(env, states[|segments|], times[|segments|], rest)
  {
    hide IsSegment, Honest, Bounded, IsCourse, SelectReadyExcluding, CutShort;
    segments, states, times, rest := [], [], [], [];
    if initial.Some? && env.buildGraph(initial.value).Some? {
      var s := DrainState({}, {}, initial.value);
      segments, states, times, rest := DrainSegments(env, s, 0, universe);
      assert s.passed + s.blocked == {};
    }
  }
}
