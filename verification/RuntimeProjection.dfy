/** Projection of runtime events to store writes (src/run-control/runtime-event-projection.ts). */
module RuntimeProjection {
  import opened Wrappers

  type Id = string

  datatype NodeStatus = Running | Failed | Passed | Blocked

  datatype RunStatus = RunStarting | RunAborted | RunFailed | RunPassed

  datatype WorkflowOutcome = Cancelled | Fail | Pass

  /** A hook event without a node carries the empty node id. `Quiet` stands for the types that write nothing. */
  datatype RuntimeEvent =
    | AgentFinish(nodeId: Id, exitCode: int)
    | AgentStart(nodeId: Id)
    | GateFinish(nodeId: Id, passed: bool)
    | GateStart(nodeId: Id)
    | HookFinish(hookId: Id, nodeId: Id, passed: bool, required: bool)
    | HookStart(hookId: Id, nodeId: Id)
    | NodeFinish(nodeId: Id, passed: bool)
    | NodeSession(nodeId: Id, sessionId: Id)
    | NodeStart(nodeId: Id)
    | WorkflowFinish(outcome: WorkflowOutcome)
    | WorkflowStart
    | Quiet

  datatype Intent =
    | SetRunStatus(runStatus: RunStatus)
    | SetNodeStatus(nodeId: Id, status: NodeStatus)
    | SetNodeSession(nodeId: Id, sessionId: Id)

  datatype State = State(active: map<Id, NodeStatus>, observed: map<Id, NodeStatus>)

  const INITIAL := State(map[], map[])

  datatype Projection = Projection(state: State, writes: seq<Intent>)

  function NodeStatusIntent(s: State, nodeId: Id, status: NodeStatus): Projection
  {
    Projection(s.(observed := s.observed[nodeId := status]), [SetNodeStatus(nodeId, status)])
  }

  function ProjectHookStart(hookId: Id, nodeId: Id, s: State): Projection
  {
    if nodeId == "" then Projection(s, [])
    else
      var remembered := if nodeId in s.observed then s.(active := s.active[hookId := s.observed[nodeId]]) else s;
      NodeStatusIntent(remembered, nodeId, Running)
  }

  function ProjectHookFinish(hookId: Id, nodeId: Id, passed: bool, required: bool, s: State): Projection
  {
    if nodeId == "" then Projection(s, [])
    else
      var forgotten := s.(active := s.active - {hookId});
      if !passed && required then NodeStatusIntent(forgotten, nodeId, Blocked)
      else NodeStatusIntent(forgotten, nodeId, if hookId in s.active then s.active[hookId] else Running)
  }

  function ProjectRuntimeEvent(event: RuntimeEvent, s: State): Projection
  {
    match event
    case AgentFinish(n, exitCode) => NodeStatusIntent(s, n, if exitCode == 0 then Running else Failed)
    case AgentStart(n) => NodeStatusIntent(s, n, Running)
    case GateFinish(n, passed) => NodeStatusIntent(s, n, if passed then Running else Blocked)
    case GateStart(n) => NodeStatusIntent(s, n, Running)
    case HookFinish(h, n, passed, required) => ProjectHookFinish(h, n, passed, required, s)
    case HookStart(h, n) => ProjectHookStart(h, n, s)
    case NodeFinish(n, passed) => NodeStatusIntent(s, n, if passed then Passed else Failed)
    case NodeSession(n, session) => Projection(s, [SetNodeSession(n, session)])
    case NodeStart(n) => NodeStatusIntent(s, n, Running)
    case WorkflowFinish(outcome) =>
      Projection(s, [SetRunStatus(match outcome case Cancelled => RunAborted case Fail => RunFailed case Pass => RunPassed)])
    case WorkflowStart => Projection(s, [SetRunStatus(RunStarting)])
    case Quiet => Projection(s, [])
  }

  // ---------------------------------------------------------------- sequences of events

  function StateAfter(events: seq<RuntimeEvent>): State
  {
    if events == [] then INITIAL
    else ProjectRuntimeEvent(events[|events| - 1], StateAfter(events[..|events| - 1])).state
  }

  /** The intents of the last event, given all the events before it. */
  function LastIntents(events: seq<RuntimeEvent>): seq<Intent>
    requires events != []
  {
    ProjectRuntimeEvent(events[|events| - 1], StateAfter(events[..|events| - 1])).writes
  }

  function AllIntents(events: seq<RuntimeEvent>): seq<Intent>
  {
    if events == [] then [] else AllIntents(events[..|events| - 1]) + LastIntents(events)
  }

  /** The status last written for a node. */
  function LastStatus(intents: seq<Intent>, nodeId: Id): Option<NodeStatus>
  {
    if intents == [] then None
    else
      var last := intents[|intents| - 1];
      if last.SetNodeStatus? && last.nodeId == nodeId then Some(last.status)
      else LastStatus(intents[..|intents| - 1], nodeId)
  }

  function Get<V>(m: map<Id, V>, key: Id): Option<V>
  {
    if key in m then Some(m[key]) else None
  }

  lemma LastStatusAppend(intents: seq<Intent>, i: Intent, nodeId: Id)
    ensures LastStatus(intents + [i], nodeId) ==
            if i.SetNodeStatus? && i.nodeId == nodeId then Some(i.status) else LastStatus(intents, nodeId)
  {
    assert (intents + [i])[..|intents|] == intents;
  }

  /** One event writes at most one intent, and the cache changes exactly where that intent says. */
  lemma ObservedStep(event: RuntimeEvent, s: State, nodeId: Id)
    ensures var p := ProjectRuntimeEvent(event, s);
            && |p.writes| <= 1
            && Get(p.state.observed, nodeId) ==
               if p.writes != [] && p.writes[0].SetNodeStatus? && p.writes[0].nodeId == nodeId then Some(p.writes[0].status)
               else Get(s.observed, nodeId)
  {
  }

  /** The observed statuses are a faithful cache of what was written. */
  lemma {:induction false} ObservedIsLastWritten(events: seq<RuntimeEvent>, nodeId: Id)
    ensures Get(StateAfter(events).observed, nodeId) == LastStatus(AllIntents(events), nodeId)
    decreases |events|
  {
    hide ProjectRuntimeEvent;
    if events != [] {
      var init := events[..|events| - 1];
      ObservedIsLastWritten(init, nodeId);
      ObservedStep(events[|events| - 1], StateAfter(init), nodeId);
      var writes := LastIntents(events);
      if writes == [] {
        assert AllIntents(events) == AllIntents(init);
      } else {
        assert writes == [writes[0]];
        LastStatusAppend(AllIntents(init), writes[0], nodeId);
      }
    }
  }

  predicate Touches(event: RuntimeEvent, hookId: Id)
  {
    (event.HookStart? || event.HookFinish?) && event.hookId == hookId && event.nodeId != ""
  }

  /** What a hook has to restore: the status its node had at the latest start that found one, unless the hook has
      finished since. */
  function Remembered(events: seq<RuntimeEvent>, hookId: Id): Option<NodeStatus>
  {
    if events == [] then None
    else
      var init, last := events[..|events| - 1], events[|events| - 1];
      if !Touches(last, hookId) then Remembered(init, hookId)
      else if last.HookFinish? then None
      else
        var status := LastStatus(AllIntents(init), last.nodeId);
        if status.Some? then status else Remembered(init, hookId)
  }

  lemma {:induction false} ActiveIsRemembered(events: seq<RuntimeEvent>, hookId: Id)
    ensures Get(StateAfter(events).active, hookId) == Remembered(events, hookId)
    decreases |events|
  {
    if events != [] {
      var init, last := events[..|events| - 1], events[|events| - 1];
      ActiveIsRemembered(init, hookId);
      if last.HookStart? {
        ObservedIsLastWritten(init, last.nodeId);
      }
    }
  }

  /** The status a hook's finish writes, for every history. */
  lemma FinishWrites(events: seq<RuntimeEvent>, hookId: Id, nodeId: Id, passed: bool, required: bool)
    requires nodeId != ""
    ensures var all := events + [HookFinish(hookId, nodeId, passed, required)];
            var expected := if !passed && required then Blocked
                            else if Remembered(events, hookId).Some? then Remembered(events, hookId).value else Running;
            LastIntents(all) == [SetNodeStatus(nodeId, expected)] && Get(StateAfter(all).observed, nodeId) == Some(expected)
  {
    var all := events + [HookFinish(hookId, nodeId, passed, required)];
    assert all[..|all| - 1] == events;
    ActiveIsRemembered(events, hookId);
  }

  // ---------------------------------------------------------------- what the last event about a node decides

  /** Whether the event is about this node's status. */
  predicate Concerns(event: RuntimeEvent, nodeId: Id)
  {
    match event
    case HookFinish(_, n, _, _) => n == nodeId && n != ""
    case HookStart(_, n) => n == nodeId && n != ""
    case NodeSession(_, _) => false
    case WorkflowFinish(_) => false
    case WorkflowStart => false
    case Quiet => false
    case _ => event.nodeId == nodeId
  }

  /** The status in which the last event about a node leaves it, `before` being the events before that one. */
  ghost predicate LeftBy(before: seq<RuntimeEvent>, event: RuntimeEvent, status: NodeStatus)
  {
    if event.HookFinish? && (event.passed || !event.required) then
      status == if Remembered(before, event.hookId).Some? then Remembered(before, event.hookId).value else Running
    else
      && (status == Failed <==> (event.AgentFinish? && event.exitCode != 0) || (event.NodeFinish? && !event.passed))
      && (status == Passed <==> event.NodeFinish? && event.passed)
      && (status == Blocked <==> (event.GateFinish? && !event.passed) || event.HookFinish?)
  }

  /** After any events the status last written for a node is the one in which the last event about it leaves it. */
  lemma {:induction false} LastEventDecides(events: seq<RuntimeEvent>, i: nat, nodeId: Id)
    requires i < |events| && Concerns(events[i], nodeId)
    requires forall j | i < j < |events| :: !Concerns(events[j], nodeId)
    ensures var status := LastStatus(AllIntents(events), nodeId);
            status.Some? && LeftBy(events[..i], events[i], status.value)
    decreases |events|
  {
    var init, last := events[..|events| - 1], events[|events| - 1];
    ObservedIsLastWritten(events, nodeId);
    ObservedIsLastWritten(init, nodeId);
    hide AllIntents, LastStatus, LeftBy, ProjectRuntimeEvent;
    if i == |init| {
      Decides(init, last, nodeId);
    } else {
      LastEventDecides(init, i, nodeId);
      assert init[..i] == events[..i];
      Unconcerned(last, StateAfter(init), nodeId);
    }
  }

  lemma Decides(before: seq<RuntimeEvent>, event: RuntimeEvent, nodeId: Id)
    requires Concerns(event, nodeId)
    ensures var status := Get(ProjectRuntimeEvent(event, StateAfter(before)).state.observed, nodeId);
            status.Some? && LeftBy(before, event, status.value)
  {
    if event.HookFinish? {
      ActiveIsRemembered(before, event.hookId);
    }
    hide StateAfter, Remembered;
  }

  lemma Unconcerned(event: RuntimeEvent, s: State, nodeId: Id)
    requires !Concerns(event, nodeId)
    ensures Get(ProjectRuntimeEvent(event, s).state.observed, nodeId) == Get(s.observed, nodeId)
  {
  }

  /** An event writes at most one intent: a node's status if it is about one, a session or the run's status if it
      carries one, and otherwise none. */
  lemma EventWrites(before: seq<RuntimeEvent>, event: RuntimeEvent)
    ensures var writes := LastIntents(before + [event]);
            && (writes == [] <==> event.Quiet? || ((event.HookStart? || event.HookFinish?) && event.nodeId == ""))
            && |writes| <= 1
            && (forall n, status :: SetNodeStatus(n, status) in writes ==> Concerns(event, n))
            && (forall n, session :: SetNodeSession(n, session) in writes <==> event == NodeSession(n, session))
            && (SetRunStatus(RunStarting) in writes <==> event == WorkflowStart)
            && (SetRunStatus(RunPassed) in writes <==> event == WorkflowFinish(Pass))
            && (SetRunStatus(RunFailed) in writes <==> event == WorkflowFinish(Fail))
            && (SetRunStatus(RunAborted) in writes <==> event == WorkflowFinish(Cancelled))
  {
    assert (before + [event])[..|before|] == before;
  }

  // ---------------------------------------------------------------- hooks

  lemma {:induction false} UntouchedRemembers(before: seq<RuntimeEvent>, between: seq<RuntimeEvent>, hookId: Id)
    requires forall e | e in between :: !Touches(e, hookId)
    ensures Remembered(before + between, hookId) == Remembered(before, hookId)
    decreases |between|
  {
    if between == [] {
      assert before + between == before;
    } else {
      var all := before + between;
      assert all[..|all| - 1] == before + between[..|between| - 1];
      assert all[|all| - 1] == between[|between| - 1];
      UntouchedRemembers(before, between[..|between| - 1], hookId);
    }
  }

  /** A hook that starts on a node and later finishes there leaves the node with the status it found, or "blocked" if it
      failed and is required. */
  predicate Restores(before: seq<RuntimeEvent>, between: seq<RuntimeEvent>, hookId: Id, nodeId: Id, passed: bool,
      required: bool)
    requires LastStatus(AllIntents(before), nodeId).Some?
  {
    var all := before + [HookStart(hookId, nodeId)] + between + [HookFinish(hookId, nodeId, passed, required)];
    Get(StateAfter(all).observed, nodeId) ==
    if !passed && required then Some(Blocked) else LastStatus(AllIntents(before), nodeId)
  }

  /** Whatever happens between start and finish, on this node or others: the status is restored exactly when the hook is
      blocked, when what is remembered under its id by then is still this status, or when nothing is remembered by then
      and the status was running. Hook ids are shared by nodes that run side by side. */
  lemma HookRestores(before: seq<RuntimeEvent>, between: seq<RuntimeEvent>, hookId: Id, nodeId: Id, passed: bool,
      required: bool)
    requires nodeId != "" && LastStatus(AllIntents(before), nodeId).Some?
    ensures var status := LastStatus(AllIntents(before), nodeId).value;
            var remembered := Remembered(before + [HookStart(hookId, nodeId)] + between, hookId);
            Restores(before, between, hookId, nodeId, passed, required) <==>
            || (!passed && required)
            || remembered == Some(status)
            || (remembered == None && status == Running)
  {
    FinishWrites(before + [HookStart(hookId, nodeId)] + between, hookId, nodeId, passed, required);
  }

  /** In particular when no hook of this id starts or finishes in between. */
  lemma UndisturbedHookRestores(before: seq<RuntimeEvent>, between: seq<RuntimeEvent>, hookId: Id, nodeId: Id,
      passed: bool, required: bool)
    requires nodeId != "" && LastStatus(AllIntents(before), nodeId).Some?
    requires forall e | e in between :: !Touches(e, hookId)
    ensures Restores(before, between, hookId, nodeId, passed, required)
  {
    var started := before + [HookStart(hookId, nodeId)];
    assert started[..|started| - 1] == before;
    UntouchedRemembers(started, between, hookId);
    HookRestores(before, between, hookId, nodeId, passed, required);
  }

  /** A hook that starts on a node without a status finds, at its finish, what is remembered under its id by then; unless
      it is blocked it writes "running" exactly when there is none (or that status is running). */
  lemma UnobservedHook(before: seq<RuntimeEvent>, between: seq<RuntimeEvent>, hookId: Id, nodeId: Id, passed: bool,
      required: bool)
    requires nodeId != "" && LastStatus(AllIntents(before), nodeId).None?
    ensures var all := before + [HookStart(hookId, nodeId)] + between + [HookFinish(hookId, nodeId, passed, required)];
            var remembered := Remembered(before + [HookStart(hookId, nodeId)] + between, hookId);
            && (Get(StateAfter(all).observed, nodeId) == Some(Running) <==>
                (passed || !required) && (remembered == None || remembered == Some(Running)))
            && ((forall e | e in between :: !Touches(e, hookId)) ==> remembered == Remembered(before, hookId))
  {
    var started := before + [HookStart(hookId, nodeId)];
    assert started[..|started| - 1] == before;
    if forall e | e in between :: !Touches(e, hookId) {
      UntouchedRemembers(started, between, hookId);
    }
    FinishWrites(started + between, hookId, nodeId, passed, required);
  }

  /** Overlapping hooks of one id on two finished nodes swap their statuses: the passed node ends failed, the failed one
      running. */
  lemma OverlappingHooksSwap()
    ensures var events := [NodeFinish("a", true), NodeFinish("b", false), HookStart("h", "a"), HookStart("h", "b"),
                HookFinish("h", "a", true, true), HookFinish("h", "b", true, true)];
            Get(StateAfter(events).observed, "a") == Some(Failed) && Get(StateAfter(events).observed, "b") == Some(Running)
  {
    var e1 := [NodeFinish("a", true)];
    var e2 := e1 + [NodeFinish("b", false)];
    var e3 := e2 + [HookStart("h", "a")];
    var e4 := e3 + [HookStart("h", "b")];
    var e5 := e4 + [HookFinish("h", "a", true, true)];
    var e6 := e5 + [HookFinish("h", "b", true, true)];
    assert e1[..0] == [] && e2[..1] == e1 && e3[..2] == e2 && e4[..3] == e3 && e5[..4] == e4 && e6[..5] == e5;
    assert StateAfter(e1) == State(map[], map["a" := Passed]);
    assert StateAfter(e2) == State(map[], map["a" := Passed, "b" := Failed]);
    assert StateAfter(e3) == State(map["h" := Passed], map["a" := Running, "b" := Failed]);
    assert StateAfter(e4) == State(map["h" := Failed], map["a" := Running, "b" := Running]);
    assert StateAfter(e5) == State(map[], map["a" := Failed, "b" := Running]);
    assert e6 == [NodeFinish("a", true), NodeFinish("b", false), HookStart("h", "a"), HookStart("h", "b"),
        HookFinish("h", "a", true, true), HookFinish("h", "b", true, true)];
  }

  /** A hook id reused on a second node before it finished on the first writes the first node's status there. */
  lemma StaleHookLeaks()
    ensures var events := [NodeFinish("a", true), HookStart("h", "a"), HookStart("h", "b"),
                HookFinish("h", "b", true, true)];
            Get(StateAfter(events).observed, "b") == Some(Passed)
  {
    var e0 := [NodeFinish("a", true)];
    var e1 := e0 + [HookStart("h", "a")];
    var e2 := e1 + [HookStart("h", "b")];
    var e3 := e2 + [HookFinish("h", "b", true, true)];
    assert e0[..0] == [] && e1[..1] == e0 && e2[..2] == e1 && e3[..3] == e2;
    assert StateAfter(e0) == State(map[], map["a" := Passed]);
    assert StateAfter(e1) == State(map["h" := Passed], map["a" := Running]);
    assert StateAfter(e2) == State(map["h" := Passed], map["a" := Running, "b" := Running]);
    assert e3 == [NodeFinish("a", true), HookStart("h", "a"), HookStart("h", "b"), HookFinish("h", "b", true, true)];
  }
}
