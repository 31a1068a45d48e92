/** The run-store reporter's projection, queue and lock (src/run-control/runtime-reporter.ts). */
module RuntimeReporter {
  import Lock = RunStateLock
  import Projection = RuntimeProjection
  import Queue = WriteQueue
  import opened Wrappers

  /** How persisting an event ends: a typed failure is caught and logged, a defect, such as an exception thrown inside the
      effect, escapes the handler. */
  datatype Fate = Persisted | Skipped(error: Queue.Error) | Died(defect: Queue.Error)

  /** `events`, `attempted` and `skipped` are histories; `begun` counts the writes whose persistence has begun, `ticketOf`
      gives each started write its place in the lock's chain, `skipped` lists the writes logged as not persisted, and
      `escaped` holds what escaped from each write that has released the lock. */
  datatype State = State(
    projection: Projection.State, queue: Queue.State, lock: Lock.State,
    intents: seq<seq<Projection.Intent>>, ticketOf: seq<nat>, begun: nat,
    events: seq<Projection.RuntimeEvent>, attempted: seq<Projection.Intent>, skipped: seq<nat>,
    escaped: map<nat, Option<Queue.Error>>)

  const INITIAL := State(Projection.INITIAL, Queue.INITIAL, [], [], [], 0, [], [], [], map[])

  /** A write releases the lock once its persistence has met its fate. `Outside` steps are the lock's other users, such as
      the builtins that hide the run directory. */
  datatype Step =
    | Report(event: Projection.RuntimeEvent)
    | WriteStarts(i: nat)
    | WriteGranted(i: nat)
    | WriteReleases(i: nat, fate: Fate)
    | WriteSettles(i: nat)
    | FlushCalled
    | FlushResumes(f: nat)
    | Outside(step: Lock.Step)

  /** A queued write starts by acquiring the lock. */
  predicate Enabled(s: State, step: Step)
  {
    match step
    case Report(_) => true
    case WriteStarts(i) => Queue.Enabled(s.queue, Queue.StartWrite(i))
    case WriteGranted(i) =>
      Queue.Enabled(s.queue, Queue.FinishWrite(i, None)) && i < |s.ticketOf| && i < |s.intents|
      && Lock.Enabled(s.lock, Lock.Grant(s.ticketOf[i]))
    case WriteReleases(i, _) =>
      Queue.Enabled(s.queue, Queue.FinishWrite(i, None)) && i < |s.ticketOf|
      && s.ticketOf[i] < |s.lock| && s.lock[s.ticketOf[i]].Held?
    case WriteSettles(i) =>
      Queue.Enabled(s.queue, Queue.FinishWrite(i, None)) && i < |s.ticketOf|
      && s.ticketOf[i] < |s.lock| && s.lock[s.ticketOf[i]].Released? && i in s.escaped
    case FlushCalled => true
    case FlushResumes(f) => Queue.Enabled(s.queue, Queue.ResumeFlush(f))
    case Outside(step) =>
      && Lock.Enabled(s.lock, step)
      && (step.Grant? ==> step.i !in s.ticketOf)
      && (step.Release? ==> step.i !in s.ticketOf)
  }

  function Escapes(fate: Fate): Option<Queue.Error>
  {
    if fate.Died? then Some(fate.defect) else None
  }

  /** A write whose persistence fails is logged and skipped and settles without an error; a defect rejects it, after the
      lock is released. */
  function Apply(s: State, step: Step): State
    requires Enabled(s, step)
  {
    match step
    case Report(event) =>
      var projected := Projection.ProjectRuntimeEvent(event, s.projection);
      s.(projection := projected.state, queue := Queue.Apply(s.queue, Queue.Enqueue),
         intents := s.intents + [projected.writes], events := s.events + [event])
    case WriteStarts(i) =>
      s.(queue := Queue.Apply(s.queue, Queue.StartWrite(i)), lock := Lock.Apply(s.lock, Lock.Acquire),
         ticketOf := s.ticketOf + [|s.lock|])
    case WriteGranted(i) =>
      s.(lock := Lock.Apply(s.lock, Lock.Grant(s.ticketOf[i])), begun := s.begun + 1,
         attempted := s.attempted + s.intents[i])
    case WriteReleases(i, fate) =>
      s.(lock := Lock.Apply(s.lock, Lock.Release(s.ticketOf[i])), escaped := s.escaped[i := Escapes(fate)],
         skipped := s.skipped + if fate.Skipped? then [i] else [])
    case WriteSettles(i) => s.(queue := Queue.Apply(s.queue, Queue.FinishWrite(i, s.escaped[i])))
    case FlushCalled => s.(queue := Queue.Apply(s.queue, Queue.CallFlush))
    case FlushResumes(f) => s.(queue := Queue.Apply(s.queue, Queue.ResumeFlush(f)))
    case Outside(step) => s.(lock := Lock.Apply(s.lock, step))
  }

  ghost function After(steps: seq<Step>): Option<State>
  {
    if steps == [] then Some(INITIAL)
    else
      var before, step := After(steps[..|steps| - 1]), steps[|steps| - 1];
      if before.Some? && Enabled(before.value, step) then Some(Apply(before.value, step)) else None
  }

  // ---------------------------------------------------------------- what every step keeps

  ghost function Concat(intents: seq<seq<Projection.Intent>>): seq<Projection.Intent>
  {
    if intents == [] then [] else Concat(intents[..|intents| - 1]) + intents[|intents| - 1]
  }

  /** One entry per event, holding that event's intents. */
  ghost predicate Projected(projection: Projection.State, intents: seq<seq<Projection.Intent>>,
      events: seq<Projection.RuntimeEvent>)
  {
    && |intents| == |events|
    && projection == Projection.StateAfter(events)
    && (forall n | 0 <= n <= |events| :: Concat(intents[..n]) == Projection.AllIntents(events[..n]))
  }

  /** Started writes hold distinct tickets. A write has begun exactly when its ticket was granted, something may have escaped
      from it exactly when the ticket was released, and it finishes after that with what escaped. */
  ghost predicate Ticketed(writes: seq<Queue.Phase>, lock: Lock.State, ticketOf: seq<nat>, begun: nat,
      escaped: map<nat, Option<Queue.Error>>)
  {
    && begun <= |ticketOf| <= |writes|
    && (forall i | 0 <= i < |ticketOf| :: ticketOf[i] < |lock|)
    && (forall i, j | 0 <= i < j < |ticketOf| :: ticketOf[i] != ticketOf[j])
    && (forall i | 0 <= i < |writes| :: writes[i].Queued? <==> i >= |ticketOf|)
    && (forall i | 0 <= i < |ticketOf| :: lock[ticketOf[i]].Waiting? <==> i >= begun)
    && (forall i | 0 <= i < |ticketOf| :: lock[ticketOf[i]].Released? <==> i in escaped)
    && (forall i | i in escaped :: i < |ticketOf|)
    && (forall i | 0 <= i < |writes| && Queue.Finished(writes[i]) :: i in escaped && writes[i] == Ended(escaped[i]))
  }

  function Ended(escaped: Option<Queue.Error>): Queue.Phase
  {
    if escaped.Some? then Queue.Broken(escaped.value) else Queue.Done
  }

  /** A defect escaped from the write. */
  predicate DiedOf(s: State, i: nat, defect: Queue.Error)
  {
    i in s.escaped && s.escaped[i] == Some(defect)
  }

  ghost predicate Inv(s: State)
  {
    && Queue.Inv(s.queue)
    && Lock.Inv(s.lock)
    && Projected(s.projection, s.intents, s.events)
    && |s.queue.writes| == |s.events|
    && Ticketed(s.queue.writes, s.lock, s.ticketOf, s.begun, s.escaped)
    && s.attempted == Concat(s.intents[..s.begun])
  }

  lemma ProjectNext(projection: Projection.State, intents: seq<seq<Projection.Intent>>,
      events: seq<Projection.RuntimeEvent>, event: Projection.RuntimeEvent)
    requires Projected(projection, intents, events)
    ensures var p := Projection.ProjectRuntimeEvent(event, projection);
            Projected(p.state, intents + [p.writes], events + [event])
  {
    hide Projection.ProjectRuntimeEvent;
    var p := Projection.ProjectRuntimeEvent(event, projection);
    var more, longer := intents + [p.writes], events + [event];
    assert longer[..|events|] == events && more[..|intents|] == intents;
    assert events[..|events|] == events && intents[..|intents|] == intents;
    assert longer[..|longer|] == longer && more[..|more|] == more;
    forall n | 0 <= n <= |longer| ensures Concat(more[..n]) == Projection.AllIntents(longer[..n]) {
      if n <= |events| {
        assert more[..n] == intents[..n] && longer[..n] == events[..n];
      }
    }
  }

  // ---------------------------------------------------------------- the tickets of the writes

  lemma EnqueueTicketed(writes: seq<Queue.Phase>, lock: Lock.State, ticketOf: seq<nat>, begun: nat,
      escaped: map<nat, Option<Queue.Error>>)
    requires Ticketed(writes, lock, ticketOf, begun, escaped)
    ensures Ticketed(writes + [Queue.Queued], lock, ticketOf, begun, escaped)
  {
  }

  lemma StartTicketed(writes: seq<Queue.Phase>, lock: Lock.State, ticketOf: seq<nat>, begun: nat,
      escaped: map<nat, Option<Queue.Error>>, i: nat)
    requires Ticketed(writes, lock, ticketOf, begun, escaped)
    requires i < |writes| && writes[i].Queued? && (i > 0 ==> !writes[i - 1].Queued?)
    ensures Ticketed(writes[i := Queue.Running], lock + [Lock.Waiting], ticketOf + [|lock|], begun, escaped)
  {
    assert i == |ticketOf|;
    var more, longer := ticketOf + [|lock|], lock + [Lock.Waiting];
    forall k | 0 <= k < |more|
      ensures more[k] < |longer| && longer[more[k]] == if k == i then Lock.Waiting else lock[ticketOf[k]]
    {
    }
  }

  lemma GrantTicketed(writes: seq<Queue.Phase>, lock: Lock.State, ticketOf: seq<nat>, begun: nat,
      escaped: map<nat, Option<Queue.Error>>, i: nat)
    requires Ticketed(writes, lock, ticketOf, begun, escaped)
    requires i < |ticketOf| && lock[ticketOf[i]].Waiting? && forall k | 0 <= k < i :: Queue.Finished(writes[k])
    ensures i == begun && Ticketed(writes, lock[ticketOf[i] := Lock.Held], ticketOf, begun + 1, escaped)
  {
    if i > 0 {
      HasBegun(writes, lock, ticketOf, begun, escaped, i - 1);
    }
    SetTicket(lock, ticketOf, i, Lock.Held);
  }

  lemma SetTicket(lock: Lock.State, ticketOf: seq<nat>, i: nat, ticket: Lock.Ticket)
    requires i < |ticketOf| && forall k | 0 <= k < |ticketOf| :: ticketOf[k] < |lock|
    requires forall k, j | 0 <= k < j < |ticketOf| :: ticketOf[k] != ticketOf[j]
    ensures forall k | 0 <= k < |ticketOf| ::
              lock[ticketOf[i] := ticket][ticketOf[k]] == if k == i then ticket else lock[ticketOf[k]]
  {
  }

  lemma ReleaseTicketed(writes: seq<Queue.Phase>, lock: Lock.State, ticketOf: seq<nat>, begun: nat,
      escaped: map<nat, Option<Queue.Error>>, i: nat, outcome: Option<Queue.Error>)
    requires Ticketed(writes, lock, ticketOf, begun, escaped)
    requires i < |ticketOf| && lock[ticketOf[i]].Held?
    ensures i !in escaped && Ticketed(writes, lock[ticketOf[i] := Lock.Released], ticketOf, begun, escaped[i := outcome])
  {
    SetTicket(lock, ticketOf, i, Lock.Released);
  }

  lemma SettleTicketed(writes: seq<Queue.Phase>, lock: Lock.State, ticketOf: seq<nat>, begun: nat,
      escaped: map<nat, Option<Queue.Error>>, i: nat)
    requires Ticketed(writes, lock, ticketOf, begun, escaped)
    requires i < |writes| && writes[i].Running? && i in escaped
    ensures Ticketed(writes[i := Ended(escaped[i])], lock, ticketOf, begun, escaped)
  {
  }

  lemma OutsideTicketed(writes: seq<Queue.Phase>, lock: Lock.State, ticketOf: seq<nat>, begun: nat,
      escaped: map<nat, Option<Queue.Error>>, other: Lock.State)
    requires Ticketed(writes, lock, ticketOf, begun, escaped)
    requires |other| >= |lock| && forall k | 0 <= k < |lock| && k in ticketOf :: other[k] == lock[k]
    ensures Ticketed(writes, other, ticketOf, begun, escaped)
  {
    forall i | 0 <= i < |ticketOf| ensures other[ticketOf[i]] == lock[ticketOf[i]] {
      assert ticketOf[i] in ticketOf;
    }
  }

  // ---------------------------------------------------------------- step by step

  lemma ReportKeeps(s: State, event: Projection.RuntimeEvent)
    requires Inv(s)
    ensures Inv(Apply(s, Report(event)))
  {
    hide Queue.Inv, Lock.Inv, Projection.ProjectRuntimeEvent, Projected;
    var t := Apply(s, Report(event));
    Queue.StepKeeps(s.queue, Queue.Enqueue);
    ProjectNext(s.projection, s.intents, s.events, event);
    EnqueueTicketed(s.queue.writes, s.lock, s.ticketOf, s.begun, s.escaped);
    Lengths(s);
    hide Ticketed;
    assert t.intents[..t.begun] == s.intents[..s.begun];
  }

  lemma Lengths(s: State)
    requires Inv(s)
    ensures |s.intents| == |s.events| == |s.queue.writes| && s.begun <= |s.ticketOf| <= |s.queue.writes|
    ensures forall i | 0 <= i < |s.ticketOf| :: s.ticketOf[i] < |s.lock|
  {
    hide Queue.Inv, Lock.Inv, Concat;
  }

  lemma StartKeeps(s: State, i: nat)
    requires Inv(s) && Enabled(s, WriteStarts(i))
    ensures Inv(Apply(s, WriteStarts(i)))
  {
    hide Queue.Inv, Lock.Inv, Projected, Concat, Ticketed;
    Queue.StepKeeps(s.queue, Queue.StartWrite(i));
    Lock.StepKeeps(s.lock, Lock.Acquire);
    StartTicketed(s.queue.writes, s.lock, s.ticketOf, s.begun, s.escaped, i);
  }

  lemma GrantKeeps(s: State, i: nat)
    requires Inv(s) && Enabled(s, WriteGranted(i))
    ensures Inv(Apply(s, WriteGranted(i)))
  {
    hide Queue.Inv, Lock.Inv, Projected, Ticketed, Concat, Enabled, Apply, Lock.Enabled, Lock.Apply;
    GrantEffect(s, i);
    EarlierFinished(s, i);
    Lengths(s);
    Lock.StepKeeps(s.lock, Lock.Grant(s.ticketOf[i]));
    GrantTicketed(s.queue.writes, s.lock, s.ticketOf, s.begun, s.escaped, i);
    ConcatNext(s.intents, s.begun);
  }

  lemma GrantEffect(s: State, i: nat)
    requires Enabled(s, WriteGranted(i))
    ensures i < |s.queue.writes| && s.queue.writes[i].Running? && i < |s.ticketOf| && i < |s.intents|
    ensures Lock.Enabled(s.lock, Lock.Grant(s.ticketOf[i])) && s.lock[s.ticketOf[i]].Waiting?
    ensures Lock.Apply(s.lock, Lock.Grant(s.ticketOf[i])) == s.lock[s.ticketOf[i] := Lock.Held]
    ensures Apply(s, WriteGranted(i)) ==
            s.(lock := s.lock[s.ticketOf[i] := Lock.Held], begun := s.begun + 1, attempted := s.attempted + s.intents[i])
  {
  }

  lemma ConcatNext(intents: seq<seq<Projection.Intent>>, n: nat)
    requires n < |intents|
    ensures Concat(intents[..n + 1]) == Concat(intents[..n]) + intents[n]
  {
    assert intents[..n + 1][..n] == intents[..n];
  }

  lemma EarlierFinished(s: State, i: nat)
    requires Inv(s) && i < |s.queue.writes| && s.queue.writes[i].Running?
    ensures forall k | 0 <= k < i :: Queue.Finished(s.queue.writes[k])
  {
    hide Lock.Inv, Projected, Concat, Ticketed;
  }

  lemma ReleaseKeeps(s: State, i: nat, fate: Fate)
    requires Inv(s) && Enabled(s, WriteReleases(i, fate))
    ensures Inv(Apply(s, WriteReleases(i, fate)))
  {
    hide Queue.Inv, Lock.Inv, Projected, Concat, Ticketed;
    Lock.StepKeeps(s.lock, Lock.Release(s.ticketOf[i]));
    ReleaseTicketed(s.queue.writes, s.lock, s.ticketOf, s.begun, s.escaped, i, Escapes(fate));
  }

  lemma SettleKeeps(s: State, i: nat)
    requires Inv(s) && Enabled(s, WriteSettles(i))
    ensures Inv(Apply(s, WriteSettles(i)))
  {
    hide Queue.Inv, Lock.Inv, Projected, Concat, Ticketed;
    Queue.StepKeeps(s.queue, Queue.FinishWrite(i, s.escaped[i]));
    SettleTicketed(s.queue.writes, s.lock, s.ticketOf, s.begun, s.escaped, i);
  }

  lemma OutsideKeeps(s: State, step: Lock.Step)
    requires Inv(s) && Enabled(s, Outside(step))
    ensures Inv(Apply(s, Outside(step)))
  {
    hide Queue.Inv, Lock.Inv, Projected, Concat, Ticketed;
    Lock.StepKeeps(s.lock, step);
    OutsideTicketed(s.queue.writes, s.lock, s.ticketOf, s.begun, s.escaped, Lock.Apply(s.lock, step));
  }

  lemma FlushKeeps(s: State, step: Step)
    requires Inv(s) && Enabled(s, step) && (step.FlushCalled? || step.FlushResumes?)
    ensures Inv(Apply(s, step))
  {
    hide Queue.Inv, Lock.Inv, Projected, Concat, Ticketed, Queue.FirstThrough, Queue.KeepAfter;
    if step.FlushCalled? {
      Queue.StepKeeps(s.queue, Queue.CallFlush);
    } else {
      Queue.StepKeeps(s.queue, Queue.ResumeFlush(step.f));
    }
  }

  lemma StepKeeps(s: State, step: Step)
    requires Inv(s) && Enabled(s, step)
    ensures Inv(Apply(s, step))
  {
    hide Inv;
    match step
    case Report(event) => ReportKeeps(s, event);
    case WriteStarts(i) => StartKeeps(s, i);
    case WriteGranted(i) => GrantKeeps(s, i);
    case WriteReleases(i, fate) => ReleaseKeeps(s, i, fate);
    case WriteSettles(i) => SettleKeeps(s, i);
    case FlushCalled => FlushKeeps(s, step);
    case FlushResumes(f) => FlushKeeps(s, step);
    case Outside(lockStep) => OutsideKeeps(s, lockStep);
  }

  lemma {:induction false} EveryRun(steps: seq<Step>)
    requires After(steps).Some?
    ensures Inv(After(steps).value)
    decreases |steps|
  {
    if steps != [] {
      EveryRun(steps[..|steps| - 1]);
      StepKeeps(After(steps[..|steps| - 1]).value, steps[|steps| - 1]);
    }
  }

  lemma {:induction false} ConcatPrefix(intents: seq<seq<Projection.Intent>>, n: nat)
    requires n <= |intents|
    ensures Concat(intents[..n]) <= Concat(intents)
    decreases |intents|
  {
    if n == |intents| {
      assert intents[..n] == intents;
    } else {
      var init := intents[..|intents| - 1];
      assert init[..n] == intents[..n];
      ConcatPrefix(init, n);
    }
  }

  /** In every run the attempted intents are a prefix of what the reported events project to, in event order. */
  lemma AttemptsInEventOrder(steps: seq<Step>)
    requires After(steps).Some?
    ensures After(steps).value.attempted <= Projection.AllIntents(After(steps).value.events)
  {
    EveryRun(steps);
    var s := After(steps).value;
    Lengths(s);
    hide Queue.Inv, Lock.Inv, Ticketed;
    assert s.events[..|s.events|] == s.events && s.intents[..|s.intents|] == s.intents;
    ConcatPrefix(s.intents, s.begun);
  }

  /** A flush settles only when every event reported before it was called has been attempted. It throws exactly if a defect
      escaped from a write in its range that no earlier flush has drained, namely the defect of the first such write. */
  lemma FlushReturns(steps: seq<Step>, f: nat)
    requires After(steps).Some? && Enabled(After(steps).value, FlushResumes(f))
    ensures var s := After(steps).value;
            var through, outcome := s.queue.flushes[f].through, Apply(s, FlushResumes(f)).queue.flushes[f].outcome;
            && -1 <= through < |s.events|
            && Projection.AllIntents(s.events[..through + 1]) <= s.attempted
            && Reports(s, s.queue.drained, through, outcome)
  {
    hide *;
    EveryRun(steps);
    var s := After(steps).value;
    ResumeAttempts(s, f);
    FlushRange(s, f);
    AttemptedThrough(s, s.queue.flushes[f].through);
    FlushThrows(s, f);
  }

  lemma FlushRange(s: State, f: nat)
    requires Inv(s) && Enabled(s, FlushResumes(f))
    ensures -1 <= s.queue.flushes[f].through < |s.queue.writes| == |s.events|
    ensures s.queue.flushes[f].through >= 0 ==> Queue.Finished(s.queue.writes[s.queue.flushes[f].through])
  {
  }

  lemma HasBegun(writes: seq<Queue.Phase>, lock: Lock.State, ticketOf: seq<nat>, begun: nat,
      escaped: map<nat, Option<Queue.Error>>, i: nat)
    requires Ticketed(writes, lock, ticketOf, begun, escaped) && i < |writes| && Queue.Finished(writes[i])
    ensures i < begun
  {
    assert i in escaped && lock[ticketOf[i]].Released?;
  }

  lemma AttemptedThrough(s: State, through: int)
    requires Inv(s) && -1 <= through < |s.queue.writes|
    requires through >= 0 ==> Queue.Finished(s.queue.writes[through])
    ensures Projection.AllIntents(s.events[..through + 1]) <= s.attempted
  {
    hide Queue.Inv, Lock.Inv;
    Lengths(s);
    if through >= 0 {
      HasBegun(s.queue.writes, s.lock, s.ticketOf, s.begun, s.escaped, through);
    }
    hide Ticketed;
    assert s.intents[..s.begun][..through + 1] == s.intents[..through + 1];
    ConcatPrefix(s.intents[..s.begun], through + 1);
  }

  /** The outcome throws the first defect in the range above `low`, if there is one. */
  ghost predicate Reports(s: State, low: int, through: int, outcome: Queue.Outcome)
  {
    && (outcome.Threw? <==> exists i: nat, e | low < i <= through :: DiedOf(s, i, e))
    && (!outcome.Threw? ==> outcome.Returned?)
    && (outcome.Threw? ==>
          && low < outcome.failure.sequence <= through
          && DiedOf(s, outcome.failure.sequence, outcome.failure.error)
          && forall i: nat, e | low < i < outcome.failure.sequence :: !DiedOf(s, i, e))
  }

  lemma FlushThrows(s: State, f: nat)
    requires Inv(s) && Enabled(s, FlushResumes(f))
    ensures Reports(s, s.queue.drained, s.queue.flushes[f].through,
              Apply(s, FlushResumes(f)).queue.flushes[f].outcome)
  {
    Queue.FlushOutcome(s.queue, f);
    FlushRange(s, f);
    LowAbove(s);
    BrokenIsDied(s, s.queue.flushes[f].through);
    assert Apply(s, FlushResumes(f)).queue == Queue.Apply(s.queue, Queue.ResumeFlush(f));
    hide Inv, Enabled, DiedOf, Apply, Queue.Apply, Queue.Inv, Reports;
    ReportsFirst(s, s.queue.drained, s.queue.flushes[f].through,
      Apply(s, FlushResumes(f)).queue.flushes[f].outcome);
  }

  lemma LowAbove(s: State)
    requires Inv(s)
    ensures s.queue.drained >= -1
  {
    hide Lock.Inv, Projected, Concat, Ticketed, Queue.FailedBetween;
  }

  lemma ReportsFirst(s: State, low: int, through: int, outcome: Queue.Outcome)
    requires -1 <= low && through < |s.queue.writes|
    requires forall i: nat, e | i <= through :: DiedOf(s, i, e) <==> s.queue.writes[i] == Queue.Broken(e)
    requires outcome.Returned? <==> forall i | low < i <= through :: !s.queue.writes[i].Broken?
    requires outcome.Threw? <==> exists i | low < i <= through :: s.queue.writes[i].Broken?
    requires outcome.Threw? ==>
               && low < outcome.failure.sequence <= through
               && s.queue.writes[outcome.failure.sequence] == Queue.Broken(outcome.failure.error)
               && forall i | low < i < outcome.failure.sequence :: !s.queue.writes[i].Broken?
    ensures Reports(s, low, through, outcome)
  {
    hide DiedOf;
    if i :| low < i <= through && s.queue.writes[i].Broken? {
      assert DiedOf(s, i, s.queue.writes[i].error);
    }
  }

  lemma BrokenIsDied(s: State, through: int)
    requires Inv(s) && through < |s.queue.writes| && forall i | 0 <= i <= through :: Queue.Finished(s.queue.writes[i])
    ensures forall i: nat, e | i <= through :: DiedOf(s, i, e) <==> s.queue.writes[i] == Queue.Broken(e)
  {
    hide Queue.Inv, Lock.Inv, Projected, Concat, Ticketed;
    forall i: nat, e | i <= through ensures DiedOf(s, i, e) <==> s.queue.writes[i] == Queue.Broken(e) {
      FinishedAs(s.queue.writes, s.lock, s.ticketOf, s.begun, s.escaped, i);
    }
  }

  lemma FinishedAs(writes: seq<Queue.Phase>, lock: Lock.State, ticketOf: seq<nat>, begun: nat,
      escaped: map<nat, Option<Queue.Error>>, i: nat)
    requires Ticketed(writes, lock, ticketOf, begun, escaped) && i < |writes| && Queue.Finished(writes[i])
    ensures i in escaped && writes[i] == Ended(escaped[i])
  {
  }

  /** The write released the lock after dying of the defect. */
  ghost predicate DiesIn(steps: seq<Step>, i: nat, defect: Queue.Error)
  {
    exists n | 0 <= n < |steps| :: steps[n] == WriteReleases(i, Died(defect))
  }

  /** What is recorded as a defect is what the run's steps say: a write meets one fate. */
  lemma {:induction false} DefectsOfRun(steps: seq<Step>, i: nat, defect: Queue.Error)
    requires After(steps).Some?
    ensures DiedOf(After(steps).value, i, defect) <==> DiesIn(steps, i, defect)
    ensures DiesIn(steps, i, defect) ==> i in After(steps).value.escaped
    decreases |steps|
  {
    if steps != [] {
      var init, last := steps[..|steps| - 1], steps[|steps| - 1];
      EveryRun(init);
      DefectsOfRun(init, i, defect);
      var s := After(init).value;
      FateOnce(s, last, i);
      hide Inv, Apply, Enabled;
      DiesLast(steps, i, defect);
    }
  }

  lemma DiesLast(steps: seq<Step>, i: nat, defect: Queue.Error)
    requires steps != []
    ensures var init, last := steps[..|steps| - 1], steps[|steps| - 1];
            DiesIn(steps, i, defect) <==> DiesIn(init, i, defect) || last == WriteReleases(i, Died(defect))
  {
    var init, last := steps[..|steps| - 1], steps[|steps| - 1];
    if n :| 0 <= n < |steps| && steps[n] == WriteReleases(i, Died(defect)) {
      assert n < |init| ==> init[n] == steps[n];
    }
    if n :| 0 <= n < |init| && init[n] == WriteReleases(i, Died(defect)) {
      assert steps[n] == init[n];
    }
    assert steps[|init|] == last;
  }

  lemma FateOnce(s: State, step: Step, i: nat)
    requires Inv(s) && Enabled(s, step)
    ensures if step.WriteReleases? && step.i == i
            then i !in s.escaped && Apply(s, step).escaped == s.escaped[i := Escapes(step.fate)]
            else (i in Apply(s, step).escaped <==> i in s.escaped) &&
                 (i in s.escaped ==> Apply(s, step).escaped[i] == s.escaped[i])
  {
    hide Queue.Inv, Lock.Inv, Projected, Concat, Ticketed;
    if step.WriteReleases? {
      ReleaseTicketed(s.queue.writes, s.lock, s.ticketOf, s.begun, s.escaped, step.i, Escapes(step.fate));
    }
  }

  // ---------------------------------------------------------------- what a call of flush covers

  /** The events reported in a run. */
  function Reported(steps: seq<Step>): seq<Projection.RuntimeEvent>
  {
    if steps == [] then []
    else
      var last := steps[|steps| - 1];
      Reported(steps[..|steps| - 1]) + if last.Report? then [last.event] else []
  }

  /** The calls of flush in a run. */
  function Calls(steps: seq<Step>): nat
  {
    if steps == [] then 0 else Calls(steps[..|steps| - 1]) + if steps[|steps| - 1].FlushCalled? then 1 else 0
  }

  lemma {:induction false} Counted(steps: seq<Step>)
    requires After(steps).Some?
    ensures After(steps).value.events == Reported(steps) && |After(steps).value.queue.flushes| == Calls(steps)
    decreases |steps|
  {
    if steps != [] {
      Counted(steps[..|steps| - 1]);
    }
  }

  lemma RunStep(steps: seq<Step>) returns (init: seq<Step>, last: Step, t: State)
    requires steps != [] && After(steps).Some?
    ensures steps == init + [last] && init == steps[..|steps| - 1]
    ensures After(init) == Some(t) && Enabled(t, last) && After(steps) == Some(Apply(t, last))
    ensures Inv(t) && Inv(Apply(t, last))
  {
    hide Inv, Enabled, Apply;
    init, last := steps[..|steps| - 1], steps[|steps| - 1];
    t := After(init).value;
    EveryRun(init);
    StepKeeps(t, last);
  }

  lemma StepPersists(s: State, step: Step, f: nat)
    requires Inv(s) && Enabled(s, step) && f < |s.queue.flushes|
    ensures f < |Apply(s, step).queue.flushes| && s.attempted <= Apply(s, step).attempted
    ensures Apply(s, step).queue.flushes[f].through == s.queue.flushes[f].through
    ensures step != FlushResumes(f) ==> Apply(s, step).queue.flushes[f] == s.queue.flushes[f]
  {
    hide Queue.Inv, Lock.Inv, Projected, Concat, Ticketed, Queue.FirstThrough, Queue.KeepAfter;
  }

  /** The flush that call `n` makes has the events reported by then as its range, for as long as the run lasts. */
  lemma {:induction false} CallFixesRange(steps: seq<Step>, n: nat)
    requires After(steps).Some? && n < |steps| && steps[n].FlushCalled?
    ensures Calls(steps[..n]) < |After(steps).value.queue.flushes|
    ensures After(steps).value.queue.flushes[Calls(steps[..n])].through == |Reported(steps[..n])| - 1
    decreases |steps|
  {
    var init, last, t := RunStep(steps);
    assert init[..|init|] == init;
    if n < |init| {
      assert init[..n] == steps[..n] && init[n] == steps[n];
      CallFixesRange(init, n);
      StepPersists(t, last, Calls(steps[..n]));
    } else {
      assert steps[..n] == init;
      NewFlush(t, init);
    }
    hide Inv, Enabled, Apply, After;
  }

  lemma NewFlush(t: State, init: seq<Step>)
    requires After(init) == Some(t) && Inv(t)
    ensures var u, f := Apply(t, FlushCalled), Calls(init);
            && f < |u.queue.flushes| && u.queue.flushes[f].outcome.Waiting?
            && u.queue.flushes[f].through == |Reported(init)| - 1
  {
    Counted(init);
    Lengths(t);
    hide Inv, After;
  }

  /** A flush called after the event was reported has resumed. */
  ghost predicate Covered(steps: seq<Step>, q: nat)
  {
    exists c, l | 0 <= c < l < |steps| :: CoversAt(steps, c, l, q)
  }

  ghost predicate CoversAt(steps: seq<Step>, c: nat, l: nat, q: nat)
    requires c < l < |steps|
  {
    steps[c].FlushCalled? && steps[l] == FlushResumes(Calls(steps[..c])) && q < |Reported(steps[..c])|
  }

  lemma {:induction false} CallOf(steps: seq<Step>, f: nat) returns (c: nat)
    requires f < Calls(steps)
    ensures c < |steps| && steps[c].FlushCalled? && Calls(steps[..c]) == f
    decreases |steps|
  {
    var init := steps[..|steps| - 1];
    if f < Calls(init) {
      c := CallOf(init, f);
      assert init[..c] == steps[..c];
    } else {
      c := |init|;
    }
  }

  lemma {:induction false} DrainedMeans(steps: seq<Step>, q: nat)
    requires After(steps).Some?
    ensures q <= After(steps).value.queue.drained <==> Covered(steps, q)
    decreases |steps|
  {
    hide Inv, Covered;
    if steps == [] {
      NothingCovered(q);
    } else {
      var init, last, t := RunStep(steps);
      DrainedMeans(init, q);
      LastCovers(t, last, q);
      CoveredLast(steps, init, last, t, q);
    }
  }

  lemma NothingCovered(q: nat)
    ensures !Covered([], q)
  {
  }

  lemma LastCovers(t: State, last: Step, q: nat)
    requires Enabled(t, last)
    ensures q <= Apply(t, last).queue.drained <==>
            q <= t.queue.drained || (last.FlushResumes? && q <= t.queue.flushes[last.f].through)
  {
    hide Queue.FirstThrough, Queue.KeepAfter;
  }

  lemma CoveredLast(steps: seq<Step>, init: seq<Step>, last: Step, t: State, q: nat)
    requires steps == init + [last] && After(init) == Some(t) && Enabled(t, last)
    ensures Covered(steps, q) <==>
            Covered(init, q) || (last.FlushResumes? && q <= t.queue.flushes[last.f].through)
  {
    forall c, l | 0 <= c < l < |init| ensures CoversAt(steps, c, l, q) <==> CoversAt(init, c, l, q) {
      assert steps[..c] == init[..c] && steps[c] == init[c] && steps[l] == init[l];
    }
    forall c | 0 <= c < |init| ensures steps[..c] == init[..c] && steps[c] == init[c] {
    }
    assert steps[|init|] == last;
    if last.FlushResumes? {
      Counted(init);
      var c := CallOf(init, last.f);
      CallFixesRange(init, c);
      if q <= t.queue.flushes[last.f].through {
        assert CoversAt(steps, c, |init|, q);
      }
      forall d | 0 <= d < |init| && CoversAt(steps, d, |init|, q) ensures q <= t.queue.flushes[last.f].through {
        CallFixesRange(init, d);
      }
    }
  }

  /** The outcome throws the first defect among the first `end` events that no flush of the run covers, if there is one. */
  ghost predicate ThrowsUncovered(run: seq<Step>, end: nat, outcome: Queue.Outcome)
  {
    && (outcome.Threw? <==> exists i: nat, e | i < end :: DiesIn(run, i, e) && !Covered(run, i))
    && (!outcome.Threw? ==> outcome.Returned?)
    && (outcome.Threw? ==>
          && outcome.failure.sequence < end && DiesIn(run, outcome.failure.sequence, outcome.failure.error)
          && !Covered(run, outcome.failure.sequence)
          && forall i: nat, e | i < outcome.failure.sequence && DiesIn(run, i, e) :: Covered(run, i))
  }

  /** Counted in the run alone: once the flush of call `n` has settled, every event reported before the call has been
      attempted, in order, and the flush threw exactly if one of their writes had died of a defect that no flush resumed
      before covered, namely the first. */
  lemma {:induction false} CallSettles(steps: seq<Step>, n: nat) returns (m: nat)
    requires After(steps).Some? && n < |steps| && steps[n].FlushCalled?
    ensures Calls(steps[..n]) < |After(steps).value.queue.flushes|
    ensures var s, f := After(steps).value, Calls(steps[..n]);
            !s.queue.flushes[f].outcome.Waiting? ==>
              && n < m < |steps| && steps[m] == FlushResumes(f)
              && Projection.AllIntents(Reported(steps[..n])) <= s.attempted
              && ThrowsUncovered(steps[..m], |Reported(steps[..n])|, s.queue.flushes[f].outcome)
    decreases |steps|
  {
    var f := Calls(steps[..n]);
    CallFixesRange(steps, n);
    m := 0;
    if !After(steps).value.queue.flushes[f].outcome.Waiting? {
      var init, last, t := RunStep(steps);
      assert steps[..|init|] == init && steps[|init|] == last;
      if n == |init| {
        NewFlush(t, init);
        assert false;
      } else {
        assert init[..n] == steps[..n] && init[n] == steps[n];
        CallFixesRange(init, n);
        StepPersists(t, last, f);
        hide Inv, Enabled, Apply, ThrowsUncovered, Projection.AllIntents;
        if last == FlushResumes(f) {
          m := |init|;
          ResumeSettles(init, t, f, n);
        } else {
          m := CallSettles(init, n);
          assert steps[..m] == init[..m];
        }
      }
    }
  }

  lemma ResumeSettles(init: seq<Step>, t: State, f: nat, n: nat)
    requires After(init) == Some(t) && Inv(t) && Enabled(t, FlushResumes(f)) && n <= |init|
    requires t.queue.flushes[f].through == |Reported(init[..n])| - 1
    ensures Projection.AllIntents(Reported(init[..n])) <= Apply(t, FlushResumes(f)).attempted
    ensures ThrowsUncovered(init, |Reported(init[..n])|, Apply(t, FlushResumes(f)).queue.flushes[f].outcome)
  {
    hide *;
    ResumeAttempts(t, f);
    FlushReturns(init, f);
    LowAbove(t);
    var reported, outcome := |Reported(init[..n])|, Apply(t, FlushResumes(f)).queue.flushes[f].outcome;
    ReportedByThen(init, t, n);
    ReportsUncovered(init, t, reported - 1, outcome);
  }

  lemma ResumeAttempts(t: State, f: nat)
    requires Enabled(t, FlushResumes(f))
    ensures f < |t.queue.flushes| == |Apply(t, FlushResumes(f)).queue.flushes|
    ensures Apply(t, FlushResumes(f)).attempted == t.attempted
  {
    hide Queue.FirstThrough, Queue.KeepAfter;
  }

  lemma ReportedByThen(init: seq<Step>, t: State, n: nat)
    requires After(init) == Some(t) && n <= |init|
    ensures |Reported(init[..n])| <= |t.events| && t.events[..|Reported(init[..n])|] == Reported(init[..n])
  {
    Counted(init);
    ReportedPrefix(init, n);
    hide *;
  }

  lemma ReportsUncovered(init: seq<Step>, t: State, through: int, outcome: Queue.Outcome)
    requires After(init) == Some(t) && Reports(t, t.queue.drained, through, outcome) && t.queue.drained >= -1 && through >= -1
    ensures ThrowsUncovered(init, through + 1, outcome)
  {
    forall i: nat ensures i <= t.queue.drained <==> Covered(init, i) {
      DrainedMeans(init, i);
    }
    forall i: nat, e ensures DiedOf(t, i, e) <==> DiesIn(init, i, e) {
      DefectsOfRun(init, i, e);
    }
    hide Covered, DiesIn, DiedOf, After;
  }

  lemma {:induction false} ReportedPrefix(steps: seq<Step>, n: nat)
    requires n <= |steps|
    ensures Reported(steps[..n]) <= Reported(steps)
    decreases |steps|
  {
    if n < |steps| {
      ReportedPrefix(steps[..|steps| - 1], n);
      assert steps[..|steps| - 1][..n] == steps[..n];
    } else {
      assert steps[..n] == steps;
    }
  }

  // ---------------------------------------------------------------- coming to rest

  /** Nothing the reporter does on its own can happen. */
  ghost predicate AtRest(s: State)
  {
    && (forall i: nat :: !Enabled(s, WriteStarts(i)) && !Enabled(s, WriteGranted(i)))
    && (forall i: nat :: !Enabled(s, WriteReleases(i, Persisted)) && !Enabled(s, WriteSettles(i)))
    && (forall f: nat :: !Enabled(s, FlushResumes(f)))
  }

  /** The lock's other users have released it. */
  ghost predicate LeftAlone(s: State)
  {
    forall t | 0 <= t < |s.lock| && t !in s.ticketOf :: s.lock[t].Released?
  }

  /** If nobody else keeps the lock, the reporter comes to rest only with every event attempted and every flush settled. */
  lemma RestingIsFlushed(s: State)
    requires Inv(s) && AtRest(s) && LeftAlone(s)
    ensures forall i | 0 <= i < |s.queue.writes| :: Queue.Finished(s.queue.writes[i])
    ensures forall f | 0 <= f < |s.queue.flushes| :: !s.queue.flushes[f].outcome.Waiting?
    ensures s.attempted == Projection.AllIntents(s.events)
  {
    if i :| 0 <= i < |s.queue.writes| && !Queue.Finished(s.queue.writes[i]) {
      var j := LowestUnfinished(s.queue.writes, i);
      WriteMoves(s, j);
    }
    FlushesMove(s);
    AllAttempted(s);
  }

  lemma {:induction false} LowestUnfinished(writes: seq<Queue.Phase>, i: nat) returns (j: nat)
    requires i < |writes| && !Queue.Finished(writes[i])
    ensures j <= i && !Queue.Finished(writes[j]) && forall k | 0 <= k < j :: Queue.Finished(writes[k])
    decreases i
  {
    if k :| 0 <= k < i && !Queue.Finished(writes[k]) {
      j := LowestUnfinished(writes, k);
    } else {
      j := i;
    }
  }

  lemma WriteMoves(s: State, j: nat)
    requires Inv(s) && LeftAlone(s) && j < |s.queue.writes| && !Queue.Finished(s.queue.writes[j])
    requires forall k | 0 <= k < j :: Queue.Finished(s.queue.writes[k])
    ensures !AtRest(s)
  {
    Lengths(s);
    LaterQueued(s, j);
    TicketMoves(s.queue.writes, s.lock, s.ticketOf, s.begun, s.escaped, j);
    hide Inv, LeftAlone;
    NextMoves(s, j);
  }

  lemma NextMoves(s: State, j: nat)
    requires j < |s.queue.writes| && !Queue.Finished(s.queue.writes[j]) && |s.intents| == |s.queue.writes|
    requires forall k | 0 <= k < j :: Queue.Finished(s.queue.writes[k])
    requires !s.queue.writes[j].Queued? ==>
               && j < |s.ticketOf| && s.ticketOf[j] < |s.lock|
               && (s.lock[s.ticketOf[j]].Released? ==> j in s.escaped)
               && (s.lock[s.ticketOf[j]].Waiting? ==> Lock.Enabled(s.lock, Lock.Grant(s.ticketOf[j])))
    ensures !AtRest(s)
  {
    if s.queue.writes[j].Queued? {
      assert Enabled(s, WriteStarts(j));
    } else if s.lock[s.ticketOf[j]].Held? {
      assert Enabled(s, WriteReleases(j, Persisted));
    } else if s.lock[s.ticketOf[j]].Released? {
      assert Enabled(s, WriteSettles(j));
    } else {
      assert Enabled(s, WriteGranted(j));
    }
  }

  lemma LaterQueued(s: State, j: nat)
    requires Inv(s) && j < |s.queue.writes| && !Queue.Finished(s.queue.writes[j])
    ensures forall k | j < k < |s.queue.writes| :: s.queue.writes[k].Queued?
  {
    hide Lock.Inv, Projected, Concat, Ticketed;
  }

  lemma TicketMoves(writes: seq<Queue.Phase>, lock: Lock.State, ticketOf: seq<nat>, begun: nat,
      escaped: map<nat, Option<Queue.Error>>, j: nat)
    requires Ticketed(writes, lock, ticketOf, begun, escaped) && j < |writes| && !Queue.Finished(writes[j])
    requires forall k | 0 <= k < j :: Queue.Finished(writes[k])
    requires forall k | j < k < |writes| :: writes[k].Queued?
    requires forall t | 0 <= t < |lock| && t !in ticketOf :: lock[t].Released?
    ensures !writes[j].Queued? ==>
              && j < |ticketOf| && ticketOf[j] < |lock|
              && (lock[ticketOf[j]].Released? ==> j in escaped)
              && (lock[ticketOf[j]].Waiting? ==> Lock.Enabled(lock, Lock.Grant(ticketOf[j])))
  {
    if !writes[j].Queued? && lock[ticketOf[j]].Waiting? && ticketOf[j] > 0 {
      var t := ticketOf[j] - 1;
      if t in ticketOf {
        var k :| 0 <= k < |ticketOf| && ticketOf[k] == t;
        assert k < j ==> k in escaped;
        assert !writes[k].Queued?;
      }
    }
  }

  lemma FlushesMove(s: State)
    requires Inv(s) && AtRest(s) && forall i | 0 <= i < |s.queue.writes| :: Queue.Finished(s.queue.writes[i])
    ensures forall f | 0 <= f < |s.queue.flushes| :: !s.queue.flushes[f].outcome.Waiting?
  {
    hide Lock.Inv, Projected, Concat, Ticketed, Queue.LedgerExact, Queue.InOrder;
    forall f | 0 <= f < |s.queue.flushes| ensures !s.queue.flushes[f].outcome.Waiting? {
      assert !Enabled(s, FlushResumes(f));
    }
  }

  lemma AllAttempted(s: State)
    requires Inv(s) && forall i | 0 <= i < |s.queue.writes| :: Queue.Finished(s.queue.writes[i])
    ensures s.attempted == Projection.AllIntents(s.events)
  {
    hide Queue.Inv, Lock.Inv;
    Lengths(s);
    if |s.queue.writes| > 0 {
      HasBegun(s.queue.writes, s.lock, s.ticketOf, s.begun, s.escaped, |s.queue.writes| - 1);
    }
    AllConcat(s.projection, s.intents, s.events);
    hide *;
    assert s.begun == |s.intents|;
    assert s.intents[..|s.intents|] == s.intents;
  }

  lemma AllConcat(projection: Projection.State, intents: seq<seq<Projection.Intent>>, events: seq<Projection.RuntimeEvent>)
    requires Projected(projection, intents, events)
    ensures Concat(intents) == Projection.AllIntents(events)
  {
    hide Concat, Projection.AllIntents, Projection.StateAfter;
    assert intents[..|events|] == intents && events[..|events|] == events;
  }

  /** A run in which one event is reported and flushed. */
  function FlushedOnce(event: Projection.RuntimeEvent, fate: Fate): seq<Step>
  {
    [Report(event), WriteStarts(0), WriteGranted(0), WriteReleases(0, fate), WriteSettles(0), FlushCalled, FlushResumes(0)]
  }

  lemma Next(steps: seq<Step>, s: State, step: Step)
    requires After(steps) == Some(s) && Enabled(s, step)
    ensures After(steps + [step]) == Some(Apply(s, step))
  {
    assert (steps + [step])[..|steps|] == steps;
  }

  /** Its flush returns although persisting failed, and throws if a defect escaped. */
  lemma DefectBreaksFlush(event: Projection.RuntimeEvent, fate: Fate)
    ensures var last := After(FlushedOnce(event, fate));
            && last.Some? && |last.value.queue.flushes| == 1
            && last.value.queue.flushes[0].outcome ==
               if fate.Died? then Queue.Threw(Queue.Failure(fate.defect, 0)) else Queue.Returned
  {
    var r5 := [Report(event), WriteStarts(0), WriteGranted(0), WriteReleases(0, fate), WriteSettles(0)];
    var s5 := FirstEnds(event, fate);
    FlushLast(r5, s5, fate);
    assert r5 + [FlushCalled] + [FlushResumes(0)] == FlushedOnce(event, fate);
  }

  lemma FirstEnds(event: Projection.RuntimeEvent, fate: Fate) returns (s: State)
    ensures After([Report(event), WriteStarts(0), WriteGranted(0), WriteReleases(0, fate), WriteSettles(0)]) == Some(s)
    ensures s.queue.writes == [Ended(Escapes(fate))] && s.queue.flushes == []
    ensures s.queue.failures == if fate.Died? then [Queue.Failure(fate.defect, 0)] else []
  {
    var s3 := FirstBegins(event);
    hide After, Projection.ProjectRuntimeEvent;
    var r3 := [Report(event), WriteStarts(0), WriteGranted(0)];
    Next(r3, s3, WriteReleases(0, fate));
    var s4 := Apply(s3, WriteReleases(0, fate));
    Next(r3 + [WriteReleases(0, fate)], s4, WriteSettles(0));
    s := Apply(s4, WriteSettles(0));
    assert r3 + [WriteReleases(0, fate)] + [WriteSettles(0)] ==
           [Report(event), WriteStarts(0), WriteGranted(0), WriteReleases(0, fate), WriteSettles(0)];
  }

  lemma FirstBegins(event: Projection.RuntimeEvent) returns (s: State)
    ensures After([Report(event), WriteStarts(0), WriteGranted(0)]) == Some(s)
    ensures s.queue == Queue.State([Queue.Running], [], [], -1) && s.ticketOf == [0] && s.lock == [Lock.Held]
    ensures s.escaped == map[]
  {
    var r0: seq<Step> := [];
    assert After(r0) == Some(INITIAL);
    hide After, Projection.ProjectRuntimeEvent;
    Next(r0, INITIAL, Report(event));
    var s1 := Apply(INITIAL, Report(event));
    assert s1.queue == Queue.State([Queue.Queued], [], [], -1) && s1.lock == [] && s1.ticketOf == [] && |s1.intents| == 1;
    Next(r0 + [Report(event)], s1, WriteStarts(0));
    var s2 := Apply(s1, WriteStarts(0));
    Next(r0 + [Report(event)] + [WriteStarts(0)], s2, WriteGranted(0));
    s := Apply(s2, WriteGranted(0));
    assert r0 + [Report(event)] + [WriteStarts(0)] + [WriteGranted(0)] == [Report(event), WriteStarts(0), WriteGranted(0)];
  }

  lemma FlushLast(steps: seq<Step>, s: State, fate: Fate)
    requires After(steps) == Some(s) && s.queue.writes == [Ended(Escapes(fate))] && s.queue.flushes == []
    requires s.queue.failures == if fate.Died? then [Queue.Failure(fate.defect, 0)] else []
    ensures var last := After(steps + [FlushCalled] + [FlushResumes(0)]);
            && last.Some? && |last.value.queue.flushes| == 1
            && last.value.queue.flushes[0].outcome ==
               if fate.Died? then Queue.Threw(Queue.Failure(fate.defect, 0)) else Queue.Returned
  {
    Next(steps, s, FlushCalled);
    var t := Apply(s, FlushCalled);
    Next(steps + [FlushCalled], t, FlushResumes(0));
    hide After;
  }

  /** The same step, whatever typed failure the persistence met. */
  predicate SameButFailure(x: Step, y: Step)
  {
    if x.WriteReleases? then y.WriteReleases? && x.i == y.i && Escapes(x.fate) == Escapes(y.fate) else x == y
  }

  /** The writes whose persistence met a typed failure, in the order in which it did. */
  function Failing(steps: seq<Step>): seq<nat>
  {
    if steps == [] then []
    else
      var last := steps[|steps| - 1];
      Failing(steps[..|steps| - 1]) + if last.WriteReleases? && last.fate.Skipped? then [last.i] else []
  }

  /** Typed failures show in the log alone: a run takes the same course, and each of its flushes has the same outcome,
      whichever writes meet one. */
  lemma {:induction false} PersistenceInvisible(steps: seq<Step>, other: seq<Step>)
    requires |steps| == |other| && forall k | 0 <= k < |steps| :: SameButFailure(steps[k], other[k])
    ensures After(steps).Some? <==> After(other).Some?
    ensures After(steps).Some? ==>
              && After(other).value == After(steps).value.(skipped := Failing(other))
              && After(steps).value.skipped == Failing(steps)
    decreases |steps|
  {
    if steps != [] {
      var n := |steps| - 1;
      PersistenceInvisible(steps[..n], other[..n]);
      if After(steps[..n]).Some? {
        SameCourse(After(steps[..n]).value, After(other[..n]).value, steps[n], other[n]);
      }
    }
  }

  lemma SameCourse(s: State, t: State, x: Step, y: Step)
    requires SameButFailure(x, y) && t == s.(skipped := t.skipped)
    ensures Enabled(s, x) <==> Enabled(t, y)
    ensures Enabled(s, x) ==>
              && Apply(t, y) == Apply(s, x).(skipped := Apply(t, y).skipped)
              && Apply(s, x).skipped == s.skipped + (if x.WriteReleases? && x.fate.Skipped? then [x.i] else [])
              && Apply(t, y).skipped == t.skipped + (if y.WriteReleases? && y.fate.Skipped? then [y.i] else [])
  {
  }

  /** While someone else holds the lock, no write is between its grant and its release. */
  lemma PersistenceExcludesOthers(steps: seq<Step>, i: nat, other: nat)
    requires After(steps).Some?
    requires i < |After(steps).value.ticketOf| && other < |After(steps).value.lock| && other !in After(steps).value.ticketOf
    ensures var s := After(steps).value;
            s.ticketOf[i] < |s.lock| && !(s.lock[other].Held? && s.lock[s.ticketOf[i]].Held?)
  {
    EveryRun(steps);
    var s := After(steps).value;
    Lengths(s);
    LockKept(s);
    hide Inv, After;
    OneHolds(s.lock, other, s.ticketOf, i);
  }

  lemma OneHolds(lock: Lock.State, other: nat, ticketOf: seq<nat>, i: nat)
    requires Lock.Inv(lock) && i < |ticketOf| && other < |lock| && other !in ticketOf && ticketOf[i] < |lock|
    ensures !(lock[other].Held? && lock[ticketOf[i]].Held?)
  {
    assert ticketOf[i] in ticketOf;
  }

  lemma LockKept(s: State)
    requires Inv(s)
    ensures Lock.Inv(s.lock)
  {
    hide Queue.Inv, Lock.Inv, Projected, Concat, Ticketed;
  }
}
