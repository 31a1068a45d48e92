/** The runner event sink: numbering, batching and serialized flushes (src/runner-event-sink.ts). */
module EventSink {
  import opened Wrappers

  // ---------------------------------------------------------------- records

  /** `Single` stands for every event type that maps to exactly one record. */
  datatype RuntimeEvent =
    | WorkflowPlanned(edges: seq<(string, string)>)
    | NodeSession(nodeId: string, sessionId: string)
    | Single(eventType: string)

  datatype Body = PlanBody(edges: seq<(string, string)>) | EdgeBody(source: string,
      target: string) | EventBody(eventType: string)

  datatype Record = Record(sequence: nat, body: Body)

  /** The records of one event, numbered from `sequence`. */
  function MapRuntimeEvent(event: RuntimeEvent, sequence: nat): seq<Record>
  {
    match event
    case WorkflowPlanned(edges) =>
      [Record(sequence, PlanBody(edges))]
      + seq(|edges|, i requires 0 <= i < |edges| => Record(sequence + i + 1, EdgeBody(edges[i].0, edges[i].1)))
    case NodeSession(_, _) => []
    case Single(eventType) => [Record(sequence, EventBody(eventType))]
  }

  /** What an event contributes, before numbering. */
  function Bodies(event: RuntimeEvent): seq<Body>
  {
    match event
    case WorkflowPlanned(edges) =>
      [PlanBody(edges)] + seq(|edges|, i requires 0 <= i < |edges| => EdgeBody(edges[i].0, edges[i].1))
    case NodeSession(_, _) => []
    case Single(eventType) => [EventBody(eventType)]
  }

  /** Consecutive numbers from `first`. */
  function Number(bodies: seq<Body>, first: nat): (r: seq<Record>)
    ensures |r| == |bodies|
    ensures forall i | 0 <= i < |bodies| :: r[i] == Record(first + i, bodies[i])
  {
    seq(|bodies|, i requires 0 <= i < |bodies| => Record(first + i, bodies[i]))
  }

  lemma MappedCases(event: RuntimeEvent, sequence: nat)
    ensures var records := MapRuntimeEvent(event, sequence);
            && (event.WorkflowPlanned? ==>
                  && |records| == |event.edges| + 1 && records[0] == Record(sequence, PlanBody(event.edges))
                  && forall i | 0 <= i < |event.edges| ::
                       records[i + 1] == Record(sequence + 1 + i, EdgeBody(event.edges[i].0, event.edges[i].1)))
            && (event.NodeSession? ==> records == [])
            && (event.Single? ==> records == [Record(sequence, EventBody(event.eventType))])
  {
    match event
    case WorkflowPlanned(edges) =>
      var records := MapRuntimeEvent(event, sequence);
      forall i | 0 <= i < |edges|
        ensures records[i + 1] == Record(sequence + 1 + i, EdgeBody(edges[i].0, edges[i].1))
      {
      }
    case NodeSession(_, _) =>
    case Single(_) =>
  }

  lemma BodiesCases(event: RuntimeEvent)
    ensures var bodies := Bodies(event);
            && (event.WorkflowPlanned? ==>
                  && |bodies| == |event.edges| + 1 && bodies[0] == PlanBody(event.edges)
                  && forall i | 0 <= i < |event.edges| :: bodies[i + 1] == EdgeBody(event.edges[i].0, event.edges[i].1))
            && (event.NodeSession? ==> bodies == [])
            && (event.Single? ==> bodies == [EventBody(event.eventType)])
  {
    match event
    case WorkflowPlanned(edges) =>
      var bodies := Bodies(event);
      forall i | 0 <= i < |edges| ensures bodies[i + 1] == EdgeBody(edges[i].0, edges[i].1) {
      }
    case NodeSession(_, _) =>
    case Single(_) =>
  }

  /** A plan yields its own record and then one for every edge, a session none, any other event one; they are numbered
      without a gap. */
  lemma MappedIsNumbered(event: RuntimeEvent, sequence: nat)
    ensures MapRuntimeEvent(event, sequence) == Number(Bodies(event), sequence)
    ensures var records := MapRuntimeEvent(event, sequence);
            && (event.WorkflowPlanned? ==>
                  && |records| == |event.edges| + 1 && records[0] == Record(sequence, PlanBody(event.edges))
                  && forall i | 0 <= i < |event.edges| ::
                       records[i + 1] == Record(sequence + 1 + i, EdgeBody(event.edges[i].0, event.edges[i].1)))
            && (event.NodeSession? ==> records == [])
            && (event.Single? ==> records == [Record(sequence, EventBody(event.eventType))])
  {
    MappedCases(event, sequence);
    BodiesCases(event);
    hide MapRuntimeEvent, Bodies;
    var mapped, numbered := MapRuntimeEvent(event, sequence), Number(Bodies(event), sequence);
    forall i | 0 <= i < |mapped| ensures mapped[i] == numbered[i] {
      if event.WorkflowPlanned? && i > 0 {
        var k := i - 1;
        assert mapped[k + 1] == Record(sequence + 1 + k, EdgeBody(event.edges[k].0, event.edges[k].1));
        assert Bodies(event)[k + 1] == EdgeBody(event.edges[k].0, event.edges[k].1);
      }
    }
  }

  lemma NumberAppend(a: seq<Body>, b: seq<Body>, first: nat)
    ensures Number(a + b, first) == Number(a, first) + Number(b, first + |a|)
  {
  }

  // ---------------------------------------------------------------- the protocol

  datatype Phase = Waiting | Posting(batch: seq<Record>) | Succeeded | Failed

  /** A flush in the chain; `recorded` is the number of records made when it was requested. */
  datatype Flush = Flush(phase: Phase, recorded: nat)

  /** The sink's variables, its pending microtasks and flush chain, and two histories: what was recorded and what
      the server acknowledged. */
  datatype State = State(
    queue: seq<Record>, nextSequence: nat, scheduledFlush: bool, microtasks: nat, flushes: seq<Flush>,
    bodies: seq<Body>, acknowledged: seq<Record>)

  /** One uninterrupted piece of execution: between any two of them others may interleave. */
  datatype Step =
    | RecordEvent(event: RuntimeEvent)
    | RecordDirect(direct: seq<Body>)
    | RunMicrotask
    | RequestFlush
    | BeginFlush(k: nat)
    | PostSucceeds(k: nat)
    | PostFails(k: nat)

  const INITIAL := State([], 1, false, 0, [], [], [])

  predicate Settled(f: Flush)
  {
    f.phase.Succeeded? || f.phase.Failed?
  }

  /** A flush starts once the previous one has settled, whichever way. */
  predicate Enabled(s: State, step: Step)
  {
    match step
    case RecordEvent(_) => true
    case RecordDirect(_) => true
    case RunMicrotask => s.microtasks > 0
    case RequestFlush => true
    case BeginFlush(k) => k < |s.flushes| && s.flushes[k].phase.Waiting? && (k > 0 ==> Settled(s.flushes[k - 1]))
    case PostSucceeds(k) => k < |s.flushes| && s.flushes[k].phase.Posting?
    case PostFails(k) => k < |s.flushes| && s.flushes[k].phase.Posting?
  }

  function Enqueue(s: State, records: seq<Record>, bodies: seq<Body>): State
  {
    s.(queue := s.queue + records,
       nextSequence := s.nextSequence + |records|,
       scheduledFlush := true,
       microtasks := if s.scheduledFlush then s.microtasks else s.microtasks + 1,
       bodies := s.bodies + bodies)
  }

  function Drop(queue: seq<Record>, n: nat): seq<Record>
  {
    if n <= |queue| then queue[n..] else []
  }

  /** The head of the flush loop: post the next batch, or finish when nothing is queued. */
  function NextPhase(queue: seq<Record>, batchSize: nat): Phase
  {
    if queue == [] then Succeeded
    else Posting(if batchSize <= |queue| then queue[..batchSize] else queue)
  }

  function Apply(s: State, step: Step, batchSize: nat): State
    requires Enabled(s, step)
  {
    match step
    case RecordEvent(event) => Enqueue(s, MapRuntimeEvent(event, s.nextSequence), Bodies(event))
    case RecordDirect(direct) => Enqueue(s, Number(direct, s.nextSequence), direct)
    case RunMicrotask =>
      s.(scheduledFlush := false, microtasks := s.microtasks - 1, flushes := s.flushes + [Flush(Waiting, |s.bodies|)])
    case RequestFlush => s.(flushes := s.flushes + [Flush(Waiting, |s.bodies|)])
    case BeginFlush(k) => s.(flushes := s.flushes[k := s.flushes[k].(phase := NextPhase(s.queue, batchSize))])
    case PostSucceeds(k) =>
      var batch := s.flushes[k].phase.batch;
      var rest := Drop(s.queue, |batch|);
      s.(queue := rest, acknowledged := s.acknowledged + batch,
         flushes := s.flushes[k := s.flushes[k].(phase := NextPhase(rest, batchSize))])
    case PostFails(k) => s.(flushes := s.flushes[k := s.flushes[k].(phase := Failed)])
  }

  /** The state after a whole run, if every step of it was enabled. */
  ghost function After(steps: seq<Step>, batchSize: nat): Option<State>
  {
    if steps == [] then Some(INITIAL)
    else
      var before, step := After(steps[..|steps| - 1], batchSize), steps[|steps| - 1];
      if before.Some? && Enabled(before.value, step) then Some(Apply(before.value, step, batchSize)) else None
  }

  // ---------------------------------------------------------------- what every step keeps

  /** Acknowledged records followed by the queue are everything recorded, numbered from 1. */
  ghost predicate Conserved(s: State)
  {
    && s.acknowledged + s.queue == Number(s.bodies, 1)
    && s.nextSequence == |s.bodies| + 1
  }

  /** Flushes run one after the other, and the batch being posted is still the front of the queue. */
  ghost predicate Serialized(s: State)
  {
    && (forall i, k | 0 <= i < k < |s.flushes| && !s.flushes[k].phase.Waiting? :: Settled(s.flushes[i]))
    && (forall k | 0 <= k < |s.flushes| && s.flushes[k].phase.Posting? ::
          s.flushes[k].phase.batch != [] && s.flushes[k].phase.batch <= s.queue)
  }

  /** No posting exceeds the batch size. */
  ghost predicate Bounded(s: State, batchSize: nat)
  {
    forall k | 0 <= k < |s.flushes| && s.flushes[k].phase.Posting? :: |s.flushes[k].phase.batch| <= batchSize
  }

  /** A flush that succeeded left everything recorded before it acknowledged. */
  ghost predicate Delivered(s: State)
  {
    forall k | 0 <= k < |s.flushes| ::
      && s.flushes[k].recorded <= |s.bodies|
      && (s.flushes[k].phase.Succeeded? ==> s.flushes[k].recorded <= |s.acknowledged|)
  }

  ghost predicate LastFailed(s: State)
  {
    s.flushes != [] && s.flushes[|s.flushes| - 1].phase.Failed?
  }

  ghost predicate Unsettled(s: State)
  {
    exists k | 0 <= k < |s.flushes| :: !Settled(s.flushes[k])
  }

  /** Queued records are never forgotten: a flush is scheduled or under way, or the last one failed. */
  ghost predicate Awake(s: State)
  {
    && s.microtasks == (if s.scheduledFlush then 1 else 0)
    && (s.queue != [] ==> s.scheduledFlush || Unsettled(s) || LastFailed(s))
  }

  ghost predicate Inv(s: State)
  {
    Conserved(s) && Serialized(s) && Delivered(s) && Awake(s)
  }

  lemma EnqueueKeeps(s: State, bodies: seq<Body>)
    requires Inv(s)
    ensures Inv(Enqueue(s, Number(bodies, s.nextSequence), bodies))
  {
    var t := Enqueue(s, Number(bodies, s.nextSequence), bodies);
    NumberAppend(s.bodies, bodies, 1);
    assert t.acknowledged + t.queue == (s.acknowledged + s.queue) + Number(bodies, s.nextSequence);
  }

  lemma RequestKeeps(s: State, scheduled: bool, microtasks: nat)
    requires Inv(s) && microtasks == if scheduled then 1 else 0
    ensures Inv(s.(scheduledFlush := scheduled, microtasks := microtasks, flushes := s.flushes + [Flush(Waiting,
        |s.bodies|)]))
  {
    var t := s.(scheduledFlush := scheduled, microtasks := microtasks, flushes := s.flushes + [Flush(Waiting, |s.bodies|)]);
    assert !Settled(t.flushes[|s.flushes|]);
  }

  /** Settling the flush `k` that is not waiting, with the given phase, keeps the chain serialized. */
  lemma ReplaceSerialized(s: State, k: nat, queue: seq<Record>, phase: Phase)
    requires Serialized(s) && k < |s.flushes| && !phase.Waiting?
    requires forall i | 0 <= i < k :: Settled(s.flushes[i])
    requires forall i | k < i < |s.flushes| :: s.flushes[i].phase.Waiting?
    requires phase.Posting? ==> phase.batch != [] && phase.batch <= queue
    ensures Serialized(s.(queue := queue, flushes := s.flushes[k := s.flushes[k].(phase := phase)]))
  {
  }

  lemma BehindUnsettled(s: State, k: nat)
    requires Serialized(s) && k < |s.flushes| && !Settled(s.flushes[k])
    ensures forall i | k < i < |s.flushes| :: s.flushes[i].phase.Waiting?
  {
  }

  lemma PhaseFits(queue: seq<Record>, batchSize: nat)
    requires batchSize >= 1
    ensures var phase := NextPhase(queue, batchSize);
            !phase.Waiting? && !phase.Failed? && (phase.Succeeded? <==> queue == []) &&
            (phase.Posting? ==> phase.batch != [] && phase.batch <= queue)
  {
  }

  /** The flush loop's next phase, over a queue of which `batch` was just acknowledged, keeps everything. */
  lemma AdvanceKeeps(s: State, k: nat, batch: seq<Record>, batchSize: nat)
    requires Inv(s) && batchSize >= 1 && k < |s.flushes| && batch <= s.queue
    requires !Settled(s.flushes[k]) && forall i | 0 <= i < k :: Settled(s.flushes[i])
    ensures var rest := s.queue[|batch|..];
            Inv(s.(queue := rest, acknowledged := s.acknowledged + batch,
                   flushes := s.flushes[k := s.flushes[k].(phase := NextPhase(rest, batchSize))]))
  {
    var rest := s.queue[|batch|..];
    var t := s.(queue := rest, acknowledged := s.acknowledged + batch,
                flushes := s.flushes[k := s.flushes[k].(phase := NextPhase(rest, batchSize))]);
    assert batch + rest == s.queue;
    assert (s.acknowledged + batch) + rest == s.acknowledged + s.queue;
    BehindUnsettled(s, k);
    PhaseFits(rest, batchSize);
    ReplaceSerialized(s, k, rest, NextPhase(rest, batchSize));
    if rest == [] {
      assert |t.acknowledged| == |t.acknowledged + t.queue| == |s.bodies|;
    } else {
      assert !Settled(t.flushes[k]);
    }
  }

  lemma FailKeeps(s: State, k: nat)
    requires Inv(s) && k < |s.flushes| && s.flushes[k].phase.Posting?
    ensures Inv(s.(flushes := s.flushes[k := s.flushes[k].(phase := Failed)]))
  {
    var t := s.(flushes := s.flushes[k := s.flushes[k].(phase := Failed)]);
    BehindUnsettled(s, k);
    ReplaceSerialized(s, k, s.queue, Failed);
    if k < |s.flushes| - 1 {
      assert !Settled(t.flushes[|s.flushes| - 1]);
    }
  }

  /** Every step of every interleaving keeps the invariant. */
  lemma StepKeeps(s: State, step: Step, batchSize: nat)
    requires Inv(s) && Enabled(s, step) && batchSize >= 1
    ensures Inv(Apply(s, step, batchSize))
    ensures Bounded(s, batchSize) ==> Bounded(Apply(s, step, batchSize), batchSize)
  {
    hide Inv;
    match step
    case RecordEvent(event) =>
      MappedIsNumbered(event, s.nextSequence);
      EnqueueKeeps(s, Bodies(event));
    case RecordDirect(direct) => EnqueueKeeps(s, direct);
    case RunMicrotask =>
      OneMicrotask(s);
      RequestKeeps(s, false, 0);
    case RequestFlush =>
      OneMicrotask(s);
      RequestKeeps(s, s.scheduledFlush, s.microtasks);
    case BeginFlush(k) =>
      EarlierSettled(s, k);
      var none: seq<Record> := [];
      assert s.queue[|none|..] == s.queue && s.acknowledged + none == s.acknowledged;
      AdvanceKeeps(s, k, none, batchSize);
    case PostSucceeds(k) =>
      EarlierSettled(s, k);
      AdvanceKeeps(s, k, s.flushes[k].phase.batch, batchSize);
    case PostFails(k) => FailKeeps(s, k);
  }

  lemma Numbered(s: State)
    requires Inv(s)
    ensures s.nextSequence == |s.bodies| + 1
  {
  }

  lemma OneMicrotask(s: State)
    requires Inv(s)
    ensures s.microtasks == if s.scheduledFlush then 1 else 0
  {
  }

  lemma EarlierSettled(s: State, k: nat)
    requires Inv(s) && (Enabled(s, BeginFlush(k)) || Enabled(s, PostSucceeds(k)))
    ensures forall i | 0 <= i < k :: Settled(s.flushes[i])
    ensures s.flushes[k].phase.Posting? ==> s.flushes[k].phase.batch <= s.queue
  {
    if k > 0 && s.flushes[k].phase.Waiting? {
      assert !s.flushes[k - 1].phase.Waiting?;
    }
  }

  /** Conservation over every run: nothing recorded is lost, duplicated, reordered or misnumbered, one flush drains
      at a time, in batches of at most the given size, and a flush that succeeded left everything recorded before it
      acknowledged. */
  lemma {:induction false} EveryRun(steps: seq<Step>, batchSize: nat)
    requires batchSize >= 1 && After(steps, batchSize).Some?
    ensures Inv(After(steps, batchSize).value) && Bounded(After(steps, batchSize).value, batchSize)
    decreases |steps|
  {
    if steps != [] {
      var before := After(steps[..|steps| - 1], batchSize);
      EveryRun(steps[..|steps| - 1], batchSize);
      StepKeeps(before.value, steps[|steps| - 1], batchSize);
    }
  }

  lemma OneDrains(s: State, i: nat, k: nat)
    requires Inv(s) && i < k < |s.flushes|
    ensures !(s.flushes[i].phase.Posting? && s.flushes[k].phase.Posting?)
  {
  }

  /** What a flush does in one step. Beginning leaves the records where they are; a post that succeeds acknowledges just
      its batch and takes it off the queue; after either the flush is through exactly when nothing is queued, and
      otherwise posts the front of the queue, as much as a batch holds. A post that fails loses nothing. */
  lemma FlushMoves(s: State, step: Step, k: nat, batchSize: nat)
    requires Inv(s) && Enabled(s, step) && batchSize >= 1
    requires step == BeginFlush(k) || step == PostSucceeds(k) || step == PostFails(k)
    ensures var t, phase := Apply(s, step, batchSize), Apply(s, step, batchSize).flushes[k].phase;
            && (if step.PostSucceeds? then
                  t.acknowledged == s.acknowledged + s.flushes[k].phase.batch && s.flushes[k].phase.batch + t.queue == s.queue
                else t.acknowledged == s.acknowledged && t.queue == s.queue)
            && (step.PostFails? ==> phase == Failed)
            && (!step.PostFails? && t.queue == [] ==> phase == Succeeded)
            && (!step.PostFails? && t.queue != [] ==>
                  phase.Posting? && phase.batch <= t.queue && (|phase.batch| == batchSize || phase.batch == t.queue) &&
                  |phase.batch| <= batchSize)
  {
    if step.PostSucceeds? {
      EarlierSettled(s, k);
    }
  }

  // ---------------------------------------------------------------- what a run recorded

  /** What the steps of a run record, in order. */
  ghost function Recorded(steps: seq<Step>): seq<Body>
  {
    if steps == [] then []
    else
      Recorded(steps[..|steps| - 1]) +
      match steps[|steps| - 1]
      case RecordEvent(event) => Bodies(event)
      case RecordDirect(direct) => direct
      case _ => []
  }

  /** How many flushes the steps of a run ask for. */
  ghost function Requests(steps: seq<Step>): nat
  {
    if steps == [] then 0
    else
      Requests(steps[..|steps| - 1]) +
      if steps[|steps| - 1].RequestFlush? || steps[|steps| - 1].RunMicrotask? then 1 else 0
  }

  lemma {:induction false} Counted(steps: seq<Step>, batchSize: nat)
    requires After(steps, batchSize).Some?
    ensures After(steps, batchSize).value.bodies == Recorded(steps)
    ensures |After(steps, batchSize).value.flushes| == Requests(steps)
    decreases |steps|
  {
    if steps != [] {
      Counted(steps[..|steps| - 1], batchSize);
    }
  }

  /** The flush asked for by step `n` keeps how much was recorded before that step. */
  lemma {:induction false} RequestFixes(steps: seq<Step>, batchSize: nat, n: nat)
    requires After(steps, batchSize).Some? && n < |steps| && (steps[n].RequestFlush? || steps[n].RunMicrotask?)
    ensures var flushes, k := After(steps, batchSize).value.flushes, Requests(steps[..n]);
            k < |flushes| && flushes[k].recorded == |Recorded(steps[..n])|
    decreases |steps|
  {
    hide MapRuntimeEvent, Bodies, Number, Recorded, NextPhase, Drop;
    var init := steps[..|steps| - 1];
    if n < |init| {
      RequestFixes(init, batchSize, n);
      assert init[..n] == steps[..n];
    } else {
      assert steps[..n] == init;
      Counted(init, batchSize);
    }
  }

  lemma {:induction false} RecordedPrefix(steps: seq<Step>, n: nat)
    requires n <= |steps|
    ensures Recorded(steps[..n]) <= Recorded(steps)
    decreases |steps|
  {
    if n < |steps| {
      RecordedPrefix(steps[..|steps| - 1], n);
      assert steps[..|steps| - 1][..n] == steps[..n];
    } else {
      assert steps[..n] == steps;
    }
  }

  /** Once the flush that step `n` asks for has succeeded, everything recorded before that step is acknowledged, in order,
      and whatever else is acknowledged follows it in the order of recording. */
  lemma FlushDelivers(steps: seq<Step>, batchSize: nat, n: nat)
    requires batchSize >= 1 && After(steps, batchSize).Some? && n < |steps|
    requires steps[n].RequestFlush? || steps[n].RunMicrotask?
    ensures var s, k := After(steps, batchSize).value, Requests(steps[..n]);
            && k < |s.flushes|
            && s.acknowledged <= Number(Recorded(steps), 1)
            && (s.flushes[k].phase.Succeeded? ==> Number(Recorded(steps[..n]), 1) <= s.acknowledged)
  {
    EveryRun(steps, batchSize);
    Counted(steps, batchSize);
    RequestFixes(steps, batchSize, n);
    RecordedPrefix(steps, n);
    var s, all := After(steps, batchSize).value, Recorded(steps);
    hide After, Recorded;
    assert s.acknowledged == Number(all, 1)[..|s.acknowledged|];
  }

  // ---------------------------------------------------------------- draining

  /** Steps the runtime takes on its own, as opposed to calls into the sink. */
  predicate Internal(step: Step)
  {
    step.RunMicrotask? || step.BeginFlush? || step.PostSucceeds? || step.PostFails?
  }

  function Pending(flushes: seq<Flush>): nat
  {
    if flushes == [] then 0
    else
      Pending(flushes[..|flushes| - 1])
      + match flushes[|flushes| - 1].phase
        case Waiting => 2
        case Posting(_) => 1
        case Succeeded => 0
        case Failed => 0
  }

  lemma {:induction false} PendingUpdate(flushes: seq<Flush>, k: nat, f: Flush)
    requires k < |flushes|
    ensures Pending(flushes[k := f]) == Pending(flushes) - Pending([flushes[k]]) + Pending([f])
    decreases |flushes|
  {
    var last := |flushes| - 1;
    assert [f][..0] == [] && [flushes[k]][..0] == [];
    if k == last {
      assert flushes[k := f][..last] == flushes[..last];
    } else {
      assert flushes[k := f][..last] == flushes[..last][k := f];
      PendingUpdate(flushes[..last], k, f);
    }
  }

  /** Left alone the sink comes to rest: each internal step lowers (queue length, microtasks, pending flushes). */
  lemma InternalStepsEnd(s: State, step: Step, batchSize: nat)
    requires Inv(s) && Enabled(s, step) && Internal(step) && batchSize >= 1
    ensures var t := Apply(s, step, batchSize);
            || |t.queue| < |s.queue|
            || (|t.queue| == |s.queue| && t.microtasks < s.microtasks)
            || (|t.queue| == |s.queue| && t.microtasks == s.microtasks && Pending(t.flushes) < Pending(s.flushes))
  {
    match step
    case RunMicrotask =>
    case BeginFlush(k) =>
      PhaseFits(s.queue, batchSize);
      PendingUpdate(s.flushes, k, s.flushes[k].(phase := NextPhase(s.queue, batchSize)));
      assert [s.flushes[k]][..0] == [];
    case PostSucceeds(k) => EarlierSettled(s, k);
    case PostFails(k) =>
      PendingUpdate(s.flushes, k, s.flushes[k].(phase := Failed));
      assert [s.flushes[k]][..0] == [];
  }

  ghost predicate Resting(s: State)
  {
    forall step | Internal(step) :: !Enabled(s, step)
  }

  /** At rest, unless the last flush failed, everything recorded is acknowledged. */
  lemma RestingIsDrained(s: State)
    requires Inv(s) && Resting(s)
    ensures LastFailed(s) || s.acknowledged == Number(s.bodies, 1)
  {
    if s.queue != [] && !LastFailed(s) {
      assert !Enabled(s, RunMicrotask);
      var k :| 0 <= k < |s.flushes| && !Settled(s.flushes[k]);
      FirstUnsettled(s, k);
    }
  }

  lemma {:induction false} FirstUnsettled(s: State, k: nat)
    requires k < |s.flushes| && !Settled(s.flushes[k])
    ensures !Resting(s)
    decreases k
  {
    if s.flushes[k].phase.Posting? {
      assert Enabled(s, PostSucceeds(k)) && Internal(PostSucceeds(k));
    } else if k > 0 && !Settled(s.flushes[k - 1]) {
      FirstUnsettled(s, k - 1);
    } else {
      assert Enabled(s, BeginFlush(k)) && Internal(BeginFlush(k));
    }
  }

  // ---------------------------------------------------------------- the sink object

  /** The closure's variables; each method is one uninterrupted piece of its execution. */
  class RunnerEventSink {
    const batchSize: nat
    var queue: seq<Record>
    var nextSequence: nat
    var scheduledFlush: bool
    var microtasks: nat
    var flushes: seq<Flush>
    ghost var bodies: seq<Body>
    ghost var acknowledged: seq<Record>

    ghost function View(): State
      reads this
    {
      State(queue, nextSequence, scheduledFlush, microtasks, flushes, bodies, acknowledged)
    }

    ghost predicate Valid()
      reads this
    {
      batchSize >= 1 && Inv(View()) && Bounded(View(), batchSize)
    }

    /** A batch size below one is raised to one. */
    constructor (requested: int)
      ensures Valid() && View() == INITIAL
      ensures batchSize == if requested < 1 then 1 else requested
    {
      batchSize := if requested < 1 then 1 else requested;
      queue, nextSequence, scheduledFlush, microtasks, flushes, bodies, acknowledged := [], 1, false, 0, [], [], [];
    }

    method ScheduleFlush()
      modifies this`scheduledFlush, this`microtasks
      ensures scheduledFlush && microtasks == if old(scheduledFlush) then old(microtasks) else old(microtasks) + 1
    {
      if scheduledFlush {
        return;
      }
      scheduledFlush := true;
      microtasks := microtasks + 1;
    }

    method RecordRuntimeEvent(event: RuntimeEvent)
      requires Valid()
      modifies this
      ensures Valid() && View() == Apply(old(View()), RecordEvent(event), batchSize)
    {
      hide Inv, Bounded;
      StepKeeps(View(), RecordEvent(event), batchSize);
      var records := MapRuntimeEvent(event, nextSequence);
      queue := queue + records;
      nextSequence := nextSequence + |records|;
      bodies := bodies + Bodies(event);
      ScheduleFlush();
    }

    /** The cancellation and validation-failure reports push two records of their own. */
    method RecordPair(first: Body, second: Body)
      requires Valid()
      modifies this
      ensures Valid() && View() == Apply(old(View()), RecordDirect([first, second]), batchSize)
    {
      hide Inv, Bounded;
      StepKeeps(View(), RecordDirect([first, second]), batchSize);
      ghost var before := queue;
      queue := queue + [Record(nextSequence, first)];
      nextSequence := nextSequence + 1;
      queue := queue + [Record(nextSequence, second)];
      nextSequence := nextSequence + 1;
      bodies := bodies + [first, second];
      assert queue == before + Number([first, second], old(nextSequence));
      ScheduleFlush();
    }

    method MicrotaskRuns()
      requires Valid() && microtasks > 0
      modifies this
      ensures Valid() && View() == Apply(old(View()), RunMicrotask, batchSize)
    {
      hide Inv, Bounded;
      StepKeeps(View(), RunMicrotask, batchSize);
      Numbered(View());
      scheduledFlush := false;
      microtasks := microtasks - 1;
      flushes := flushes + [Flush(Waiting, nextSequence - 1)];
    }

    method RequestsFlush()
      requires Valid()
      modifies this
      ensures Valid() && View() == Apply(old(View()), RequestFlush, batchSize)
    {
      hide Inv, Bounded;
      StepKeeps(View(), RequestFlush, batchSize);
      Numbered(View());
      flushes := flushes + [Flush(Waiting, nextSequence - 1)];
    }

    /** The loop test and the slice, up to the next post or the end of the flush. */
    method LoopHead(k: nat)
      requires k < |flushes|
      modifies this`flushes
      ensures flushes == old(flushes)[k := old(flushes)[k].(phase := NextPhase(queue, batchSize))]
    {
      if |queue| > 0 {
        var batch := queue[..if batchSize <= |queue| then batchSize else |queue|];
        assert |queue| < batchSize ==> batch == queue;
        flushes := flushes[k := flushes[k].(phase := Posting(batch))];
      } else {
        flushes := flushes[k := flushes[k].(phase := Succeeded)];
      }
    }

    method PreviousSettled(k: nat)
      requires Valid() && Enabled(View(), BeginFlush(k))
      modifies this
      ensures Valid() && View() == Apply(old(View()), BeginFlush(k), batchSize)
    {
      hide Inv, Bounded;
      StepKeeps(View(), BeginFlush(k), batchSize);
      LoopHead(k);
    }

    method PostSettles(k: nat, success: bool)
      requires Valid() && Enabled(View(), PostSucceeds(k))
      modifies this
      ensures Valid()
      ensures View() == Apply(old(View()), if success then PostSucceeds(k) else PostFails(k), batchSize)
    {
      hide Inv, Bounded;
      StepKeeps(View(), if success then PostSucceeds(k) else PostFails(k), batchSize);
      if success {
        EarlierSettled(View(), k);
        acknowledged := acknowledged + flushes[k].phase.batch;
        queue := queue[|flushes[k].phase.batch|..];
        LoopHead(k);
      } else {
        flushes := flushes[k := flushes[k].(phase := Failed)];
      }
    }
  }
}
