/** The serialized write queue (src/serialized-write-queue.ts). */
module WriteQueue {
  import opened Wrappers

  type Error = string

  datatype Phase = Queued | Running | Done | Broken(error: Error)

  datatype Failure = Failure(error: Error, sequence: nat)

  datatype Outcome = Waiting | Returned | Threw(failure: Failure)

  /** A call to flush that drains the writes up to `through`, -1 for none. */
  datatype Flush = Flush(through: int, outcome: Outcome)

  /** Write `i` waits for the promise of write `i - 1`; `drained` is the highest sequence a flush has drained. */
  datatype State = State(writes: seq<Phase>, failures: seq<Failure>, flushes: seq<Flush>, drained: int)

  const INITIAL := State([], [], [], -1)

  datatype Step =
    | Enqueue
    | StartWrite(i: nat)
    | FinishWrite(i: nat, error: Option<Error>)
    | CallFlush
    | ResumeFlush(f: nat)

  predicate Finished(p: Phase)
  {
    p.Done? || p.Broken?
  }

  predicate Enabled(s: State, step: Step)
  {
    match step
    case Enqueue => true
    case StartWrite(i) => i < |s.writes| && s.writes[i].Queued? && (i > 0 ==> Finished(s.writes[i - 1]))
    case FinishWrite(i, _) => i < |s.writes| && s.writes[i].Running?
    case CallFlush => true
    case ResumeFlush(f) =>
      && f < |s.flushes|
      && s.flushes[f].outcome.Waiting?
      && s.flushes[f].through < |s.writes|
      && (s.flushes[f].through >= 0 ==> Finished(s.writes[s.flushes[f].through]))
  }

  /** `failures.find((entry) => entry.sequence <= through)` */
  function FirstThrough(failures: seq<Failure>, through: int): Option<Failure>
  {
    if failures == [] then None
    else if failures[0].sequence <= through then Some(failures[0])
    else FirstThrough(failures[1..], through)
  }

  function KeepAfter(failures: seq<Failure>, through: int): seq<Failure>
  {
    if failures == [] then []
    else (if failures[0].sequence <= through then [] else [failures[0]]) + KeepAfter(failures[1..], through)
  }

  function Max(a: int, b: int): int
  {
    if a >= b then a else b
  }

  function Apply(s: State, step: Step): State
    requires Enabled(s, step)
  {
    match step
    case Enqueue => s.(writes := s.writes + [Queued])
    case StartWrite(i) => s.(writes := s.writes[i := Running])
    case FinishWrite(i, error) =>
      if error.None? then s.(writes := s.writes[i := Done])
      else s.(writes := s.writes[i := Broken(error.value)], failures := s.failures + [Failure(error.value, i)])
    case CallFlush => s.(flushes := s.flushes + [Flush(|s.writes| - 1, Waiting)])
    case ResumeFlush(f) =>
      var through := s.flushes[f].through;
      var first := FirstThrough(s.failures, through);
      s.(failures := KeepAfter(s.failures, through),
         drained := Max(s.drained, through),
         flushes := s.flushes[f := Flush(through, if first.Some? then Threw(first.value) else Returned)])
  }

  ghost function After(steps: seq<Step>): Option<State>
  {
    if steps == [] then Some(INITIAL)
    else
      var before, step := After(steps[..|steps| - 1]), steps[|steps| - 1];
      if before.Some? && Enabled(before.value, step) then Some(Apply(before.value, step)) else None
  }

  // ---------------------------------------------------------------- what every step keeps

  /** The failed writes with sequence in [from, end), ascending. */
  ghost function FailedBetween(writes: seq<Phase>, from: int, end: nat): seq<Failure>
    requires end <= |writes|
    decreases end
  {
    if end == 0 || end <= from then []
    else
      FailedBetween(writes, from, end - 1)
      + if writes[end - 1].Broken? then [Failure(writes[end - 1].error, end - 1)] else []
  }

  /** One write at a time, in enqueue order: whatever has started is preceded only by finished writes. */
  ghost predicate InOrder(s: State)
  {
    forall i, j | 0 <= i < j < |s.writes| && !s.writes[j].Queued? :: Finished(s.writes[i])
  }

  /** The ledger holds exactly the failures no flush has drained. */
  ghost predicate LedgerExact(s: State)
  {
    && -1 <= s.drained < |s.writes|
    && (forall i | 0 <= i <= s.drained :: Finished(s.writes[i]))
    && s.failures == FailedBetween(s.writes, s.drained + 1, |s.writes|)
  }

  /** Every settled flush saw all its writes run; what it threw is a real failure that no other flush threw. */
  ghost predicate FlushesSound(s: State)
  {
    && (forall f | 0 <= f < |s.flushes| :: -1 <= s.flushes[f].through < |s.writes|)
    && (forall f | 0 <= f < |s.flushes| && !s.flushes[f].outcome.Waiting? :: s.flushes[f].through <= s.drained)
    && (forall f | 0 <= f < |s.flushes| && s.flushes[f].outcome.Threw? ::
          var failure := s.flushes[f].outcome.failure;
          failure.sequence <= s.flushes[f].through && s.writes[failure.sequence] == Broken(failure.error))
    && (forall f, g | 0 <= f < g < |s.flushes| && s.flushes[f].outcome.Threw? && s.flushes[g].outcome.Threw? ::
          s.flushes[f].outcome.failure.sequence != s.flushes[g].outcome.failure.sequence)
  }

  ghost predicate Inv(s: State)
  {
    InOrder(s) && LedgerExact(s) && FlushesSound(s)
  }

  lemma {:induction false} FailedSame(a: seq<Phase>, b: seq<Phase>, from: int, end: nat)
    requires end <= |a| && end <= |b|
    requires forall i | 0 <= i < end && from <= i :: a[i] == b[i] || (!a[i].Broken? && !b[i].Broken?)
    ensures FailedBetween(a, from, end) == FailedBetween(b, from, end)
    decreases end
  {
    if end > 0 && end > from {
      FailedSame(a, b, from, end - 1);
    }
  }

  lemma {:induction false} NoneFailed(writes: seq<Phase>, from: nat, end: nat)
    requires from <= end <= |writes| && forall i | from <= i < end :: !writes[i].Broken?
    ensures FailedBetween(writes, from, end) == []
    decreases end
  {
    if from < end {
      NoneFailed(writes, from, end - 1);
    }
  }

  lemma {:induction false} FailedSplit(writes: seq<Phase>, from: nat, mid: nat, end: nat)
    requires from <= mid <= end <= |writes|
    ensures FailedBetween(writes, from, end) == FailedBetween(writes, from, mid) + FailedBetween(writes, mid, end)
    decreases end
  {
    if mid < end {
      FailedSplit(writes, from, mid, end - 1);
    }
  }

  lemma {:induction false} FailedMembers(writes: seq<Phase>, from: nat, end: nat)
    requires end <= |writes|
    ensures forall x :: x in FailedBetween(writes, from, end) <==>
                        from <= x.sequence < end && writes[x.sequence] == Broken(x.error)
    ensures forall i, j | 0 <= i < j < |FailedBetween(writes, from, end)| ::
              FailedBetween(writes, from, end)[i].sequence < FailedBetween(writes, from, end)[j].sequence
    decreases end
  {
    if end > from {
      FailedMembers(writes, from, end - 1);
    }
  }

  lemma {:induction false} KeepAfterAll(a: seq<Failure>, through: int)
    requires forall x | x in a :: x.sequence > through
    ensures KeepAfter(a, through) == a && FirstThrough(a, through) == None
    decreases |a|
  {
    if a != [] {
      KeepAfterAll(a[1..], through);
    }
  }

  lemma {:induction false} KeepAfterPrefix(a: seq<Failure>, b: seq<Failure>, through: int)
    requires (forall x | x in a :: x.sequence <= through) && forall x | x in b :: x.sequence > through
    ensures KeepAfter(a + b, through) == b
    ensures FirstThrough(a + b, through) == if a == [] then None else Some(a[0])
    decreases |a|
  {
    if a == [] {
      assert a + b == b;
      KeepAfterAll(b, through);
    } else {
      assert (a + b)[1..] == a[1..] + b;
      KeepAfterPrefix(a[1..], b, through);
    }
  }

  /** What a resuming flush finds and leaves: the lowest failure not drained before, and those beyond its range. */
  lemma DrainSplits(s: State, through: int)
    requires LedgerExact(s) && -1 <= through < |s.writes|
    ensures KeepAfter(s.failures, through) == FailedBetween(s.writes, Max(s.drained, through) + 1, |s.writes|)
    ensures FirstThrough(s.failures, through).None? <==>
            forall i | s.drained < i <= through :: !s.writes[i].Broken?
    ensures FirstThrough(s.failures, through).Some? ==>
              var failure := FirstThrough(s.failures, through).value;
              && s.drained < failure.sequence <= through
              && s.writes[failure.sequence] == Broken(failure.error)
              && forall i | s.drained < i < failure.sequence :: !s.writes[i].Broken?
  {
    hide FailedBetween, FirstThrough, KeepAfter;
    var low, mid := s.drained + 1, Max(s.drained, through) + 1;
    var a, b := FailedBetween(s.writes, low, mid), FailedBetween(s.writes, mid, |s.writes|);
    FailedSplit(s.writes, low, mid, |s.writes|);
    FailedMembers(s.writes, mid, |s.writes|);
    if through >= s.drained {
      FailedMembers(s.writes, low, mid);
      KeepAfterPrefix(a, b, through);
      FirstIsLowest(s.writes, low, mid);
    } else {
      NoneFailedEmpty(s.writes, mid);
      assert a + b == b;
      KeepAfterAll(b, through);
    }
  }

  lemma FirstIsLowest(writes: seq<Phase>, from: nat, end: nat)
    requires end <= |writes|
    ensures var a := FailedBetween(writes, from, end);
            && (a == [] <==> forall i | from <= i < end :: !writes[i].Broken?)
            && (a != [] ==>
                  && from <= a[0].sequence < end && writes[a[0].sequence] == Broken(a[0].error)
                  && forall i | from <= i < a[0].sequence :: !writes[i].Broken?)
  {
    hide FailedBetween;
    var a := FailedBetween(writes, from, end);
    FailedMembers(writes, from, end);
    forall i | from <= i < end && writes[i].Broken? ensures a != [] && a[0].sequence <= i {
      assert Failure(writes[i].error, i) in a;
      var k :| 0 <= k < |a| && a[k] == Failure(writes[i].error, i);
    }
    if a != [] {
      assert a[0] in a;
    }
  }

  lemma NoneFailedEmpty(writes: seq<Phase>, at: nat)
    requires at <= |writes|
    ensures FailedBetween(writes, at, at) == []
  {
  }

  lemma ResumeKeeps(s: State, f: nat)
    requires Inv(s) && Enabled(s, ResumeFlush(f))
    ensures Inv(Apply(s, ResumeFlush(f)))
  {
    var t, through := Apply(s, ResumeFlush(f)), s.flushes[f].through;
    hide FirstThrough, KeepAfter, FailedBetween;
    DrainSplits(s, through);
    forall i | 0 <= i <= t.drained ensures Finished(t.writes[i]) {
      if i < through {
        assert !s.writes[through].Queued?;
      }
    }
    forall g | 0 <= g < |s.flushes| && g != f && s.flushes[g].outcome.Threw? && t.flushes[f].outcome.Threw?
      ensures s.flushes[g].outcome.failure.sequence != t.flushes[f].outcome.failure.sequence
    {
      assert s.flushes[g].outcome.failure.sequence <= s.flushes[g].through <= s.drained;
    }
  }

  lemma FinishKeeps(s: State, i: nat, error: Option<Error>)
    requires Inv(s) && Enabled(s, FinishWrite(i, error))
    ensures Inv(Apply(s, FinishWrite(i, error)))
  {
    hide FailedBetween;
    assert i > s.drained;
    forall j | i < j < |s.writes| ensures s.writes[j].Queued? {
    }
    FailedFinish(s.writes, s.drained + 1, i, if error.Some? then Broken(error.value) else Done);
  }

  /** The write that finishes is the last that can have failed. */
  lemma FailedFinish(writes: seq<Phase>, from: nat, i: nat, phase: Phase)
    requires from <= i < |writes| && forall j | i <= j < |writes| :: !writes[j].Broken?
    ensures FailedBetween(writes[i := phase], from, |writes|) ==
            FailedBetween(writes, from, |writes|) + if phase.Broken? then [Failure(phase.error, i)] else []
  {
    var more, n := writes[i := phase], |writes|;
    assert FailedBetween(more, i, i + 1) == if phase.Broken? then [Failure(phase.error, i)] else [] by {
      NoneFailedEmpty(more, i);
    }
    hide FailedBetween;
    FailedSplit(writes, from, i, n);
    FailedSplit(more, from, i, n);
    FailedSame(writes, more, from, i);
    NoneFailed(writes, i, n);
    FailedSplit(more, i, i + 1, n);
    NoneFailed(more, i + 1, n);
  }

  lemma StartKeeps(s: State, i: nat)
    requires Inv(s) && Enabled(s, StartWrite(i))
    ensures Inv(Apply(s, StartWrite(i)))
  {
    var t := Apply(s, StartWrite(i));
    FailedSame(s.writes, t.writes, s.drained + 1, |s.writes|);
    forall a, b | 0 <= a < b < |t.writes| && !t.writes[b].Queued? ensures Finished(t.writes[a]) {
      if b == i && a < i - 1 {
        assert !s.writes[i - 1].Queued?;
      }
    }
  }

  lemma EnqueueKeeps(s: State)
    requires Inv(s)
    ensures Inv(Apply(s, Enqueue))
  {
    var t := Apply(s, Enqueue);
    FailedSame(s.writes, t.writes, s.drained + 1, |s.writes|);
  }

  lemma StepKeeps(s: State, step: Step)
    requires Inv(s) && Enabled(s, step)
    ensures Inv(Apply(s, step))
  {
    hide Inv;
    match step
    case Enqueue => EnqueueKeeps(s);
    case StartWrite(i) => StartKeeps(s, i);
    case FinishWrite(i, error) => FinishKeeps(s, i, error);
    case CallFlush => CallKeeps(s);
    case ResumeFlush(f) => ResumeKeeps(s, f);
  }

  lemma CallKeeps(s: State)
    requires Inv(s)
    ensures Inv(Apply(s, CallFlush))
  {
  }

  /** In every interleaving: writes run one at a time in enqueue order, the ledger is exact, flushes are sound. */
  lemma {:induction false} EveryRun(steps: seq<Step>)
    requires After(steps).Some?
    ensures Inv(After(steps).value)
    decreases |steps|
  {
    if steps != [] {
      EveryRun(steps[..|steps| - 1]);
      StepKeeps(After(steps[..|steps| - 1]).value, steps[|steps| - 1]);
    }
  }

  lemma OneRuns(s: State, i: nat, j: nat)
    requires Inv(s) && i < j < |s.writes|
    ensures !(s.writes[i].Running? && s.writes[j].Running?)
  {
  }

  /** The ledger is strictly ascending. */
  lemma LedgerAscends(s: State)
    requires Inv(s)
    ensures forall i, j | 0 <= i < j < |s.failures| :: s.failures[i].sequence < s.failures[j].sequence
  {
    FailedMembers(s.writes, s.drained + 1, |s.writes|);
  }

  /** A flush throws exactly the lowest failure in its range above what earlier flushes drained, if there is one, and it
      settles only after every write in its range has run. */
  lemma FlushOutcome(s: State, f: nat)
    requires Inv(s) && Enabled(s, ResumeFlush(f))
    ensures var through, outcome := s.flushes[f].through, Apply(s, ResumeFlush(f)).flushes[f].outcome;
            && (forall i | 0 <= i <= through :: Finished(s.writes[i]))
            && (outcome.Returned? <==> forall i | s.drained < i <= through :: !s.writes[i].Broken?)
            && (outcome.Threw? <==> exists i | s.drained < i <= through :: s.writes[i].Broken?)
            && (outcome.Threw? ==>
                  && s.drained < outcome.failure.sequence <= through
                  && s.writes[outcome.failure.sequence] == Broken(outcome.failure.error)
                  && forall i | s.drained < i < outcome.failure.sequence :: !s.writes[i].Broken?)
  {
    var through := s.flushes[f].through;
    DrainSplits(s, through);
    forall i | 0 <= i <= through ensures Finished(s.writes[i]) {
      if i < through {
        assert !s.writes[through].Queued?;
      }
    }
  }

  // ---------------------------------------------------------------- which failures are ever thrown

  /** Some flush threw the failure of write `q`. */
  ghost predicate Thrown(s: State, q: nat)
  {
    exists f | 0 <= f < |s.flushes| :: s.flushes[f].outcome.Threw? && s.flushes[f].outcome.failure.sequence == q
  }

  /** Step `n` of the run is the flush that drains write `q`: the first to resume with `q` in its range. */
  ghost predicate DrainsAt(steps: seq<Step>, n: nat, q: nat)
  {
    && n < |steps| && After(steps[..n]).Some? && steps[n].ResumeFlush?
    && var s := After(steps[..n]).value;
    Enabled(s, steps[n]) && s.drained < q <= s.flushes[steps[n].f].through
  }

  /** No failed write below `q` is left undrained. */
  ghost predicate Lowest(s: State, q: nat)
  {
    forall i | 0 <= i < q && s.drained < i < |s.writes| :: !s.writes[i].Broken?
  }

  ghost predicate LowestAt(steps: seq<Step>, n: nat, q: nat)
    requires n <= |steps| && After(steps[..n]).Some?
  {
    Lowest(After(steps[..n]).value, q)
  }

  lemma RunStep(steps: seq<Step>) returns (init: seq<Step>, last: Step, t: State)
    requires steps != [] && After(steps).Some?
    ensures steps == init + [last] && init == steps[..|steps| - 1]
    ensures After(init) == Some(t) && Enabled(t, last) && After(steps) == Some(Apply(t, last))
    ensures Inv(t) && Inv(Apply(t, last))
  {
    init, last := steps[..|steps| - 1], steps[|steps| - 1];
    t := After(init).value;
    EveryRun(init);
    StepKeeps(t, last);
  }

  lemma SamePast(steps: seq<Step>, init: seq<Step>, last: Step, n: nat, q: nat)
    requires steps == init + [last] && n < |init|
    ensures steps[..n] == init[..n] && steps[n] == init[n]
    ensures DrainsAt(steps, n, q) <==> DrainsAt(init, n, q)
  {
  }

  /** The write is drained by exactly one step once it is drained, and by none before. */
  lemma {:induction false} DrainedOnce(steps: seq<Step>, q: nat)
    requires After(steps).Some?
    ensures q <= After(steps).value.drained <==> exists n :: DrainsAt(steps, n, q)
    ensures forall n, m :: DrainsAt(steps, n, q) && DrainsAt(steps, m, q) ==> n == m
    decreases |steps|
  {
    hide DrainsAt, Inv, Enabled;
    if steps == [] {
      NothingDrains(q);
    } else {
      var init, last, t := RunStep(steps);
      DrainedOnce(init, q);
      forall n: nat | DrainsAt(steps, n, q) ensures n < |steps| {
        DrainsWithin(steps, n, q);
      }
      forall n: nat | n < |init| ensures DrainsAt(steps, n, q) <==> DrainsAt(init, n, q) {
        SamePast(steps, init, last, n, q);
      }
      forall n: nat | DrainsAt(init, n, q) ensures n < |init| {
        DrainsWithin(init, n, q);
      }
      assert steps[..|init|] == init && steps[|init|] == last;
      LastDrains(steps, t, q);
    }
  }

  lemma NothingDrains(q: nat)
    ensures forall n :: !DrainsAt([], n, q)
  {
  }

  lemma DrainsWithin(steps: seq<Step>, n: nat, q: nat)
    requires DrainsAt(steps, n, q)
    ensures n < |steps|
  {
  }

  lemma LastDrains(steps: seq<Step>, t: State, q: nat)
    requires steps != [] && After(steps[..|steps| - 1]) == Some(t) && Enabled(t, steps[|steps| - 1])
    ensures DrainsAt(steps, |steps| - 1, q) <==> t.drained < q <= Apply(t, steps[|steps| - 1]).drained
    ensures t.drained <= Apply(t, steps[|steps| - 1]).drained
  {
    hide FirstThrough, KeepAfter;
  }

  /** A step throws the failure of `q` if and only if it drains `q` and `q` is the lowest undrained failure. */
  lemma StepThrows(t: State, step: Step, q: nat)
    requires Inv(t) && Enabled(t, step)
    requires t.drained < q && q <= Apply(t, step).drained ==> Apply(t, step).writes[q].Broken?
    ensures t.drained < q <= Apply(t, step).drained ==>
              (Thrown(Apply(t, step), q) <==> Lowest(t, q))
    ensures q <= t.drained ==> (Thrown(Apply(t, step), q) <==> Thrown(t, q))
  {
    hide FirstThrough, KeepAfter, FailedBetween;
    if step.ResumeFlush? {
      ResumeThrows(t, step.f, q);
    } else {
      var s := Apply(t, step);
      forall g | 0 <= g < |t.flushes| ensures s.flushes[g] == t.flushes[g] {
      }
    }
  }

  lemma ResumeThrows(t: State, f: nat, q: nat)
    requires Inv(t) && Enabled(t, ResumeFlush(f))
    ensures var through, first := t.flushes[f].through, FirstThrough(t.failures, t.flushes[f].through);
            var s := Apply(t, ResumeFlush(f));
            && (Thrown(s, q) <==> Thrown(t, q) || (first.Some? && first.value.sequence == q))
            && (first.Some? ==> t.drained < first.value.sequence <= through)
            && (Thrown(t, q) ==> q <= t.drained)
            && (t.drained < q <= through && q < |t.writes| && t.writes[q].Broken? ==>
                  (first.Some? && first.value.sequence == q <==> Lowest(t, q)))
  {
    hide FirstThrough, KeepAfter, FailedBetween, InOrder;
    var s := Apply(t, ResumeFlush(f));
    DrainSplits(t, t.flushes[f].through);
    forall g | 0 <= g < |t.flushes| && g != f ensures s.flushes[g] == t.flushes[g] {
    }
    if Thrown(t, q) {
      var g :| 0 <= g < |t.flushes| && t.flushes[g].outcome.Threw? && t.flushes[g].outcome.failure.sequence == q;
      assert s.flushes[g] == t.flushes[g];
    }
    assert FirstThrough(t.failures, t.flushes[f].through).Some? ==> s.flushes[f].outcome.Threw?;
  }

  lemma UndrainedUnthrown(s: State, q: nat)
    requires Inv(s) && s.drained < q
    ensures !Thrown(s, q)
  {
  }

  lemma DrainedStays(t: State, step: Step, q: nat)
    requires Inv(t) && Enabled(t, step) && q <= t.drained
    ensures q < |t.writes| && q < |Apply(t, step).writes| && Apply(t, step).writes[q] == t.writes[q]
  {
  }

  /** Over whole runs: the failure of a write is thrown by some flush if and only if it was the lowest undrained failure
      when the first flush with that write in its range resumed. */
  lemma {:induction false} ThrownExactly(steps: seq<Step>, q: nat)
    requires After(steps).Some? && q < |After(steps).value.writes| && After(steps).value.writes[q].Broken?
    ensures Thrown(After(steps).value, q) <==> exists n :: DrainsAt(steps, n, q) && LowestAt(steps, n, q)
    decreases |steps|
  {
    hide DrainsAt, Inv, Enabled, Apply, Thrown, Lowest;
    var s := After(steps).value;
    DrainedOnce(steps, q);
    if s.drained < q {
      EveryRun(steps);
      UndrainedUnthrown(s, q);
    } else {
      NotEmpty(steps, q);
      var init, last, t := RunStep(steps);
      assert steps[..|init|] == init && steps[|init|] == last;
      LastDrains(steps, t, q);
      StepThrows(t, last, q);
      if q <= t.drained {
        DrainedStays(t, last, q);
        ThrownExactly(init, q);
        DrainedOnce(init, q);
        SameDrain(steps, init, last, q);
      }
    }
  }

  lemma NotEmpty(steps: seq<Step>, q: nat)
    requires After(steps).Some? && q <= After(steps).value.drained
    ensures steps != []
  {
  }

  lemma SameDrain(steps: seq<Step>, init: seq<Step>, last: Step, q: nat)
    requires steps == init + [last] && exists n :: DrainsAt(init, n, q)
    requires forall n, m :: DrainsAt(steps, n, q) && DrainsAt(steps, m, q) ==> n == m
    ensures (exists n :: DrainsAt(steps, n, q) && LowestAt(steps, n, q)) <==>
            exists n :: DrainsAt(init, n, q) && LowestAt(init, n, q)
  {
    var n :| DrainsAt(init, n, q);
    SamePast(steps, init, last, n, q);
    forall m | DrainsAt(init, m, q) ensures m == n {
      SamePast(steps, init, last, m, q);
    }
  }

  function FailTwice(): seq<Step>
  {
    [Enqueue, Enqueue, StartWrite(0), FinishWrite(0, Some("a")), StartWrite(1), FinishWrite(1, Some("b"))]
  }

  function FlushTwice(): seq<Step>
  {
    [CallFlush, CallFlush, ResumeFlush(0), ResumeFlush(1)]
  }

  ghost predicate Leads(s: State, step: Step, t: State)
  {
    Enabled(s, step) &&
    var r := Apply(s, step);
    r.writes == t.writes && r.failures == t.failures && r.flushes == t.flushes && r.drained == t.drained
  }

  lemma Next(steps: seq<Step>, s: State, step: Step, t: State)
    requires After(steps) == Some(s) && Leads(s, step, t)
    ensures After(steps + [step]) == Some(t)
  {
    assert (steps + [step])[..|steps|] == steps;
  }

  lemma FirstFails()
    ensures After([Enqueue, Enqueue, StartWrite(0), FinishWrite(0, Some("a"))]) ==
            Some(State([Broken("a"), Queued], [Failure("a", 0)], [], -1))
  {
    var s1, s2 := State([Queued], [], [], -1), State([Queued, Queued], [], [], -1);
    var s3, s4 := State([Running, Queued], [], [], -1), State([Broken("a"), Queued], [Failure("a", 0)], [], -1);
    var r0: seq<Step> := [];
    assert After(r0) == Some(INITIAL);
    hide After;
    Next(r0, INITIAL, Enqueue, s1);
    Next([Enqueue], s1, Enqueue, s2);
    Next([Enqueue, Enqueue], s2, StartWrite(0), s3);
    Next([Enqueue, Enqueue, StartWrite(0)], s3, FinishWrite(0, Some("a")), s4);
    hide Leads;
    assert r0 + [Enqueue] == [Enqueue] && [Enqueue] + [Enqueue] == [Enqueue, Enqueue];
    assert [Enqueue, Enqueue] + [StartWrite(0)] == [Enqueue, Enqueue, StartWrite(0)];
    assert [Enqueue, Enqueue, StartWrite(0)] + [FinishWrite(0, Some("a"))] ==
           [Enqueue, Enqueue, StartWrite(0), FinishWrite(0, Some("a"))];
  }

  lemma FailTwiceEnds()
    ensures After(FailTwice()) == Some(State([Broken("a"), Broken("b")], [Failure("a", 0), Failure("b", 1)], [], -1))
  {
    FirstFails();
    hide After;
    var s4 := State([Broken("a"), Queued], [Failure("a", 0)], [], -1);
    var s5 := State([Broken("a"), Running], [Failure("a", 0)], [], -1);
    var s6 := State([Broken("a"), Broken("b")], [Failure("a", 0), Failure("b", 1)], [], -1);
    var r4 := [Enqueue, Enqueue, StartWrite(0), FinishWrite(0, Some("a"))];
    Next(r4, s4, StartWrite(1), s5);
    Next(r4 + [StartWrite(1)], s5, FinishWrite(1, Some("b")), s6);
    hide Leads;
    assert FailTwice() == r4 + [StartWrite(1)] + [FinishWrite(1, Some("b"))];
  }

  /** Two writes fail and two flushes cover both: the first flush throws the first failure, the second flush returns, and
      no flush throws the second failure. */
  lemma SecondFailureUnreported()
    ensures After(FailTwice() + FlushTwice()) == Some(State([Broken("a"), Broken("b")], [],
                [Flush(1, Threw(Failure("a", 0))), Flush(1, Returned)], 1))
    ensures !Thrown(After(FailTwice() + FlushTwice()).value, 1)
  {
    FailTwiceEnds();
    var writes, failures := [Broken("a"), Broken("b")], [Failure("a", 0), Failure("b", 1)];
    DrainBoth(failures);
    assert KeepAfter([], 1) == [] && FirstThrough([], 1) == None;
    hide After, FailTwice, KeepAfter, FirstThrough;
    var s6, s7 := State(writes, failures, [], -1), State(writes, failures, [Flush(1, Waiting)], -1);
    var s8 := State(writes, failures, [Flush(1, Waiting), Flush(1, Waiting)], -1);
    var s9 := State(writes, [], [Flush(1, Threw(failures[0])), Flush(1, Waiting)], 1);
    var s10 := State(writes, [], [Flush(1, Threw(failures[0])), Flush(1, Returned)], 1);
    var r6 := FailTwice();
    Next(r6, s6, CallFlush, s7);
    var r7 := r6 + [CallFlush];
    Next(r7, s7, CallFlush, s8);
    var r8 := r7 + [CallFlush];
    Next(r8, s8, ResumeFlush(0), s9);
    var r9 := r8 + [ResumeFlush(0)];
    Next(r9, s9, ResumeFlush(1), s10);
    hide Leads;
    assert r6 + FlushTwice() == r9 + [ResumeFlush(1)];
  }

  lemma DrainBoth(failures: seq<Failure>)
    requires failures == [Failure("a", 0), Failure("b", 1)]
    ensures KeepAfter(failures, 1) == [] && FirstThrough(failures, 1) == Some(Failure("a", 0))
  {
    assert failures[1..] == [Failure("b", 1)] && [Failure("b", 1)][1..] == [];
    assert KeepAfter([Failure("b", 1)], 1) == [];
  }

  // ---------------------------------------------------------------- what a call of flush covers

  /** The writes enqueued by a run. */
  function Enqueues(steps: seq<Step>): nat
  {
    if steps == [] then 0 else Enqueues(steps[..|steps| - 1]) + if steps[|steps| - 1].Enqueue? then 1 else 0
  }

  /** The calls of flush in a run. */
  function Calls(steps: seq<Step>): nat
  {
    if steps == [] then 0 else Calls(steps[..|steps| - 1]) + if steps[|steps| - 1].CallFlush? then 1 else 0
  }

  lemma {:induction false} Counted(steps: seq<Step>)
    requires After(steps).Some?
    ensures |After(steps).value.writes| == Enqueues(steps) && |After(steps).value.flushes| == Calls(steps)
    decreases |steps|
  {
    if steps != [] {
      Counted(steps[..|steps| - 1]);
    }
  }

  lemma StepPersists(s: State, step: Step, f: nat)
    requires Inv(s) && Enabled(s, step) && f < |s.flushes|
    ensures |s.writes| <= |Apply(s, step).writes| && f < |Apply(s, step).flushes|
    ensures Apply(s, step).flushes[f].through == s.flushes[f].through
    ensures forall i | 0 <= i < |s.writes| && Finished(s.writes[i]) :: Apply(s, step).writes[i] == s.writes[i]
    ensures step != ResumeFlush(f) ==> Apply(s, step).flushes[f] == s.flushes[f]
  {
    hide FirstThrough, KeepAfter, FailedBetween;
  }

  /** Call `n` of a run makes a flush whose range is what was enqueued by then, for as long as the run lasts. */
  lemma {:induction false} CallFixesRange(steps: seq<Step>, n: nat)
    requires After(steps).Some? && n < |steps| && steps[n].CallFlush?
    ensures Calls(steps[..n]) < |After(steps).value.flushes|
    ensures After(steps).value.flushes[Calls(steps[..n])].through == Enqueues(steps[..n]) - 1
    ensures Enqueues(steps[..n]) <= |After(steps).value.writes|
    decreases |steps|
  {
    var init, last, t := RunStep(steps);
    assert init[..|init|] == init;
    hide Inv, Enabled, After;
    if n < |init| {
      assert init[..n] == steps[..n] && init[n] == steps[n];
      CallFixesRange(init, n);
      StepPersists(t, last, Calls(steps[..n]));
    } else {
      assert steps[..n] == init;
      Counted(init);
    }
  }

  /** A flush called after the write was enqueued has resumed. */
  ghost predicate Covered(steps: seq<Step>, q: nat)
  {
    exists c, l | 0 <= c < l < |steps| :: CoversAt(steps, c, l, q)
  }

  ghost predicate CoversAt(steps: seq<Step>, c: nat, l: nat, q: nat)
    requires c < l < |steps|
  {
    steps[c].CallFlush? && steps[l] == ResumeFlush(Calls(steps[..c])) && q < Enqueues(steps[..c])
  }

  lemma {:induction false} CallOf(steps: seq<Step>, f: nat) returns (c: nat)
    requires f < Calls(steps)
    ensures c < |steps| && steps[c].CallFlush? && Calls(steps[..c]) == f
    decreases |steps|
  {
    var init := steps[..|steps| - 1];
    if f < Calls(init) {
      c := CallOf(init, f);
      assert init[..c] == steps[..c];
    } else {
      c := |init|;
    }
  }

  /** What is drained is what some resumed flush covers. */
  lemma {:induction false} DrainedMeans(steps: seq<Step>, q: nat)
    requires After(steps).Some?
    ensures q <= After(steps).value.drained <==> Covered(steps, q)
    decreases |steps|
  {
    hide Inv, Covered;
    if steps == [] {
      NothingCovered(q);
    } else {
      var init, last, t := RunStep(steps);
      DrainedMeans(init, q);
      LastCovers(t, last, q);
      CoveredLast(steps, init, last, t, q);
    }
  }

  lemma NothingCovered(q: nat)
    ensures !Covered([], q)
  {
  }

  lemma LastCovers(t: State, last: Step, q: nat)
    requires Enabled(t, last)
    ensures q <= Apply(t, last).drained <==>
            q <= t.drained || (last.ResumeFlush? && q <= t.flushes[last.f].through)
  {
    hide FirstThrough, KeepAfter;
  }

  lemma CoveredLast(steps: seq<Step>, init: seq<Step>, last: Step, t: State, q: nat)
    requires steps == init + [last] && After(init) == Some(t) && Enabled(t, last)
    ensures Covered(steps, q) <==>
            Covered(init, q) || (last.ResumeFlush? && q <= t.flushes[last.f].through)
  {
    forall c, l | 0 <= c < l < |init| ensures CoversAt(steps, c, l, q) <==> CoversAt(init, c, l, q) {
      assert steps[..c] == init[..c] && steps[c] == init[c] && steps[l] == init[l];
    }
    forall c | 0 <= c < |init| ensures steps[..c] == init[..c] && steps[c] == init[c] {
    }
    assert steps[|init|] == last;
    if last.ResumeFlush? {
      Counted(init);
      var c := CallOf(init, last.f);
      CallFixesRange(init, c);
      if q <= t.flushes[last.f].through {
        assert CoversAt(steps, c, |init|, q);
      }
      forall d | 0 <= d < |init| && CoversAt(steps, d, |init|, q) ensures q <= t.flushes[last.f].through {
        CallFixesRange(init, d);
      }
    }
  }

  /** The flush that call `n` makes has settled. */
  ghost predicate SettledCall(steps: seq<Step>, n: nat)
    requires After(steps).Some? && n < |steps| && Calls(steps[..n]) < |After(steps).value.flushes|
  {
    !After(steps).value.flushes[Calls(steps[..n])].outcome.Waiting?
  }

  // ---------------------------------------------------------------- how a run's writes end

  /** Write `i` ends in the run, with this error or without one. */
  ghost predicate EndsIn(steps: seq<Step>, i: nat, error: Option<Error>)
  {
    exists n | 0 <= n < |steps| :: steps[n] == FinishWrite(i, error)
  }

  ghost predicate HasEnded(steps: seq<Step>, i: nat)
  {
    exists error :: EndsIn(steps, i, error)
  }

  predicate EndedWith(s: State, i: nat, error: Option<Error>)
  {
    i < |s.writes| && s.writes[i] == if error.Some? then Broken(error.value) else Done
  }

  /** Every write is as the run ended it: once, and with the error it then had. */
  lemma {:induction false} WritesOfRun(steps: seq<Step>, i: nat, error: Option<Error>)
    requires After(steps).Some?
    ensures EndedWith(After(steps).value, i, error) <==> EndsIn(steps, i, error)
    decreases |steps|
  {
    if steps != [] {
      var init, last, t := RunStep(steps);
      WritesOfRun(init, i, error);
      EndsLast(steps, init, last, i, error);
      hide Inv, After, EndsIn, FirstThrough, KeepAfter;
    }
  }

  lemma EndsLast(steps: seq<Step>, init: seq<Step>, last: Step, i: nat, error: Option<Error>)
    requires steps == init + [last]
    ensures EndsIn(steps, i, error) <==> EndsIn(init, i, error) || last == FinishWrite(i, error)
  {
    if n :| 0 <= n < |init| && init[n] == FinishWrite(i, error) {
      assert steps[n] == init[n];
    }
    assert steps[|init|] == last;
  }

  /** The flush threw the lowest failure of the first `end` writes that no flush of the run covers, if there is one. */
  ghost predicate ThrowsUncovered(outcome: Outcome, end: nat, run: seq<Step>)
  {
    && (outcome.Threw? <==> exists i: nat, e | i < end :: EndsIn(run, i, Some(e)) && !Covered(run, i))
    && (outcome.Threw? ==>
          && outcome.failure.sequence < end && EndsIn(run, outcome.failure.sequence, Some(outcome.failure.error))
          && !Covered(run, outcome.failure.sequence)
          && forall i: nat, e | i < outcome.failure.sequence && EndsIn(run, i, Some(e)) :: Covered(run, i))
  }

  /** Counted in the run alone: by the step `m` in which the flush of call `n` settles, every write enqueued before the
      call has ended, and the flush throws exactly if one of them failed that no flush resumed before it covered, namely
      the lowest. */
  lemma {:induction false} CallSettles(steps: seq<Step>, n: nat) returns (m: nat)
    requires After(steps).Some? && n < |steps| && steps[n].CallFlush?
    ensures Calls(steps[..n]) < |After(steps).value.flushes| && Enqueues(steps[..n]) <= |After(steps).value.writes|
    ensures SettledCall(steps, n) ==>
              && n < m < |steps| && steps[m] == ResumeFlush(Calls(steps[..n]))
              && (forall i: nat | i < Enqueues(steps[..n]) :: HasEnded(steps[..m], i))
              && ThrowsUncovered(After(steps).value.flushes[Calls(steps[..n])].outcome, Enqueues(steps[..n]), steps[..m])
    decreases |steps|
  {
    var f := Calls(steps[..n]);
    CallFixesRange(steps, n);
    m := 0;
    if SettledCall(steps, n) {
      var init, last, t := RunStep(steps);
      assert steps[..|init|] == init && steps[|init|] == last;
      hide Inv, ThrowsUncovered, HasEnded, Enabled, Calls, Enqueues;
      if n == |init| {
        NewFlushWaits(t, f, init);
        assert false;
      } else {
        assert init[..n] == steps[..n] && init[n] == steps[n];
        CallFixesRange(init, n);
        StepPersists(t, last, f);
        if last == ResumeFlush(f) {
          m := |init|;
          ResumeSettles(init, t, f);
        } else {
          m := CallSettles(init, n);
          assert steps[..m] == init[..m];
        }
      }
    }
  }

  lemma NewFlushWaits(t: State, f: nat, init: seq<Step>)
    requires After(init) == Some(t) && f == Calls(init)
    ensures f < |Apply(t, CallFlush).flushes| && Apply(t, CallFlush).flushes[f].outcome.Waiting?
  {
    Counted(init);
  }

  lemma ResumeSettles(init: seq<Step>, t: State, f: nat)
    requires After(init) == Some(t) && Inv(t) && Enabled(t, ResumeFlush(f))
    ensures var through := t.flushes[f].through;
            && -1 <= through < |t.writes|
            && (forall i: nat | i <= through :: HasEnded(init, i))
            && ThrowsUncovered(Apply(t, ResumeFlush(f)).flushes[f].outcome, through + 1, init)
  {
    FlushOutcome(t, f);
    forall i: nat ensures i <= t.drained <==> Covered(init, i) {
      DrainedMeans(init, i);
    }
    forall i: nat, error ensures EndedWith(t, i, error) <==> EndsIn(init, i, error) {
      WritesOfRun(init, i, error);
    }
    var through, outcome := t.flushes[f].through, Apply(t, ResumeFlush(f)).flushes[f].outcome;
    assert -1 <= through < |t.writes|;
    hide Covered, FirstThrough, KeepAfter, FailedBetween, After, EndsIn, Apply, Inv, Enabled;
    ThrowsEnded(t, init, through, outcome);
    forall i: nat | i <= through ensures HasEnded(init, i) {
      assert EndedWith(t, i, if t.writes[i].Broken? then Some(t.writes[i].error) else None);
    }
  }

  lemma ThrowsEnded(t: State, init: seq<Step>, through: int, outcome: Outcome)
    requires -1 <= through < |t.writes| && (outcome.Returned? || outcome.Threw?)
    requires outcome.Threw? <==> exists i | t.drained < i <= through :: i >= 0 && t.writes[i].Broken?
    requires outcome.Threw? ==>
               && t.drained < outcome.failure.sequence <= through
               && t.writes[outcome.failure.sequence] == Broken(outcome.failure.error)
               && forall i | t.drained < i < outcome.failure.sequence :: i >= 0 ==> !t.writes[i].Broken?
    requires forall i: nat :: i <= t.drained <==> Covered(init, i)
    requires forall i: nat, error :: EndedWith(t, i, error) <==> EndsIn(init, i, error)
    ensures ThrowsUncovered(outcome, through + 1, init)
  {
    hide Covered, EndsIn;
    if i: nat, e :| i < through + 1 && EndsIn(init, i, Some(e)) && !Covered(init, i) {
      assert EndedWith(t, i, Some(e));
      assert t.drained < i <= through && t.writes[i].Broken?;
    }
    if outcome.Threw? {
      var q, e := outcome.failure.sequence, outcome.failure.error;
      assert EndedWith(t, q, Some(e));
      assert EndsIn(init, q, Some(e)) && !Covered(init, q);
      forall i: nat, d | i < q && EndsIn(init, i, Some(d)) ensures Covered(init, i) {
        assert EndedWith(t, i, Some(d));
      }
    }
  }

  /** A flush whose writes have all finished can go on, and so the queue comes to rest only with every write finished and
      every flush settled. */
  lemma RestingIsSettled(s: State)
    requires Inv(s)
    requires forall i: nat :: !Enabled(s, StartWrite(i)) && !Enabled(s, FinishWrite(i, None))
    requires forall f: nat :: !Enabled(s, ResumeFlush(f))
    ensures forall i | 0 <= i < |s.writes| :: Finished(s.writes[i])
    ensures forall f | 0 <= f < |s.flushes| :: !s.flushes[f].outcome.Waiting?
  {
    hide LedgerExact;
    forall i | 0 <= i < |s.writes| ensures Finished(s.writes[i]) {
      if !Finished(s.writes[i]) {
        var j := NeverStuck(s, i);
      }
    }
    forall f | 0 <= f < |s.flushes| ensures !s.flushes[f].outcome.Waiting? {
      assert !Enabled(s, ResumeFlush(f));
    }
  }

  /** A failed write does not stop the queue: while a write has not finished, some write can move. */
  lemma {:induction false} NeverStuck(s: State, i: nat) returns (j: nat)
    requires Inv(s) && i < |s.writes| && !Finished(s.writes[i])
    ensures j <= i && (Enabled(s, StartWrite(j)) || Enabled(s, FinishWrite(j, None)))
    decreases i
  {
    if s.writes[i].Running? || i == 0 || Finished(s.writes[i - 1]) {
      j := i;
    } else {
      j := NeverStuck(s, i - 1);
    }
  }

  // ---------------------------------------------------------------- the queue object

  lemma KeepHead(all: seq<Failure>, k: nat, through: int)
    requires k < |all|
    ensures KeepAfter(all[k..], through) ==
            (if all[k].sequence <= through then [] else [all[k]]) + KeepAfter(all[k + 1..], through)
  {
    assert all[k..][1..] == all[k + 1..];
  }

  class SerializedWriteQueue {
    var nextSequence: nat
    var writes: seq<Phase>
    var failures: seq<Failure>
    var flushes: seq<Flush>
    ghost var drained: int

    ghost function View(): State
      reads this
    {
      State(writes, failures, flushes, drained)
    }

    ghost predicate Valid()
      reads this
    {
      Inv(View()) && nextSequence == |writes|
    }

    constructor ()
      ensures Valid() && View() == INITIAL
    {
      nextSequence, writes, failures, flushes, drained := 0, [], [], [], -1;
    }

    method EnqueueWrite() returns (sequence: nat)
      requires Valid()
      modifies this
      ensures Valid() && sequence == old(nextSequence) && View() == Apply(old(View()), Enqueue)
    {
      StepKeeps(View(), Enqueue);
      sequence := nextSequence;
      nextSequence := nextSequence + 1;
      writes := writes + [Queued];
    }

    method PreviousSettled(i: nat)
      requires Valid() && Enabled(View(), StartWrite(i))
      modifies this`writes
      ensures Valid() && View() == Apply(old(View()), StartWrite(i))
    {
      StepKeeps(View(), StartWrite(i));
      writes := writes[i := Running];
    }

    method WriteSettles(i: nat, error: Option<Error>)
      requires Valid() && Enabled(View(), FinishWrite(i, error))
      modifies this`writes, this`failures
      ensures Valid() && View() == Apply(old(View()), FinishWrite(i, error))
    {
      StepKeeps(View(), FinishWrite(i, error));
      if error.Some? {
        failures := failures + [Failure(error.value, i)];
        writes := writes[i := Broken(error.value)];
      } else {
        writes := writes[i := Done];
      }
    }

    method FlushCalled() returns (f: nat)
      requires Valid()
      modifies this`flushes
      ensures Valid() && f == |old(flushes)| && View() == Apply(old(View()), CallFlush)
    {
      StepKeeps(View(), CallFlush);
      f := |flushes|;
      flushes := flushes + [Flush(nextSequence - 1, Waiting)];
    }

    /** The backward splice loop. */
    method RemoveFailuresThrough(sequence: int)
      modifies this`failures
      ensures failures == KeepAfter(old(failures), sequence)
    {
      var index := |failures| - 1;
      ghost var before := failures;
      while index >= 0
        invariant -1 <= index < |before|
        invariant failures == before[..index + 1] + KeepAfter(before[index + 1..], sequence)
      {
        KeepHead(before, index, sequence);
        hide KeepAfter;
        assert before[..index + 1] == before[..index] + [before[index]];
        if failures[index].sequence <= sequence {
          failures := failures[..index] + failures[index + 1..];
        }
        index := index - 1;
      }
      assert before[0..] == before;
    }

    method DrainSettled(f: nat) returns (thrown: Option<Error>)
      requires Valid() && Enabled(View(), ResumeFlush(f))
      modifies this
      ensures Valid() && View() == Apply(old(View()), ResumeFlush(f))
      ensures thrown == match flushes[f].outcome case Threw(failure) => Some(failure.error) case _ => None
    {
      StepKeeps(View(), ResumeFlush(f));
      var through := flushes[f].through;
      var failure := FirstThrough(failures, through);
      RemoveFailuresThrough(through);
      drained := Max(drained, through);
      flushes := flushes[f := Flush(through, if failure.Some? then Threw(failure.value) else Returned)];
      thrown := if failure.Some? then Some(failure.value.error) else None;
    }
  }
}
