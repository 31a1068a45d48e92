/** The process-wide run-state lock (src/run-control/run-state-lock.ts): a chain of promises, each of which waits for the
    release of the one before it. */
module RunStateLock {
  import opened Wrappers

  /** One acquisition; it waits for the release of the one before it. */
  datatype Ticket = Waiting | Held | Released

  type State = seq<Ticket>

  datatype Step = Acquire | Grant(i: nat) | Release(i: nat)

  /** A release function exists only once its acquisition was granted; it may be called again. */
  predicate Enabled(s: State, step: Step)
  {
    match step
    case Acquire => true
    case Grant(i) => i < |s| && s[i].Waiting? && (i > 0 ==> s[i - 1].Released?)
    case Release(i) => i < |s| && !s[i].Waiting?
  }

  function Apply(s: State, step: Step): State
    requires Enabled(s, step)
  {
    match step
    case Acquire => s + [Waiting]
    case Grant(i) => s[i := Held]
    case Release(i) => s[i := Released]
  }

  ghost function After(steps: seq<Step>): Option<State>
  {
    if steps == [] then Some([])
    else
      var before, step := After(steps[..|steps| - 1]), steps[|steps| - 1];
      if before.Some? && Enabled(before.value, step) then Some(Apply(before.value, step)) else None
  }

  /** Grants follow the order of acquisition: what was granted is preceded only by released tickets. */
  ghost predicate Inv(s: State)
  {
    forall i, j | 0 <= i < j < |s| && !s[j].Waiting? :: s[i].Released?
  }

  lemma StepKeeps(s: State, step: Step)
    requires Inv(s) && Enabled(s, step)
    ensures Inv(Apply(s, step))
  {
    var t := Apply(s, step);
    forall i, j | 0 <= i < j < |t| && !t[j].Waiting? ensures t[i].Released? {
      if step.Grant? && j == step.i && i < j - 1 {
        assert !s[j - 1].Waiting?;
      }
    }
  }

  lemma {:induction false} EveryRun(steps: seq<Step>)
    requires After(steps).Some?
    ensures Inv(After(steps).value)
    decreases |steps|
  {
    if steps != [] {
      EveryRun(steps[..|steps| - 1]);
      StepKeeps(After(steps[..|steps| - 1]).value, steps[|steps| - 1]);
    }
  }

  /** In every reachable state there is at most one holder. */
  lemma MutualExclusion(steps: seq<Step>, i: nat, j: nat)
    requires After(steps).Some? && i < j < |After(steps).value|
    ensures !(After(steps).value[i].Held? && After(steps).value[j].Held?)
  {
    EveryRun(steps);
  }

  /** Calling a release function again changes nothing. */
  lemma ReleaseTwice(s: State, i: nat)
    requires Enabled(s, Release(i))
    ensures var t := Apply(s, Release(i)); Enabled(t, Release(i)) && Apply(t, Release(i)) == t
  {
  }

  ghost function Waiters(s: State): set<nat>
  {
    set i | 0 <= i < |s| && s[i].Waiting?
  }

  ghost function Holders(s: State): set<nat>
  {
    set i | 0 <= i < |s| && s[i].Held?
  }

  /** Every grant, and every first release, brings the lock closer to rest. */
  lemma GrantsAndReleasesEnd(s: State, step: Step)
    requires Enabled(s, step) && !step.Acquire? && (step.Release? ==> s[step.i].Held?)
    ensures var t := Apply(s, step);
            Waiters(t) < Waiters(s) || (Waiters(t) == Waiters(s) && Holders(t) < Holders(s))
  {
    if step.Grant? {
      assert step.i in Waiters(s);
    } else {
      assert step.i in Holders(s);
    }
  }

  /** If every holder has released and nothing more can be granted, every acquisition was granted. */
  lemma {:induction false} AllGranted(s: State, i: nat)
    requires Inv(s) && i < |s| && Holders(s) == {}
    requires forall k :: !Enabled(s, Grant(k))
    ensures s[i].Released?
    decreases i
  {
    assert i !in Holders(s);
    if i > 0 {
      AllGranted(s, i - 1);
    }
    assert !Enabled(s, Grant(i));
  }

  /** A scoped holder moves on its own: its body settles, with a value or an error, and the lock is released. */
  predicate CanMove(s: State, i: nat)
  {
    Enabled(s, Grant(i)) || (i < |s| && s[i].Held?)
  }

  /** When all users hold the lock only around a body that settles, the run comes to rest with every ticket granted
      and released; until then someone can move. */
  lemma ScopedUseDrains(s: State)
    requires Inv(s)
    ensures (forall i: nat :: !CanMove(s, i)) <==> (forall i | 0 <= i < |s| :: s[i].Released?)
  {
    if forall i: nat :: !CanMove(s, i) {
      forall i: nat ensures !Enabled(s, Grant(i)) {
        assert !CanMove(s, i);
      }
      assert Holders(s) == {} by {
        forall i | 0 <= i < |s| ensures !s[i].Held? {
          assert !CanMove(s, i);
        }
      }
      forall i | 0 <= i < |s| ensures s[i].Released? {
        AllGranted(s, i);
      }
    }
  }

  // ---------------------------------------------------------------- the module's variables

  class LockChain {
    var tickets: seq<Ticket>

    ghost predicate Valid()
      reads this
    {
      Inv(tickets)
    }

    constructor ()
      ensures Valid() && tickets == []
    {
      tickets := [];
    }

    method AcquireRequested() returns (ticket: nat)
      requires Valid()
      modifies this
      ensures Valid() && ticket == |old(tickets)| && tickets == Apply(old(tickets), Acquire)
    {
      StepKeeps(tickets, Acquire);
      ticket := |tickets|;
      tickets := tickets + [Waiting];
    }

    method PreviousReleased(i: nat)
      requires Valid() && Enabled(tickets, Grant(i))
      modifies this
      ensures Valid() && tickets == Apply(old(tickets), Grant(i))
    {
      StepKeeps(tickets, Grant(i));
      tickets := tickets[i := Held];
    }

    /** The end of `withRunStateLock`: the lock is released whether or not the body failed, and an error passes on. */
    method BodySettles(i: nat, error: Option<string>) returns (thrown: Option<string>)
      requires Valid() && i < |tickets| && tickets[i].Held?
      modifies this
      ensures Valid() && thrown == error && tickets == Apply(old(tickets), Release(i)) && tickets[i].Released?
    {
      ReleaseCalled(i);
      thrown := error;
    }

    /** The release function of ticket `i`, guarded by its `released` flag. */
    method ReleaseCalled(i: nat)
      requires Valid() && Enabled(tickets, Release(i))
      modifies this
      ensures Valid() && tickets == Apply(old(tickets), Release(i))
    {
      StepKeeps(tickets, Release(i));
      if tickets[i].Released? {
        assert tickets[i := Released] == tickets;
        return;
      }
      tickets := tickets[i := Released];
    }
  }
}
