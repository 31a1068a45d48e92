/** The frame stack shared by both iterative depth-first traversals of src/planning/graph.ts: what the frames say about
    the path, which dependents the frames have settled, and how each move of the loop (advance, push, pop) keeps it.
    The cycle finder excuses edges inside recorded cycles; the topological sort excuses none. */
module FrameStack {
  import opened Digraph
  import opened Workflow

  datatype Frame = Frame(index: nat, nodeId: Id)

  ghost predicate Closed(adjacency: map<Id, seq<Id>>)
  {
    forall u, x :: u in adjacency && x in adjacency[u] ==> x in adjacency
  }

  /** Every node of the list has its successors earlier in the list. */
  ghost predicate SuccessorsFirst(e: set<(Id, Id)>, finished: seq<Id>)
  {
    forall i, w :: 0 <= i < |finished| && (finished[i], w) in e ==> w in finished[..i]
  }

  lemma AppendOrdered(e: set<(Id, Id)>, finished: seq<Id>, x: Id)
    requires SuccessorsFirst(e, finished)
    requires forall w :: (x, w) in e ==> w in finished
    ensures SuccessorsFirst(e, finished + [x])
  {
    var longer := finished + [x];
    forall i, w | 0 <= i < |longer| && (longer[i], w) in e ensures w in longer[..i] {
      if i < |finished| {
        assert w in finished[..i];
        assert longer[..i] == finished[..i];
      } else {
        assert longer[..i] == finished;
      }
    }
  }

  lemma AppendChain(e: set<(Id, Id)>, path: seq<Id>, x: Id)
    requires IsChain(e, path) && (path != [] ==> (path[|path| - 1], x) in e)
    ensures IsChain(e, path + [x])
  {
  }

  /** The part of the path from the revisited node on, closed by the edge back, is a cycle. */
  lemma SuffixIsCycle(e: set<(Id, Id)>, path: seq<Id>, k: nat)
    requires k < |path| && Distinct(path) && IsChain(e, path) && (path[|path| - 1], path[k]) in e
    ensures IsCycle(e, path[k..])
  {
    var c := path[k..];
    forall i, j | 0 <= i < j < |c| && j == i + 1 ensures (c[i], c[j]) in e {
      assert (path[k + i], path[k + j]) in e;
    }
  }

  /** The frames follow the path: each frame waits on the dependent that the next one visits. */
  ghost predicate Stacked(adjacency: map<Id, seq<Id>>, frames: seq<Frame>, path: seq<Id>)
  {
    && |frames| == |path|
    && (forall k | 0 <= k < |frames| ::
          && frames[k].nodeId == path[k]
          && frames[k].index <= LiveLength(Lookup(adjacency, path[k])))
    && (forall k, l | 0 <= k < l < |frames| && l == k + 1 :: Awaits(adjacency, frames[k], path[l]))
  }

  ghost predicate Awaits(adjacency: map<Id, seq<Id>>, frame: Frame, next: Id)
  {
    var dependents := Lookup(adjacency, frame.nodeId);
    0 < frame.index <= |dependents| && dependents[frame.index - 1] == next
  }

  /** The edge to `w` is dealt with: `w` is finished, or the edge is among the excused ones. */
  ghost predicate Settled(excused: set<(Id, Id)>, finished: seq<Id>, v: Id, w: Id)
  {
    w in finished || (v, w) in excused
  }

  /** Every dependent that a frame has passed is settled; the one it waits on is not passed yet. */
  ghost predicate Explored(adjacency: map<Id, seq<Id>>, excused: set<(Id, Id)>, frames: seq<Frame>, finished: seq<Id>)
  {
    forall k, j | 0 <= k < |frames| && 0 <= j < Passed(frames, k) && j < |Lookup(adjacency, frames[k].nodeId)| ::
      Settled(excused, finished, frames[k].nodeId, Lookup(adjacency, frames[k].nodeId)[j])
  }

  lemma ExploreExcused(adjacency: map<Id, seq<Id>>, excused: set<(Id, Id)>, more: set<(Id, Id)>, frames: seq<Frame>,
      finished: seq<Id>)
    requires Explored(adjacency, excused, frames, finished) && excused <= more
    ensures Explored(adjacency, more, frames, finished)
  {
    forall k, j | 0 <= k < |frames| && 0 <= j < Passed(frames, k) && j < |Lookup(adjacency, frames[k].nodeId)|
      ensures Settled(more, finished, frames[k].nodeId, Lookup(adjacency, frames[k].nodeId)[j])
    {
      assert Settled(excused, finished, frames[k].nodeId, Lookup(adjacency, frames[k].nodeId)[j]);
    }
  }

  ghost function Passed(frames: seq<Frame>, k: nat): int
    requires k < |frames|
  {
    if k == |frames| - 1 then frames[k].index else frames[k].index - 1
  }

  lemma StackAdvance(adjacency: map<Id, seq<Id>>, rest: seq<Frame>, path: seq<Id>, i: nat, v: Id)
    requires Stacked(adjacency, rest + [Frame(i, v)], path) && Closed(adjacency)
    requires i < |Lookup(adjacency, v)| && Lookup(adjacency, v)[i] != ""
    ensures path != [] && path[|path| - 1] == v
    ensures Stacked(adjacency, rest + [Frame(i + 1, v)], path)
    ensures (v, Lookup(adjacency, v)[i]) in LiveEdges(adjacency) && Lookup(adjacency, v)[i] in adjacency
  {
    var frames := rest + [Frame(i, v)];
    assert frames[|rest|] == Frame(i, v);
    LiveEdge(adjacency, v, i);
    var next := rest + [Frame(i + 1, v)];
    forall k, l | 0 <= k < l < |next| && l == k + 1 ensures Awaits(adjacency, next[k], path[l]) {
      assert Awaits(adjacency, frames[k], path[l]);
    }
    forall k | 0 <= k < |next|
      ensures next[k].nodeId == path[k] && next[k].index <= LiveLength(Lookup(adjacency, path[k]))
    {
      assert frames[k].nodeId == next[k].nodeId == path[k];
      assert k < |rest| ==> frames[k] == next[k];
    }
  }

  lemma ExploreFinished(adjacency: map<Id, seq<Id>>, excused: set<(Id, Id)>, rest: seq<Frame>, finished: seq<Id>,
      i: nat, v: Id)
    requires Explored(adjacency, excused, rest + [Frame(i, v)], finished)
    requires i < |Lookup(adjacency, v)| && Settled(excused, finished, v, Lookup(adjacency, v)[i])
    ensures Explored(adjacency, excused, rest + [Frame(i + 1, v)], finished)
  {
    var frames, next := rest + [Frame(i, v)], rest + [Frame(i + 1, v)];
    forall k, j | 0 <= k < |next| && 0 <= j < Passed(next, k) && j < |Lookup(adjacency, next[k].nodeId)|
      ensures Settled(excused, finished, next[k].nodeId, Lookup(adjacency, next[k].nodeId)[j])
    {
      assert frames[k].nodeId == next[k].nodeId;
      if k < |rest| || j < i {
        assert j < Passed(frames, k);
      }
    }
  }

  lemma StackPush(adjacency: map<Id, seq<Id>>, rest: seq<Frame>, path: seq<Id>, i: nat, v: Id)
    requires Stacked(adjacency, rest + [Frame(i + 1, v)], path)
    requires i < |Lookup(adjacency, v)|
    ensures Stacked(adjacency, rest + [Frame(i + 1, v)] + [Frame(0, Lookup(adjacency, v)[i])], path + [Lookup(adjacency,
        v)[i]])
  {
  }

  lemma ExplorePush(adjacency: map<Id, seq<Id>>, excused: set<(Id, Id)>, rest: seq<Frame>, finished: seq<Id>, i: nat,
      v: Id, w: Id)
    requires Explored(adjacency, excused, rest + [Frame(i, v)], finished)
    ensures Explored(adjacency, excused, rest + [Frame(i + 1, v)] + [Frame(0, w)], finished)
  {
    var frames, next := rest + [Frame(i, v)], rest + [Frame(i + 1, v)] + [Frame(0, w)];
    forall k, j | 0 <= k < |next| && 0 <= j < Passed(next, k) && j < |Lookup(adjacency, next[k].nodeId)|
      ensures Settled(excused, finished, next[k].nodeId, Lookup(adjacency, next[k].nodeId)[j])
    {
      assert k <= |rest|;
      assert frames[k].nodeId == next[k].nodeId && j < Passed(frames, k);
    }
  }

  lemma StackPop(adjacency: map<Id, seq<Id>>, rest: seq<Frame>, path: seq<Id>, i: nat, v: Id)
    requires Stacked(adjacency, rest + [Frame(i, v)], path)
    ensures path != [] && path[|path| - 1] == v
    ensures Stacked(adjacency, rest, path[..|path| - 1])
  {
    var frames := rest + [Frame(i, v)];
    assert frames[|rest|] == Frame(i, v);
    forall k | 0 <= k < |rest|
      ensures rest[k].nodeId == path[k] && rest[k].index <= LiveLength(Lookup(adjacency, path[k]))
    {
      assert frames[k] == rest[k];
    }
    forall k, l | 0 <= k < l < |rest| && l == k + 1 ensures Awaits(adjacency, rest[k], path[l]) {
      assert frames[k] == rest[k] && frames[l] == rest[l];
      assert Awaits(adjacency, frames[k], path[l]);
    }
  }

  lemma ExplorePop(adjacency: map<Id, seq<Id>>, excused: set<(Id, Id)>, rest: seq<Frame>, path: seq<Id>,
      finished: seq<Id>, i: nat, v: Id)
    requires Stacked(adjacency, rest + [Frame(i, v)], path)
    requires Explored(adjacency, excused, rest + [Frame(i, v)], finished)
    ensures Explored(adjacency, excused, rest, finished + [v])
  {
    var frames, more := rest + [Frame(i, v)], finished + [v];
    assert more[|finished|] == v;
    forall k, j | 0 <= k < |rest| && 0 <= j < Passed(rest, k) && j < |Lookup(adjacency, rest[k].nodeId)|
      ensures Settled(excused, more, rest[k].nodeId, Lookup(adjacency, rest[k].nodeId)[j])
    {
      assert frames[k] == rest[k];
      if j < Passed(frames, k) {
        assert Settled(excused, finished, rest[k].nodeId, Lookup(adjacency, rest[k].nodeId)[j]);
      } else {
        var l := k + 1;
        assert l == |rest| && Awaits(adjacency, frames[k], path[l]);
        assert frames[l] == Frame(i, v);
      }
    }
  }

  lemma Started(adjacency: map<Id, seq<Id>>, excused: set<(Id, Id)>, v: Id, finished: seq<Id>)
    ensures Stacked(adjacency, [Frame(0, v)], [v]) && Explored(adjacency, excused, [Frame(0, v)], finished)
  {
  }

  lemma StackEmpty(adjacency: map<Id, seq<Id>>, path: seq<Id>)
    requires Stacked(adjacency, [], path)
    ensures path == []
  {
  }

  /** When the top frame has run out of live dependents, all of them are settled. */
  lemma TopExhausted(adjacency: map<Id, seq<Id>>, excused: set<(Id, Id)>, rest: seq<Frame>, path: seq<Id>,
      finished: seq<Id>, i: nat, v: Id)
    requires Stacked(adjacency, rest + [Frame(i, v)], path)
    requires Explored(adjacency, excused, rest + [Frame(i, v)], finished)
    requires i >= |Lookup(adjacency, v)| || Lookup(adjacency, v)[i] == ""
    ensures forall w :: (v, w) in LiveEdges(adjacency) - excused ==> w in finished
  {
    var frames := rest + [Frame(i, v)];
    assert frames[|rest|] == Frame(i, v);
    forall w | (v, w) in LiveEdges(adjacency) - excused ensures w in finished {
      var j :| 0 <= j < LiveLength(adjacency[v]) && adjacency[v][j] == w;
      assert j < Passed(frames, |rest|);
      assert Settled(excused, finished, v, w);
    }
  }

  lemma NoEmptyLive(ids: seq<Id>)
    requires "" !in ids
    ensures LiveLength(ids) == |ids|
  {
  }
}
