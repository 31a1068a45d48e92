/** Following along needs and containments (src/planning/generate.ts), and the event order. */
module FollowOrder {
  import opened DependencyRefs
  import opened Digraph
  import opened EventOrder
  import opened ScheduleChecks
  import opened Workflow

  ghost function NeedRefEdges(flat: seq<Node>): set<(Event, Event)>
  {
    set n, m | n in flat && m in n.needs && m in IdSet(flat) :: (End(m), Start(n.id))
  }

  /** The event order without its entries into parallels from outside and without group membership. */
  ghost function FollowEvents(flat: seq<Node>): set<(Event, Event)>
  {
    RunEdges(flat) + NeedRefEdges(flat) + CloseEdges(flat)
  }

  lemma FollowEventsHold(flat: seq<Node>)
    ensures FollowEvents(flat) <= EventEdges(flat)
  {
    assert NeedRefEdges(flat) <= RefEdges(flat);
  }

  lemma ById(flat: seq<Node>, a: Id, id: Id)
    ensures FollowsById(flat, a, id) <==> Reach(FollowEdges(flat), a, id)
  {
    hide Reach;
    var e := FollowEdges(flat);
    if FollowsById(flat, a, id) {
      var m :| FollowsEventually(flat, a, m) && m.id == id;
      var u :| ReachStar(e, a, u) && Follows(m, u);
      assert (u, id) in e;
      EdgeReach(e, u, id);
      ReachTrans(e, a, u, id);
    }
    if Reach(e, a, id) {
      var u := LastStep(e, a, id);
      var m := FollowOwner(flat, (u, id));
      assert FollowsEventually(flat, a, m);
    }
  }

  lemma FollowStep(flat: seq<Node>, u: Id, v: Id)
    requires (u, v) in FollowEdges(flat) && u in IdSet(flat)
    ensures Reach(FollowEvents(flat), End(u), End(v)) && v in IdSet(flat)
  {
    hide Reach;
    var e := FollowEvents(flat);
    var n := FollowOwner(flat, (u, v));
    if u in n.needs {
      assert (End(u), Start(v)) in e && (Start(v), End(v)) in e;
      EdgeReach(e, End(u), Start(v));
      EdgeReach(e, Start(v), End(v));
      ReachTrans(e, End(u), Start(v), End(v));
    } else {
      assert (End(u), End(v)) in e;
      EdgeReach(e, End(u), End(v));
    }
  }

  lemma {:induction false} FollowChain(flat: seq<Node>, a: Id, b: Id, k: nat)
    requires k >= 1 && ReachIn(FollowEdges(flat), a, b, k) && a in IdSet(flat)
    ensures b in IdSet(flat) && Reach(FollowEvents(flat), End(a), End(b))
    decreases k
  {
    hide FollowEvents, Reach, FollowEdges;
    var c :| ReachIn(FollowEdges(flat), a, c, k - 1) && (c, b) in FollowEdges(flat);
    if k > 1 {
      FollowChain(flat, a, c, k - 1);
    }
    FollowStep(flat, c, b);
    ReachTrans(FollowEvents(flat), End(a), End(c), End(b));
  }

  lemma EventOwner(flat: seq<Node>, x: Event, y: Event)
    requires (x, y) in FollowEvents(flat)
    ensures (x.Start? && x.id == y.id) || (x.End? && (x.id, y.id) in FollowEdges(flat))
  {
    if (x, y) in RunEdges(flat) {
    } else if (x, y) in NeedRefEdges(flat) {
      var n, m :| n in flat && m in n.needs && m in IdSet(flat) && (x, y) == (End(m), Start(n.id));
      assert (m, n.id) in FollowEdges(flat);
    } else {
      var n, c :| n in flat && c in Children(n) && (x, y) == (End(c.id), End(n.id));
      assert (c.id, n.id) in FollowEdges(flat);
    }
  }

  lemma {:induction false} EventChain(flat: seq<Node>, a: Id, y: Event, k: nat)
    requires k >= 1 && ReachIn(FollowEvents(flat), End(a), y, k)
    ensures Reach(FollowEdges(flat), a, y.id)
    decreases k
  {
    hide FollowEvents, FollowEdges, Reach;
    var x :| ReachIn(FollowEvents(flat), End(a), x, k - 1) && (x, y) in FollowEvents(flat);
    EventOwner(flat, x, y);
    if k > 1 {
      EventChain(flat, a, x, k - 1);
    }
    if x.End? {
      EdgeReach(FollowEdges(flat), x.id, y.id);
      ReachTrans(FollowEdges(flat), a, x.id, y.id);
    }
  }

  /** A node is found to follow another exactly when it ends later along a path of the event order that enters no parallel
      from outside and uses no group membership; so what follows a node ends after it in every execution. */
  lemma FollowsExactly(flat: seq<Node>, a: Id, id: Id)
    requires a in IdSet(flat)
    ensures FollowsById(flat, a, id) <==> Reach(FollowEvents(flat), End(a), End(id))
    ensures FollowsById(flat, a, id) ==> Reach(EventEdges(flat), End(a), End(id))
  {
    hide FollowEvents, FollowEdges, EventEdges, FollowsById;
    ById(flat, a, id);
    FollowEventsHold(flat);
    if Reach(FollowEdges(flat), a, id) {
      var k: nat :| k >= 1 && ReachIn(FollowEdges(flat), a, id, k);
      FollowChain(flat, a, id, k);
      ReachMonotone(FollowEvents(flat), EventEdges(flat), End(a), End(id));
    }
    if Reach(FollowEvents(flat), End(a), End(id)) {
      var k: nat :| k >= 1 && ReachIn(FollowEvents(flat), End(a), End(id), k);
      EventChain(flat, a, End(id), k);
    }
  }

  /** The work-unit check links a node to a prerequisite exactly along such a path from one of the prerequisite's nodes. */
  lemma LinkedExactly(flat: seq<Node>, n: Node, prerequisite: Id)
    ensures !Unlinked(flat, n, prerequisite) <==>
            exists source | source in flat && source.unit == prerequisite && prerequisite != "" ::
              Reach(FollowEvents(flat), End(source.id), End(n.id))
  {
    hide FollowEvents, FollowsById, Reach;
    forall source | source in flat
      ensures FollowsById(flat, source.id, n.id) <==> Reach(FollowEvents(flat), End(source.id), End(n.id))
    {
      FollowsExactly(flat, source.id, n.id);
    }
  }

  // ---------------------------------------------------------------- orders that the check does not see

  const SOURCE := Task("source", [], Agent, "u1")
  const TARGET := Task("target", [], Agent, "u2")
  const AROUND := Parallel("around", ["source"], [TARGET], "")
  const ALL := Group("all", [], ["source"], "")
  const AFTER := Task("after", ["all"], Agent, "u2")

  function Units(): seq<WorkUnit>
  {
    [WorkUnit("u1", []), WorkUnit("u2", ["u1"])]
  }

  lemma SecondNeedsFirst(implements: Node -> bool, n: Node)
    requires implements(n) && n.unit == "u2"
    ensures MustFollow(Units(), implements, n, "u1")
  {
    assert WorkUnit("u1", []) in Units();
    assert Units()[1] == WorkUnit("u2", ["u1"]) && "u1" in Units()[1].dependencies;
  }

  lemma EnteredFlat()
    ensures Flatten([SOURCE, AROUND]) == [SOURCE, AROUND, TARGET]
  {
    assert [SOURCE, AROUND][1..] == [AROUND] && [AROUND][1..] == [] && [TARGET][1..] == [];
    assert Flatten([]) == [] && Flatten([TARGET]) == [TARGET] + [] + [];
    assert Flatten([AROUND]) == [AROUND] + [TARGET] + [];
    assert Flatten([SOURCE, AROUND]) == [SOURCE] + [] + Flatten([AROUND]);
  }

  lemma EnteredBefore()
    ensures Before([SOURCE, AROUND], "source", "target")
  {
    EnteredFlat();
    hide Flatten;
    var flat := [SOURCE, AROUND, TARGET];
    assert SOURCE in flat && AROUND in flat && TARGET in Children(AROUND);
    RefEdge(flat, AROUND, "source");
    ContainEdges(flat, AROUND, TARGET);
    hide EventEdges;
    TwoSteps(EventEdges(flat), End("source"), Start("around"), Start("target"));
  }

  lemma MembershipBefore()
    ensures Before([SOURCE, ALL, AFTER], "source", "after")
  {
    var nodes := [SOURCE, ALL, AFTER];
    ThreeFlat(SOURCE, ALL, AFTER);
    assert SOURCE in nodes && ALL in nodes && AFTER in nodes;
    hide Flatten;
    RefEdge(nodes, ALL, "source");
    RunEdge(nodes, ALL);
    RefEdge(nodes, AFTER, "all");
    hide EventEdges;
    TwoSteps(EventEdges(nodes), End("source"), Start("all"), End("all"));
    EdgeReach(EventEdges(nodes), End("all"), Start("after"));
    ReachTrans(EventEdges(nodes), End("source"), End("all"), Start("after"));
  }

  /** A target inside a parallel that needs the source starts after the source; the check finds it unlinked. */
  lemma EnteredUnseen(implements: Node -> bool)
    requires implements(TARGET)
    ensures Before([SOURCE, AROUND], "source", "target") && TARGET in Flatten([SOURCE, AROUND])
    ensures MustFollow(Units(), implements, TARGET, "u1") && Unlinked(Flatten([SOURCE, AROUND]), TARGET, "u1")
  {
    EnteredBefore();
    EnteredFlat();
    SecondNeedsFirst(implements, TARGET);
    hide Flatten, FollowsById, Before, MustFollow;
    NothingFollows([SOURCE, AROUND, TARGET], "source", "target");
  }

  /** A node that needs a group starts after the group's members; the check finds it unlinked. */
  lemma MembershipUnseen(implements: Node -> bool)
    requires implements(AFTER)
    ensures Before([SOURCE, ALL, AFTER], "source", "after") && AFTER in Flatten([SOURCE, ALL, AFTER])
    ensures MustFollow(Units(), implements, AFTER, "u1") && Unlinked(Flatten([SOURCE, ALL, AFTER]), AFTER, "u1")
  {
    var nodes := [SOURCE, ALL, AFTER];
    MembershipBefore();
    ThreeFlat(SOURCE, ALL, AFTER);
    SecondNeedsFirst(implements, AFTER);
    hide Flatten, FollowsById, Before, MustFollow;
    NoNeedOf(nodes);
    ById(nodes, "source", "after");
    if Reach(FollowEdges(nodes), "source", "after") {
      var k: nat :| k >= 1 && ReachIn(FollowEdges(nodes), "source", "after", k);
      var c := FirstStep(FollowEdges(nodes), "source", "after", k);
    }
  }

  /** So it reports both as missing a dependency, although the order holds in every execution. */
  method OrderedYetReported(implements: Node -> bool) returns (entered: seq<(Node, Id)>, member: seq<(Node, Id)>)
    requires implements(TARGET) && implements(AFTER)
    ensures Before([SOURCE, AROUND], "source", "target") && (TARGET, "u1") in entered
    ensures Before([SOURCE, ALL, AFTER], "source", "after") && (AFTER, "u1") in member
  {
    hide Flatten, Before, MustFollow, Unlinked;
    EnteredUnseen(implements);
    MembershipUnseen(implements);
    entered := WorkUnitDependencyIssues([SOURCE, AROUND], Units(), implements);
    member := WorkUnitDependencyIssues([SOURCE, ALL, AFTER], Units(), implements);
  }

  lemma ThreeFlat(a: Node, b: Node, c: Node)
    requires !a.Parallel? && !b.Parallel? && !c.Parallel?
    ensures Flatten([a, b, c]) == [a, b, c]
  {
    assert [a, b, c][1..] == [b, c] && [b, c][1..] == [c] && [c][1..] == [];
    assert Flatten([c]) == [c];
    assert Flatten([b, c]) == [b] + [] + [c];
    assert Flatten([a, b, c]) == [a] + [] + ([b] + [] + [c]);
  }

  lemma NoNeedOf(nodes: seq<Node>)
    requires nodes == [SOURCE, ALL, AFTER]
    ensures forall c :: ("source", c) !in FollowEdges(nodes)
  {
    forall c ensures ("source", c) !in FollowEdges(nodes) {
      if ("source", c) in FollowEdges(nodes) {
        var n := FollowOwner(nodes, ("source", c));
      }
    }
  }

  lemma TwoSteps(e: set<(Event, Event)>, x: Event, y: Event, z: Event)
    requires (x, y) in e && (y, z) in e
    ensures Reach(e, x, z)
  {
    EdgeReach(e, x, y);
    EdgeReach(e, y, z);
    ReachTrans(e, x, y, z);
  }

  /** What nothing precedes directly is not found to follow anything. */
  lemma NothingFollows(flat: seq<Node>, a: Id, id: Id)
    requires forall n | n in flat && n.id == id :: n.needs == [] && Children(n) == []
    ensures !FollowsById(flat, a, id)
  {
    ById(flat, a, id);
    if Reach(FollowEdges(flat), a, id) {
      var c := LastStep(FollowEdges(flat), a, id);
      var n := FollowOwner(flat, (c, id));
    }
  }
}
