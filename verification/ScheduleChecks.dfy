/** Schedule checks built on reachability (src/planning/generate.ts). */
module ScheduleChecks {
  import opened DependencyRefs
  import opened Digraph
  import opened Reachability
  import opened Workflow

  // ---------------------------------------------------------------- the index with containment

  function ChildHits(parent: Node, children: seq<Node>, id: Id): seq<Node>
  {
    if children == [] then []
    else ChildHits(parent, children[..|children| - 1], id) + (if children[|children| - 1].id == id then [parent] else [])
  }

  /** The parallels registered under `id`, in the order the walk registers them. */
  function Containers(nodes: seq<Node>, id: Id): seq<Node>
  {
    if nodes == [] then []
    else
      (if nodes[0].Parallel? then ChildHits(nodes[0], nodes[0].children, id) + Containers(nodes[0].children, id) else [])
      + Containers(nodes[1..], id)
  }

  lemma {:induction false} ChildHitsMembers(parent: Node, children: seq<Node>, id: Id, n: Node)
    ensures n in ChildHits(parent, children, id) <==> n == parent && exists c | c in children :: c.id == id
    decreases |children|
  {
    if children != [] {
      var last := children[|children| - 1];
      ChildHitsMembers(parent, children[..|children| - 1], id, n);
      assert children == children[..|children| - 1] + [last];
      assert (exists c | c in children :: c.id == id) <==>
             last.id == id || exists c | c in children[..|children| - 1] :: c.id == id;
    }
  }

  lemma {:induction false} ContainersMembers(nodes: seq<Node>, id: Id, n: Node)
    ensures n in Containers(nodes, id) <==> n in Flatten(nodes) && exists c | c in Children(n) :: c.id == id
    decreases nodes
  {
    if nodes != [] {
      var head := nodes[0];
      ContainersMembers(nodes[1..], id, n);
      if head.Parallel? {
        ChildHitsMembers(head, head.children, id, n);
        ContainersMembers(head.children, id, n);
      }
    }
  }

  lemma {:induction false} ChildHitsCount(parent: Node, children: seq<Node>, id: Id)
    ensures |ChildHits(parent, children, id)| == Mentioned(Ids(children), id)
    ensures forall i | 0 <= i < |ChildHits(parent, children, id)| :: ChildHits(parent, children, id)[i] == parent
    decreases |children|
  {
    hide Mentioned;
    if children == [] {
      NoMention(id);
    } else {
      var init := children[..|children| - 1];
      ChildHitsCount(parent, init, id);
      MentionedLast(Ids(children), id);
      assert Ids(children)[..|children| - 1] == Ids(init);
    }
  }

  /** The parallels are registered in preorder, each as often as one of its children has the id. */
  lemma ContainersInOrder(a: seq<Node>, b: seq<Node>, id: Id, n: Node)
    ensures Containers(a + b, id) == Containers(a, id) + Containers(b, id)
    ensures !n.Parallel? ==> Containers([n], id) == []
    ensures n.Parallel? ==>
              exists hits :: IsRepeated(hits, n, Mentioned(Ids(n.children), id)) &&
                             Containers([n], id) == hits + Containers(n.children, id)
  {
    ContainersAppend(a, b, id);
    if n.Parallel? {
      ChildHitsCount(n, n.children, id);
      assert [n][1..] == [];
      assert Containers([n], id) == ChildHits(n, n.children, id) + Containers(n.children, id);
      assert IsRepeated(ChildHits(n, n.children, id), n, Mentioned(Ids(n.children), id));
    }
    hide ChildHits, Mentioned;
  }

  lemma {:induction false} ContainersAppend(a: seq<Node>, b: seq<Node>, id: Id)
    ensures Containers(a + b, id) == Containers(a, id) + Containers(b, id)
    decreases |a|
  {
    hide ChildHits;
    if a == [] {
      assert a + b == b;
    } else {
      assert (a + b)[1..] == a[1..] + b;
      ContainersAppend(a[1..], b, id);
    }
  }

  ghost predicate IsRepeated(hits: seq<Node>, n: Node, count: nat)
  {
    |hits| == count && forall i | 0 <= i < |hits| :: hits[i] == n
  }

  lemma RegisterStep(initial: NodeIndex, before: NodeIndex, parent: Node, children: seq<Node>, j: nat, id: Id)
    requires j < |children| && Lookup(before, id) == Lookup(initial, id) + ChildHits(parent, children[..j], id)
    ensures Lookup(before[children[j].id := Lookup(before, children[j].id) + [parent]], id) ==
            Lookup(initial, id) + ChildHits(parent, children[..j + 1], id)
  {
    ChildHitsStep(parent, children, j, id);
    hide ChildHits;
    var hits := ChildHits(parent, children[..j], id);
    assert (Lookup(initial, id) + hits) + [parent] == Lookup(initial, id) + (hits + [parent]);
  }

  method RegisterContainmentEdges(parent: Node, children: seq<Node>, initial: NodeIndex) returns (index: NodeIndex)
    ensures forall id :: Lookup(index, id) == Lookup(initial, id) + ChildHits(parent, children, id)
  {
    hide ChildHits;
    index := initial;
    NoChildHits(parent, children);
    for j := 0 to |children|
      invariant forall id :: Lookup(index, id) == Lookup(initial, id) + ChildHits(parent, children[..j], id)
    {
      ghost var before := index;
      var child := children[j];
      index := index[child.id := Lookup(index, child.id) + [parent]];
      forall id ensures Lookup(index, id) == Lookup(initial, id) + ChildHits(parent, children[..j + 1], id) {
        RegisterStep(initial, before, parent, children, j, id);
      }
    }
    assert children[..|children|] == children;
  }

  method AddParallelContainmentEdges(nodes: seq<Node>, initial: NodeIndex) returns (index: NodeIndex)
    ensures forall id :: Lookup(index, id) == Lookup(initial, id) + Containers(nodes, id)
    decreases nodes
  {
    hide Containers, ChildHits;
    index := initial;
    EmptySuffix(nodes);
    for i := 0 to |nodes|
      invariant forall id :: Lookup(index, id) + Containers(nodes[i..], id) == Lookup(initial, id) + Containers(nodes, id)
    {
      var node := nodes[i];
      ghost var start := index;
      if node.Parallel? {
        index := RegisterContainmentEdges(node, node.children, index);
        index := AddParallelContainmentEdges(node.children, index);
      }
      forall id ensures Lookup(index, id) + Containers(nodes[i + 1..], id) == Lookup(initial, id) + Containers(nodes, id) {
        ContainersStep(nodes, i, id);
        assert Lookup(start, id) + Containers(nodes[i..], id) == Lookup(initial, id) + Containers(nodes, id);
      }
    }
  }

  lemma EmptySuffix(nodes: seq<Node>)
    ensures nodes[0..] == nodes && forall id :: Containers(nodes[|nodes|..], id) == []
  {
  }

  lemma NoChildHits(parent: Node, children: seq<Node>)
    ensures forall id :: ChildHits(parent, children[..0], id) == []
  {
  }

  lemma ChildHitsStep(parent: Node, children: seq<Node>, j: nat, id: Id)
    requires j < |children|
    ensures ChildHits(parent, children[..j + 1], id) ==
            ChildHits(parent, children[..j], id) + if children[j].id == id then [parent] else []
  {
    assert children[..j + 1][..j] == children[..j];
  }

  lemma ContainersStep(nodes: seq<Node>, i: nat, id: Id)
    requires i < |nodes|
    ensures Containers(nodes[i..], id) ==
            (if nodes[i].Parallel? then ChildHits(nodes[i], nodes[i].children, id) + Containers(nodes[i].children, id)
             else [])
            + Containers(nodes[i + 1..], id)
  {
    assert nodes[i..][1..] == nodes[i + 1..];
  }

  method DependentsByNeedWithContainment(nested: seq<Node>, flat: seq<Node>) returns (index: NodeIndex)
    ensures forall id :: Lookup(index, id) == Dependents(flat, id) + Containers(nested, id)
  {
    var needs := DependentsByNeed(flat);
    index := AddParallelContainmentEdges(nested, needs);
  }

  // ---------------------------------------------------------------- what the index means

  /** `n` directly follows `u`: it needs `u`, or it is the parallel around `u`. */
  ghost predicate Follows(n: Node, u: Id)
  {
    u in n.needs || exists c | c in Children(n) :: c.id == u
  }

  ghost function FollowEdges(flat: seq<Node>): set<(Id, Id)>
  {
    (set n, u | n in flat && u in n.needs :: (u, n.id)) + (set n, c | n in flat && c in Children(n) :: (c.id, n.id))
  }

  /** `n` follows `a` along one or more needs and containments. */
  ghost predicate FollowsEventually(flat: seq<Node>, a: Id, n: Node)
  {
    n in flat && exists u :: ReachStar(FollowEdges(flat), a, u) && Follows(n, u)
  }

  ghost predicate FollowsById(flat: seq<Node>, a: Id, id: Id)
  {
    exists m :: FollowsEventually(flat, a, m) && m.id == id
  }

  ghost predicate IsFullIndex(nodes: seq<Node>, index: NodeIndex)
  {
    forall id :: Lookup(index, id) == Dependents(Flatten(nodes), id) + Containers(nodes, id)
  }

  lemma IndexMembers(nodes: seq<Node>, index: NodeIndex, id: Id, n: Node)
    requires IsFullIndex(nodes, index)
    ensures n in Lookup(index, id) <==> n in Flatten(nodes) && Follows(n, id)
  {
    DependentsMembers(Flatten(nodes), id, n);
    ContainersMembers(nodes, id, n);
  }

  lemma IndexFollows(nodes: seq<Node>, index: NodeIndex)
    requires IsFullIndex(nodes, index)
    ensures IndexEdges(index) == FollowEdges(Flatten(nodes))
  {
    hide IsFullIndex;
    forall e ensures e in IndexEdges(index) <==> e in FollowEdges(Flatten(nodes)) {
      if e in IndexEdges(index) {
        var u, n :| u in index && n in index[u] && e == (u, n.id);
        IndexMembers(nodes, index, u, n);
      }
      if e in FollowEdges(Flatten(nodes)) {
        var n := FollowOwner(Flatten(nodes), e);
        IndexMembers(nodes, index, e.0, n);
      }
    }
  }

  lemma FollowOwner(flat: seq<Node>, e: (Id, Id)) returns (n: Node)
    requires e in FollowEdges(flat)
    ensures n in flat && n.id == e.1 && Follows(n, e.0)
  {
    if n0, u :| n0 in flat && u in n0.needs && e == (u, n0.id) {
      n := n0;
    } else {
      var c;
      n, c :| n in flat && c in Children(n) && e == (c.id, n.id);
    }
  }

  /** Index reachability is exactly following along needs and containments. */
  lemma DownstreamMeans(nodes: seq<Node>, index: NodeIndex, a: Id, n: Node)
    requires IsFullIndex(nodes, index)
    ensures Downstream(index, a, n) <==> FollowsEventually(Flatten(nodes), a, n)
  {
    hide IsFullIndex;
    IndexFollows(nodes, index);
    if Downstream(index, a, n) {
      var u :| ReachStar(IndexEdges(index), a, u) && n in Lookup(index, u);
      IndexMembers(nodes, index, u, n);
    }
    if FollowsEventually(Flatten(nodes), a, n) {
      var u :| ReachStar(FollowEdges(Flatten(nodes)), a, u) && Follows(n, u);
      IndexMembers(nodes, index, u, n);
    }
  }

  /** The ids under which the index lists something. */
  ghost function Referred(flat: seq<Node>): set<Id>
  {
    (set n, d | n in flat && d in n.needs :: d) + (set n, c | n in flat && c in Children(n) :: c.id)
  }

  ghost function FollowIndex(nodes: seq<Node>): NodeIndex
  {
    map id | id in Referred(Flatten(nodes)) :: Dependents(Flatten(nodes), id) + Containers(nodes, id)
  }

  lemma FollowIndexIsFull(nodes: seq<Node>)
    ensures IsFullIndex(nodes, FollowIndex(nodes))
  {
    hide Flatten;
    var flat := Flatten(nodes);
    forall id | id !in Referred(flat) ensures Dependents(flat, id) == [] && Containers(nodes, id) == [] {
      var dependents, containers := Dependents(flat, id), Containers(nodes, id);
      hide Dependents, Containers;
      if dependents != [] {
        DependentsMembers(flat, id, dependents[0]);
      }
      if containers != [] {
        ContainersMembers(nodes, id, containers[0]);
      }
    }
  }

  /** The nodes after `a` at which a search looks, whatever it looks for. */
  ghost function Examined(nodes: seq<Node>, a: Id): seq<Node>
  {
    Tested(FollowIndex(nodes), a)
  }

  lemma ExaminedBy(nodes: seq<Node>, index: NodeIndex, a: Id)
    requires IsFullIndex(nodes, index)
    ensures Tested(index, a) == Examined(nodes, a)
  {
    FollowIndexIsFull(nodes);
    TestedSame(index, FollowIndex(nodes), a);
  }

  /** No two different nodes that follow `a` share an id. */
  ghost predicate OneFollowerPerId(flat: seq<Node>, a: Id)
  {
    forall m, n | FollowsEventually(flat, a, m) && FollowsEventually(flat, a, n) && m.id == n.id :: m == n
  }

  lemma OneFollowerMeans(nodes: seq<Node>, a: Id)
    ensures OneFollowerPerId(Flatten(nodes), a) <==> OneDownstreamPerId(FollowIndex(nodes), a)
  {
    hide Downstream, FollowsEventually, FollowIndex;
    FollowIndexIsFull(nodes);
    forall n ensures Downstream(FollowIndex(nodes), a, n) <==> FollowsEventually(Flatten(nodes), a, n) {
      DownstreamMeans(nodes, FollowIndex(nodes), a, n);
    }
  }

  // ---------------------------------------------------------------- write-capable parallels

  function Kept(nodes: seq<Node>, p: Node -> bool): seq<Node>
  {
    if nodes == [] then [] else (if p(nodes[0]) then [nodes[0]] else []) + Kept(nodes[1..], p)
  }

  /** Two children write, wherever among their siblings they stand. */
  ghost predicate TwoWrite(children: seq<Node>, writes: Node -> bool)
  {
    exists i, j | 0 <= i < j < |children| :: writes(children[i]) && writes(children[j])
  }

  lemma {:induction false} KeptOne(nodes: seq<Node>, p: Node -> bool)
    ensures |Kept(nodes, p)| > 0 <==> exists i | 0 <= i < |nodes| :: p(nodes[i])
    decreases |nodes|
  {
    if nodes != [] {
      KeptOne(nodes[1..], p);
      assert forall i | 0 <= i < |nodes| - 1 :: nodes[1..][i] == nodes[i + 1];
      if i :| 0 <= i < |nodes| && p(nodes[i]) && !p(nodes[0]) {
        assert p(nodes[1..][i - 1]);
      }
    }
  }

  lemma {:induction false} KeptTwo(nodes: seq<Node>, p: Node -> bool)
    ensures |Kept(nodes, p)| > 1 <==> TwoWrite(nodes, p)
    decreases |nodes|
  {
    if nodes != [] {
      var rest := nodes[1..];
      KeptTwo(rest, p);
      KeptOne(rest, p);
      if TwoWrite(rest, p) {
        var i, j :| 0 <= i < j < |rest| && p(rest[i]) && p(rest[j]);
        assert p(nodes[i + 1]) && p(nodes[j + 1]);
      }
      if p(nodes[0]) && exists i | 0 <= i < |rest| :: p(rest[i]) {
        var i :| 0 <= i < |rest| && p(rest[i]);
        assert p(nodes[0]) && p(nodes[i + 1]);
      }
      if i, j :| 0 <= i < j < |nodes| && p(nodes[i]) && p(nodes[j]) {
        assert p(rest[j - 1]);
        assert i > 0 ==> p(rest[i - 1]);
      }
    }
  }

  ghost predicate Integrated(flat: seq<Node>, a: Id, p: Node -> bool)
  {
    exists m :: FollowsEventually(flat, a, m) && p(m)
  }

  /** A parallel with several writers that no merge follows. */
  ghost predicate Unsafe(flat: seq<Node>, n: Node, writes: Node -> bool, merges: Node -> bool)
  {
    n.Parallel? && TwoWrite(n.children, writes) && !Integrated(flat, n.id, merges)
  }

  lemma SomeMeansIntegrated(nodes: seq<Node>, index: NodeIndex, a: Id, p: Node -> bool)
    requires IsFullIndex(nodes, index)
    ensures SomeDownstream(index, a, p) <==> Integrated(Flatten(nodes), a, p)
  {
    hide IsFullIndex, Downstream, FollowsEventually;
    if SomeDownstream(index, a, p) {
      var n :| Downstream(index, a, n) && p(n);
      DownstreamMeans(nodes, index, a, n);
    }
    if Integrated(Flatten(nodes), a, p) {
      var n :| FollowsEventually(Flatten(nodes), a, n) && p(n);
      DownstreamMeans(nodes, index, a, n);
    }
  }

  /** A parallel with several writers after which the search sees no merge. */
  ghost predicate Flagged(nodes: seq<Node>, n: Node, writes: Node -> bool, merges: Node -> bool)
  {
    n.Parallel? && TwoWrite(n.children, writes) && !exists m | m in Examined(nodes, n.id) :: merges(m)
  }

  /** `picked` lists the nodes at the ascending positions `at`. */
  ghost predicate Picks(all: seq<Node>, picked: seq<Node>, at: seq<nat>)
  {
    && |picked| == |at|
    && (forall k | 0 <= k < |at| :: at[k] < |all| && picked[k] == all[at[k]])
    && (forall k, l | 0 <= k < l < |at| :: at[k] < at[l])
  }

  /** The issues are the flagged ones of the first `n` nodes, place by place. */
  ghost predicate ListsFlagged(nodes: seq<Node>, n: nat, writes: Node -> bool, merges: Node -> bool, issues: seq<Node>,
      at: seq<nat>)
  {
    && n <= |Flatten(nodes)| && Picks(Flatten(nodes), issues, at) && (forall k | 0 <= k < |at| :: at[k] < n)
    && (forall i: nat | i < n :: i in at <==> Flagged(nodes, Flatten(nodes)[i], writes, merges))
  }

  lemma NextListed(nodes: seq<Node>, n: nat, writes: Node -> bool, merges: Node -> bool, issues: seq<Node>, at: seq<nat>)
    requires ListsFlagged(nodes, n, writes, merges, issues, at) && n < |Flatten(nodes)|
    ensures var node := Flatten(nodes)[n];
            if Flagged(nodes, node, writes, merges) then ListsFlagged(nodes, n + 1, writes, merges, issues + [node], at + [n])
            else ListsFlagged(nodes, n + 1, writes, merges, issues, at)
  {
    hide Flagged, Flatten;
  }

  lemma ListedMembers(nodes: seq<Node>, writes: Node -> bool, merges: Node -> bool, issues: seq<Node>, at: seq<nat>)
    requires ListsFlagged(nodes, |Flatten(nodes)|, writes, merges, issues, at)
    ensures forall n :: n in issues <==> n in Flatten(nodes) && Flagged(nodes, n, writes, merges)
  {
    hide Flagged, Flatten;
    forall n ensures n in issues <==> n in Flatten(nodes) && Flagged(nodes, n, writes, merges) {
      if n in issues {
        var k :| 0 <= k < |issues| && issues[k] == n;
        assert at[k] in at;
      }
      if n in Flatten(nodes) && Flagged(nodes, n, writes, merges) {
        var i: nat :| i < |Flatten(nodes)| && Flatten(nodes)[i] == n;
        var k :| 0 <= k < |at| && at[k] == i;
        assert issues[k] == n;
      }
    }
  }

  /** One issue for every place of a flagged parallel, in the order of the nodes. */
  method UnsafeParallelWorktreeIssues(nodes: seq<Node>, writes: Node -> bool,
      merges: Node -> bool) returns (issues: seq<Node>, ghost at: seq<nat>)
    ensures forall n :: n in issues <==> n in Flatten(nodes) && Flagged(nodes, n, writes, merges)
    ensures Picks(Flatten(nodes), issues, at)
    ensures forall i: nat | i < |Flatten(nodes)| :: i in at <==> Flagged(nodes, Flatten(nodes)[i], writes, merges)
  {
    hide IsFullIndex, Examined, Tested, TwoWrite, Kept, Flatten;
    var flat := Flatten(nodes);
    var index := DependentsByNeedWithContainment(nodes, flat);
    FullIndex(nodes, index);
    issues, at := [], [];
    for i := 0 to |flat|
      invariant ListsFlagged(nodes, i, writes, merges, issues, at)
    {
      hide ListsFlagged;
      NextListed(nodes, i, writes, merges, issues, at);
      var node := flat[i];
      if node.Parallel? {
        KeptTwo(node.children, writes);
      }
      if node.Parallel? && |Kept(node.children, writes)| > 1 {
        var integrated := HasReachableDependent(node.id, index, merges);
        ExaminedBy(nodes, index, node.id);
        if !integrated {
          issues, at := issues + [node], at + [i];
        }
      }
    }
    ListedMembers(nodes, writes, merges, issues, at);
  }

  lemma FoundMeans(nodes: seq<Node>, a: Id, p: Node -> bool)
    ensures Integrated(Flatten(nodes), a, p) <==> SomeDownstream(FollowIndex(nodes), a, p)
    ensures Found(FollowIndex(nodes), a, p) <==> exists m | m in Examined(nodes, a) :: p(m)
  {
    hide FollowIndex, Tested;
    FollowIndexIsFull(nodes);
    SomeMeansIntegrated(nodes, FollowIndex(nodes), a, p);
  }

  /** No unsafe parallel goes unnoticed. Whatever counts as a merge, exactly the unsafe ones are flagged if and only if no
      two different nodes after any parallel with several writers share an id; so it is when ids are unique. */
  lemma FlaggedExactly(nodes: seq<Node>, writes: Node -> bool)
    ensures forall n, merges | Unsafe(Flatten(nodes), n, writes, merges) :: Flagged(nodes, n, writes, merges)
    ensures (forall n, merges | n in Flatten(nodes) ::
               Flagged(nodes, n, writes, merges) <==> Unsafe(Flatten(nodes), n, writes, merges)) <==>
            (forall n | n in Flatten(nodes) && n.Parallel? && TwoWrite(n.children, writes) ::
               OneFollowerPerId(Flatten(nodes), n.id))
    ensures UniqueIds(Flatten(nodes)) ==> forall a :: OneFollowerPerId(Flatten(nodes), a)
  {
    hide Integrated, Examined, OneFollowerPerId, Flatten, Found, SomeDownstream, UniqueIds, TwoWrite;
    forall n, merges | Unsafe(Flatten(nodes), n, writes, merges) ensures Flagged(nodes, n, writes, merges) {
      SearchExact(FollowIndex(nodes), n.id);
      FoundMeans(nodes, n.id, merges);
    }
    forall n: Node | n.Parallel? && TwoWrite(n.children, writes)
      ensures (forall merges :: Flagged(nodes, n, writes, merges) <==> Unsafe(Flatten(nodes), n, writes, merges)) <==>
              OneFollowerPerId(Flatten(nodes), n.id)
    {
      FlaggedAt(nodes, n, writes);
    }
    if UniqueIds(Flatten(nodes)) {
      forall a ensures OneFollowerPerId(Flatten(nodes), a) {
        UniqueFollowers(nodes, a);
      }
    }
  }

  lemma FlaggedAt(nodes: seq<Node>, n: Node, writes: Node -> bool)
    requires n.Parallel? && TwoWrite(n.children, writes)
    ensures (forall merges :: Flagged(nodes, n, writes, merges) <==> Unsafe(Flatten(nodes), n, writes, merges)) <==>
            OneFollowerPerId(Flatten(nodes), n.id)
  {
    hide Integrated, Examined, OneFollowerPerId, Flatten, Found, SomeDownstream, TwoWrite, OneDownstreamPerId, FollowIndex;
    SearchExact(FollowIndex(nodes), n.id);
    OneFollowerMeans(nodes, n.id);
    forall merges
      ensures (Flagged(nodes, n, writes, merges) <==> Unsafe(Flatten(nodes), n, writes, merges)) <==>
              (Found(FollowIndex(nodes), n.id, merges) <==> SomeDownstream(FollowIndex(nodes), n.id, merges))
    {
      FoundMeans(nodes, n.id, merges);
    }
  }

  lemma UniqueFollowers(nodes: seq<Node>, a: Id)
    requires UniqueIds(Flatten(nodes))
    ensures OneFollowerPerId(Flatten(nodes), a)
  {
    forall m, n | FollowsEventually(Flatten(nodes), a, m) && FollowsEventually(Flatten(nodes), a, n) && m.id == n.id
      ensures m == n
    {
      SameNode(Flatten(nodes), m, n);
    }
  }

  lemma FullIndex(nodes: seq<Node>, index: NodeIndex)
    requires forall id :: Lookup(index, id) == Dependents(Flatten(nodes), id) + Containers(nodes, id)
    ensures IsFullIndex(nodes, index)
  {
  }

  // ---------------------------------------------------------------- work units

  datatype WorkUnit = WorkUnit(id: Id, dependencies: seq<Id>)

  function UnitIds(units: seq<WorkUnit>): set<Id>
  {
    set u | u in units :: u.id
  }

  function InScope(ids: seq<Id>, scope: set<Id>): (r: seq<Id>)
    ensures forall x :: x in r <==> x in ids && x in scope
  {
    if ids == [] then []
    else
      assert ids == [ids[0]] + ids[1..];
      (if ids[0] in scope then [ids[0]] else []) + InScope(ids[1..], scope)
  }

  /** The last unit with this id depends on `d`, which is in scope. */
  ghost predicate DependsOn(units: seq<WorkUnit>, all: set<Id>, id: Id, d: Id)
  {
    d in all && exists i | 0 <= i < |units| ::
      units[i].id == id && d in units[i].dependencies && forall j | i < j < |units| :: units[j].id != id
  }

  /** The in-scope dependencies of the last unit with this id. */
  function DependenciesOf(units: seq<WorkUnit>, all: set<Id>, id: Id): (r: seq<Id>)
    ensures forall d :: d in r <==> DependsOn(units, all, id, d)
  {
    if units == [] then []
    else if units[|units| - 1].id == id then InScope(units[|units| - 1].dependencies, all)
    else DependenciesOf(units[..|units| - 1], all, id)
  }

  /** A node for a unit none of whose prerequisite's nodes it follows, neither it nor another node with its id. */
  ghost predicate Unlinked(flat: seq<Node>, n: Node, prerequisite: Id)
  {
    forall source | source in flat && source.unit == prerequisite && prerequisite != "" ::
      !FollowsById(flat, source.id, n.id)
  }

  /** Whether node `n` must follow unit `prerequisite`. */
  ghost predicate MustFollow(units: seq<WorkUnit>, implements: Node -> bool, n: Node, prerequisite: Id)
  {
    implements(n) && n.unit != "" && DependsOn(units, UnitIds(units), n.unit, prerequisite)
  }

  method HasDependencyPath(nodes: seq<Node>, index: NodeIndex, prerequisite: Id, target: Node) returns (linked: bool)
    requires IsFullIndex(nodes, index)
    ensures linked <==> !Unlinked(Flatten(nodes), target, prerequisite)
  {
    hide IsFullIndex, SomeDownstream, Found, FollowsById, Flatten;
    var flat := Flatten(nodes);
    for i := 0 to |flat|
      invariant forall source | source in flat[..i] && source.unit == prerequisite && prerequisite != "" ::
        !FollowsById(flat, source.id, target.id)
    {
      assert flat[..i + 1] == flat[..i] + [flat[i]];
      if prerequisite != "" && flat[i].unit == prerequisite {
        var isTarget := (candidate: Node) => candidate.id == target.id;
        var found := HasReachableDependent(flat[i].id, index, isTarget);
        TargetReached(nodes, index, flat[i].id, target, isTarget);
        SearchExact(index, flat[i].id);
        if found {
          return true;
        }
      }
    }
    assert flat[..|flat|] == flat;
    return false;
  }

  lemma TargetReached(nodes: seq<Node>, index: NodeIndex, a: Id, target: Node, p: Node -> bool)
    requires IsFullIndex(nodes, index) && forall n :: p(n) <==> n.id == target.id
    ensures SomeDownstream(index, a, p) <==> FollowsById(Flatten(nodes), a, target.id)
    ensures DecidedById(p)
  {
    hide IsFullIndex, FollowsEventually;
    SomeMeansIntegrated(nodes, index, a, p);
  }

  /** One issue per missing edge: the node and the prerequisite unit it does not follow. */
  method WorkUnitDependencyIssues(nodes: seq<Node>, units: seq<WorkUnit>, implements: Node -> bool)
    returns (issues: seq<(Node, Id)>)
    ensures forall n, d :: (n, d) in issues <==>
                           n in Flatten(nodes) && MustFollow(units, implements, n, d) && Unlinked(Flatten(nodes), n, d)
  {
    hide IsFullIndex, Unlinked, DependenciesOf;
    issues := [];
    var flat := Flatten(nodes);
    var index := DependentsByNeedWithContainment(nodes, flat);
    FullIndex(nodes, index);
    for i := 0 to |flat|
      invariant forall n, d :: (n, d) in issues <==>
          n in flat[..i] && MustFollow(units, implements, n, d) && Unlinked(flat, n, d)
    {
      assert flat[..i + 1] == flat[..i] + [flat[i]];
      var node := flat[i];
      if implements(node) && node.unit != "" {
        var prerequisites := DependenciesOf(units, UnitIds(units), node.unit);
        ghost var before := issues;
        for j := 0 to |prerequisites|
          invariant forall n, d :: (n, d) in issues <==>
                                   (n, d) in before || (n == node && d in prerequisites[..j] && Unlinked(flat, n, d))
        {
          assert prerequisites[..j + 1] == prerequisites[..j] + [prerequisites[j]];
          var linked := HasDependencyPath(nodes, index, prerequisites[j], node);
          if !linked {
            issues := issues + [(node, prerequisites[j])];
          }
        }
        assert prerequisites[..|prerequisites|] == prerequisites;
      }
    }
    assert flat[..|flat|] == flat;
  }

  predicate Assigned(nodes: seq<Node>, id: Id)
  {
    id != "" && exists n | n in Flatten(nodes) :: n.unit == id
  }

  /** The units that no node is assigned to; a unit with the empty id is always among them. */
  function MissingAssignedWorkUnits(nodes: seq<Node>, units: seq<WorkUnit>): (missing: seq<Id>)
    ensures forall id :: id in missing <==>
              id in UnitIds(units) && (id == "" || forall n | n in Flatten(nodes) :: n.unit != id)
  {
    if units == [] then []
    else
      assert units == [units[0]] + units[1..];
      (if Assigned(nodes, units[0].id) then [] else [units[0].id]) + MissingAssignedWorkUnits(nodes, units[1..])
  }

  /** They are listed in the order of the units, once per unit. */
  lemma {:induction false} MissingInOrder(nodes: seq<Node>, a: seq<WorkUnit>, b: seq<WorkUnit>, u: WorkUnit)
    ensures MissingAssignedWorkUnits(nodes, a + b) == MissingAssignedWorkUnits(nodes, a) + MissingAssignedWorkUnits(nodes, b)
    ensures MissingAssignedWorkUnits(nodes, [u]) == [] || MissingAssignedWorkUnits(nodes, [u]) == [u.id]
    decreases |a|
  {
    hide Assigned, Flatten;
    assert [u][1..] == [];
    if a == [] {
      assert a + b == b;
    } else {
      assert (a + b)[1..] == a[1..] + b;
      MissingInOrder(nodes, a[1..], b, u);
    }
  }
}
