/** Resolution on a bounded stack (src/planning/dependency-refs.ts) and the lowering it feeds. */
module Unrolling {
  import opened DependencyRefs
  import opened Digraph
  import opened EventOrder
  import opened Lowering
  import opened Workflow
  import opened Wrappers

  // ---------------------------------------------------------------- resolution

  /** `resolveOne` on a stack of `depth` nested expansions; `None` when they do not suffice. Resolution recurses without
      a visited set, so it ends only where no cycle of expansions lies upstream. */
  function ResolveWithin(index: map<Id, Node>, id: Id, depth: nat): Option<seq<Id>>
    decreases depth, 0
  {
    if id !in index then Some([])
    else if index[id].Task? then Some([index[id].id])
    else if depth == 0 then None
    else
      match ResolveEachWithin(index, Expands(index[id]), depth - 1)
      case None => None
      case Some(ids) => Some(UniqueStrings(ids))
  }

  function ResolveEachWithin(index: map<Id, Node>, ids: seq<Id>, depth: nat): Option<seq<Id>>
    decreases depth, |ids| + 1
  {
    if ids == [] then Some([])
    else
      var first, rest := ResolveWithin(index, ids[0], depth), ResolveEachWithin(index, ids[1..], depth);
      if first.None? || rest.None? then None else Some(first.value + rest.value)
  }

  /** The id lies downstream of a container that expands to itself. */
  ghost predicate Loops(index: map<Id, Node>, id: Id)
  {
    exists c :: ReachStar(ExpandEdges(index), c, id) && Reach(ExpandEdges(index), c, c)
  }

  ghost predicate SomeLoops(index: map<Id, Node>, ids: seq<Id>)
  {
    exists m | m in ids :: Loops(index, m)
  }

  lemma {:induction false} EachWithin(index: map<Id, Node>, ids: seq<Id>, depth: nat)
    ensures ResolveEachWithin(index, ids, depth).None? <==> exists m | m in ids :: ResolveWithin(index, m, depth).None?
    decreases |ids|
  {
    hide ResolveWithin;
    if ids != [] {
      EachWithin(index, ids[1..], depth);
      assert ids == [ids[0]] + ids[1..];
      if m :| m in ids && ResolveWithin(index, m, depth).None? {
        assert m == ids[0] || m in ids[1..];
      }
    }
  }

  /** A looping container expands to one that loops. */
  lemma LoopStep(index: map<Id, Node>, id: Id) returns (m: Id)
    requires Loops(index, id)
    ensures id in index && !index[id].Task? && m in Expands(index[id]) && m in index && Loops(index, m)
  {
    hide Reach;
    var e := ExpandEdges(index);
    var c :| ReachStar(e, c, id) && Reach(e, c, c);
    m := LastStep(e, c, id);
    assert (m, id) in e;
    assert ReachStar(e, c, m) && Reach(e, c, c);
  }

  lemma LoopStepBack(index: map<Id, Node>, id: Id, m: Id)
    requires (m, id) in ExpandEdges(index) && Loops(index, m)
    ensures Loops(index, id)
  {
    hide Reach, ExpandEdges;
    var e := ExpandEdges(index);
    var c :| ReachStar(e, c, m) && Reach(e, c, c);
    EdgeReach(e, m, id);
    ReachTrans(e, c, m, id);
  }

  lemma {:induction false} LoopOverflows(index: map<Id, Node>, id: Id, depth: nat)
    requires Loops(index, id)
    ensures ResolveWithin(index, id, depth).None?
    decreases depth
  {
    hide Loops, Expands, UniqueStrings;
    var m := LoopStep(index, id);
    if depth > 0 {
      LoopOverflows(index, m, depth - 1);
      EachWithin(index, Expands(index[id]), depth - 1);
    }
  }

  lemma UpstreamShrinks(index: map<Id, Node>, id: Id, m: Id)
    requires !Loops(index, id) && (m, id) in ExpandEdges(index)
    ensures !Loops(index, m) && |Ancestors(ExpandEdges(index), m)| < |Ancestors(ExpandEdges(index), id)|
  {
    hide Reach, ExpandEdges;
    var e := ExpandEdges(index);
    if Loops(index, m) {
      LoopStepBack(index, id, m);
    }
    EdgeReach(e, m, id);
    forall x | x in Ancestors(e, m) ensures x in Ancestors(e, id) {
      ReachTrans(e, x, m, id);
    }
    assert m !in Ancestors(e, m) by {
      assert ReachStar(e, m, m);
    }
    assert (m, id).0 in Tails(e);
    SubsetSize(Ancestors(e, m), Ancestors(e, id), m);
  }

  lemma {:induction false} UnloopedResolves(index: map<Id, Node>, id: Id, depth: nat)
    requires !Loops(index, id) && |Ancestors(ExpandEdges(index), id)| < depth
    ensures ResolveWithin(index, id, depth).Some?
    decreases depth
  {
    hide Loops, Ancestors, Expands, UniqueStrings;
    if id in index && !index[id].Task? {
      forall m | m in Expands(index[id]) ensures ResolveWithin(index, m, depth - 1).Some? {
        if m in index {
          assert (m, id) in ExpandEdges(index);
          UpstreamShrinks(index, id, m);
          UnloopedResolves(index, m, depth - 1);
        }
      }
      EachWithin(index, Expands(index[id]), depth - 1);
    }
  }

  lemma UpstreamBounded(index: map<Id, Node>, id: Id)
    requires !Loops(index, id) && id in index
    ensures |Ancestors(ExpandEdges(index), id)| < |index|
  {
    hide Reach;
    var e := ExpandEdges(index);
    assert id !in Ancestors(e, id) by {
      assert ReachStar(e, id, id);
    }
    forall x | x in Ancestors(e, id) ensures x in index.Keys {
      var edge :| edge in e && edge.0 == x;
    }
    SubsetSize(Ancestors(e, id), index.Keys, id);
    assert |index.Keys| == |index|;
  }

  /** No stack suffices exactly when a container that expands to itself is upstream; otherwise one frame per node does. */
  lemma ResolutionEnds(index: map<Id, Node>, id: Id, depth: nat)
    requires depth >= |index|
    ensures ResolveWithin(index, id, depth).None? <==> Loops(index, id)
  {
    hide Loops, Ancestors;
    if Loops(index, id) {
      LoopOverflows(index, id, depth);
    } else if id in index {
      UpstreamBounded(index, id);
      UnloopedResolves(index, id, depth);
    }
  }

  lemma ListResolutionEnds(index: map<Id, Node>, ids: seq<Id>, depth: nat)
    requires depth >= |index|
    ensures ResolveEachWithin(index, ids, depth).None? <==> SomeLoops(index, ids)
  {
    hide Loops, ResolveWithin, ResolveEachWithin;
    EachWithin(index, ids, depth);
    forall m | m in ids ensures ResolveWithin(index, m, depth).None? <==> Loops(index, m) {
      ResolutionEnds(index, m, depth);
    }
  }

  /** A task that a container expands to, at any depth. */
  ghost predicate StandsFor(index: map<Id, Node>, id: Id, x: Id)
  {
    x in index && index[x].Task? && ReachStar(ExpandEdges(index), x, id)
  }

  lemma StandsForOwn(index: map<Id, Node>, id: Id, x: Id)
    requires id in index && index[id].Task?
    ensures StandsFor(index, id, x) <==> x == id
  {
    if StandsFor(index, id, x) && x != id {
      var c := LastStep(ExpandEdges(index), x, id);
    }
  }

  lemma StandsForNext(index: map<Id, Node>, id: Id, x: Id)
    requires id in index && !index[id].Task?
    ensures StandsFor(index, id, x) <==> exists m | m in Expands(index[id]) :: StandsFor(index, m, x)
  {
    hide Reach;
    var e := ExpandEdges(index);
    if StandsFor(index, id, x) {
      var c := LastStep(e, x, id);
      assert (c, id) in e && StandsFor(index, c, x);
    }
    if m :| m in Expands(index[id]) && StandsFor(index, m, x) {
      assert m in index by {
        if x != m {
          var c := LastStep(e, x, m);
          assert (c, m) in e;
        }
      }
      assert (m, id) in e;
      EdgeReach(e, m, id);
      ReachTrans(e, x, m, id);
    }
  }

  lemma {:induction false} EachWithinMembers(index: map<Id, Node>, ids: seq<Id>, depth: nat, x: Id)
    requires ResolveEachWithin(index, ids, depth).Some?
    ensures forall m | m in ids :: ResolveWithin(index, m, depth).Some?
    ensures x in ResolveEachWithin(index, ids, depth).value <==>
            exists m | m in ids :: x in ResolveWithin(index, m, depth).value
    decreases |ids|
  {
    hide ResolveWithin;
    if ids != [] {
      EachWithinMembers(index, ids[1..], depth, x);
      assert ids == [ids[0]] + ids[1..];
      if m :| m in ids && x in ResolveWithin(index, m, depth).value {
        assert m == ids[0] || m in ids[1..];
      }
    }
  }

  /** When resolution ends it yields exactly the tasks the id stands for. */
  lemma {:induction false} ResolvedStandsFor(index: map<Id, Node>, id: Id, depth: nat, x: Id)
    requires forall k | k in index :: index[k].id == k
    requires ResolveWithin(index, id, depth).Some?
    ensures x in ResolveWithin(index, id, depth).value <==> StandsFor(index, id, x)
    decreases depth
  {
    hide StandsFor, Expands;
    if id !in index {
      UnknownStandsForNothing(index, id, x);
    } else if index[id].Task? {
      StandsForOwn(index, id, x);
    } else {
      EachWithinMembers(index, Expands(index[id]), depth - 1, x);
      forall m | m in Expands(index[id])
        ensures x in ResolveWithin(index, m, depth - 1).value <==> StandsFor(index, m, x)
      {
        ResolvedStandsFor(index, m, depth - 1, x);
      }
      StandsForNext(index, id, x);
    }
  }

  lemma UnknownStandsForNothing(index: map<Id, Node>, id: Id, x: Id)
    requires id !in index
    ensures !StandsFor(index, id, x)
  {
    if StandsFor(index, id, x) {
      var c := LastStep(ExpandEdges(index), x, id);
    }
  }

  /** Where no container expands to itself the bounded resolution is the unbounded one. */
  lemma {:induction false} ResolutionAgrees(index: map<Id, Node>, id: Id, depth: nat)
    requires Resolvable(index) && ResolveWithin(index, id, depth).Some?
    ensures ResolveWithin(index, id, depth).value == ResolveOne(index, id)
    decreases depth, 0
  {
    hide Resolvable, Acyclic, Height;
    if id in index && !index[id].Task? {
      ExpandLower(index, id);
      ListAgrees(index, Expands(index[id]), depth - 1, Height(index, id));
    }
  }

  lemma {:induction false} ListAgrees(index: map<Id, Node>, ids: seq<Id>, depth: nat, bound: nat)
    requires Resolvable(index) && ResolveEachWithin(index, ids, depth).Some?
    requires forall m | m in ids :: Height(index, m) < bound
    ensures ResolveEachWithin(index, ids, depth).value == ResolveEach(index, ids, bound)
    decreases depth, |ids| + 1
  {
    hide Resolvable, Acyclic, Height;
    if ids != [] {
      ResolutionAgrees(index, ids[0], depth);
      ListAgrees(index, ids[1..], depth, bound);
    }
  }

  lemma ResolveOneMeans(index: map<Id, Node>, id: Id, x: Id)
    requires Resolvable(index) && forall k | k in index :: index[k].id == k
    ensures x in ResolveOne(index, id) <==> StandsFor(index, id, x)
  {
    hide Resolvable, Loops, StandsFor, ResolveOne, ResolveWithin;
    ResolvableNeverLoops(index, [id]);
    assert id in [id];
    ResolutionEnds(index, id, |index|);
    ResolutionAgrees(index, id, |index|);
    ResolvedStandsFor(index, id, |index|, x);
  }

  lemma ResolvableNeverLoops(index: map<Id, Node>, ids: seq<Id>)
    requires Resolvable(index)
    ensures !SomeLoops(index, ids)
  {
  }

  // ---------------------------------------------------------------- lowering

  /** `ResolutionOverflow`: the stack ran out. `SchemaViolation`: an empty workflow id, an empty node id, or no task. */
  datatype ArgoError = DuplicateNodeId(id: Id) | ResolutionOverflow | SchemaViolation

  /** One frame per indexed node: by `ResolutionEnds` a deeper stack resolves nothing more. */
  function ResolveNeeds(index: map<Id, Node>, needs: seq<Id>): Option<seq<Id>>
  {
    match ResolveEachWithin(index, needs, |index|)
    case None => None
    case Some(ids) => Some(UniqueStrings(ids))
  }

  /** The dependencies are resolved before the task is parsed, so an overflow hides an empty id. */
  function TryCompileTask(index: map<Id, Node>, node: Node, inherited: seq<Id>): Result<ArgoTask, ArgoError>
  {
    match ResolveNeeds(index, inherited + node.needs)
    case None => Err(ResolutionOverflow)
    case Some(ids) =>
      if node.id == "" then Err(SchemaViolation)
      else Ok(ArgoTask(node.id, ArgoTaskName(node.id), ArgoTemplateName(node.id), UniqueStrings(TaskNames(ids))))
  }

  function TryCompileNodes(index: map<Id, Node>, nodes: seq<Node>, inherited: seq<Id>, initial: seq<ArgoTask>)
    : Result<seq<ArgoTask>, ArgoError>
    decreases nodes
  {
    if nodes == [] then Ok(initial)
    else
      var n := nodes[0];
      var tasks :=
        if n.Task? then
          match TryCompileTask(index, n, inherited)
          case Err(error) => Err(error)
          case Ok(task) => Ok(initial + [task])
        else if n.Group? then Ok(initial)
        else TryCompileNodes(index, n.children, inherited + n.needs, initial);
      if tasks.Err? then tasks else TryCompileNodes(index, nodes[1..], inherited, tasks.value)
  }

  /** What goes wrong at a place of the plan; groups are never looked at. */
  ghost function Failure(index: map<Id, Node>, p: Place): Option<ArgoError>
  {
    if !p.node.Task? then None
    else if SomeLoops(index, p.inherited + p.node.needs) then Some(ResolutionOverflow)
    else if p.node.id == "" then Some(SchemaViolation)
    else None
  }

  ghost predicate Clean(index: map<Id, Node>, places: seq<Place>)
  {
    forall p | p in places :: Failure(index, p).None?
  }

  /** The first place that fails fails with `error`. */
  ghost predicate FailsFirst(index: map<Id, Node>, places: seq<Place>, error: ArgoError)
  {
    exists i: nat :: FailsAt(index, places, i, error)
  }

  ghost predicate FailsAt(index: map<Id, Node>, places: seq<Place>, i: nat, error: ArgoError)
  {
    i < |places| && Failure(index, places[i]) == Some(error) && Clean(index, places[..i])
  }

  lemma CleanAppend(index: map<Id, Node>, a: seq<Place>, b: seq<Place>)
    ensures Clean(index, a + b) <==> Clean(index, a) && Clean(index, b)
  {
    hide Failure;
    assert forall p :: p in a + b <==> p in a || p in b;
  }

  lemma FailsAppend(index: map<Id, Node>, a: seq<Place>, b: seq<Place>, error: ArgoError)
    ensures FailsFirst(index, a + b, error) <==>
            FailsFirst(index, a, error) || (Clean(index, a) && FailsFirst(index, b, error))
  {
    hide Failure, Clean;
    if i: nat :| FailsAt(index, a + b, i, error) {
      if i < |a| {
        assert (a + b)[..i] == a[..i];
        assert FailsAt(index, a, i, error);
      } else {
        assert (a + b)[..i] == a + b[..i - |a|];
        CleanAppend(index, a, b[..i - |a|]);
        assert FailsAt(index, b, i - |a|, error);
      }
    }
    if i: nat :| FailsAt(index, a, i, error) {
      assert (a + b)[..i] == a[..i];
      assert FailsAt(index, a + b, i, error);
    }
    if Clean(index, a) && FailsFirst(index, b, error) {
      var i: nat :| FailsAt(index, b, i, error);
      assert (a + b)[..|a| + i] == a + b[..i];
      CleanAppend(index, a, b[..i]);
      assert FailsAt(index, a + b, |a| + i, error);
    }
  }

  lemma {:induction false} SomethingFailsFirst(index: map<Id, Node>, places: seq<Place>) returns (error: ArgoError)
    requires !Clean(index, places)
    ensures FailsFirst(index, places, error)
    decreases |places|
  {
    hide Failure;
    var before, last := places[..|places| - 1], places[|places| - 1];
    assert places == before + [last];
    if Clean(index, before) {
      error := Failure(index, last).value;
      assert FailsAt(index, places, |before|, error);
    } else {
      error := SomethingFailsFirst(index, before);
      FailsAppend(index, before, [last], error);
    }
  }

  /** Where every task has an id, lowering overflows exactly when some task has an own or inherited need that lies
      downstream of a container that expands to itself. */
  lemma OverflowExact(index: map<Id, Node>, places: seq<Place>)
    requires forall p | p in places && p.node.Task? :: p.node.id != ""
    ensures FailsFirst(index, places, ResolutionOverflow) <==>
            exists p | p in places && p.node.Task? :: SomeLoops(index, p.inherited + p.node.needs)
  {
    hide SomeLoops;
    if !Clean(index, places) {
      var error := SomethingFailsFirst(index, places);
      var i: nat :| FailsAt(index, places, i, error);
      assert places[i] in places;
    }
  }

  /** One place alone. */
  lemma FailsAlone(index: map<Id, Node>, p: Place, error: ArgoError)
    ensures FailsFirst(index, [p], error) <==> Failure(index, p) == Some(error)
    ensures Clean(index, [p]) <==> Failure(index, p).None?
  {
    hide Failure;
    assert p in [p];
    if Failure(index, p) == Some(error) {
      assert FailsAt(index, [p], 0, error);
    }
  }

  lemma TryTaskExact(index: map<Id, Node>, p: Place, error: ArgoError)
    requires p.node.Task?
    ensures TryCompileTask(index, p.node, p.inherited) == Err(error) <==> Failure(index, p) == Some(error)
    ensures TryCompileTask(index, p.node, p.inherited).Ok? <==> Failure(index, p).None?
  {
    hide SomeLoops;
    ListResolutionEnds(index, p.inherited + p.node.needs, |index|);
  }

  lemma PlacesStep(nodes: seq<Node>, inherited: seq<Id>, container: Option<Node>)
    requires nodes != []
    ensures Places(nodes, inherited, container) ==
            HeadPlaces(nodes[0], inherited, container) + Places(nodes[1..], inherited, container)
  {
  }

  function HeadPlaces(n: Node, inherited: seq<Id>, container: Option<Node>): seq<Place>
  {
    [Place(n, inherited, container)]
    + (if n.Parallel? then Places(n.children, inherited + n.needs, Some(n)) else [])
  }

  /** Lowering stops at the first place, in preorder, that fails, with the error of that place. */
  lemma {:induction false} TryCompileExact(index: map<Id, Node>, nodes: seq<Node>, inherited: seq<Id>,
      container: Option<Node>, initial: seq<ArgoTask>, error: ArgoError)
    ensures TryCompileNodes(index, nodes, inherited, initial) == Err(error) <==>
            FailsFirst(index, Places(nodes, inherited, container), error)
    ensures TryCompileNodes(index, nodes, inherited, initial).Ok? <==> Clean(index, Places(nodes, inherited, container))
    decreases nodes
  {
    hide Failure, FailsFirst, Clean, TryCompileTask, Places;
    if nodes == [] {
      NothingFails(index, inherited, container, error);
    } else {
      var n := nodes[0];
      var p := Place(n, inherited, container);
      var inner := if n.Parallel? then Places(n.children, inherited + n.needs, Some(n)) else [];
      var rest := Places(nodes[1..], inherited, container);
      PlacesStep(nodes, inherited, container);
      CleanAppend(index, [p] + inner, rest);
      CleanAppend(index, [p], inner);
      FailsAppend(index, [p] + inner, rest, error);
      FailsAppend(index, [p], inner, error);
      FailsAlone(index, p, error);
      NothingAtAll(index, error);
      if n.Task? {
        TryTaskExact(index, p, error);
        var t := TryCompileTask(index, n, inherited);
        if t.Ok? {
          TryCompileExact(index, nodes[1..], inherited, container, initial + [t.value], error);
        }
      } else {
        NoTaskNoFailure(index, p);
        if n.Group? {
          TryCompileExact(index, nodes[1..], inherited, container, initial, error);
        } else {
          TryCompileExact(index, n.children, inherited + n.needs, Some(n), initial, error);
          var r := TryCompileNodes(index, n.children, inherited + n.needs, initial);
          if r.Ok? {
            TryCompileExact(index, nodes[1..], inherited, container, r.value, error);
          }
        }
      }
    }
  }

  lemma NoTaskNoFailure(index: map<Id, Node>, p: Place)
    requires !p.node.Task?
    ensures Failure(index, p).None?
  {
  }

  lemma NothingAtAll(index: map<Id, Node>, error: ArgoError)
    ensures !FailsFirst(index, [], error) && Clean(index, [])
  {
  }

  lemma NothingFails(index: map<Id, Node>, inherited: seq<Id>, container: Option<Node>, error: ArgoError)
    ensures !FailsFirst(index, Places([], inherited, container), error) && Clean(index, Places([], inherited, container))
  {
  }

  // ---------------------------------------------------------------- the tasks of a lowering that ends

  /** A lowered task with its two names, and with the names of exactly the tasks its inherited and own needs stand for, in
      the order of these needs. */
  ghost predicate Lowers(index: map<Id, Node>, p: Place, t: ArgoTask)
  {
    && t.nodeId == p.node.id && t.taskName == "node-" + p.node.id && t.templateName == "task-" + p.node.id
    && Distinct(t.dependencies)
    && (forall d :: d in t.dependencies <==> Named(index, p.inherited + p.node.needs, d))
    && InOrder(index, p.inherited + p.node.needs, t.dependencies)
  }

  /** What is named for the first needs stands before what only later ones name. */
  ghost predicate InOrder(index: map<Id, Node>, needs: seq<Id>, names: seq<string>)
  {
    forall i, j, k | 0 <= i < j < |names| && 0 <= k <= |needs| && Named(index, needs[..k], names[j]) ::
      Named(index, needs[..k], names[i])
  }

  ghost predicate Named(index: map<Id, Node>, needs: seq<Id>, d: string)
  {
    exists m, x | m in needs && StandsFor(index, m, x) :: d == ArgoTaskName(x)
  }

  function TaskPlaces(places: seq<Place>): seq<Place>
  {
    if places == [] then []
    else (if places[0].node.Task? then [places[0]] else []) + TaskPlaces(places[1..])
  }

  lemma {:induction false} TaskPlacesAppend(a: seq<Place>, b: seq<Place>)
    ensures TaskPlaces(a + b) == TaskPlaces(a) + TaskPlaces(b)
    decreases |a|
  {
    if a == [] {
      assert a + b == b;
    } else {
      TaskPlacesStep(a);
      TaskPlacesStep(a + b);
      hide *;
      assert (a + b)[0] == a[0] && (a + b)[1..] == a[1..] + b;
      TaskPlacesAppend(a[1..], b);
    }
  }

  lemma TaskPlacesStep(places: seq<Place>)
    requires places != []
    ensures TaskPlaces(places) == (if places[0].node.Task? then [places[0]] else []) + TaskPlaces(places[1..])
  {
  }

  lemma NeedsNamed(index: map<Id, Node>, needs: seq<Id>, d: string)
    requires forall k | k in index :: index[k].id == k
    requires ResolveNeeds(index, needs).Some?
    ensures d in UniqueStrings(TaskNames(ResolveNeeds(index, needs).value)) <==> Named(index, needs, d)
  {
    hide StandsFor, ResolveWithin, ResolveEachWithin;
    var ids := ResolveEachWithin(index, needs, |index|).value;
    var unique := UniqueStrings(ids);
    var names := TaskNames(unique);
    if d in names {
      var i :| 0 <= i < |names| && names[i] == d;
      EachWithinMembers(index, needs, |index|, unique[i]);
      var m :| m in needs && unique[i] in ResolveWithin(index, m, |index|).value;
      ResolvedStandsFor(index, m, |index|, unique[i]);
    }
    if m, x :| m in needs && StandsFor(index, m, x) && d == ArgoTaskName(x) {
      EachWithinMembers(index, needs, |index|, x);
      ResolvedStandsFor(index, m, |index|, x);
      var i :| 0 <= i < |unique| && unique[i] == x;
      assert names[i] == d;
    }
  }

  lemma {:induction false} EachPrefix(index: map<Id, Node>, ids: seq<Id>, k: nat, depth: nat)
    requires k <= |ids| && ResolveEachWithin(index, ids, depth).Some?
    ensures ResolveEachWithin(index, ids[..k], depth).Some?
    ensures ResolveEachWithin(index, ids[..k], depth).value <= ResolveEachWithin(index, ids, depth).value
    decreases |ids|
  {
    hide ResolveWithin;
    if k > 0 {
      EachPrefix(index, ids[1..], k - 1, depth);
      assert ids[..k][0] == ids[0] && ids[..k][1..] == ids[1..][..k - 1];
    }
  }

  /** The first needs alone resolve to a prefix of what all of them resolve to. */
  lemma NeedsPrefix(index: map<Id, Node>, needs: seq<Id>, k: nat)
    requires k <= |needs| && ResolveNeeds(index, needs).Some?
    ensures ResolveNeeds(index, needs[..k]).Some?
    ensures ResolveNeeds(index, needs[..k]).value <= ResolveNeeds(index, needs).value
  {
    hide ResolveEachWithin;
    EachPrefix(index, needs, k, |index|);
    var a, b := ResolveEachWithin(index, needs[..k], |index|).value, ResolveEachWithin(index, needs, |index|).value;
    assert b == a + b[|a|..];
    UniquePrefix(a, b[|a|..]);
  }

  lemma NamesPrefix(a: seq<Id>, b: seq<Id>)
    requires a <= b
    ensures UniqueStrings(TaskNames(a)) <= UniqueStrings(TaskNames(b))
  {
    hide UniqueStrings;
    var rest := TaskNames(b)[|a|..];
    assert TaskNames(b) == TaskNames(a) + rest;
    UniquePrefix(TaskNames(a), rest);
  }

  lemma NeedsInOrder(index: map<Id, Node>, needs: seq<Id>)
    requires forall k | k in index :: index[k].id == k
    requires ResolveNeeds(index, needs).Some?
    ensures InOrder(index, needs, UniqueStrings(TaskNames(ResolveNeeds(index, needs).value)))
  {
    hide Named, ResolveNeeds, UniqueStrings, TaskNames;
    var names := UniqueStrings(TaskNames(ResolveNeeds(index, needs).value));
    forall i, j, k | 0 <= i < j < |names| && 0 <= k <= |needs| && Named(index, needs[..k], names[j])
      ensures Named(index, needs[..k], names[i])
    {
      NeedsPrefix(index, needs, k);
      var first := UniqueStrings(TaskNames(ResolveNeeds(index, needs[..k]).value));
      NamesPrefix(ResolveNeeds(index, needs[..k]).value, ResolveNeeds(index, needs).value);
      NeedsNamed(index, needs[..k], names[j]);
      NeedsNamed(index, needs[..k], names[i]);
      var m :| 0 <= m < |first| && first[m] == names[j];
      assert first[m] == names[m];
      assert first[i] == names[i];
    }
  }

  /** What a container resolves to is in the order of what it expands to. */
  lemma ResolvedInOrder(index: map<Id, Node>, id: Id, depth: nat, k: nat)
    requires id in index && !index[id].Task? && ResolveWithin(index, id, depth).Some? && k <= |Expands(index[id])|
    ensures depth > 0 && ResolveEachWithin(index, Expands(index[id])[..k], depth - 1).Some?
    ensures UniqueStrings(ResolveEachWithin(index, Expands(index[id])[..k], depth - 1).value) <=
            ResolveWithin(index, id, depth).value
  {
    hide Expands;
    var ids := Expands(index[id]);
    EachPrefix(index, ids, k, depth - 1);
    var a, b := ResolveEachWithin(index, ids[..k], depth - 1).value, ResolveEachWithin(index, ids, depth - 1).value;
    assert b == a + b[|a|..];
    UniquePrefix(a, b[|a|..]);
  }

  lemma TryTaskLowers(index: map<Id, Node>, p: Place)
    requires forall k | k in index :: index[k].id == k
    requires TryCompileTask(index, p.node, p.inherited).Ok?
    ensures Lowers(index, p, TryCompileTask(index, p.node, p.inherited).value)
  {
    hide Named, ResolveNeeds, InOrder;
    forall d ensures d in TryCompileTask(index, p.node, p.inherited).value.dependencies <==>
                     Named(index, p.inherited + p.node.needs, d)
    {
      NeedsNamed(index, p.inherited + p.node.needs, d);
    }
    NeedsInOrder(index, p.inherited + p.node.needs);
  }

  /** The tasks that a lowering adds to `initial`, one for each executable place in preorder. */
  ghost predicate Extends(index: map<Id, Node>, initial: seq<ArgoTask>, places: seq<Place>, tasks: seq<ArgoTask>)
  {
    && |tasks| == |initial| + |places| && tasks[..|initial|] == initial
    && forall i | 0 <= i < |places| :: Lowers(index, places[i], tasks[|initial| + i])
  }

  lemma ExtendsTwice(index: map<Id, Node>, initial: seq<ArgoTask>, a: seq<Place>, middle: seq<ArgoTask>, b: seq<Place>,
      tasks: seq<ArgoTask>)
    requires Extends(index, initial, a, middle) && Extends(index, middle, b, tasks)
    ensures Extends(index, initial, a + b, tasks)
  {
    hide Lowers;
    forall i | 0 <= i < |initial| ensures tasks[i] == initial[i] {
      assert tasks[..|middle|][i] == middle[i] && middle[..|initial|][i] == initial[i];
    }
    forall i | 0 <= i < |a + b| ensures Lowers(index, (a + b)[i], tasks[|initial| + i]) {
      if i < |a| {
        assert tasks[..|middle|][|initial| + i] == middle[|initial| + i];
      } else {
        assert tasks[|middle| + (i - |a|)] == tasks[|initial| + i];
      }
    }
  }

  /** A lowering that ends yields one task per executable place in preorder, each with the names of exactly the tasks
      its needs stand for; no other part of the plan has to resolve. */
  lemma {:induction false} TryCompileLowers(index: map<Id, Node>, nodes: seq<Node>, inherited: seq<Id>,
      container: Option<Node>, initial: seq<ArgoTask>)
    requires forall k | k in index :: index[k].id == k
    requires TryCompileNodes(index, nodes, inherited, initial).Ok?
    ensures Extends(index, initial, TaskPlaces(Places(nodes, inherited, container)),
              TryCompileNodes(index, nodes, inherited, initial).value)
    decreases nodes
  {
    hide Lowers, TryCompileTask, Places, TaskPlaces, Extends;
    if nodes == [] {
      NothingLowered(index, inherited, container, initial);
    } else {
      var n := nodes[0];
      var p := Place(n, inherited, container);
      var inner := if n.Parallel? then Places(n.children, inherited + n.needs, Some(n)) else [];
      var rest := Places(nodes[1..], inherited, container);
      var whole := TryCompileNodes(index, nodes, inherited, initial).value;
      PlacesStep(nodes, inherited, container);
      TaskPlacesAppend([p] + inner, rest);
      TaskPlacesAppend([p], inner);
      HeadTaskPlaces(p);
      if n.Task? {
        var t := TryCompileTask(index, n, inherited).value;
        TryTaskLowers(index, p);
        ExtendsByOne(index, initial, p, t);
        TryCompileLowers(index, nodes[1..], inherited, container, initial + [t]);
        ExtendsTwice(index, initial, [p], initial + [t], TaskPlaces(rest), whole);
        assert [p] + TaskPlaces([]) == [p];
      } else if n.Group? {
        TryCompileLowers(index, nodes[1..], inherited, container, initial);
        assert [] + TaskPlaces([]) + TaskPlaces(rest) == TaskPlaces(rest);
      } else {
        var middle := TryCompileNodes(index, n.children, inherited + n.needs, initial).value;
        TryCompileLowers(index, n.children, inherited + n.needs, Some(n), initial);
        TryCompileLowers(index, nodes[1..], inherited, container, middle);
        ExtendsTwice(index, initial, TaskPlaces(inner), middle, TaskPlaces(rest), whole);
        assert [] + TaskPlaces(inner) == TaskPlaces(inner);
      }
    }
  }

  lemma HeadTaskPlaces(p: Place)
    ensures TaskPlaces([p]) == if p.node.Task? then [p] else []
    ensures TaskPlaces([]) == []
  {
    assert [p][1..] == [];
  }

  lemma ExtendsByOne(index: map<Id, Node>, initial: seq<ArgoTask>, p: Place, t: ArgoTask)
    requires Lowers(index, p, t)
    ensures Extends(index, initial, [p], initial + [t])
  {
    hide Lowers;
  }

  lemma NothingLowered(index: map<Id, Node>, inherited: seq<Id>, container: Option<Node>, initial: seq<ArgoTask>)
    ensures Extends(index, initial, TaskPlaces(Places([], inherited, container)), initial)
  {
  }

  // ---------------------------------------------------------------- agreement with the lowering of resolvable plans

  lemma TaskAgrees(index: map<Id, Node>, node: Node, inherited: seq<Id>)
    requires Resolvable(index)
    ensures TryCompileTask(index, node, inherited) ==
            if node.id == "" then Err(SchemaViolation) else Ok(CompileExecutableNode(index, node, inherited))
  {
    hide Resolvable, SomeLoops, Height, Ceiling, ResolveEach, ResolveEachWithin;
    var needs := inherited + node.needs;
    ResolvableNeverLoops(index, needs);
    ListResolutionEnds(index, needs, |index|);
    AllBelowCeiling(index);
    ListAgrees(index, needs, |index|, Ceiling(index));
  }

  /** On resolvable plans the partial lowering, when it ends, is the total one. */
  lemma {:induction false} TryCompileAgrees(index: map<Id, Node>, nodes: seq<Node>, inherited: seq<Id>,
      initial: seq<ArgoTask>)
    requires Resolvable(index) && TryCompileNodes(index, nodes, inherited, initial).Ok?
    ensures TryCompileNodes(index, nodes, inherited, initial).value == CompileArgoNodes(index, nodes, inherited, initial)
    decreases nodes
  {
    hide Resolvable, TryCompileTask, CompileExecutableNode;
    if nodes != [] {
      var n := nodes[0];
      if n.Task? {
        TaskAgrees(index, n, inherited);
        TryCompileAgrees(index, nodes[1..], inherited, initial + [CompileExecutableNode(index, n, inherited)]);
      } else if n.Group? {
        TryCompileAgrees(index, nodes[1..], inherited, initial);
      } else {
        TryCompileAgrees(index, n.children, inherited + n.needs, initial);
        TryCompileAgrees(index, nodes[1..], inherited, CompileArgoNodes(index, n.children, inherited + n.needs, initial));
      }
    }
  }
}
