/** Container-transparent resolution of dependency ids (src/planning/dependency-refs.ts), on plans whose containers do
    not expand to themselves. */
module DependencyRefs {
  import opened Digraph
  import opened Workflow

  function Children(n: Node): seq<Node>
  {
    if n.Parallel? then n.children else []
  }

  /** The index of a forest laid over `into`: later nodes replace earlier ones with the same id. */
  function IndexInto(nodes: seq<Node>, into: map<Id, Node>): map<Id, Node>
  {
    if nodes == [] then into
    else
      var own := into[nodes[0].id := nodes[0]];
      IndexInto(nodes[1..], if nodes[0].Parallel? then IndexInto(nodes[0].children, own) else own)
  }

  method IndexPlannedNodesById(nodes: seq<Node>, initial: map<Id, Node>) returns (into: map<Id, Node>)
    ensures into == IndexInto(nodes, initial)
    decreases nodes
  {
    into := initial;
    for i := 0 to |nodes|
      invariant IndexInto(nodes[i..], into) == IndexInto(nodes, initial)
    {
      assert nodes[i..][1..] == nodes[i + 1..];
      into := into[nodes[i].id := nodes[i]];
      if nodes[i].Parallel? {
        into := IndexPlannedNodesById(nodes[i].children, into);
      }
    }
  }

  /** Without repeated ids the index finds every node of the forest, nested ones included, and nothing else. */
  lemma {:induction false} IndexFinds(nodes: seq<Node>, into: map<Id, Node>)
    requires UniqueIds(Flatten(nodes))
    ensures forall n | n in Flatten(nodes) :: n.id in IndexInto(nodes, into) && IndexInto(nodes, into)[n.id] == n
    ensures forall x | x !in IdSet(Flatten(nodes)) ::
              (x in IndexInto(nodes, into) <==> x in into) && (x in into ==> IndexInto(nodes, into)[x] == into[x])
    decreases nodes
  {
    if nodes != [] {
      var head, inner, rest := nodes[0], Flatten(Children(nodes[0])), Flatten(nodes[1..]);
      assert Flatten(nodes) == [head] + inner + rest;
      SplitUnique([head] + inner, rest);
      SplitUnique([head], inner);
      var first := into[head.id := head];
      if head.Parallel? {
        IndexFinds(head.children, first);
      }
      var second := if head.Parallel? then IndexInto(head.children, first) else first;
      IndexFinds(nodes[1..], second);
      SplitIds([head] + inner, rest);
      SplitIds([head], inner);
    }
  }

  lemma SplitUnique(a: seq<Node>, b: seq<Node>)
    requires UniqueIds(a + b)
    ensures UniqueIds(a) && UniqueIds(b) && IdSet(a) !! IdSet(b)
  {
    var whole := a + b;
    forall i, j | 0 <= i < j < |a| ensures a[i].id != a[j].id {
      assert whole[i].id != whole[j].id;
    }
    forall i, j | 0 <= i < j < |b| ensures b[i].id != b[j].id {
      assert whole[|a| + i].id != whole[|a| + j].id;
    }
    forall x | x in IdSet(a) ensures x !in IdSet(b) {
      var i :| 0 <= i < |a| && a[i].id == x;
      forall n | n in b ensures n.id != x {
        var j :| 0 <= j < |b| && b[j] == n;
        assert whole[i].id != whole[|a| + j].id;
      }
    }
  }

  lemma SplitIds(a: seq<Node>, b: seq<Node>)
    ensures IdSet(a + b) == IdSet(a) + IdSet(b)
  {
  }

  /** The ids a container stands for. */
  function Expands(n: Node): seq<Id>
  {
    match n
    case Task(_, _, _, _) => []
    case Group(_, needs, members, _) => members + needs
    case Parallel(_, _, children, _) => Ids(children)
  }

  /** (m, id) when resolving `id` resolves `m`. */
  ghost function ExpandEdges(index: map<Id, Node>): set<(Id, Id)>
  {
    set id, m | id in index && m in Expands(index[id]) && m in index :: (m, id)
  }

  /** Resolution terminates: containers do not expand to themselves. */
  ghost predicate Resolvable(index: map<Id, Node>)
  {
    Acyclic(ExpandEdges(index))
  }

  ghost function Height(index: map<Id, Node>, id: Id): nat
  {
    if id in index then Rank(ExpandEdges(index), id) + 1 else 0
  }

  lemma ExpandLower(index: map<Id, Node>, id: Id)
    requires Resolvable(index) && id in index
    ensures forall m | m in Expands(index[id]) :: Height(index, m) < Height(index, id)
  {
    forall m | m in Expands(index[id]) ensures Height(index, m) < Height(index, id) {
      if m in index {
        assert (m, id) in ExpandEdges(index);
        RankGrows(ExpandEdges(index), m, id);
      }
    }
  }

  /** The executable node ids that `id` stands for; unknown ids stand for none. */
  function ResolveOne(index: map<Id, Node>, id: Id): seq<Id>
    requires Resolvable(index)
    decreases Height(index, id)
  {
    if id !in index then []
    else if index[id].Task? then [index[id].id]
    else
      ExpandLower(index, id);
      UniqueStrings(ResolveEach(index, Expands(index[id]), Height(index, id)))
  }

  /** `ids.flatMap(resolveOne)`; `bound` only serves termination. */
  function ResolveEach(index: map<Id, Node>, ids: seq<Id>, ghost bound: nat): seq<Id>
    requires Resolvable(index)
    requires forall m | m in ids :: Height(index, m) < bound
    decreases bound, |ids|
  {
    if ids == [] then []
    else ResolveOne(index, ids[0]) + ResolveEach(index, ids[1..], bound)
  }

  ghost function Ceiling(index: map<Id, Node>): nat
  {
    |Tails(ExpandEdges(index))| + 2
  }

  lemma BelowCeiling(index: map<Id, Node>, id: Id)
    ensures Height(index, id) < Ceiling(index)
  {
    SubsetSizeLe(Ancestors(ExpandEdges(index), id), Tails(ExpandEdges(index)));
  }

  lemma AllBelowCeiling(index: map<Id, Node>)
    ensures forall id :: Height(index, id) < Ceiling(index)
  {
    forall id ensures Height(index, id) < Ceiling(index) {
      BelowCeiling(index, id);
    }
  }

  function ResolveExecutableDependencyIds(index: map<Id, Node>, needs: seq<Id>): seq<Id>
    requires Resolvable(index)
  {
    AllBelowCeiling(index);
    UniqueStrings(ResolveEach(index, needs, Ceiling(index)))
  }

  lemma {:induction false} ResolveEachMembers(index: map<Id, Node>, ids: seq<Id>, bound: nat, x: Id)
    requires Resolvable(index)
    requires forall m | m in ids :: Height(index, m) < bound
    ensures x in ResolveEach(index, ids, bound) <==> exists m | m in ids :: x in ResolveOne(index, m)
    decreases |ids|
  {
    if ids != [] {
      ResolveEachMembers(index, ids[1..], bound, x);
      assert ids == [ids[0]] + ids[1..];
      assert (exists m | m in ids :: x in ResolveOne(index, m)) <==>
             x in ResolveOne(index, ids[0]) || exists m | m in ids[1..] :: x in ResolveOne(index, m);
    }
  }

  /** Resolution of a list is the union of the resolutions of its ids. */
  lemma ResolveMembers(index: map<Id, Node>, needs: seq<Id>, x: Id)
    requires Resolvable(index)
    ensures x in ResolveExecutableDependencyIds(index, needs) <==> exists m | m in needs :: x in ResolveOne(index, m)
  {
    AllBelowCeiling(index);
    ResolveEachMembers(index, needs, Ceiling(index), x);
  }

  /** A container stands for what its expansion stands for. */
  lemma ResolveContainer(index: map<Id, Node>, id: Id, x: Id)
    requires Resolvable(index) && id in index && !index[id].Task?
    ensures x in ResolveOne(index, id) <==> exists m | m in Expands(index[id]) :: x in ResolveOne(index, m)
  {
    ExpandLower(index, id);
    ResolveEachMembers(index, Expands(index[id]), Height(index, id), x);
  }
}
