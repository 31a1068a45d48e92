/** Workflow node trees and the structural operations every planning layer shares: unique strings, the index of
    dependents, flattening, and the prefix of a list that the traversals can follow. */
module Workflow {
  import opened Digraph

  type Id = string

  datatype TaskKind = Agent | Builtin(builtin: string) | Command

  /** An absent `needs` list is the empty list. `unit` is the work unit named by the task context, "" when there is none. */
  datatype Node =
    | Task(id: Id, needs: seq<Id>, kind: TaskKind, unit: Id)
    | Group(id: Id, needs: seq<Id>, members: seq<Id>, unit: Id)
    | Parallel(id: Id, needs: seq<Id>, children: seq<Node>, unit: Id)

  function Ids(nodes: seq<Node>): (ids: seq<Id>)
    ensures |ids| == |nodes|
    ensures forall i | 0 <= i < |nodes| :: ids[i] == nodes[i].id
  {
    seq(|nodes|, i requires 0 <= i < |nodes| => nodes[i].id)
  }

  function IdSet(nodes: seq<Node>): set<Id>
  {
    set n | n in nodes :: n.id
  }

  ghost predicate UniqueIds(nodes: seq<Node>)
  {
    forall i, j | 0 <= i < j < |nodes| :: nodes[i].id != nodes[j].id
  }

  lemma SameNode(nodes: seq<Node>, m: Node, n: Node)
    requires UniqueIds(nodes) && m in nodes && n in nodes && m.id == n.id
    ensures m == n
  {
    var i :| 0 <= i < |nodes| && nodes[i] == m;
    var j :| 0 <= j < |nodes| && nodes[j] == n;
    assert i == j;
  }

  /** The dependency edges among declared nodes: (need, node) for every need that names a declared node. */
  ghost function NeedEdges(nodes: seq<Node>): set<(Id, Id)>
  {
    set n, d | n in nodes && d in n.needs && d in IdSet(nodes) :: (d, n.id)
  }

  lemma NeedEdge(nodes: seq<Node>, n: Node, d: Id)
    requires n in nodes && d in n.needs && d in IdSet(nodes)
    ensures (d, n.id) in NeedEdges(nodes)
  {
  }

  /** JavaScript's `[...new Set(values)]`: first occurrences in order. */
  function UniqueStrings(values: seq<string>): (r: seq<string>)
    ensures Distinct(r)
    ensures forall x :: x in r <==> x in values
  {
    if values == [] then []
    else
      var init := UniqueStrings(values[..|values| - 1]);
      var last := values[|values| - 1];
      if last in init then init else init + [last]
  }

  /** More values at the end leave the result so far in place; with the members and their uniqueness this fixes it. */
  lemma {:induction false} UniquePrefix(a: seq<string>, b: seq<string>)
    ensures UniqueStrings(a) <= UniqueStrings(a + b)
    decreases |b|
  {
    if b == [] {
      assert a + b == a;
    } else {
      var init := b[..|b| - 1];
      assert (a + b)[..|a + b| - 1] == a + init;
      UniquePrefix(a, init);
    }
  }

  ghost predicate SameMembers(a: seq<string>, b: seq<string>)
  {
    forall x :: x in a <==> x in b
  }

  /** Some prefix of the list has just these members. */
  ghost predicate HoldsFirst(r: seq<string>, values: seq<string>)
  {
    exists m | 0 <= m <= |r| :: SameMembers(r[..m], values)
  }

  /** Each value once, in the order of the first occurrences: every prefix of the values has its members in a prefix of
      the list. */
  ghost predicate FirstsInOrder(values: seq<string>, r: seq<string>)
  {
    Distinct(r) && forall k | 0 <= k <= |values| :: HoldsFirst(r, values[..k])
  }

  lemma UniqueInOrder(values: seq<string>)
    ensures FirstsInOrder(values, UniqueStrings(values))
  {
    forall k | 0 <= k <= |values| ensures HoldsFirst(UniqueStrings(values), values[..k]) {
      UniquePrefix(values[..k], values[k..]);
      assert values[..k] + values[k..] == values;
      PrefixHolds(UniqueStrings(values), UniqueStrings(values[..k]), values[..k]);
    }
  }

  lemma PrefixHolds(r: seq<string>, first: seq<string>, values: seq<string>)
    requires first <= r && SameMembers(first, values)
    ensures HoldsFirst(r, values)
  {
    assert r[..|first|] == first;
  }

  function Lookup<V>(index: map<Id, seq<V>>, key: Id): seq<V>
  {
    if key in index then index[key] else []
  }

  /** Preorder flattening of a node forest, parents before children. */
  function Flatten(nodes: seq<Node>): seq<Node>
  {
    if nodes == [] then []
    else
      [nodes[0]]
      + (if nodes[0].Parallel? then Flatten(nodes[0].children) else [])
      + Flatten(nodes[1..])
  }

  /** The length of the prefix before the first empty id: the traversals end a list at the first falsy entry. */
  function LiveLength(ids: seq<Id>): (n: nat)
    ensures n <= |ids|
    ensures forall i | 0 <= i < n :: ids[i] != ""
    ensures n < |ids| ==> ids[n] == ""
  {
    if ids == [] || ids[0] == "" then 0 else 1 + LiveLength(ids[1..])
  }

  /** The edges a traversal over `lists` can follow. */
  ghost function LiveEdges(lists: map<Id, seq<Id>>): set<(Id, Id)>
  {
    set u, i | u in lists && 0 <= i < LiveLength(lists[u]) :: (u, lists[u][i])
  }

  lemma LiveEdge(lists: map<Id, seq<Id>>, u: Id, i: int)
    requires u in lists && 0 <= i < LiveLength(lists[u])
    ensures (u, lists[u][i]) in LiveEdges(lists)
  {
  }

  /** One entry of `node` for every time `needs` names `need`. */
  function NeedHits(node: Node, needs: seq<Id>, need: Id): seq<Node>
  {
    if needs == [] then []
    else NeedHits(node, needs[..|needs| - 1], need) + (if needs[|needs| - 1] == need then [node] else [])
  }

  /** The nodes that declare `need`, in order of declaration. */
  function Dependents(nodes: seq<Node>, need: Id): seq<Node>
  {
    if nodes == [] then []
    else
      var last := nodes[|nodes| - 1];
      Dependents(nodes[..|nodes| - 1], need) + NeedHits(last, last.needs, need)
  }

  lemma {:induction false} NeedHitsMembers(node: Node, needs: seq<Id>, need: Id, n: Node)
    ensures n in NeedHits(node, needs, need) <==> n == node && need in needs
  {
    if needs != [] {
      NeedHitsMembers(node, needs[..|needs| - 1], need, n);
      assert needs == needs[..|needs| - 1] + [needs[|needs| - 1]];
    }
  }

  lemma {:induction false} DependentsMembers(nodes: seq<Node>, need: Id, n: Node)
    ensures n in Dependents(nodes, need) <==> n in nodes && need in n.needs
  {
    if nodes != [] {
      var last := nodes[|nodes| - 1];
      DependentsMembers(nodes[..|nodes| - 1], need, n);
      NeedHitsMembers(last, last.needs, need, n);
      assert nodes == nodes[..|nodes| - 1] + [last];
    }
  }

  /** How often a list names an id. */
  ghost function Mentioned(ids: seq<Id>, id: Id): nat
  {
    |set i | 0 <= i < |ids| && ids[i] == id|
  }

  lemma MentionedLast(ids: seq<Id>, id: Id)
    requires ids != []
    ensures Mentioned(ids, id) == Mentioned(ids[..|ids| - 1], id) + if ids[|ids| - 1] == id then 1 else 0
  {
    var n := |ids| - 1;
    var all, some := set i | 0 <= i < |ids| && ids[i] == id, set i | 0 <= i < n && ids[..n][i] == id;
    assert all == some + if ids[n] == id then {n} else {};
  }

  lemma {:induction false} NeedHitsCount(node: Node, needs: seq<Id>, need: Id)
    ensures |NeedHits(node, needs, need)| == Mentioned(needs, need)
    ensures forall i | 0 <= i < |NeedHits(node, needs, need)| :: NeedHits(node, needs, need)[i] == node
  {
    hide Mentioned;
    if needs == [] {
      NoMention(need);
    } else {
      NeedHitsCount(node, needs[..|needs| - 1], need);
      MentionedLast(needs, need);
    }
  }

  lemma NoMention(id: Id)
    ensures Mentioned([], id) == 0
  {
  }

  /** The dependents stand in the order of declaration, each as often as it declares the need. */
  lemma DependentsInOrder(a: seq<Node>, b: seq<Node>, need: Id, n: Node)
    ensures Dependents(a + b, need) == Dependents(a, need) + Dependents(b, need)
    ensures |Dependents([n], need)| == Mentioned(n.needs, need)
    ensures forall i | 0 <= i < |Dependents([n], need)| :: Dependents([n], need)[i] == n
  {
    NeedHitsCount(n, n.needs, need);
    OneDependent(n, need);
    DependentsAppend(a, b, need);
    hide Dependents, NeedHits;
  }

  lemma OneDependent(n: Node, need: Id)
    ensures Dependents([n], need) == NeedHits(n, n.needs, need)
  {
    assert [n][..0] == [];
  }

  lemma {:induction false} DependentsAppend(a: seq<Node>, b: seq<Node>, need: Id)
    ensures Dependents(a + b, need) == Dependents(a, need) + Dependents(b, need)
    decreases |b|
  {
    hide NeedHits;
    if b == [] {
      assert a + b == a;
    } else {
      assert (a + b)[..|a + b| - 1] == a + b[..|b| - 1];
      DependentsAppend(a, b[..|b| - 1], need);
    }
  }

  lemma NeedHitsStep(node: Node, needs: seq<Id>, j: nat, need: Id)
    requires j < |needs|
    ensures NeedHits(node, needs[..j + 1], need) ==
            NeedHits(node, needs[..j], need) + (if needs[j] == need then [node] else [])
  {
    assert needs[..j + 1][..j] == needs[..j];
  }

  lemma DependentsStep(nodes: seq<Node>, i: nat, need: Id)
    requires i < |nodes|
    ensures Dependents(nodes[..i + 1], need) ==
            Dependents(nodes[..i], need) + NeedHits(nodes[i], nodes[i].needs, need)
  {
    assert nodes[..i + 1][..i] == nodes[..i];
  }

  /** What the index holds once the first `i` nodes, and `j` needs of the next one, are entered. */
  function IndexedSoFar(nodes: seq<Node>, i: nat, j: nat, need: Id): seq<Node>
    requires i < |nodes| && j <= |nodes[i].needs|
  {
    Dependents(nodes[..i], need) + NeedHits(nodes[i], nodes[i].needs[..j], need)
  }

  /** The index from each needed id to the nodes that declare it. */
  method DependentsByNeed(nodes: seq<Node>) returns (index: map<Id, seq<Node>>)
    ensures forall need :: Lookup(index, need) == Dependents(nodes, need)
  {
    hide IndexedSoFar, Dependents;
    index := map[];
    assert forall need :: Dependents(nodes[..0], need) == [] by { NoDependents(nodes); }
    for i := 0 to |nodes|
      invariant forall need :: Lookup(index, need) == Dependents(nodes[..i], need)
    {
      var node := nodes[i];
      forall need ensures IndexedSoFar(nodes, i, 0, need) == Dependents(nodes[..i], need) {
        IndexedAtStart(nodes, i, need);
      }
      for j := 0 to |node.needs|
        invariant forall need :: Lookup(index, need) == IndexedSoFar(nodes, i, j, need)
      {
        var need := node.needs[j];
        ghost var before := index;
        index := index[need := Lookup(index, need) + [node]];
        forall k ensures Lookup(index, k) == IndexedSoFar(nodes, i, j + 1, k) {
          IndexedStep(nodes, i, j, k);
          assert Lookup(before, k) == IndexedSoFar(nodes, i, j, k);
          assert Lookup(index, k) == Lookup(before, k) + if need == k then [node] else [];
        }
      }
      forall need ensures IndexedSoFar(nodes, i, |node.needs|, need) == Dependents(nodes[..i + 1], need) {
        IndexedAtEnd(nodes, i, need);
      }
    }
    assert nodes[..|nodes|] == nodes;
  }

  lemma NoDependents(nodes: seq<Node>)
    ensures forall need :: Dependents(nodes[..0], need) == []
  {
  }

  lemma IndexedAtStart(nodes: seq<Node>, i: nat, need: Id)
    requires i < |nodes|
    ensures IndexedSoFar(nodes, i, 0, need) == Dependents(nodes[..i], need)
  {
  }

  lemma IndexedStep(nodes: seq<Node>, i: nat, j: nat, need: Id)
    requires i < |nodes| && j < |nodes[i].needs|
    ensures IndexedSoFar(nodes, i, j + 1, need) ==
            IndexedSoFar(nodes, i, j, need) + if nodes[i].needs[j] == need then [nodes[i]] else []
  {
    NeedHitsStep(nodes[i], nodes[i].needs, j, need);
  }

  lemma IndexedAtEnd(nodes: seq<Node>, i: nat, need: Id)
    requires i < |nodes|
    ensures IndexedSoFar(nodes, i, |nodes[i].needs|, need) == Dependents(nodes[..i + 1], need)
  {
    DependentsStep(nodes, i, need);
    assert nodes[i].needs[..|nodes[i].needs|] == nodes[i].needs;
  }
}
