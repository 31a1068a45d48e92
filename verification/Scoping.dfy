/** Plans whose references stay among siblings: if every level is acyclic, the constraints of the whole tree can be met,
    and every nested group holds on to its container. */
module Scoping {
  import opened DependencyRefs
  import opened Digraph
  import opened EventOrder
  import opened Lowering
  import opened Workflow
  import opened Wrappers

  /** (m, n) when sibling `n` refers to sibling `m`. */
  ghost function LevelEdges(level: seq<Node>): set<(Id, Id)>
  {
    set n, m | n in level && m in Refs(n) && m in IdSet(level) :: (m, n.id)
  }

  /** At every level: references name siblings, groups refer to something, no parallel is empty, and no cycle. */
  ghost predicate Scoped(level: seq<Node>)
  {
    && (forall n, m | n in level && m in Refs(n) :: m in IdSet(level))
    && (forall n | n in level && n.Group? :: Refs(n) != [])
    && Acyclic(LevelEdges(level))
    && (forall n | n in level && n.Parallel? :: n.children != [] && Scoped(n.children))
  }

  lemma SiblingRef(level: seq<Node>, n: Node, m: Id) returns (s: Node)
    requires Scoped(level) && n in level && m in Refs(n)
    ensures s in level && s.id == m && (m, n.id) in LevelEdges(level)
  {
    hide Acyclic;
    assert m in IdSet(level);
    s :| s in level && s.id == m;
  }

  /** A potential made of a coarse and a fine part. */
  lemma {:induction false} LexGrows<T(!new)>(e: set<(T, T)>, h: T -> int, r: T -> int, a: T, b: T, n: nat)
    requires forall x, y :: (x, y) in e ==> h(x) < h(y) || (h(x) == h(y) && r(x) < r(y))
    requires ReachIn(e, a, b, n)
    ensures h(a) < h(b) || (h(a) == h(b) && r(a) + n <= r(b))
    decreases n
  {
    if n > 0 {
      var c :| ReachIn(e, a, c, n - 1) && (c, b) in e;
      LexGrows(e, h, r, a, c, n - 1);
    }
  }

  lemma LexAcyclic<T(!new)>(e: set<(T, T)>, h: T -> int, r: T -> int)
    requires forall x, y :: (x, y) in e ==> h(x) < h(y) || (h(x) == h(y) && r(x) < r(y))
    ensures Acyclic(e)
  {
    forall a ensures !Reach(e, a, a) {
      if Reach(e, a, a) {
        var n: nat :| n >= 1 && ReachIn(e, a, a, n);
        LexGrows(e, h, r, a, a, n);
      }
    }
  }

  // ---------------------------------------------------------------- trees of a level

  function Tree(t: Node): seq<Node>
  {
    [t] + if t.Parallel? then Flatten(t.children) else []
  }

  lemma FlattenTree(level: seq<Node>)
    requires level != []
    ensures Flatten(level) == Tree(level[0]) + Flatten(level[1..])
  {
  }

  /** The top-level node whose tree holds `id`. */
  ghost function TopOf(level: seq<Node>, id: Id): (t: Node)
    requires id in IdSet(Flatten(level))
    ensures t in level && id in IdSet(Tree(t))
  {
    FlattenTree(level);
    SplitIds(Tree(level[0]), Flatten(level[1..]));
    if id in IdSet(Tree(level[0])) then level[0] else TopOf(level[1..], id)
  }

  lemma {:induction false} TreeInFlat(level: seq<Node>, t: Node)
    requires t in level
    ensures forall n | n in Tree(t) :: n in Flatten(level)
    decreases |level|
  {
    FlattenTree(level);
    if t != level[0] {
      TreeInFlat(level[1..], t);
    }
  }

  lemma {:induction false} TopUnique(level: seq<Node>, t: Node, id: Id)
    requires UniqueIds(Flatten(level)) && t in level && id in IdSet(Tree(t))
    ensures id in IdSet(Flatten(level)) && TopOf(level, id) == t
    decreases |level|
  {
    FlattenTree(level);
    SplitUnique(Tree(level[0]), Flatten(level[1..]));
    SplitIds(Tree(level[0]), Flatten(level[1..]));
    TreeInFlat(level, t);
    if t != level[0] {
      TopUnique(level[1..], t, id);
    }
  }

  lemma {:induction false} FlatInTree(level: seq<Node>, n: Node) returns (t: Node)
    requires n in Flatten(level)
    ensures t in level && n in Tree(t)
    decreases |level|
  {
    FlattenTree(level);
    if n in Tree(level[0]) {
      t := level[0];
    } else {
      t := FlatInTree(level[1..], n);
    }
  }

  /** Trees have unique ids: the root is not among its descendants. */
  lemma {:induction false} TreeUnique(level: seq<Node>, t: Node)
    requires UniqueIds(Flatten(level)) && t in level
    ensures UniqueIds(Tree(t))
    ensures t.Parallel? ==> UniqueIds(Flatten(t.children)) && t.id !in IdSet(Flatten(t.children))
    decreases |level|
  {
    FlattenTree(level);
    SplitUnique(Tree(level[0]), Flatten(level[1..]));
    if t != level[0] {
      TreeUnique(level[1..], t);
    } else if t.Parallel? {
      SplitUnique([t], Flatten(t.children));
      assert t.id in IdSet([t]);
    }
  }

  /** References below a level stay below it. */
  lemma {:induction false} RefsInside(level: seq<Node>, n: Node, m: Id)
    requires Scoped(level) && n in Flatten(level) && m in Refs(n)
    ensures m in IdSet(Flatten(level))
    decreases level
  {
    hide Acyclic;
    var t := FlatInTree(level, n);
    if n == t {
      var s := SiblingRef(level, n, m);
      TopFlattened(level, s);
    } else {
      RefsInside(t.children, n, m);
      TreeInFlat(level, t);
      var s :| s in Flatten(t.children) && s.id == m;
      assert s in Tree(t);
    }
  }

  // ---------------------------------------------------------------- satisfiability

  ghost function Phase(t: Node, x: Event): nat
  {
    if x == Start(t.id) then 0 else if x == End(t.id) then 2 else 1
  }

  ghost function Coarse(level: seq<Node>, x: Event): int
  {
    if x.id in IdSet(Flatten(level)) then
      3 * Rank(LevelEdges(level), TopOf(level, x.id).id) + Phase(TopOf(level, x.id), x)
    else 0
  }

  ghost function Fine(level: seq<Node>, x: Event): int
  {
    if x.id in IdSet(Flatten(level)) then Rank(EventEdges(Flatten(Children(TopOf(level, x.id)))), x) else 0
  }

  /** A constraint between descendants of one top-level node is a constraint of its children's forest. */
  lemma InnerEdge(level: seq<Node>, t: Node, n: Node, c: Node, x: Event, y: Event)
    requires UniqueIds(Flatten(level)) && Scoped(level) && t in level && t.Parallel? && n in Flatten(t.children)
    requires Owns(Flatten(level), n, c, x, y)
    ensures (x, y) in EventEdges(Flatten(t.children))
    ensures x.id in IdSet(Flatten(t.children)) && y.id in IdSet(Flatten(t.children))
  {
    hide EventEdges, Acyclic;
    var flat := Flatten(t.children);
    if x == Start(n.id) && y == End(n.id) {
      RunEdge(flat, n);
    } else if y == Start(n.id) && x.End? && x.id in Refs(n) {
      RefsInside(t.children, n, x.id);
      RefEdge(flat, n, x.id);
    } else {
      ContainEdges(flat, n, c);
      ChildrenFlattened(t.children, n, c);
    }
  }

  lemma InnerRises(level: seq<Node>, t: Node, x: Event, y: Event)
    requires UniqueIds(Flatten(level)) && t in level && t.Parallel?
    requires Acyclic(EventEdges(Flatten(t.children))) && (x, y) in EventEdges(Flatten(t.children))
    requires x.id in IdSet(Flatten(t.children)) && y.id in IdSet(Flatten(t.children))
    ensures Coarse(level, x) == Coarse(level, y) && Fine(level, x) < Fine(level, y)
  {
    hide EventEdges, Acyclic, Rank, LevelEdges, Coarse, Fine;
    InnerPotential(level, t, x);
    InnerPotential(level, t, y);
    RankGrows(EventEdges(Flatten(t.children)), x, y);
  }

  lemma InnerPotential(level: seq<Node>, t: Node, x: Event)
    requires UniqueIds(Flatten(level)) && t in level && t.Parallel? && x.id in IdSet(Flatten(t.children))
    ensures Coarse(level, x) == 3 * Rank(LevelEdges(level), t.id) + 1
    ensures Fine(level, x) == Rank(EventEdges(Flatten(t.children)), x)
  {
    hide EventEdges, Rank, LevelEdges, TopOf, UniqueIds, Flatten;
    SplitIds([t], Flatten(t.children));
    TopUnique(level, t, x.id);
    TreeUnique(level, t);
  }

  lemma RootPotential(level: seq<Node>, t: Node)
    requires UniqueIds(Flatten(level)) && t in level
    ensures Coarse(level, Start(t.id)) == 3 * Rank(LevelEdges(level), t.id)
    ensures Coarse(level, End(t.id)) == 3 * Rank(LevelEdges(level), t.id) + 2
  {
    hide EventEdges, Rank, LevelEdges, TopOf, UniqueIds, Flatten;
    assert t in Tree(t);
    TopUnique(level, t, t.id);
  }

  lemma OuterRises(level: seq<Node>, t: Node, c: Node, x: Event, y: Event)
    requires UniqueIds(Flatten(level)) && Scoped(level) && t in level
    requires Owns(Flatten(level), t, c, x, y)
    ensures Coarse(level, x) < Coarse(level, y)
  {
    hide EventEdges, Rank, LevelEdges, TopOf, UniqueIds, Flatten, Coarse, Acyclic;
    RootPotential(level, t);
    if y == Start(t.id) && x.End? && x.id in Refs(t) {
      var s := SiblingRef(level, t, x.id);
      RootPotential(level, s);
      RankGrows(LevelEdges(level), s.id, t.id);
    } else if !(x == Start(t.id) && y == End(t.id)) {
      TopFlattened(t.children, c);
      InnerPotential(level, t, x.(id := c.id));
    }
  }

  /** References among siblings, every level acyclic: the whole plan's constraints can be met. */
  lemma {:induction false} ScopedAcyclic(level: seq<Node>)
    requires UniqueIds(Flatten(level)) && Scoped(level)
    ensures Acyclic(EventEdges(Flatten(level)))
    decreases level
  {
    hide EventEdges, Acyclic, Coarse, Fine;
    var flat := Flatten(level);
    forall x, y | (x, y) in EventEdges(flat)
      ensures Coarse(level, x) < Coarse(level, y) || (Coarse(level, x) == Coarse(level, y) && Fine(level,
          x) < Fine(level, y))
    {
      var n, c := EdgeOwner(flat, x, y);
      var t := FlatInTree(level, n);
      if n == t {
        OuterRises(level, t, c, x, y);
      } else {
        InnerEdge(level, t, n, c, x, y);
        TreeUnique(level, t);
        ScopedAcyclic(t.children);
        InnerRises(level, t, x, y);
      }
    }
    LexAcyclic(EventEdges(flat), x => Coarse(level, x), x => Fine(level, x));
  }

  lemma {:induction false} ScopedChildren(level: seq<Node>, n: Node)
    requires Scoped(level) && n in Flatten(level) && n.Parallel?
    ensures n.children != [] && Scoped(n.children)
    decreases level
  {
    hide Acyclic;
    var t := FlatInTree(level, n);
    if n != t {
      ScopedChildren(t.children, n);
    }
  }

  lemma ScopedForest(level: seq<Node>)
    requires UniqueIds(Flatten(level)) && Scoped(level)
    ensures Forest(level)
  {
    hide EventEdges, Acyclic, Scoped;
    ScopedAcyclic(level);
    forall n | n in Flatten(level) && n.Parallel? ensures n.children != [] {
      ScopedChildren(level, n);
    }
  }

  /** In a scoped plan every group refers to a sibling, so every group is anchored. */
  lemma ScopedHeld(level: seq<Node>)
    requires Forest(level) && Scoped(level)
    ensures Resolvable(Index(level)) && GroupsHeld(level)
  {
    hide EventEdges, Acyclic, Places, FlatAnchored, Resolvable;
    ForestResolvable(level);
    forall p | p in Places(level, [], None) && p.node.Group? ensures FlatAnchored(level, p) || RefersInside(level, p) {
      PlaceFacts(level, [], None, p);
      if p.container.Some? {
        var q :| q in Places(level, [], None) && q.node == p.container.value;
        PlacedInFlat(level, q);
        ScopedChildren(level, q.node);
        SiblingInside(level, q.node, p.node);
      } else {
        NoContainer(level, p);
      }
    }
  }

  lemma NoContainer(level: seq<Node>, p: Place)
    requires Resolvable(Index(level)) && p.container.None?
    ensures RefersInside(level, p)
  {
  }

  lemma SiblingInside(level: seq<Node>, container: Node, g: Node)
    requires container in Flatten(level) && container.Parallel? && Scoped(container.children)
    requires g in container.children && g.Group?
    ensures exists m | m in Refs(g) ::
              m in IdSet(Flatten(level)) && Reach(EventEdges(Flatten(level)), Start(container.id), Start(m))
  {
    hide EventEdges, Acyclic;
    var m := Refs(g)[0];
    assert m in Refs(g);
    var s := SiblingRef(container.children, g, m);
    ContainEdges(Flatten(level), container, s);
    EdgeReach(EventEdges(Flatten(level)), Start(container.id), Start(m));
    ChildrenFlattened(level, container, s);
  }

  /** Every node of a scoped level has an executable node in or before it. */
  lemma {:induction false} ScopedTask(level: seq<Node>, n: Node) returns (t: Node)
    requires Scoped(level) && n in level
    ensures t in Flatten(level) && t.Task?
    decreases level, Rank(LevelEdges(level), n.id)
  {
    hide Acyclic, Rank;
    TopFlattened(level, n);
    if n.Task? {
      t := n;
    } else if n.Group? {
      var m := Refs(n)[0];
      var s := SiblingRef(level, n, m);
      RankGrows(LevelEdges(level), m, n.id);
      t := ScopedTask(level, s);
    } else {
      t := ScopedTask(n.children, n.children[0]);
      TreeInFlat(level, n);
      assert t in Tree(n);
    }
  }
}
