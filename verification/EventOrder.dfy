/** The meaning of a nested workflow: a partial order on the start and end events of its nodes, with the places of nodes
    in the tree and the needs they inherit there. */
module EventOrder {
  import opened DependencyRefs
  import opened Digraph
  import opened Workflow
  import opened Wrappers

  datatype Event = Start(id: Id) | End(id: Id)

  /** What must end before a node may start: its needs and, for a group, its members. */
  function Refs(n: Node): seq<Id>
  {
    if n.Group? then n.members + n.needs else n.needs
  }

  ghost function RunEdges(flat: seq<Node>): set<(Event, Event)>
  {
    set n | n in flat :: (Start(n.id), End(n.id))
  }

  ghost function RefEdges(flat: seq<Node>): set<(Event, Event)>
  {
    set n, m | n in flat && m in Refs(n) && m in IdSet(flat) :: (End(m), Start(n.id))
  }

  ghost function OpenEdges(flat: seq<Node>): set<(Event, Event)>
  {
    set n, c | n in flat && c in Children(n) :: (Start(n.id), Start(c.id))
  }

  ghost function CloseEdges(flat: seq<Node>): set<(Event, Event)>
  {
    set n, c | n in flat && c in Children(n) :: (End(c.id), End(n.id))
  }

  /** The constraints of the nodes of a flattened forest: a node starts before it ends, after the end of what it
      refers to, and around its children. */
  ghost function EventEdges(flat: seq<Node>): set<(Event, Event)>
  {
    RunEdges(flat) + RefEdges(flat) + OpenEdges(flat) + CloseEdges(flat)
  }

  /** `a` ends before `b` starts in every execution that respects the constraints. */
  ghost predicate Before(nodes: seq<Node>, a: Id, b: Id)
  {
    Reach(EventEdges(Flatten(nodes)), End(a), Start(b))
  }

  lemma RunEdge(flat: seq<Node>, n: Node)
    requires n in flat
    ensures (Start(n.id), End(n.id)) in EventEdges(flat)
  {
  }

  lemma RefEdge(flat: seq<Node>, n: Node, m: Id)
    requires n in flat && m in Refs(n) && m in IdSet(flat)
    ensures (End(m), Start(n.id)) in EventEdges(flat)
  {
  }

  lemma ContainEdges(flat: seq<Node>, n: Node, c: Node)
    requires n in flat && c in Children(n)
    ensures (Start(n.id), Start(c.id)) in EventEdges(flat)
    ensures (End(c.id), End(n.id)) in EventEdges(flat)
  {
  }

  /** The node that owns a constraint, and which of the four kinds it is. */
  ghost predicate Owns(flat: seq<Node>, n: Node, c: Node, x: Event, y: Event)
  {
    && n in flat
    && (|| (x == Start(n.id) && y == End(n.id))
        || (y == Start(n.id) && x.End? && x.id in Refs(n) && x.id in IdSet(flat))
        || (c in Children(n) && x == Start(n.id) && y == Start(c.id))
        || (c in Children(n) && x == End(c.id) && y == End(n.id)))
  }

  lemma EdgeOwner(flat: seq<Node>, x: Event, y: Event) returns (n: Node, c: Node)
    requires (x, y) in EventEdges(flat)
    ensures Owns(flat, n, c, x, y)
  {
    if (x, y) in RunEdges(flat) {
      n :| n in flat && (x, y) == (Start(n.id), End(n.id));
      c := n;
    } else if (x, y) in RefEdges(flat) {
      var m;
      n, m :| n in flat && m in Refs(n) && m in IdSet(flat) && (x, y) == (End(m), Start(n.id));
      c := n;
    } else if (x, y) in OpenEdges(flat) {
      n, c :| n in flat && c in Children(n) && (x, y) == (Start(n.id), Start(c.id));
    } else {
      n, c :| n in flat && c in Children(n) && (x, y) == (End(c.id), End(n.id));
    }
  }

  /** The constraints on a node's end: its own start or, for a container, a child's end. */
  lemma IntoEnd(flat: seq<Node>, n: Node, x: Event)
    requires UniqueIds(flat) && n in flat && (x, End(n.id)) in EventEdges(flat)
    ensures x == Start(n.id) || exists c | c in Children(n) :: x == End(c.id)
  {
    hide EventEdges;
    var m, c := EdgeOwner(flat, x, End(n.id));
    SameNode(flat, m, n);
  }

  /** The constraints on a node's start: the end of something it refers to, or its container's start. */
  lemma IntoStart(flat: seq<Node>, n: Node, x: Event)
    requires UniqueIds(flat) && n in flat && (x, Start(n.id)) in EventEdges(flat)
    ensures (exists m | m in Refs(n) && m in IdSet(flat) :: x == End(m)) ||
            (exists p | p in flat && x == Start(p.id) :: exists c | c in Children(p) :: c.id == n.id)
  {
    hide EventEdges;
    var m, c := EdgeOwner(flat, x, Start(n.id));
    if x.End? {
      SameNode(flat, m, n);
    } else {
      assert m in flat && x == Start(m.id) && c in Children(m) && c.id == n.id;
    }
  }

  /** Children of flattened nodes are flattened too. */
  lemma {:induction false} ChildrenFlattened(nodes: seq<Node>, n: Node, c: Node)
    requires n in Flatten(nodes) && c in Children(n)
    ensures c in Flatten(nodes)
    decreases nodes
  {
    var head := nodes[0];
    if n == head {
      TopFlattened(head.children, c);
    } else if head.Parallel? && n in Flatten(head.children) {
      ChildrenFlattened(head.children, n, c);
    } else {
      ChildrenFlattened(nodes[1..], n, c);
    }
  }

  lemma {:induction false} TopFlattened(nodes: seq<Node>, n: Node)
    requires n in nodes
    ensures n in Flatten(nodes)
    decreases |nodes|
  {
    if n != nodes[0] {
      assert n in nodes[1..];
      TopFlattened(nodes[1..], n);
    }
  }

  // ---------------------------------------------------------------- places in the tree

  /** A node with the needs of its enclosing containers, outermost first, and its container. */
  datatype Place = Place(node: Node, inherited: seq<Id>, container: Option<Node>)

  function Places(nodes: seq<Node>, inherited: seq<Id>, container: Option<Node>): seq<Place>
  {
    if nodes == [] then []
    else
      [Place(nodes[0], inherited, container)]
      + (if nodes[0].Parallel? then Places(nodes[0].children, inherited + nodes[0].needs, Some(nodes[0])) else [])
      + Places(nodes[1..], inherited, container)
  }

  function PlacedNodes(places: seq<Place>): (r: seq<Node>)
    ensures |r| == |places|
    ensures forall i | 0 <= i < |places| :: r[i] == places[i].node
  {
    seq(|places|, i requires 0 <= i < |places| => places[i].node)
  }

  lemma {:induction false} PlacesFlatten(nodes: seq<Node>, inherited: seq<Id>, container: Option<Node>)
    ensures PlacedNodes(Places(nodes, inherited, container)) == Flatten(nodes)
    decreases nodes
  {
    if nodes != [] {
      PlacesFlatten(nodes[1..], inherited, container);
      if nodes[0].Parallel? {
        PlacesFlatten(nodes[0].children, inherited + nodes[0].needs, Some(nodes[0]));
      }
    }
  }

  /** A place is at the given level or directly inside a placed container. */
  ghost predicate Nested(places: seq<Place>, p: Place)
  {
    && p.container.Some?
    && p.container.value.Parallel?
    && p.node in p.container.value.children
    && exists q | q in places :: q.node == p.container.value && p.inherited == q.inherited + q.node.needs
  }

  lemma {:induction false} PlaceFacts(nodes: seq<Node>, inherited: seq<Id>, container: Option<Node>, p: Place)
    requires p in Places(nodes, inherited, container)
    ensures (p == Place(p.node, inherited, container) && p.node in nodes) || Nested(Places(nodes, inherited, container), p)
    decreases nodes
  {
    var places, head := Places(nodes, inherited, container), nodes[0];
    var own := Place(head, inherited, container);
    if p != own {
      if head.Parallel? && p in Places(head.children, inherited + head.needs, Some(head)) {
        PlaceFacts(head.children, inherited + head.needs, Some(head), p);
        assert own in places;
        if Nested(Places(head.children, inherited + head.needs, Some(head)), p) {
          var q :| q in Places(head.children, inherited + head.needs, Some(head)) && q.node == p.container.value
              && p.inherited == q.inherited + q.node.needs;
          assert q in places;
        }
      } else {
        PlaceFacts(nodes[1..], inherited, container, p);
        if Nested(Places(nodes[1..], inherited, container), p) {
          var q :| q in Places(nodes[1..], inherited, container) && q.node == p.container.value
              && p.inherited == q.inherited + q.node.needs;
          assert q in places;
        }
      }
    }
  }
}
