/**
 * Graphs, nodes and edges as specialised plexes.
 *
 * A node's only container is the graph it is on; its origins are its
 * incoming edges and its destinations its outgoing edges. An edge's only
 * origin is its source node and its only destination its target node.
 * `Wf` states these roles for every entity of a store; the constructors and
 * the deletions below preserve it.
 */
module Graphs {
  import opened Wrappers
  import opened Plex

  predicate IsKind(s: Store, x: Id, k: Kind) {
    x < |s.ents| && s.ents[x].kind == k
  }

  predicate IsGraph(s: Store, x: Id) { IsKind(s, x, GraphKind) }
  predicate IsNode(s: Store, x: Id) { IsKind(s, x, NodeKind) }
  predicate IsEdge(s: Store, x: Id) { IsKind(s, x, EdgeKind) }

  /** The roles that express direction (edge endpoints). */
  predicate Directed(q: Role) {
    q == Origins || q == Destinations
  }

  ghost predicate NoneIn(s: Store, x: Id, r: Role) {
    forall y :: !Has(s, x, r, y)
  }

  ghost predicate Single(s: Store, x: Id, r: Role) {
    forall y1, y2 :: Has(s, x, r, y1) && Has(s, x, r, y2) ==> y1 == y2
  }

  ghost predicate AllOfKind(s: Store, x: Id, r: Role, k: Kind) {
    forall y :: Has(s, x, r, y) ==> IsKind(s, y, k)
  }

  /** A graph contains nodes and nothing else relates to it. */
  ghost predicate GraphWf(s: Store, x: Id) {
    && NoneIn(s, x, Containers) && NoneIn(s, x, Origins) && NoneIn(s, x, Destinations)
    && AllOfKind(s, x, Contents, NodeKind)
  }

  /** A node is on at most one graph; its origins and destinations are edges. */
  ghost predicate NodeWf(s: Store, x: Id) {
    && NoneIn(s, x, Contents)
    && Single(s, x, Containers) && AllOfKind(s, x, Containers, GraphKind)
    && AllOfKind(s, x, Origins, EdgeKind) && AllOfKind(s, x, Destinations, EdgeKind)
  }

  /**
   * An edge has one origin node and one destination node while it is live,
   * and neither once it has been deleted.
   */
  ghost predicate EdgeWf(s: Store, x: Id) {
    && NoneIn(s, x, Containers) && NoneIn(s, x, Contents)
    && Single(s, x, Origins) && Single(s, x, Destinations)
    && AllOfKind(s, x, Origins, NodeKind) && AllOfKind(s, x, Destinations, NodeKind)
    && (NoneIn(s, x, Origins) <==> NoneIn(s, x, Destinations))
  }

  ghost predicate EntityWf(s: Store, x: Id)
    requires x < |s.ents|
  {
    match s.ents[x].kind
    case GraphKind => GraphWf(s, x)
    case NodeKind => NodeWf(s, x)
    case EdgeKind => EdgeWf(s, x)
    case PlainKind => true
  }

  ghost predicate Wf(s: Store) {
    && Mirrored(s)
    && forall x :: 0 <= x < |s.ents| ==> EntityWf(s, x)
  }

  // ----- Query surface -----

  /** Graph.getNodes: the node members of the graph's contents. */
  function Nodes(s: Store, g: Id): set<Id>
    requires g < |s.ents|
  {
    set n | n in s.ents[g].contents && IsNode(s, n)
  }

  /** Node.getGraph. */
  function NodeGraph(s: Store, n: Id): Option<Id>
    requires n < |s.ents|
  {
    GetOne(s.ents[n].containers)
  }

  /** Node.getOutpointingEdges: the node's destinations. */
  function OutEdges(s: Store, n: Id): set<Id>
    requires n < |s.ents|
  {
    s.ents[n].destinations
  }

  /** Node.getInpointingEdges: the node's origins. */
  function InEdges(s: Store, n: Id): set<Id>
    requires n < |s.ents|
  {
    s.ents[n].origins
  }

  /** Edge.getOrigin. */
  function EdgeOrigin(s: Store, e: Id): Option<Id>
    requires e < |s.ents|
  {
    GetOne(s.ents[e].origins)
  }

  /** Edge.getDestination. */
  function EdgeDestination(s: Store, e: Id): Option<Id>
    requires e < |s.ents|
  {
    GetOne(s.ents[e].destinations)
  }

  /** Node.toString: the node's value. */
  function NodeText(s: Store, n: Id): string
    requires n < |s.ents|
  {
    s.ents[n].value
  }

  /**
   * A node's text depends on its value alone, so adding or removing pairs
   * never changes how a node prints.
   */
  lemma NodeTextStable(s: Store, t: Store, n: Id)
    requires SameShape(s, t) && n < |s.ents|
    ensures n < |t.ents| && NodeText(t, n) == NodeText(s, n)
  {
    assert t.ents[n].value == s.ents[n].value;
  }

  /** Edge.toString: the value between " -- " and " --> ". */
  function EdgeText(s: Store, e: Id): (r: string)
    requires e < |s.ents|
    ensures |r| == |s.ents[e].value| + 9
    ensures r[..4] == " -- " && r[|r| - 5..] == " --> " && r[4..|r| - 5] == s.ents[e].value
  {
    " -- " + s.ents[e].value + " --> "
  }

  /** Two edges print alike exactly when their values are the same: the label can be read back. */
  lemma EdgeTextInjective(s: Store, a: Id, t: Store, b: Id)
    requires a < |s.ents| && b < |t.ents|
    ensures EdgeText(s, a) == EdgeText(t, b) <==> s.ents[a].value == t.ents[b].value
  {
    var x, y := EdgeText(s, a), EdgeText(t, b);
    if x == y {
      assert x[4..|x| - 5] == y[4..|y| - 5];
    }
  }

  /** An edge that has not been deleted: both endpoints are present. */
  predicate LiveEdge(s: Store, e: Id) {
    && IsEdge(s, e)
    && EdgeOrigin(s, e).Some? && EdgeOrigin(s, e).value < |s.ents|
    && EdgeDestination(s, e).Some? && EdgeDestination(s, e).value < |s.ents|
  }

  /** The text `origin -- value --> destination` plus a newline, as the renderer and the maze solver print it. */
  function EdgeLine(s: Store, e: Id): string
    requires LiveEdge(s, e)
  {
    NodeText(s, EdgeOrigin(s, e).value) + EdgeText(s, e) + NodeText(s, EdgeDestination(s, e).value) + "\n"
  }

  // ----- Facts about well-formed stores -----

  lemma MirroredBound(s: Store, a: Id, r: Role, b: Id)
    requires Mirrored(s) && Has(s, a, r, b)
    ensures b < |s.ents| && Has(s, b, Mirror(r), a)
  {
  }

  /** The `instanceof Node` filter of getNodes is defensive: a graph contains only nodes. */
  lemma NodesAreContents(s: Store, g: Id)
    requires Wf(s) && IsGraph(s, g)
    ensures Nodes(s, g) == s.ents[g].contents
  {
    assert EntityWf(s, g);
    forall n | n in s.ents[g].contents
      ensures IsNode(s, n)
    {
      assert Has(s, g, Contents, n);
    }
  }

  /** getNodes and getGraph agree: a node is among a graph's nodes exactly when that graph is its container. */
  lemma NodeOnGraph(s: Store, g: Id, n: Id)
    requires Wf(s) && IsGraph(s, g)
    ensures n in Nodes(s, g) <==> IsNode(s, n) && NodeGraph(s, n) == Some(g)
  {
    if n in Nodes(s, g) {
      assert Has(s, g, Contents, n);
      assert Has(s, n, Containers, g);
      assert EntityWf(s, n);
      assert AtMostOne(s.ents[n].containers) by {
        forall a, b | a in s.ents[n].containers && b in s.ents[n].containers
          ensures a == b
        {
          assert Has(s, n, Containers, a) && Has(s, n, Containers, b);
        }
      }
    }
    if IsNode(s, n) && NodeGraph(s, n) == Some(g) {
      assert Has(s, n, Containers, g);
    }
  }

  /** The edges in a node's outgoing set are exactly the edges whose origin is that node. */
  lemma OutEdgesOriginate(s: Store, n: Id, e: Id)
    requires Wf(s) && IsNode(s, n)
    ensures e in OutEdges(s, n) <==> IsEdge(s, e) && EdgeOrigin(s, e) == Some(n)
  {
    if e in OutEdges(s, n) {
      assert Has(s, n, Destinations, e);
      assert EntityWf(s, n);
      assert Has(s, e, Origins, n);
      assert EntityWf(s, e);
      assert AtMostOne(s.ents[e].origins) by {
        forall a, b | a in s.ents[e].origins && b in s.ents[e].origins
          ensures a == b
        {
          assert Has(s, e, Origins, a) && Has(s, e, Origins, b);
        }
      }
    }
    if IsEdge(s, e) && EdgeOrigin(s, e) == Some(n) {
      assert Has(s, e, Origins, n);
    }
  }

  /** The edges in a node's incoming set are exactly the edges whose destination is that node. */
  lemma InEdgesTerminate(s: Store, n: Id, e: Id)
    requires Wf(s) && IsNode(s, n)
    ensures e in InEdges(s, n) <==> IsEdge(s, e) && EdgeDestination(s, e) == Some(n)
  {
    if e in InEdges(s, n) {
      assert Has(s, n, Origins, e);
      assert EntityWf(s, n);
      assert Has(s, e, Destinations, n);
      assert EntityWf(s, e);
      assert AtMostOne(s.ents[e].destinations) by {
        forall a, b | a in s.ents[e].destinations && b in s.ents[e].destinations
          ensures a == b
        {
          assert Has(s, e, Destinations, a) && Has(s, e, Destinations, b);
        }
      }
    }
    if IsEdge(s, e) && EdgeDestination(s, e) == Some(n) {
      assert Has(s, e, Destinations, n);
    }
  }

  /** Every outgoing edge of a node of a well-formed store is live, with that node as origin. */
  lemma OutEdgeLive(s: Store, n: Id, e: Id)
    requires Wf(s) && IsNode(s, n) && e in OutEdges(s, n)
    ensures LiveEdge(s, e) && EdgeOrigin(s, e) == Some(n)
    ensures IsNode(s, EdgeDestination(s, e).value)
  {
    OutEdgesOriginate(s, n, e);
    assert EntityWf(s, e);
    assert Has(s, e, Origins, n);
    assert !NoneIn(s, e, Origins);
    var d := EdgeDestination(s, e);
    assert d.Some?;
    assert Has(s, e, Destinations, d.value);
  }

  /** Edge.getGraph: the container of the edge's origin node. */
  function EdgeGraph(s: Store, e: Id): (r: Option<Id>)
    requires Wf(s) && IsEdge(s, e)
    ensures r.Some? ==> IsGraph(s, r.value) && EdgeOrigin(s, e).Some? && EdgeOrigin(s, e).value in Nodes(s, r.value)
    ensures forall g: Id :: IsGraph(s, g) && EdgeOrigin(s, e).Some? && EdgeOrigin(s, e).value in Nodes(s, g) ==> r == Some(g)
  {
    match EdgeOrigin(s, e)
    case None => None
    case Some(o) =>
      assert Has(s, e, Origins, o);
      assert EntityWf(s, e);
      forall g: Id | IsGraph(s, g) && o in Nodes(s, g) ensures NodeGraph(s, o) == Some(g) {
        NodeOnGraph(s, g, o);
      }
      var g := NodeGraph(s, o);
      if g.Some? then
        assert Has(s, o, Containers, g.value);
        assert EntityWf(s, o);
        assert Has(s, g.value, Contents, o);
        g
      else g
  }

  // ----- Construction -----

  lemma AllocateWf(s: Store, kind: Kind, value: string)
    ensures Wf(s) ==> Wf(Allocate(s, kind, value).0)
  {
    if Wf(s) {
      var (t, id) := Allocate(s, kind, value);
      forall x | 0 <= x < |t.ents|
        ensures EntityWf(t, x)
      {
        if x < |s.ents| {
          assert EntityWf(s, x);
        }
      }
    }
  }

  /** new Graph(name): an empty graph. */
  function NewGraph(s: Store, name: string): (r: (Store, Id))
    ensures Wf(s) ==> Wf(r.0)
    ensures Grows(s, r.0) && r.1 == |s.ents|
    ensures IsGraph(r.0, r.1) && NodeText(r.0, r.1) == name
    ensures Nodes(r.0, r.1) == {}
    ensures forall x, q, y :: Has(r.0, x, q, y) <==> Has(s, x, q, y)
  {
    AllocateWf(s, GraphKind, name);
    Allocate(s, GraphKind, name)
  }

  /** new Node(value, g): a fresh node whose only container is g, placed in g's contents. */
  function NewNode(s: Store, value: string, g: Id): (r: (Store, Id))
    requires IsGraph(s, g)
    ensures Grows(s, r.0) && r.1 == |s.ents| && |r.0.ents| == |s.ents| + 1
    ensures IsNode(r.0, r.1) && NodeText(r.0, r.1) == value
    ensures NodeGraph(r.0, r.1) == Some(g)
    ensures OutEdges(r.0, r.1) == {} && InEdges(r.0, r.1) == {}
    ensures Nodes(r.0, g) == Nodes(s, g) + {r.1}
    ensures forall x, q, y :: Has(r.0, x, q, y) <==>
              || Has(s, x, q, y)
              || (x == r.1 && q == Containers && y == g)
              || (x == g && q == Contents && y == r.1)
  {
    var (t, n) := Allocate(s, NodeKind, value);
    var u := Link(t, n, Containers, g);
    assert NodeGraph(u, n) == Some(g) by {
      assert AtMostOne(u.ents[n].containers) by {
        forall a, b | a in u.ents[n].containers && b in u.ents[n].containers
          ensures a == b
        {
          assert Has(u, n, Containers, a) && Has(u, n, Containers, b);
        }
      }
      assert Has(u, n, Containers, g);
    }
    assert Nodes(u, g) == Nodes(s, g) + {n} by {
      forall m ensures m in Nodes(u, g) <==> m in Nodes(s, g) + {n} {
        assert m in Nodes(u, g) <==> Has(u, g, Contents, m) && IsNode(u, m);
        assert m in Nodes(s, g) <==> Has(s, g, Contents, m) && IsNode(s, m);
      }
    }
    (u, n)
  }

  /** Adding a node to a graph keeps the store well-formed. */
  lemma NewNodeWf(s: Store, value: string, g: Id)
    requires Wf(s) && IsGraph(s, g)
    ensures Wf(NewNode(s, value, g).0)
  {
    var (u, n) := NewNode(s, value, g);
    assert EntityWf(s, g);
    forall x | 0 <= x < |u.ents|
      ensures EntityWf(u, x)
    {
      if x < |s.ents| {
        assert EntityWf(s, x);
      }
    }
  }

  /**
   * new Edge(from, value, to): fails (the source's NullPointerException) when
   * an endpoint is null; otherwise a fresh edge whose only origin is `from`
   * and only destination is `to`, recorded in from's outgoing and to's
   * incoming edges.
   */
  function NewEdge(s: Store, from: Option<Id>, value: string, to: Option<Id>): (r: Result<(Store, Id)>)
    requires from.Some? ==> IsNode(s, from.value)
    requires to.Some? ==> IsNode(s, to.value)
    ensures r.Ok? <==> from.Some? && to.Some?
    ensures r.Ok? ==>
              var (t, e) := r.value;
              && Grows(s, t) && e == |s.ents| && |t.ents| == |s.ents| + 1
              && IsEdge(t, e) && t.ents[e].value == value
              && EdgeOrigin(t, e) == from && EdgeDestination(t, e) == to
              && e in OutEdges(t, from.value) && e in InEdges(t, to.value)
              && forall x, q, y :: Has(t, x, q, y) <==>
                   || Has(s, x, q, y)
                   || (x == e && q == Origins && y == from.value)
                   || (x == from.value && q == Destinations && y == e)
                   || (x == e && q == Destinations && y == to.value)
                   || (x == to.value && q == Origins && y == e)
  {
    if from.None? || to.None? then Err("Null nodes")
    else Ok(AddEdge(s, from.value, value, to.value))
  }

  /** The constructor's work once both endpoints are known: allocate, then link origin and destination. */
  function AddEdge(s: Store, from: Id, value: string, to: Id): (r: (Store, Id))
    requires IsNode(s, from) && IsNode(s, to)
    ensures var (t, e) := r;
            && Grows(s, t) && e == |s.ents| && |t.ents| == |s.ents| + 1
            && IsEdge(t, e) && t.ents[e].value == value
            && EdgeOrigin(t, e) == Some(from) && EdgeDestination(t, e) == Some(to)
            && e in OutEdges(t, from) && e in InEdges(t, to)
            && forall x, q, y :: Has(t, x, q, y) <==>
                 || Has(s, x, q, y)
                 || (x == e && q == Origins && y == from)
                 || (x == from && q == Destinations && y == e)
                 || (x == e && q == Destinations && y == to)
                 || (x == to && q == Origins && y == e)
  {
    var (t, e) := Allocate(s, EdgeKind, value);
    var t1 := Link(t, e, Origins, from);
    var u := Link(t1, e, Destinations, to);
    EdgeLinked(s, t, t1, u, e, from, to);
    (u, e)
  }

  /**
   * A fresh edge `e` linked to origin `from` and then to destination `to`:
   * those are its only endpoints, and the four new pairs are the only change.
   */
  lemma EdgeLinked(s: Store, t: Store, t1: Store, u: Store, e: Id, from: Id, to: Id)
    requires Grows(s, t) && SameShape(t, t1) && SameShape(t1, u) && e < |u.ents| && from != e && to != e
    requires forall q, y :: !Has(t, e, q, y)
    requires forall x, q, y :: Has(t, x, q, y) <==> Has(s, x, q, y)
    requires forall x, q, y :: Has(t1, x, q, y) <==>
               Has(t, x, q, y) || (x == e && q == Origins && y == from) || (x == from && q == Destinations && y == e)
    requires forall x, q, y :: Has(u, x, q, y) <==>
               Has(t1, x, q, y) || (x == e && q == Destinations && y == to) || (x == to && q == Origins && y == e)
    ensures Grows(s, u)
    ensures EdgeOrigin(u, e) == Some(from) && EdgeDestination(u, e) == Some(to)
    ensures from < |u.ents| && to < |u.ents| && e in OutEdges(u, from) && e in InEdges(u, to)
    ensures forall x, q, y :: Has(u, x, q, y) <==>
              || Has(s, x, q, y)
              || (x == e && q == Origins && y == from)
              || (x == from && q == Destinations && y == e)
              || (x == e && q == Destinations && y == to)
              || (x == to && q == Origins && y == e)
  {
    assert AtMostOne(u.ents[e].origins) by {
      forall a, b | a in u.ents[e].origins && b in u.ents[e].origins
        ensures a == b
      {
        assert Has(u, e, Origins, a) && Has(u, e, Origins, b);
      }
    }
    assert Has(u, e, Origins, from);
    assert AtMostOne(u.ents[e].destinations) by {
      forall a, b | a in u.ents[e].destinations && b in u.ents[e].destinations
        ensures a == b
      {
        assert Has(u, e, Destinations, a) && Has(u, e, Destinations, b);
      }
    }
    assert Has(u, e, Destinations, to);
    assert Has(u, from, Destinations, e) && Has(u, to, Origins, e);
  }

  /** Adding an edge between two nodes keeps the store well-formed. */
  lemma NewEdgeWf(s: Store, from: Id, value: string, to: Id)
    requires Wf(s) && IsNode(s, from) && IsNode(s, to)
    ensures NewEdge(s, Some(from), value, Some(to)).Ok?
    ensures Wf(NewEdge(s, Some(from), value, Some(to)).value.0)
  {
    AddEdgeWf(s, from, value, to);
  }

  /** The same, for the constructor's work once both endpoints are known. */
  lemma AddEdgeWf(s: Store, from: Id, value: string, to: Id)
    requires Wf(s) && IsNode(s, from) && IsNode(s, to)
    ensures Wf(AddEdge(s, from, value, to).0)
  {
    var (u, e) := AddEdge(s, from, value, to);
    assert EntityWf(s, from) && EntityWf(s, to);
    forall x | 0 <= x < |u.ents|
      ensures EntityWf(u, x)
    {
      if x < |s.ents| {
        OldEntityWf(s, u, e, from, to, x);
      } else {
        assert Has(u, e, Origins, from) && Has(u, e, Destinations, to);
      }
    }
  }

  /** An entity that was there before the new edge keeps its role constraints. */
  lemma OldEntityWf(s: Store, u: Store, e: Id, from: Id, to: Id, x: Id)
    requires Wf(s) && IsNode(s, from) && IsNode(s, to) && x < |s.ents|
    requires Grows(s, u) && e == |s.ents| && |u.ents| == |s.ents| + 1 && IsEdge(u, e)
    requires forall x, q, y :: Has(u, x, q, y) <==>
               || Has(s, x, q, y)
               || (x == e && q == Origins && y == from)
               || (x == from && q == Destinations && y == e)
               || (x == e && q == Destinations && y == to)
               || (x == to && q == Origins && y == e)
    ensures EntityWf(u, x)
  {
    assert EntityWf(s, x);
  }

  // ----- Deletion -----

  /** Removing pairs keeps every role constraint except the liveness of edges, which is checked separately. */
  lemma SubRelationWf(s: Store, t: Store)
    requires Wf(s) && Mirrored(t) && SameShape(s, t)
    requires forall x, q, y :: Has(t, x, q, y) ==> Has(s, x, q, y)
    requires forall x :: 0 <= x < |t.ents| && IsEdge(t, x) ==> (NoneIn(t, x, Origins) <==> NoneIn(t, x, Destinations))
    ensures Wf(t)
  {
    forall x | 0 <= x < |t.ents|
      ensures EntityWf(t, x)
    {
      assert EntityWf(s, x);
    }
  }

  /**
   * Edge.delete: unlinks the edge from its origin and from its destination.
   * Exactly the directed pairs that involve the edge disappear.
   */
  function DeleteEdge(s: Store, e: Id): (t: Store)
    requires IsEdge(s, e) && Mirrored(s)
    ensures SameShape(s, t) && Mirrored(t)
    ensures forall x, q, y :: Has(t, x, q, y) <==> Has(s, x, q, y) && !(Directed(q) && (x == e || y == e))
  {
    Clear(Clear(s, e, Origins), e, Destinations)
  }

  /**
   * Removing every directed pair that touches a set of edges keeps a store
   * well-formed: the removed edges lose both endpoints, the others keep both.
   */
  lemma DetachWf(s: Store, t: Store, d: set<Id>)
    requires Wf(s) && Mirrored(t) && SameShape(s, t)
    requires forall e :: e in d ==> IsEdge(s, e)
    requires forall x, q, y :: Has(t, x, q, y) ==> Has(s, x, q, y)
    requires forall x, q, y :: Directed(q) && Has(s, x, q, y) ==> (Has(t, x, q, y) <==> x !in d && y !in d)
    ensures Wf(t)
  {
    forall x | 0 <= x < |t.ents| && IsEdge(t, x)
      ensures NoneIn(t, x, Origins) <==> NoneIn(t, x, Destinations)
    {
      assert EntityWf(s, x);
      if x !in d {
        forall y | Has(s, x, Origins, y) ensures Has(t, x, Origins, y) {
          assert IsNode(s, y);
        }
        forall y | Has(s, x, Destinations, y) ensures Has(t, x, Destinations, y) {
          assert IsNode(s, y);
        }
      }
    }
    SubRelationWf(s, t);
  }

  /** Deleting an edge keeps the store well-formed. */
  lemma DeleteEdgeWf(s: Store, e: Id)
    requires Wf(s) && IsEdge(s, e)
    ensures Wf(DeleteEdge(s, e))
  {
    DetachWf(s, DeleteEdge(s, e), {e});
  }

  /** Relation changes do not change kinds. */
  lemma ShapeKinds(s: Store, t: Store)
    requires SameShape(s, t)
    ensures forall x: Id, k: Kind :: IsKind(s, x, k) <==> IsKind(t, x, k)
  {
    forall x: Id, k: Kind ensures IsKind(s, x, k) <==> IsKind(t, x, k) {
      if x < |s.ents| {
        assert t.ents[x].kind == s.ents[x].kind;
      }
    }
  }

  /** Deletes each edge of `es` in turn. */
  function DeleteEdges(s: Store, es: set<Id>): (t: Store)
    requires Mirrored(s) && forall e :: e in es ==> IsEdge(s, e)
    ensures SameShape(s, t) && Mirrored(t)
    ensures forall x, q, y :: Has(t, x, q, y) <==> Has(s, x, q, y) && !(Directed(q) && (x in es || y in es))
    decreases es
  {
    if es == {} then s
    else
      var e := Least(es);
      var s1 := DeleteEdge(s, e);
      ShapeKinds(s, s1);
      assert forall e' :: e' in es ==> IsEdge(s, e');
      assert forall e' :: e' in es ==> IsKind(s, e', EdgeKind);
      var t := DeleteEdges(s1, es - {e});
      DeleteThenDelete(s, s1, t, e, es);
      t
  }

  /** Deleting one edge of `es` and then the rest deletes all of them. */
  lemma DeleteThenDelete(s: Store, s1: Store, t: Store, e: Id, es: set<Id>)
    requires e in es && SameShape(s, s1) && SameShape(s1, t)
    requires forall x, q, y :: Has(s1, x, q, y) <==> Has(s, x, q, y) && !(Directed(q) && (x == e || y == e))
    requires forall x, q, y :: Has(t, x, q, y) <==> Has(s1, x, q, y) && !(Directed(q) && (x in es - {e} || y in es - {e}))
    ensures SameShape(s, t)
    ensures forall x, q, y :: Has(t, x, q, y) <==> Has(s, x, q, y) && !(Directed(q) && (x in es || y in es))
  {
  }

  /** The edges incident to a node: its incoming and outgoing edges. */
  function Incident(s: Store, n: Id): set<Id>
    requires n < |s.ents|
  {
    s.ents[n].origins + s.ents[n].destinations
  }

  /** What Node.delete needs of the store: the casts to Edge in getInpointingEdges/getOutpointingEdges succeed. */
  ghost predicate Deletable(s: Store, n: Id) {
    && IsNode(s, n) && Mirrored(s)
    && forall e :: e in Incident(s, n) ==> IsEdge(s, e)
  }

  /**
   * The two edge loops of Node.delete: the incoming edges first, then the
   * outgoing edges that are still recorded at the node.
   */
  function DetachEdges(s: Store, n: Id): (t: Store)
    requires Deletable(s, n)
    ensures SameShape(s, t) && Mirrored(t)
    ensures forall x, q, y :: Has(t, x, q, y) <==> Has(s, x, q, y) && !(Directed(q) && (x in Incident(s, n) || y in Incident(s, n)))
  {
    var os := s.ents[n].origins;
    var s1 := DeleteEdges(s, os);
    var ds := s1.ents[n].destinations;
    assert ds == s.ents[n].destinations - os by {
      forall d ensures d in ds <==> d in s.ents[n].destinations - os {
        assert d in ds <==> Has(s1, n, Destinations, d);
        assert d in s.ents[n].destinations <==> Has(s, n, Destinations, d);
      }
    }
    assert forall e :: e in Incident(s, n) ==> IsEdge(s, e);
    assert forall e :: e in Incident(s, n) ==> IsKind(s, e, EdgeKind);
    ShapeKinds(s, s1);
    DeleteEdges(s1, ds)
  }

  /**
   * Node.delete: deletes every incoming edge, then every outgoing edge that
   * is left, then removes the node from its graph. A node that is on no
   * graph (one deleted before) makes getGraph return null and the source
   * throw a NullPointerException, after the edges are gone. So the result
   * is the store as the call leaves it, with the exception if one is thrown.
   */
  function DeleteNode(s: Store, n: Id): (r: (Store, Option<string>))
    requires Deletable(s, n)
    ensures r.1.None? <==> s.ents[n].containers != {}
    ensures r.1.Some? ==> r.1.value == "NullPointerException"
    ensures SameShape(s, r.0) && Mirrored(r.0)
    ensures r.1.Some? ==>
              forall x, q, y :: Has(r.0, x, q, y) <==>
                Has(s, x, q, y) && !(Directed(q) && (x in Incident(s, n) || y in Incident(s, n)))
    ensures r.1.None? ==>
              var g := Least(s.ents[n].containers);
              forall x, q, y :: Has(r.0, x, q, y) <==>
                && Has(s, x, q, y)
                && !(Directed(q) && (x in Incident(s, n) || y in Incident(s, n)))
                && !(x == n && q == Containers && y == g)
                && !(x == g && q == Contents && y == n)
  {
    var s2 := DetachEdges(s, n);
    assert s2.ents[n].containers == s.ents[n].containers by {
      forall g ensures g in s2.ents[n].containers <==> g in s.ents[n].containers {
        assert g in s2.ents[n].containers <==> Has(s2, n, Containers, g);
        assert g in s.ents[n].containers <==> Has(s, n, Containers, g);
      }
    }
    match GetOne(s2.ents[n].containers)
    case None => (s2, Some("NullPointerException"))
    case Some(g) =>
      MirroredHas(s2, n, Containers, g);
      (Unlink(s2, n, Containers, g), None)
  }

  /** Deleting a node keeps the store well-formed, whether or not the node was on a graph. */
  lemma DeleteNodeWf(s: Store, n: Id)
    requires Wf(s) && Deletable(s, n)
    ensures Wf(DeleteNode(s, n).0)
  {
    DetachWf(s, DeleteNode(s, n).0, Incident(s, n));
  }

  /** In a well-formed store every node can be deleted without a failing cast. */
  lemma WfDeletable(s: Store, n: Id)
    requires Wf(s) && IsNode(s, n)
    ensures Deletable(s, n)
  {
    assert EntityWf(s, n);
    forall e | e in Incident(s, n) ensures IsEdge(s, e) {
      if e in s.ents[n].origins { assert Has(s, n, Origins, e); } else { assert Has(s, n, Destinations, e); }
    }
  }

  /**
   * In a well-formed store a deleted node is left on no graph and with no
   * relations at all, and none of its former edges is recorded at any
   * entity.
   */
  lemma DeleteNodeDetaches(s: Store, n: Id)
    requires Wf(s) && IsNode(s, n) && s.ents[n].containers != {}
    ensures Deletable(s, n)
    ensures DeleteNode(s, n).1.None?
    ensures forall q, y :: !Has(DeleteNode(s, n).0, n, q, y)
    ensures forall g :: IsGraph(s, g) ==> n !in Nodes(DeleteNode(s, n).0, g)
    ensures forall x, q, e :: Directed(q) && e in Incident(s, n) ==> !Has(DeleteNode(s, n).0, x, q, e)
  {
    WfDeletable(s, n);
    assert EntityWf(s, n);
    var t := DeleteNode(s, n).0;
    var g := Least(s.ents[n].containers);
    forall q, y | Has(s, n, q, y) ensures !Has(t, n, q, y) {
      if q == Containers {
        assert Has(s, n, Containers, g);
      }
    }
    forall g' | IsGraph(s, g') && n in Nodes(t, g') ensures false {
      MirroredHas(t, g', Contents, n);
    }
  }
}
