/**
 * Graph.toString: the text form of a graph. Graph.read does not accept it
 * back: an edge prints as `a -- v --> b`, and the reader takes the first
 * '-' after a node for an edge label and then fails on the second.
 *
 *   name {
 *   origin -- edge --> destination     one line per outgoing edge of a node
 *   node                               one line per node with no edges
 *   }
 *
 * The source walks HashSets, whose iteration order is not specified; here
 * that order is an explicit parameter `order`, a sequence of ids. Nodes and
 * the outgoing edges of each node are taken in the order they appear in it.
 */
module Render {
  import opened Wrappers
  import opened Plex
  import opened Graphs

  /** What one line of the text shows. */
  datatype Item = NodeItem(n: Id) | EdgeItem(e: Id)

  predicate Distinct<T(==)>(xs: seq<T>) {
    forall i, j :: 0 <= i < j < |xs| ==> xs[i] != xs[j]
  }

  /** Dropping the head keeps the rest distinct, and the head is not repeated in it. */
  lemma DistinctTail<T>(xs: seq<T>)
    requires Distinct(xs) && xs != []
    ensures Distinct(xs[1..]) && xs[0] !in xs[1..]
  {
    assert forall i, j :: 0 <= i < j < |xs| - 1 ==> xs[1..][i] == xs[i + 1] && xs[1..][j] == xs[j + 1];
    forall k | 0 <= k < |xs| - 1 ensures xs[1..][k] != xs[0] {
      assert xs[1..][k] == xs[k + 1];
    }
  }

  /** Two distinct sequences with no member in common concatenate to a distinct one. */
  lemma DistinctConcat<T>(a: seq<T>, b: seq<T>)
    requires Distinct(a) && Distinct(b)
    requires forall x, y :: x in a && y in b ==> x != y
    ensures Distinct(a + b)
  {
    var r := a + b;
    forall i, j | 0 <= i < j < |r| ensures r[i] != r[j] {
      if j < |a| {
        assert r[i] == a[i] && r[j] == a[j];
      } else if i >= |a| {
        assert r[i] == b[i - |a|] && r[j] == b[j - |a|];
      } else {
        assert r[i] == a[i] && r[j] == b[j - |a|];
        assert a[i] in a && b[j - |a|] in b;
      }
    }
  }

  /** A duplicate-free sequence has as many members as elements. */
  lemma {:induction false} DistinctCard<T>(xs: seq<T>)
    requires Distinct(xs)
    ensures |set x | x in xs| == |xs|
  {
    if xs != [] {
      DistinctTail(xs);
      DistinctCard(xs[1..]);
      assert (set x | x in xs) == (set x | x in xs[1..]) + {xs[0]};
    }
  }

  /** The members of `xs`, in the order they appear in `order`. */
  function Filter(order: seq<Id>, xs: set<Id>): (r: seq<Id>)
    ensures forall x :: x in r <==> x in order && x in xs
    ensures Distinct(order) ==> Distinct(r)
  {
    if order == [] then []
    else
      var rest := Filter(order[1..], xs);
      assert forall x :: x in order <==> x == order[0] || x in order[1..];
      if order[0] in xs then
        assert Distinct(order) ==> order[0] !in order[1..] && Distinct(order[1..]) by {
          if Distinct(order) {
            forall k | 0 < k < |order| ensures order[k] != order[0] {}
            assert forall i, j :: 0 <= i < j < |order| - 1 ==> order[1..][i] == order[i + 1] && order[1..][j] == order[j + 1];
          }
        }
        [order[0]] + rest
      else
        assert Distinct(order) ==> Distinct(order[1..]) by {
          assert forall i, j :: 0 <= i < j < |order| - 1 ==> order[1..][i] == order[i + 1] && order[1..][j] == order[j + 1];
        }
        rest
  }

  predicate Isolated(s: Store, n: Id)
    requires n < |s.ents|
  {
    OutEdges(s, n) == {} && InEdges(s, n) == {}
  }

  /** The lines a node contributes: itself when it has no edges, else its outgoing edges. */
  function NodeItems(s: Store, n: Id, order: seq<Id>): (r: seq<Item>)
    requires n < |s.ents|
    ensures forall it :: it in r <==>
              if Isolated(s, n) then it == NodeItem(n)
              else it.EdgeItem? && it.e in order && it.e in OutEdges(s, n)
    ensures Distinct(order) ==> Distinct(r)
  {
    if Isolated(s, n) then [NodeItem(n)]
    else
      var es := Filter(order, OutEdges(s, n));
      var r := seq(|es|, i requires 0 <= i < |es| => EdgeItem(es[i]));
      assert forall it :: it in r <==> it.EdgeItem? && it.e in es by {
        forall it: Item | it.EdgeItem? && it.e in es ensures it in r {
          var i :| 0 <= i < |es| && es[i] == it.e;
          assert r[i] == it;
        }
      }
      r
  }

  /** The lines of the nodes `ns`, node by node. */
  function Items(s: Store, ns: seq<Id>, order: seq<Id>): (r: seq<Item>)
    requires forall n :: n in ns ==> n < |s.ents|
    ensures forall it :: it in r <==> exists n :: n in ns && it in NodeItems(s, n, order)
  {
    if ns == [] then []
    else
      assert ns[0] in ns;
      assert forall n :: n in ns[1..] ==> n in ns;
      NodeItems(s, ns[0], order) + Items(s, ns[1..], order)
  }

  /** An item whose line can be printed: a node, or an edge with both endpoints. */
  predicate Printable(s: Store, it: Item) {
    match it
    case NodeItem(n) => n < |s.ents|
    case EdgeItem(e) => LiveEdge(s, e)
  }

  function Line(s: Store, it: Item): string
    requires Printable(s, it)
  {
    match it
    case NodeItem(n) => NodeText(s, n) + "\n"
    case EdgeItem(e) => EdgeLine(s, e)
  }

  function Lines(s: Store, items: seq<Item>): string
    requires forall it :: it in items ==> Printable(s, it)
  {
    if items == [] then "" else Line(s, items[0]) + Lines(s, items[1..])
  }

  /** The nodes of g in the given order. */
  function NodeOrder(s: Store, g: Id, order: seq<Id>): (r: seq<Id>)
    requires g < |s.ents|
    ensures forall n :: n in r ==> n in Nodes(s, g) && n < |s.ents|
  {
    Filter(order, Nodes(s, g))
  }

  /** The items Graph.toString prints for g. */
  function GraphItems(s: Store, g: Id, order: seq<Id>): (r: seq<Item>)
    requires Wf(s) && IsGraph(s, g)
    ensures forall it :: it in r ==> Printable(s, it)
  {
    var r := Items(s, NodeOrder(s, g, order), order);
    forall it | it in r ensures Printable(s, it) {
      var n :| n in NodeOrder(s, g, order) && it in NodeItems(s, n, order);
      if it.EdgeItem? {
        OutEdgeLive(s, n, it.e);
      }
    }
    r
  }

  /** Graph.toString. */
  function RenderGraph(s: Store, g: Id, order: seq<Id>): (r: string)
    requires Wf(s) && IsGraph(s, g)
    ensures |r| >= |s.ents[g].value| + 3
    ensures r[..|s.ents[g].value|] == s.ents[g].value
    ensures r[|s.ents[g].value|..|s.ents[g].value| + 3] == " {\n"
    ensures r[|r| - 1] == '}'
  {
    s.ents[g].value + " {\n" + Lines(s, GraphItems(s, g, order)) + "}"
  }

  /** `order` lists every entity of the store, each once. */
  predicate Enumerates(s: Store, order: seq<Id>) {
    Distinct(order) && forall x :: 0 <= x < |s.ents| ==> x in order
  }

  /**
   * Every outgoing edge of every node of g is printed, and every node with
   * no edges at all, and nothing else.
   */
  lemma GraphItemsComplete(s: Store, g: Id, order: seq<Id>, it: Item)
    requires Wf(s) && IsGraph(s, g) && Enumerates(s, order)
    ensures it in GraphItems(s, g, order) <==>
              match it
              case NodeItem(n) => n in Nodes(s, g) && Isolated(s, n)
              case EdgeItem(e) => exists n :: n in Nodes(s, g) && e in OutEdges(s, n)
  {
    var ns := NodeOrder(s, g, order);
    NodesAreContents(s, g);
    match it
    case NodeItem(n) =>
      if n in Nodes(s, g) && Isolated(s, n) {
        assert n in ns && it in NodeItems(s, n, order);
      }
    case EdgeItem(e) =>
      if n :| n in Nodes(s, g) && e in OutEdges(s, n) {
        assert n in ns;
        OutEdgeLive(s, n, e);
        assert !Isolated(s, n);
        assert e in order;
        assert it in NodeItems(s, n, order);
      }
  }

  /** No line is printed twice: in particular each edge appears once, under its origin. */
  lemma GraphItemsDistinct(s: Store, g: Id, order: seq<Id>)
    requires Wf(s) && IsGraph(s, g) && Distinct(order)
    ensures Distinct(GraphItems(s, g, order))
  {
    ItemsDistinct(s, NodeOrder(s, g, order), order);
  }

  lemma {:induction false} ItemsDistinct(s: Store, ns: seq<Id>, order: seq<Id>)
    requires Wf(s) && Distinct(ns) && Distinct(order)
    requires forall n :: n in ns ==> IsNode(s, n)
    ensures forall n :: n in ns ==> n < |s.ents|
    ensures Distinct(Items(s, ns, order))
    decreases |ns|
  {
    assert forall n :: n in ns ==> IsKind(s, n, NodeKind);
    if ns != [] {
      assert ns[0] in ns;
      assert forall n :: n in ns[1..] ==> n in ns;
      var a := NodeItems(s, ns[0], order);
      var b := Items(s, ns[1..], order);
      DistinctTail(ns);
      ItemsDistinct(s, ns[1..], order);
      forall x, y | x in a && y in b ensures x != y {
        var m :| m in ns[1..] && y in NodeItems(s, m, order);
        if x.EdgeItem? && y.EdgeItem? && x.e == y.e {
          OutEdgesOriginate(s, ns[0], x.e);
          OutEdgesOriginate(s, m, y.e);
        }
      }
      DistinctConcat(a, b);
    }
  }
}
