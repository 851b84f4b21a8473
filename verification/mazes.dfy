/**
 * The maze solver's use of a graph: find the node called "start", check that
 * a "start" and a "finish" exist, and search depth-first along outgoing
 * edges for an edge into "finish".
 *
 * Node names are compared after lower-casing. The search keeps a stack of
 * edges and the set of edges already pushed, so each edge is pushed at most
 * once; it prints every edge it pops. Sets are walked in an unspecified
 * order, which the methods below model by choosing any remaining member.
 */
module Mazes {
  import opened Wrappers
  import opened Plex
  import opened Graphs
  import opened Render

  const NoPath: string := "No path exists"

  /** String.toLowerCase on one character, for the ASCII letters. */
  function LowerChar(c: char): (r: char)
    ensures 'A' <= c <= 'Z' ==> r as int == c as int + 32
    ensures !('A' <= c <= 'Z') ==> r == c
  {
    if 'A' <= c <= 'Z' then (c as int + 32) as char else c
  }

  function Lower(s: string): (r: string)
    ensures |r| == |s| && forall i :: 0 <= i < |s| ==> r[i] == LowerChar(s[i])
  {
    seq(|s|, i requires 0 <= i < |s| => LowerChar(s[i]))
  }

  /** The node's text, lower-cased, is `word`. */
  predicate Named(s: Store, n: Id, word: string) {
    n < |s.ents| && Lower(NodeText(s, n)) == word
  }

  /** Lower-casing does not tell "Start", "START" and "start" apart. */
  lemma NamedIgnoresCase()
    ensures Lower("START") == "start" && Lower("Start") == "start" && Lower("Finish") == "finish"
  {
    assert Lower("START") == "start" by {
      var r := Lower("START");
      assert r[0] == 's' && r[1] == 't' && r[2] == 'a' && r[3] == 'r' && r[4] == 't';
    }
    assert Lower("Start") == "start" by {
      var r := Lower("Start");
      assert r[0] == 's' && r[1] == 't' && r[2] == 'a' && r[3] == 'r' && r[4] == 't';
    }
    assert Lower("Finish") == "finish" by {
      var r := Lower("Finish");
      assert r[0] == 'f' && r[1] == 'i' && r[2] == 'n' && r[3] == 'i' && r[4] == 's' && r[5] == 'h';
    }
  }

  // ----- getStartNode and validateGraph -----

  /** Mazes.getStartNode: some node of g named "start", or none (null) when there is none. */
  method GetStartNode(s: Store, g: Id) returns (r: Option<Id>)
    requires g < |s.ents|
    ensures r.Some? ==> r.value in Nodes(s, g) && Named(s, r.value, "start")
    ensures r.None? <==> forall n :: n in Nodes(s, g) ==> !Named(s, n, "start")
  {
    var todo := Nodes(s, g);
    while todo != {}
      invariant todo <= Nodes(s, g)
      invariant forall n :: n in Nodes(s, g) - todo ==> !Named(s, n, "start")
      decreases todo
    {
      var n :| n in todo;
      if Lower(NodeText(s, n)) == "start" {
        return Some(n);
      }
      todo := todo - {n};
    }
    return None;
  }

  /** Mazes.validateGraph: g has a node named "start" and a node named "finish". */
  method ValidateGraph(s: Store, g: Id) returns (ok: bool)
    requires g < |s.ents|
    ensures ok <==> && (exists n :: n in Nodes(s, g) && Named(s, n, "start"))
                    && (exists n :: n in Nodes(s, g) && Named(s, n, "finish"))
  {
    var todo := Nodes(s, g);
    var start, finish := false, false;
    while todo != {}
      invariant todo <= Nodes(s, g)
      invariant start <==> exists n :: n in Nodes(s, g) - todo && Named(s, n, "start")
      invariant finish <==> exists n :: n in Nodes(s, g) - todo && Named(s, n, "finish")
      decreases todo
    {
      var n :| n in todo;
      assert Nodes(s, g) - (todo - {n}) == (Nodes(s, g) - todo) + {n};
      if Lower(NodeText(s, n)) == "start" {
        start := true;
      }
      if Lower(NodeText(s, n)) == "finish" {
        finish := true;
      }
      todo := todo - {n};
    }
    ok := start && finish;
  }

  // ----- Walks along outgoing edges -----

  /** Edge b leaves the node edge a points to. */
  predicate Follows(s: Store, a: Id, b: Id) {
    && a < |s.ents| && EdgeDestination(s, a).Some? && EdgeDestination(s, a).value < |s.ents|
    && b in OutEdges(s, EdgeDestination(s, a).value)
  }

  /**
   * A non-empty chain of edges whose first edge leaves `start` and each of
   * whose edges leaves where the previous one arrives.
   */
  ghost predicate Walk(s: Store, start: Id, w: seq<Id>)
    decreases |w|
  {
    && |w| > 0 && start < |s.ents|
    && if |w| == 1 then w[0] in OutEdges(s, start)
       else Walk(s, start, w[..|w| - 1]) && Follows(s, w[|w| - 2], w[|w| - 1])
  }

  /** The recursive definition read pointwise: the first edge leaves start and every edge follows the one before. */
  lemma {:induction false} WalkSteps(s: Store, start: Id, w: seq<Id>)
    requires Walk(s, start, w)
    ensures w[0] in OutEdges(s, start)
    ensures forall i :: 0 <= i < |w| - 1 ==> Follows(s, w[i], w[i + 1])
    decreases |w|
  {
    if |w| > 1 {
      var v := w[..|w| - 1];
      WalkSteps(s, start, v);
      assert forall i :: 0 <= i < |v| ==> v[i] == w[i];
    }
  }

  ghost predicate Reachable(s: Store, start: Id, e: Id) {
    exists w :: Walk(s, start, w) && w[|w| - 1] == e
  }

  /** The edge arrives at a node named "finish". */
  predicate FinishAt(s: Store, e: Id) {
    e < |s.ents| && EdgeDestination(s, e).Some? && Named(s, EdgeDestination(s, e).value, "finish")
  }

  /** The lines printed for the edges `es`, in order. */
  function PathText(s: Store, es: seq<Id>): string
    requires forall e :: e in es ==> LiveEdge(s, e)
  {
    if es == [] then "" else PathText(s, es[..|es| - 1]) + EdgeLine(s, es[|es| - 1])
  }

  /** The ids below n. */
  function Below(n: nat): (r: set<Id>)
    ensures forall x: Id :: x in r <==> x < n
  {
    if n == 0 then {} else
      var r := Below(n - 1);
      r + {n - 1}
  }

  /** Every id of the store: what the set of pushed edges stays within. */
  function Universe(s: Store): set<Id> {
    Below(|s.ents|)
  }

  /** Edge a arrives at a node whose out-edges are all in `pushed`. */
  ghost predicate Expanded(s: Store, a: Id, pushed: set<Id>) {
    && a < |s.ents| && EdgeDestination(s, a).Some? && EdgeDestination(s, a).value < |s.ents|
    && OutEdges(s, EdgeDestination(s, a).value) <= pushed
  }

  /**
   * If every out-edge of start has been pushed and every pushed edge has had
   * the out-edges of its destination pushed, then every edge of a walk has
   * been pushed.
   */
  lemma {:induction false} WalkCovered(s: Store, start: Id, w: seq<Id>, pushed: set<Id>)
    requires Walk(s, start, w)
    requires OutEdges(s, start) <= pushed
    requires forall a :: a in pushed ==> Expanded(s, a, pushed)
    ensures forall e :: e in w ==> e in pushed
    decreases |w|
  {
    if |w| > 1 {
      var v := w[..|w| - 1];
      WalkCovered(s, start, v, pushed);
      assert w[|w| - 2] == v[|v| - 1];
      assert w[|w| - 2] in v;
      assert forall e :: e in w ==> e in v || e == w[|w| - 1];
    }
  }

  /** A walk extended by an edge that follows its last one. */
  lemma WalkExtend(s: Store, start: Id, w: seq<Id>, b: Id)
    requires Walk(s, start, w) && Follows(s, w[|w| - 1], b)
    ensures Walk(s, start, w + [b]) && (w + [b])[|w|] == b
  {
    assert (w + [b])[..|w|] == w;
  }

  lemma WalkReaches(s: Store, start: Id, w: seq<Id>)
    requires Walk(s, start, w)
    ensures Reachable(s, start, w[|w| - 1])
  {
  }

  /**
   * When the search has exhausted its stack, every edge reachable from start
   * has been pushed; since none of them arrives at "finish", none does.
   */
  lemma NothingReachesFinish(s: Store, start: Id, pushed: set<Id>)
    requires start < |s.ents|
    requires OutEdges(s, start) <= pushed
    requires forall a :: a in pushed ==> Expanded(s, a, pushed) && !FinishAt(s, a)
    ensures forall e :: Reachable(s, start, e) ==> !FinishAt(s, e)
  {
    forall e | Reachable(s, start, e)
      ensures !FinishAt(s, e)
    {
      var w :| Walk(s, start, w) && w[|w| - 1] == e;
      WalkCovered(s, start, w, pushed);
      assert e in w;
    }
  }

  /** A printed path is never the "No path exists" answer: it ends with a newline. */
  lemma PathTextNotNoPath(s: Store, es: seq<Id>)
    requires |es| > 0 && forall e :: e in es ==> LiveEdge(s, e)
    ensures PathText(s, es) != NoPath
  {
    var t := PathText(s, es);
    assert t[|t| - 1] == '\n';
    assert NoPath[|NoPath| - 1] == 's';
  }

  // ----- traverseGraph -----

  /**
   * What the search knows of every pushed edge: it is a live edge into a
   * node of the store, and `walks` holds a walk from start that ends with it.
   */
  ghost predicate Tracked(s: Store, start: Id, pushed: set<Id>, walks: map<Id, seq<Id>>) {
    && pushed <= Universe(s)
    && forall e :: e in pushed ==>
         && LiveEdge(s, e) && IsNode(s, EdgeDestination(s, e).value)
         && e in walks && Walk(s, start, walks[e]) && walks[e][|walks[e]| - 1] == e
  }

  /** Tracking one more edge, with a walk that ends with it. */
  lemma TrackedAdd(s: Store, start: Id, pushed: set<Id>, walks: map<Id, seq<Id>>, b: Id, w: seq<Id>)
    requires Tracked(s, start, pushed, walks)
    requires LiveEdge(s, b) && IsNode(s, EdgeDestination(s, b).value)
    requires Walk(s, start, w) && w[|w| - 1] == b
    ensures Tracked(s, start, pushed + {b}, walks[b := w])
  {
  }

  /** What `via` must be for the out-edges of `from`: empty at start, otherwise a walk that arrives at `from`. */
  ghost predicate Arrives(s: Store, start: Id, from: Id, via: seq<Id>) {
    && (via == [] ==> from == start)
    && (via != [] ==> Walk(s, start, via) && LiveEdge(s, via[|via| - 1]) && EdgeDestination(s, via[|via| - 1]) == Some(from))
  }

  /** One turn of the inner loop: push the out-edge b of `from` unless it has been pushed before. */
  method PushOne(s: Store, start: Id, from: Id, ghost via: seq<Id>, b: Id,
                 stack: seq<Id>, pushed: set<Id>, ghost walks: map<Id, seq<Id>>)
    returns (stack': seq<Id>, pushed': set<Id>, ghost walks': map<Id, seq<Id>>)
    requires Wf(s) && IsNode(s, from) && IsNode(s, start) && b in OutEdges(s, from)
    requires Arrives(s, start, from, via)
    requires Tracked(s, start, pushed, walks)
    ensures pushed' == pushed + {b}
    ensures stack' == if b in pushed then stack else stack + [b]
    ensures Tracked(s, start, pushed', walks')
  {
    stack', pushed', walks' := stack, pushed, walks;
    if b !in pushed {
      ghost var w := via + [b];
      OutEdgeLive(s, from, b);
      if via == [] {
        assert w == [b];
      } else {
        WalkExtend(s, start, via, b);
      }
      TrackedAdd(s, start, pushed, walks, b, w);
      stack' := stack + [b];
      pushed' := pushed + {b};
      walks' := walks[b := w];
    }
  }

  /**
   * The inner loop of the search: push every out-edge of `from` that has not
   * been pushed yet. `via` is the walk that arrived at `from` (empty for the
   * start node itself).
   */
  method PushOut(s: Store, start: Id, from: Id, ghost via: seq<Id>,
                 stack: seq<Id>, pushed: set<Id>, ghost walks: map<Id, seq<Id>>)
    returns (stack': seq<Id>, pushed': set<Id>, ghost walks': map<Id, seq<Id>>)
    requires Wf(s) && IsNode(s, from) && IsNode(s, start)
    requires Arrives(s, start, from, via)
    requires Tracked(s, start, pushed, walks)
    ensures pushed' == pushed + OutEdges(s, from)
    ensures forall e :: e in stack' <==> e in stack || e in OutEdges(s, from) - pushed
    ensures pushed' == pushed ==> stack' == stack
    ensures |stack| <= |stack'| && stack'[..|stack|] == stack
    ensures Distinct(stack'[|stack|..]) && forall e :: e in stack'[|stack|..] ==> e !in pushed
    ensures Tracked(s, start, pushed', walks')
  {
    stack', pushed', walks' := stack, pushed, walks;
    var todo := OutEdges(s, from);
    ghost var added: seq<Id> := [];
    while todo != {}
      invariant todo <= OutEdges(s, from)
      invariant pushed' == pushed + (OutEdges(s, from) - todo)
      invariant stack' == stack + added && Distinct(added)
      invariant forall e :: e in added <==> e in (OutEdges(s, from) - todo) - pushed
      invariant pushed' == pushed ==> added == []
      invariant Tracked(s, start, pushed', walks')
      decreases todo
    {
      var b :| b in todo;
      AddedStep(OutEdges(s, from), todo, pushed, pushed', added, b);
      added := if b in pushed' then added else added + [b];
      stack', pushed', walks' := PushOne(s, start, from, via, b, stack', pushed', walks');
      todo := todo - {b};
    }
    assert stack'[|stack|..] == added;
  }

  /**
   * The bookkeeping of one round of PushOut: `added` holds, once each, the
   * out-edges handled so far that had not been pushed before.
   */
  lemma AddedStep(out: set<Id>, todo: set<Id>, pushed: set<Id>, current: set<Id>, added: seq<Id>, b: Id)
    requires b in todo && todo <= out && current == pushed + (out - todo)
    requires Distinct(added) && forall e :: e in added <==> e in (out - todo) - pushed
    requires current == pushed ==> added == []
    ensures current + {b} == pushed + (out - (todo - {b}))
    ensures var added' := if b in current then added else added + [b];
            && Distinct(added') && (forall e :: e in added' <==> e in (out - (todo - {b})) - pushed)
            && (current + {b} == pushed ==> added' == [])
  {
    if b !in current {
      DistinctConcat(added, [b]);
    }
  }

  /**
   * The state the search keeps between two pops: start's out-edges are
   * pushed, every pushed edge is tracked, and is on the stack or popped,
   * and every popped edge missed "finish" and has had its out-edges pushed.
   */
  ghost predicate Searching(s: Store, start: Id, stack: seq<Id>, pushed: set<Id>, popped: seq<Id>, walks: map<Id, seq<Id>>) {
    && start < |s.ents|
    && OutEdges(s, start) <= pushed
    && Tracked(s, start, pushed, walks)
    && (forall e :: e in pushed <==> e in stack || e in popped)
    && Distinct(stack) && Distinct(popped) && (forall e :: e in stack ==> e !in popped)
    && (forall e :: e in popped ==> !FinishAt(s, e))
    && (forall a :: a in popped ==> Expanded(s, a, pushed))
  }

  /**
   * One round of the search after popping an edge `e` that does not arrive
   * at "finish": push the out-edges of its destination.
   */
  method Expand(s: Store, start: Id, e: Id, stack: seq<Id>, pushed: set<Id>,
                ghost popped: seq<Id>, ghost walks: map<Id, seq<Id>>)
    returns (stack': seq<Id>, pushed': set<Id>, ghost walks': map<Id, seq<Id>>)
    requires Wf(s) && IsNode(s, start)
    requires Searching(s, start, stack + [e], pushed, popped, walks)
    requires !FinishAt(s, e)
    ensures e < |s.ents| && EdgeDestination(s, e).Some? && EdgeDestination(s, e).value < |s.ents|
    ensures pushed' == pushed + OutEdges(s, EdgeDestination(s, e).value)
    ensures pushed' == pushed ==> stack' == stack
    ensures Searching(s, start, stack', pushed', popped + [e], walks')
  {
    assert forall a :: a in stack + [e] <==> a in stack || a == e;
    assert e in pushed;
    var to := EdgeDestination(s, e).value;
    stack', pushed', walks' := PushOut(s, start, to, walks[e], stack, pushed, walks);
    SearchingStep(s, start, e, stack, pushed, popped, walks, stack', pushed', walks');
  }

  /** Popping `e` and pushing the out-edges of its destination keeps the search state. */
  lemma SearchingStep(s: Store, start: Id, e: Id, stack: seq<Id>, pushed: set<Id>, popped: seq<Id>, walks: map<Id, seq<Id>>,
                      stack': seq<Id>, pushed': set<Id>, walks': map<Id, seq<Id>>)
    requires Searching(s, start, stack + [e], pushed, popped, walks)
    requires !FinishAt(s, e) && e in pushed
    requires Expanded(s, e, pushed')
    requires pushed' == pushed + OutEdges(s, EdgeDestination(s, e).value)
    requires forall a :: a in stack' <==> a in stack || a in OutEdges(s, EdgeDestination(s, e).value) - pushed
    requires |stack| <= |stack'| && stack'[..|stack|] == stack
    requires Distinct(stack'[|stack|..]) && forall a :: a in stack'[|stack|..] ==> a !in pushed
    requires Tracked(s, start, pushed', walks')
    ensures Searching(s, start, stack', pushed', popped + [e], walks')
  {
    PopDistinct(stack, e, popped);
    forall a | a in stack + [e] ensures a in pushed {}
    forall a | a in popped ensures a in pushed {}
    GrowDistinct(stack, popped + [e], pushed, stack');
    forall a | a in pushed'
      ensures a in stack' || a in popped + [e]
    {
      if a !in stack' && a in pushed {
        assert a in stack + [e] || a in popped;
      }
    }
    forall a | a in popped + [e]
      ensures a in pushed' && !FinishAt(s, a) && Expanded(s, a, pushed')
    {
      if a != e {
        assert a in popped;
      }
    }
    forall a | a in stack'
      ensures a in pushed'
    {
      if a in stack {
        assert a in stack + [e];
      }
    }
  }

  /**
   * The depth-first search from `start`. It prints each popped edge and
   * stops after the first one into "finish"; otherwise it answers "No path
   * exists", which it does exactly when no edge reachable from start
   * arrives at "finish".
   */
  method Traverse(s: Store, start: Id) returns (out: string, ghost popped: seq<Id>)
    requires Wf(s) && IsNode(s, start)
    ensures forall e :: e in popped ==> LiveEdge(s, e) && Reachable(s, start, e)
    ensures out != NoPath ==> |popped| > 0 && FinishAt(s, popped[|popped| - 1]) && out == PathText(s, popped)
    ensures out == NoPath <==> forall e :: Reachable(s, start, e) ==> !FinishAt(s, e)
    ensures Distinct(popped) && |popped| <= |s.ents|
  {
    var stack, pushed, walks := PushOut(s, start, start, [], [], {}, map[]);
    assert stack == stack[0..];
    popped := [];
    out := "";
    while stack != []
      invariant Searching(s, start, stack, pushed, popped, walks)
      invariant out == PathText(s, popped)
      decreases Universe(s) - pushed, |stack|
    {
      ghost var pushed0 := pushed;
      var found;
      found, stack, pushed, popped, walks, out := Pop(s, start, stack, pushed, popped, walks, out);
      if found {
        return;
      }
      if pushed != pushed0 {
        Shrinks(s, pushed0, pushed);
      }
    }
    Exhausted(s, start, pushed, popped, walks);
    out := NoPath;
  }

  /**
   * One round of the search: pop the top edge and print it; stop if it
   * arrives at "finish", else push the out-edges of its destination.
   */
  method Pop(s: Store, start: Id, stack: seq<Id>, pushed: set<Id>, ghost popped: seq<Id>,
             ghost walks: map<Id, seq<Id>>, out: string)
    returns (found: bool, stack': seq<Id>, pushed': set<Id>, ghost popped': seq<Id>,
             ghost walks': map<Id, seq<Id>>, out': string)
    requires Wf(s) && IsNode(s, start) && stack != []
    requires Searching(s, start, stack, pushed, popped, walks) && out == PathText(s, popped)
    ensures found ==> && (forall e :: e in popped' ==> LiveEdge(s, e) && Reachable(s, start, e))
                      && |popped'| > 0 && FinishAt(s, popped'[|popped'| - 1]) && out' == PathText(s, popped')
                      && out' != NoPath && !(forall e :: Reachable(s, start, e) ==> !FinishAt(s, e))
                      && Distinct(popped') && |popped'| <= |s.ents|
    ensures !found ==> && Searching(s, start, stack', pushed', popped', walks') && out' == PathText(s, popped')
                       && pushed <= pushed' && (pushed' == pushed ==> |stack'| < |stack|)
  {
    var e := stack[|stack| - 1];
    stack' := stack[..|stack| - 1];
    assert stack == stack' + [e];
    PopLive(s, start, stack', e, pushed, popped, walks);
    var to := EdgeDestination(s, e).value;
    if Lower(NodeText(s, to)) == "finish" {
      Found(s, start, e, stack', pushed, popped, walks);
      FoundOutcome(s, start, e, popped, out);
      return true, stack', pushed, popped + [e], walks, out + EdgeLine(s, e);
    }
    found := false;
    stack', pushed', walks' := Expand(s, start, e, stack', pushed, popped, walks);
    popped' := popped + [e];
    out' := out + EdgeLine(s, e);
    assert popped'[..|popped'| - 1] == popped;
  }

  /** The edge on top of the stack has been pushed, and so it is live. */
  lemma PopLive(s: Store, start: Id, stack: seq<Id>, e: Id, pushed: set<Id>, popped: seq<Id>, walks: map<Id, seq<Id>>)
    requires Searching(s, start, stack + [e], pushed, popped, walks)
    ensures e in pushed && LiveEdge(s, e) && IsNode(s, EdgeDestination(s, e).value)
  {
    assert e in stack + [e];
  }

  /**
   * Popping the top `e` of a duplicate-free stack onto a duplicate-free
   * popped list that shares nothing with the stack keeps both so.
   */
  lemma PopDistinct(stack: seq<Id>, e: Id, popped: seq<Id>)
    requires Distinct(stack + [e]) && Distinct(popped)
    requires forall a :: a in stack + [e] ==> a !in popped
    ensures Distinct(stack) && Distinct(popped + [e])
    ensures forall a :: a in stack ==> a !in popped + [e]
  {
    assert e in stack + [e];
    forall a | a in stack ensures a != e && a in stack + [e] {
      var i :| 0 <= i < |stack| && stack[i] == a;
      assert (stack + [e])[i] == a && (stack + [e])[|stack|] == e;
    }
    assert forall i :: 0 <= i < |stack| ==> stack[i] == (stack + [e])[i];
    DistinctConcat(popped, [e]);
  }

  /**
   * Pushing `added`, which holds no pushed edge and no duplicate, on top of
   * a stack that shares nothing with `popped` (all pushed) keeps them apart.
   */
  lemma GrowDistinct(stack: seq<Id>, popped: seq<Id>, pushed: set<Id>, stack': seq<Id>)
    requires Distinct(stack) && forall a :: a in stack ==> a !in popped
    requires forall a :: a in popped ==> a in pushed
    requires |stack| <= |stack'| && stack'[..|stack|] == stack
    requires Distinct(stack'[|stack|..]) && forall a :: a in stack'[|stack|..] ==> a !in pushed
    requires forall a :: a in stack ==> a in pushed
    ensures Distinct(stack') && forall a :: a in stack' ==> a !in popped
  {
    var added := stack'[|stack|..];
    assert stack' == stack + added;
    DistinctConcat(stack, added);
  }

  /** A duplicate-free list of pushed ids is no longer than the store: the search pops each edge at most once. */
  lemma PoppedBound(s: Store, popped: seq<Id>, pushed: set<Id>)
    requires Distinct(popped) && pushed <= Universe(s)
    requires forall e :: e in popped ==> e in pushed
    ensures |popped| <= |s.ents|
  {
    DistinctCard(popped);
    BelowCard(|s.ents|);
    assert (set e | e in popped) <= Universe(s);
    SubsetCard((set e | e in popped), Universe(s));
  }

  lemma SubsetCard(a: set<Id>, b: set<Id>)
    requires a <= b
    ensures |a| <= |b|
  {
    assert b == a + (b - a);
  }

  lemma {:induction false} BelowCard(n: nat)
    ensures |Below(n)| == n
  {
    if n > 0 {
      BelowCard(n - 1);
      assert Below(n) == Below(n - 1) + {n - 1};
      assert n - 1 !in Below(n - 1);
    }
  }

  /** Pushing something new leaves fewer ids to push: the search's measure. */
  lemma Shrinks(s: Store, pushed: set<Id>, pushed': set<Id>)
    requires pushed <= pushed' <= Universe(s) && pushed != pushed'
    ensures Universe(s) - pushed' < Universe(s) - pushed
  {
    var x :| x in pushed' && x !in pushed;
    assert x in Universe(s) - pushed;
  }

  /** The popped edges are live and reachable from start. */
  lemma PoppedReachable(s: Store, start: Id, stack: seq<Id>, pushed: set<Id>, popped: seq<Id>, walks: map<Id, seq<Id>>)
    requires Searching(s, start, stack, pushed, popped, walks)
    ensures forall e :: e in popped ==> LiveEdge(s, e) && Reachable(s, start, e)
  {
    forall e | e in popped
      ensures LiveEdge(s, e) && Reachable(s, start, e)
    {
      WalkReaches(s, start, walks[e]);
    }
  }

  /** Popping an edge into "finish": every popped edge, that one included, is live and reachable. */
  lemma Found(s: Store, start: Id, e: Id, stack: seq<Id>, pushed: set<Id>, popped: seq<Id>, walks: map<Id, seq<Id>>)
    requires Searching(s, start, stack + [e], pushed, popped, walks)
    ensures e in pushed && LiveEdge(s, e) && Reachable(s, start, e)
    ensures forall a :: a in popped + [e] ==> LiveEdge(s, a) && Reachable(s, start, a)
    ensures Distinct(popped + [e]) && |popped + [e]| <= |s.ents|
  {
    assert e in stack + [e];
    WalkReaches(s, start, walks[e]);
    PoppedReachable(s, start, stack + [e], pushed, popped, walks);
    PopDistinct(stack, e, popped);
    PoppedBound(s, popped + [e], pushed);
  }

  /** The search's answer when it pops `e` into "finish": the path so far, ending in e. */
  lemma FoundOutcome(s: Store, start: Id, e: Id, popped: seq<Id>, out: string)
    requires forall a :: a in popped + [e] ==> LiveEdge(s, a) && Reachable(s, start, a)
    requires FinishAt(s, e) && out == PathText(s, popped)
    ensures out + EdgeLine(s, e) != NoPath
    ensures FinishAt(s, (popped + [e])[|popped + [e]| - 1]) && out + EdgeLine(s, e) == PathText(s, popped + [e])
    ensures !forall a :: Reachable(s, start, a) ==> !FinishAt(s, a)
  {
    var es := popped + [e];
    assert e in es && es[..|es| - 1] == popped;
    PathTextNotNoPath(s, es);
  }

  /**
   * An empty stack: everything pushed has been popped, and so no edge
   * reachable from start arrives at "finish".
   */
  lemma Exhausted(s: Store, start: Id, pushed: set<Id>, popped: seq<Id>, walks: map<Id, seq<Id>>)
    requires Searching(s, start, [], pushed, popped, walks)
    ensures forall e :: e in popped ==> LiveEdge(s, e) && Reachable(s, start, e)
    ensures forall e :: Reachable(s, start, e) ==> !FinishAt(s, e)
    ensures Distinct(popped) && |popped| <= |s.ents|
  {
    assert forall a :: a in pushed <==> a in popped;
    NothingReachesFinish(s, start, pushed);
    PoppedReachable(s, start, [], pushed, popped, walks);
    PoppedBound(s, popped, pushed);
  }

  /**
   * Mazes.traverseGraph: the search from the graph's start node. With no
   * start node, the source dereferences null.
   */
  method TraverseGraph(s: Store, g: Id) returns (r: Result<string>)
    requires Wf(s) && IsGraph(s, g)
    ensures r.Err? <==> forall n :: n in Nodes(s, g) ==> !Named(s, n, "start")
    ensures r.Ok? ==>
              exists n :: && n in Nodes(s, g) && Named(s, n, "start")
                          && (r.value == NoPath <==> forall e :: Reachable(s, n, e) ==> !FinishAt(s, e))
    ensures r.Ok? && r.value != NoPath ==>
              exists n, es :: && n in Nodes(s, g) && Named(s, n, "start") && |es| > 0
                              && (forall e :: e in es ==> LiveEdge(s, e) && Reachable(s, n, e))
                              && FinishAt(s, es[|es| - 1]) && r.value == PathText(s, es)
  {
    var start := GetStartNode(s, g);
    if start.None? {
      return Err("NullPointerException");
    }
    var out, popped := Traverse(s, start.value);
    r := Ok(out);
  }
}
