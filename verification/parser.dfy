/**
 * Graph.read: builds a graph from its text form.
 *
 *   name {
 *   from label -> to          an edge; the label may be left out
 *   node                      a node on its own
 *   }
 *
 * The tokenizer runs with the keyword set {"-"}, so a dash is a KEYWORD
 * token. One token of lookahead decides what a dash means: the start of
 * "->", the sign of a negative number, or a one-character name. The
 * parser remembers what the previous element of the line was (`Prev`).
 * Every syntax error aborts the read.
 */
module Parser {
  import opened Wrappers
  import opened Tokens
  import opened Lexer
  import opened Plex
  import opened Graphs

  const Keywords: set<string> := {"-"}

  /** What the previous element of the current line was. */
  datatype Prev = AfterEol | AfterNode | AfterEdge | AfterArrow

  datatype ParseState = ParseState(
    store: Store,
    graph: Id,
    prev: Prev,
    edgeName: string,
    prevNode: Option<Id>)

  // ----- What a graph under construction looks like -----

  /** No two nodes of g have the same text. */
  ghost predicate Interned(s: Store, g: Id)
    requires g < |s.ents|
  {
    forall a, b :: a in Nodes(s, g) && b in Nodes(s, g) && NodeText(s, a) == NodeText(s, b) ==> a == b
  }

  /**
   * A store built by the reader: well-formed, holding the graph g, nodes on
   * g with distinct texts, and edges that have endpoints.
   */
  ghost predicate Built(s: Store, g: Id) {
    && Wf(s) && IsGraph(s, g) && Interned(s, g)
    && forall x :: 0 <= x < |s.ents| ==> x == g || x in Nodes(s, g) || (IsEdge(s, x) && s.ents[x].origins != {})
  }

  /** An edge of a built store runs between nodes of its graph. */
  lemma BuiltEdge(s: Store, g: Id, e: Id)
    requires Built(s, g) && IsEdge(s, e)
    ensures LiveEdge(s, e)
    ensures EdgeOrigin(s, e).value in Nodes(s, g) && EdgeDestination(s, e).value in Nodes(s, g)
  {
    assert EntityWf(s, e);
    var o :| o in s.ents[e].origins;
    assert Has(s, e, Origins, o);
    assert !NoneIn(s, e, Origins);
    assert !NoneIn(s, e, Destinations);
    var d: Id :| Has(s, e, Destinations, d);
    assert AtMostOne(s.ents[e].origins) by {
      forall a, b | a in s.ents[e].origins && b in s.ents[e].origins ensures a == b {
        assert Has(s, e, Origins, a) && Has(s, e, Origins, b);
      }
    }
    assert AtMostOne(s.ents[e].destinations) by {
      forall a, b | a in s.ents[e].destinations && b in s.ents[e].destinations ensures a == b {
        assert Has(s, e, Destinations, a) && Has(s, e, Destinations, b);
      }
    }
    assert EdgeOrigin(s, e) == Some(o) && EdgeDestination(s, e) == Some(d);
    assert IsNode(s, o) && IsNode(s, d);
  }

  // ----- createNode -----

  /**
   * Graph.createNode: the node of g whose text is `value` if there is one,
   * otherwise a new node on g with that text.
   */
  function CreateNode(s: Store, g: Id, value: string): (r: (Store, Id))
    requires IsGraph(s, g)
    ensures Grows(s, r.0) && IsGraph(r.0, g)
    ensures r.1 in Nodes(r.0, g) && NodeText(r.0, r.1) == value
    ensures Nodes(r.0, g) == Nodes(s, g) + {r.1}
    ensures (exists n :: n in Nodes(s, g) && NodeText(s, n) == value) <==> r.1 in Nodes(s, g)
    ensures r.1 in Nodes(s, g) ==> r.0 == s
    ensures r.1 !in Nodes(s, g) ==>
              && r.1 == |s.ents| && |r.0.ents| == |s.ents| + 1
              && forall x, q, y :: Has(r.0, x, q, y) <==>
                   || Has(s, x, q, y)
                   || (x == r.1 && q == Containers && y == g)
                   || (x == g && q == Contents && y == r.1)
  {
    var found := set n | n in Nodes(s, g) && NodeText(s, n) == value;
    if found != {} then
      var n := Least(found);
      (s, n)
    else
      var r := NewNode(s, value, g);
      assert r.1 !in Nodes(s, g) by {
        assert forall n :: n in Nodes(s, g) ==> n < |s.ents|;
      }
      r
  }

  /** createNode keeps the store built and its node texts distinct. */
  lemma CreateNodeBuilt(s: Store, g: Id, value: string)
    requires Built(s, g)
    ensures Built(CreateNode(s, g, value).0, g)
  {
    var (t, n) := CreateNode(s, g, value);
    if n !in Nodes(s, g) {
      NewNodeWf(s, value, g);
      assert t == NewNode(s, value, g).0;
      forall a, b | a in Nodes(t, g) && b in Nodes(t, g) && NodeText(t, a) == NodeText(t, b)
        ensures a == b
      {
        if a != n && b != n {
          assert a in Nodes(s, g) && b in Nodes(s, g);
        }
      }
      forall x | 0 <= x < |t.ents|
        ensures x == g || x in Nodes(t, g) || (IsEdge(t, x) && t.ents[x].origins != {})
      {
        if x != n && x != g && x !in Nodes(s, g) {
          assert IsEdge(s, x) && s.ents[x].origins != {};
          var o :| o in s.ents[x].origins;
          assert Has(s, x, Origins, o);
          assert Has(t, x, Origins, o);
        }
      }
    }
  }

  // ----- One element of the body -----

  /** The parse state keeps a built store, and the node that starts the current line lies on the graph. */
  ghost predicate StateOk(st: ParseState) {
    && Built(st.store, st.graph)
    && (st.prevNode.Some? ==> st.prevNode.value in Nodes(st.store, st.graph))
  }

  /**
   * A bound on the work left to the tokenizer: two per unread character,
   * plus what a pushed-back token is worth (an end-of-input token counts one,
   * since it is read only once more).
   */
  function Measure(t: Tokenizer): nat
    requires Valid(t)
  {
    2 * (|t.src| - t.pos) + (if !t.pushBack then 0 else if t.previous.value.ty == EOI then 1 else 2)
  }

  /** How one pass of the read loop ends. */
  datatype Outcome =
    | Continue(st: ParseState, t: Tokenizer)
    | Close(st: ParseState, t: Tokenizer)
    | Fail(msg: string)

  /** new Edge(previousNode, edgeName, node) closing the current line's edge, then state "Node". */
  function FinishEdge(st: ParseState, node: Id): (r: Result<ParseState>)
    requires StateOk(st) && node in Nodes(st.store, st.graph)
    ensures r.Ok? <==> st.prevNode.Some?
    ensures r.Ok? ==>
              && StateOk(r.value) && r.value.graph == st.graph && Grows(st.store, r.value.store)
              && r.value.prev == AfterNode && r.value.edgeName == "" && r.value.prevNode.None?
              && Nodes(r.value.store, st.graph) == Nodes(st.store, st.graph)
              && var e := |st.store.ents|;
                 && |r.value.store.ents| == e + 1
                 && IsEdge(r.value.store, e) && r.value.store.ents[e].value == st.edgeName
                 && EdgeOrigin(r.value.store, e) == st.prevNode && EdgeDestination(r.value.store, e) == Some(node)
  {
    assert IsNode(st.store, node);
    match NewEdge(st.store, st.prevNode, st.edgeName, Some(node))
    case Err(m) => Err(m)
    case Ok((t, e)) =>
      EdgeKeepsBuilt(st, node);
      Ok(ParseState(t, st.graph, AfterNode, "", None))
  }

  /** The edge from the previous node to `node` keeps the store built and the node set unchanged. */
  lemma EdgeKeepsBuilt(st: ParseState, node: Id)
    requires StateOk(st) && node in Nodes(st.store, st.graph) && st.prevNode.Some?
    ensures IsNode(st.store, node) && IsNode(st.store, st.prevNode.value)
    ensures var t := AddEdge(st.store, st.prevNode.value, st.edgeName, node).0;
            Built(t, st.graph) && Nodes(t, st.graph) == Nodes(st.store, st.graph)
  {
    var s := st.store;
    var g := st.graph;
    var (t, e) := AddEdge(s, st.prevNode.value, st.edgeName, node);
    AddEdgeWf(s, st.prevNode.value, st.edgeName, node);
    assert Nodes(t, g) == Nodes(s, g) by {
      forall m ensures m in Nodes(t, g) <==> m in Nodes(s, g) {
        assert m in Nodes(t, g) <==> Has(t, g, Contents, m) && IsNode(t, m);
        assert m in Nodes(s, g) <==> Has(s, g, Contents, m) && IsNode(s, m);
      }
    }
    assert Built(t, g) by {
      forall x | 0 <= x < |t.ents|
        ensures x == g || x in Nodes(t, g) || (IsEdge(t, x) && t.ents[x].origins != {})
      {
        if x == e {
          assert Has(t, e, Origins, st.prevNode.value);
        } else if x != g && x !in Nodes(s, g) {
          assert IsEdge(s, x) && s.ents[x].origins != {};
          var o :| o in s.ents[x].origins;
          assert Has(s, x, Origins, o);
          assert Has(t, x, Origins, o);
        }
      }
    }
  }

  /**
   * Store t is s with one more edge, the last entity, labelled `edgeLabel`,
   * from node `from` to the node of g whose text is `text`.
   */
  ghost predicate EdgeAdded(s: Store, t: Store, g: Id, from: Id, edgeLabel: string, text: string)
    requires g < |t.ents|
  {
    && |s.ents| < |t.ents|
    && var e := |t.ents| - 1;
       && IsEdge(t, e) && t.ents[e].value == edgeLabel
       && EdgeOrigin(t, e) == Some(from)
       && EdgeDestination(t, e).Some? && EdgeDestination(t, e).value in Nodes(t, g)
       && NodeText(t, EdgeDestination(t, e).value) == text
  }

  /** A node token: the start of a line (state "EOL") or the end of an edge (state "Arrow"). */
  function PlaceNode(st: ParseState, text: string): (r: Result<ParseState>)
    requires StateOk(st) && (st.prev == AfterEol || st.prev == AfterArrow)
    ensures r.Ok? ==> StateOk(r.value) && r.value.graph == st.graph && Grows(st.store, r.value.store)
    ensures r.Ok? ==> r.value.prev == AfterNode
    ensures r.Ok? ==> exists n :: n in Nodes(r.value.store, st.graph) && NodeText(r.value.store, n) == text
    ensures st.prev == AfterEol ==>
              && r.Ok? && r.value.prevNode.Some? && NodeText(r.value.store, r.value.prevNode.value) == text
              && r.value.edgeName == st.edgeName
    ensures st.prev == AfterArrow ==> (r.Ok? <==> st.prevNode.Some?)
    ensures st.prev == AfterArrow && r.Ok? ==>
              && r.value.prevNode.None? && r.value.edgeName == ""
              && EdgeAdded(st.store, r.value.store, st.graph, st.prevNode.value, st.edgeName, text)
  {
    CreateNodeBuilt(st.store, st.graph, text);
    var (s, node) := CreateNode(st.store, st.graph, text);
    var st' := st.(store := s);
    assert st.prevNode.Some? ==> st.prevNode.value in Nodes(s, st.graph);
    if st.prev == AfterArrow then
      var r := FinishEdge(st', node);
      assert r.Ok? ==> |r.value.store.ents| - 1 == |s.ents| && NodeText(r.value.store, node) == text;
      r
    else
      Ok(st.(store := s, prev := AfterNode, prevNode := Some(node)))
  }

  /** A KEYWORD token ("-"), read in state st; t1 is the tokenizer after it. */
  function DashStep(st: ParseState, tok: Token, t1: Tokenizer, ghost bound: nat): (r: Outcome)
    requires StateOk(st) && Valid(t1) && !t1.pushBack && Measure(t1) + 2 <= bound
    ensures r.Continue? ==>
              && StateOk(r.st) && r.st.graph == st.graph && Grows(st.store, r.st.store)
              && Valid(r.t) && r.t.src == t1.src && r.t.keywords == t1.keywords && Measure(r.t) < bound
              && r.t.hasNext
    ensures !r.Close?
    ensures st.prev == AfterEdge ==>
              && (r.Continue? <==> Next(t1).Ok? && Next(t1).value.0.value == ">")
              && (r.Continue? ==> r.st == st.(prev := AfterArrow))
    ensures st.prev == AfterNode ==>
              (r.Continue? <==> Next(t1).Ok? && (Next(t1).value.0.value == ">" || Next(t1).value.0.ty in {NUMBER, KEYWORD}))
    ensures st.prev == AfterArrow && Next(t1).Ok? ==> (r.Continue? <==> st.prevNode.Some?)
    ensures st.prev == AfterNode && Next(t1).Ok? ==>
              var (tok2, t2) := Next(t1).value;
              && (tok2.value == ">" ==> r.Continue? && r.st.edgeName == "" && r.st.prev == AfterArrow)
              && (tok2.value != ">" && tok2.ty == NUMBER ==>
                    r.Continue? && r.st.edgeName == tok.value + tok2.value && r.st.prev == AfterEdge)
              && (tok2.value != ">" && tok2.ty == KEYWORD ==>
                    r.Continue? && r.st.edgeName == tok.value && r.st.prev == AfterEdge && r.t == PushBack(t2))
    ensures (st.prev == AfterEol || st.prev == AfterArrow) && Next(t1).Ok? ==>
              var (tok2, t2) := Next(t1).value;
              var text := if tok2.ty == NUMBER then tok.value + tok2.value else tok.value;
              && (st.prev == AfterEol ==>
                    r.Continue? && r.st.prevNode.Some? && NodeText(r.st.store, r.st.prevNode.value) == text)
              && (st.prev == AfterArrow && r.Continue? ==>
                    st.prevNode.Some? && EdgeAdded(st.store, r.st.store, st.graph, st.prevNode.value, st.edgeName, text))
              && (r.Continue? ==> (r.t == PushBack(t2) <==> tok2.ty != NUMBER))
  {
    match Next(t1)
    case Err(m) => Fail(m)
    case Ok((tok2, t2)) =>
      match st.prev
      case AfterEdge =>
        if tok2.value == ">" then Continue(st.(prev := AfterArrow), t2)
        else Fail("Invalid graph syntax (3ai)")
      case AfterNode =>
        if tok2.value == ">" then Continue(st.(edgeName := "", prev := AfterArrow), t2)
        else if tok2.ty == NUMBER then Continue(st.(edgeName := tok.value + tok2.value, prev := AfterEdge), t2)
        else if tok2.ty == KEYWORD then Continue(st.(edgeName := tok.value, prev := AfterEdge), PushBack(t2))
        else Fail("Invalid graph syntax (3biv)")
      case _ =>
        if tok2.ty == NUMBER then
          match PlaceNode(st, tok.value + tok2.value)
          case Err(m) => Fail(m)
          case Ok(st') => Continue(st', t2)
        else
          match PlaceNode(st, tok.value)
          case Err(m) => Fail(m)
          case Ok(st') => Continue(st', PushBack(t2))
  }

  /** Any other token: a node, a label, or the node at the end of an edge. */
  function WordStep(st: ParseState, tok: Token): (r: Result<ParseState>)
    requires StateOk(st)
    ensures r.Ok? ==> StateOk(r.value) && r.value.graph == st.graph && Grows(st.store, r.value.store)
    ensures r.Ok? <==> || (st.prevNode.None? && st.prev == AfterEol)
                       || (st.prevNode.Some? && (st.prev == AfterNode || st.prev == AfterArrow))
    ensures st.prevNode.None? && st.prev == AfterEol ==>
              r.Ok? && r.value.prevNode.Some? && NodeText(r.value.store, r.value.prevNode.value) == tok.value
    ensures st.prevNode.Some? && st.prev == AfterNode ==>
              r.Ok? && r.value.store == st.store && r.value.edgeName == tok.value && r.value.prev == AfterEdge
    ensures st.prevNode.Some? && st.prev == AfterArrow ==>
              r.Ok? && EdgeAdded(st.store, r.value.store, st.graph, st.prevNode.value, st.edgeName, tok.value)
  {
    if st.prevNode.None? && st.prev == AfterEol then
      PlaceNode(st, tok.value)
    else if st.prevNode.Some? && st.prev == AfterNode then
      Ok(st.(edgeName := tok.value, prev := AfterEdge))
    else if st.prevNode.Some? && st.prev == AfterArrow then
      PlaceNode(st, tok.value)
    else
      Err("Invalid graph syntax (5d)")
  }

  /**
   * One pass of the read loop: a "}" closes the body, an end of input
   * fails, and every other token moves the parse on while consuming input.
   */
  function Step(st: ParseState, t: Tokenizer): (r: Outcome)
    requires StateOk(st) && Valid(t) && t.hasNext
    ensures r.Continue? ==>
              && StateOk(r.st) && r.st.graph == st.graph && Grows(st.store, r.st.store)
              && Valid(r.t) && r.t.src == t.src && r.t.keywords == t.keywords
              && Measure(r.t) < Measure(t) && r.t.hasNext
    ensures r.Close? ==>
              && r.st == st && Valid(r.t) && r.t.src == t.src && r.t.keywords == t.keywords
              && r.t.previous.Some? && r.t.previous.value.value == "}"
    ensures Next(t).Ok? && Next(t).value.0.ty == EOI ==> r.Fail?
    ensures Next(t).Ok? && Next(t).value.0.value == "}" ==> r.Close?
  {
    match Next(t)
    case Err(m) => Fail(m)
    case Ok((tok, t1)) =>
      if tok.value == "}" then Close(st, t1)
      else if tok.ty == EOI then Fail("Invalid graph syntax (2)")
      else
        assert Measure(t1) + 2 <= Measure(t);
        if tok.ty == KEYWORD then
          if st.prev == AfterEdge || st.prev == AfterNode || st.prev == AfterEol || st.prev == AfterArrow then
            DashStep(st, tok, t1, Measure(t))
          else Fail("Invalid graph syntax (3d)")
        else if tok.ty == EOL then
          Continue(st.(prev := AfterEol, prevNode := None, edgeName := ""), t1)
        else
          match WordStep(st, tok)
          case Err(m) => Fail(m)
          case Ok(st') => Continue(st', t1)
  }

  /** The read loop: runs until a "}" closes the body or an error ends it. */
  function Loop(st: ParseState, t: Tokenizer): (r: Result<(ParseState, Tokenizer)>)
    requires StateOk(st) && Valid(t)
    ensures r.Ok? ==>
              && StateOk(r.value.0) && r.value.0.graph == st.graph && Grows(st.store, r.value.0.store)
              && Valid(r.value.1) && r.value.1.src == t.src
    ensures r.Ok? && t.hasNext ==> r.value.1.previous.Some? && r.value.1.previous.value.value == "}"
    decreases Measure(t)
  {
    if !HasNext(t) then Ok((st, t))
    else
      match Step(st, t)
      case Fail(m) => Err(m)
      case Close(st', t') => Ok((st', t'))
      case Continue(st', t') => Loop(st', t')
  }

  // ----- initializeGraph and read -----

  /** Graph.initializeGraph: the first token names the graph; the end of input, a newline or an error token may not. */
  function InitializeGraph(t: Tokenizer): (r: Result<(ParseState, Tokenizer)>)
    requires Valid(t)
    ensures r.Ok? ==>
              && Next(t).Ok? && Next(t).value.0.ty !in {EOI, EOL, ERROR}
              && StateOk(r.value.0) && r.value.0.store.ents == [Entity(GraphKind, Next(t).value.0.value, {}, {}, {}, {})]
              && r.value.0.graph == 0 && r.value.0.prev == AfterEol && r.value.0.prevNode.None?
              && r.value.1 == Next(t).value.1
    ensures t.hasNext && !t.pushBack && Next(t).Ok? && Next(t).value.0.ty !in {EOI, EOL, ERROR} ==> r.Ok?
  {
    if !HasNext(t) then Err("Unable to read from reader")
    else
      match Next(t)
      case Err(m) => Err(m)
      case Ok((name, t1)) =>
        if name.ty == EOI || name.ty == EOL || name.ty == ERROR then Err("Invalid graph syntax")
        else
          var (s, g) := NewGraph(Empty, name.value);
          assert Wf(Empty);
          assert Built(s, g) by {
            assert Nodes(s, g) == {};
          }
          Ok((ParseState(s, g, AfterEol, "", None), t1))
  }

  /** The checks after the loop: the last token read, pushed back and read again, must be "}". */
  function FinalCheck(st: ParseState, t: Tokenizer): (r: Result<(Store, Id)>)
    requires Valid(t)
    ensures r.Ok? ==> r.value == (st.store, st.graph)
    ensures t.previous.Some? ==> (r.Ok? <==> t.previous.value.value == "}")
  {
    match Next(PushBack(t))
    case Err(m) => Err(m)
    case Ok((last, _)) =>
      if last.value != "}" then Err("Invalid graph syntax (final token not })")
      else Ok((st.store, st.graph))
  }

  /**
   * Graph.read up to the end of its loop: the header, then the body. When
   * it succeeds, the last token it read was a "}".
   */
  function ReadBody(src: string): (r: Result<(ParseState, Tokenizer)>)
    ensures r.Ok? ==>
              && StateOk(r.value.0) && r.value.0.graph == 0
              && NodeText(r.value.0.store, 0) == ReadyState(src, Keywords, 0).tok.value
              && Valid(r.value.1) && r.value.1.previous.Some? && r.value.1.previous.value.value == "}"
  {
    var t0 := Tokenizer(src, Keywords, 0, true, None, false);
    match InitializeGraph(t0)
    case Err(m) => Err(m)
    case Ok((st, t1)) =>
      match Next(t1)
      case Err(m) => Err(m)
      case Ok((brace, t2)) =>
        if brace.value != "{" then Err("Invalid graph syntax")
        else Loop(st, t2)
  }

  /**
   * Graph.read over the characters of the reader. The check after the loop
   * never fails: a read succeeds exactly when its body does.
   */
  function Read(src: string): (r: Result<(Store, Id)>)
    ensures r.Ok? <==> ReadBody(src).Ok?
    ensures r.Ok? ==>
              && Built(r.value.0, r.value.1) && r.value.1 == 0
              && NodeText(r.value.0, 0) == ReadyState(src, Keywords, 0).tok.value
  {
    match ReadBody(src)
    case Err(m) => Err(m)
    case Ok((st, t)) => FinalCheck(st, t)
  }

  /** The first token of the text and the one after it, as the reader sees them. */
  function HeaderTokens(src: string): (r: (Token, Token))
    ensures r.0.ty == EOI ==> r.1 == Token(EOI, "")
  {
    var first := ReadyState(src, Keywords, 0);
    (first.tok, ReadyState(src, Keywords, first.pos).tok)
  }

  /**
   * A read succeeds only when the first token may name a graph (it is not
   * the end of input, a newline or an error token) and the second is "{";
   * the graph is then named by the first token.
   */
  lemma ReadHeader(src: string)
    ensures var (first, second) := HeaderTokens(src);
            Read(src).Ok? ==>
              && first.ty !in {EOI, EOL, ERROR} && second.value == "{"
              && NodeText(Read(src).value.0, 0) == first.value
  {
  }

  /** An empty text, or one that is only blanks and comments, is not a graph. */
  lemma ReadNeedsAName(src: string)
    requires HeaderTokens(src).0.ty == EOI
    ensures Read(src).Err?
  {
    ReadHeader(src);
  }
}
