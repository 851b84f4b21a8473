/**
 * Graph.read followed by Graph.toString on the two smallest shapes of
 * input: a graph with one isolated node, and a graph with one labelled
 * edge. Each read is followed token by token: the scans of the tokenizer,
 * then the passes of the read loop, then the store that results, and
 * finally the text that store prints as.
 */
module ReadCases {
  import opened Wrappers
  import opened Tokens
  import opened Lexer
  import opened Plex
  import opened Graphs
  import opened Parser
  import opened Render
  import opened FloatSyntax

  // ----- Scanning helpers -----

  /** A one-letter name followed by a blank or a newline. */
  lemma ScanLetter(src: string, keywords: set<string>, p: nat)
    requires p + 1 < |src| && IsAsciiLetter(src[p]) && (src[p + 1] == ' ' || src[p + 1] == '\n')
    requires [src[p]] !in keywords
    ensures ReadyState(src, keywords, p) == Scanned(Token(NAME, [src[p]]), p + 1, false)
  {
    ScanIdentifier(src, keywords, p);
    assert IdentEnd(src, p + 1) == p + 1;
    assert src[p..p + 1] == [src[p]];
    assert Trim([src[p]]) == [src[p]];
  }

  /** A pass of the read loop that moves on leaves the rest to the next pass. */
  lemma LoopContinues(st: ParseState, t: Tokenizer)
    requires StateOk(st) && Valid(t) && t.hasNext && Step(st, t).Continue?
    ensures Loop(st, t) == Loop(Step(st, t).st, Step(st, t).t)
  {
  }

  /** A pass of the read loop that reads "}" ends the loop. */
  lemma LoopCloses(st: ParseState, t: Tokenizer)
    requires StateOk(st) && Valid(t) && t.hasNext && Step(st, t).Close?
    ensures Loop(st, t) == Ok((Step(st, t).st, Step(st, t).t))
  {
  }

  /** A pass that reads a newline starts a fresh line. */
  lemma StepEol(st: ParseState, t: Tokenizer, t1: Tokenizer)
    requires StateOk(st) && Valid(t) && t.hasNext && Next(t) == Ok((Token(EOL, "\n"), t1))
    ensures Step(st, t) == Continue(st.(prev := AfterEol, prevNode := None, edgeName := ""), t1)
  {
  }

  /** A pass that reads a name hands it to WordStep. */
  lemma StepWord(st: ParseState, t: Tokenizer, name: string, t1: Tokenizer, st': ParseState)
    requires StateOk(st) && Valid(t) && t.hasNext && Next(t) == Ok((Token(NAME, name), t1))
    requires name != "}" && WordStep(st, Token(NAME, name)) == Ok(st')
    ensures Step(st, t) == Continue(st', t1)
  {
    var tok := Token(NAME, name);
    assert tok.value != "}" && tok.ty != EOI && tok.ty != KEYWORD && tok.ty != EOL;
  }

  /** A pass that reads "}" closes the body. */
  lemma StepClose(st: ParseState, t: Tokenizer, t1: Tokenizer)
    requires StateOk(st) && Valid(t) && t.hasNext && Next(t) == Ok((Token(SYMBOL, "}"), t1))
    ensures Step(st, t) == Close(st, t1)
  {
  }

  /** After a label, a dash followed by ">" is the arrow. */
  lemma StepArrow(st: ParseState, t: Tokenizer, t1: Tokenizer, t2: Tokenizer)
    requires StateOk(st) && Valid(t) && t.hasNext && st.prev == AfterEdge
    requires Next(t) == Ok((Token(KEYWORD, "-"), t1)) && Next(t1) == Ok((Token(SYMBOL, ">"), t2))
    ensures Step(st, t) == Continue(st.(prev := AfterArrow), t2)
  {
  }

  /** After a node, a dash followed by another dash makes the first one the label. */
  lemma StepDashLabel(st: ParseState, t: Tokenizer, t1: Tokenizer, t2: Tokenizer)
    requires StateOk(st) && Valid(t) && t.hasNext && st.prev == AfterNode
    requires Next(t) == Ok((Token(KEYWORD, "-"), t1)) && Next(t1) == Ok((Token(KEYWORD, "-"), t2))
    ensures Valid(t2) && Step(st, t) == Continue(st.(edgeName := "-", prev := AfterEdge), PushBack(t2))
  {
  }

  /** After a label, a dash followed by anything but ">" is a syntax error. */
  lemma StepDashFails(st: ParseState, t: Tokenizer, t1: Tokenizer, tok: Token, t2: Tokenizer)
    requires StateOk(st) && Valid(t) && t.hasNext && st.prev == AfterEdge
    requires Next(t) == Ok((Token(KEYWORD, "-"), t1)) && Next(t1) == Ok((tok, t2)) && tok.value != ">"
    ensures Step(st, t).Fail?
  {
  }

  /** A pass of the read loop that fails makes the whole read fail. */
  lemma LoopFails(st: ParseState, t: Tokenizer)
    requires StateOk(st) && Valid(t) && t.hasNext && Step(st, t).Fail?
    ensures Loop(st, t).Err?
  {
  }

  /** A duplicate-free sequence whose only member is x is [x]. */
  lemma SingleMember<T>(xs: seq<T>, x: T)
    requires Distinct(xs) && forall y :: y in xs <==> y == x
    ensures xs == [x]
  {
    DistinctCard(xs);
    assert (set y | y in xs) == {x};
  }

  // ----- The stores the reader builds -----

  /** The store after the header: the graph "g" alone. */
  const Header: Store := Store([Entity(GraphKind, "g", {}, {}, {}, {})])

  /** The graph "g" holding the node "a". */
  const OneStore: Store := Store([Entity(GraphKind, "g", {}, {1}, {}, {}), Entity(NodeKind, "a", {0}, {}, {}, {})])

  /** The graph "g" holding the nodes "a" and "b". */
  const NodesStore: Store := Store([
    Entity(GraphKind, "g", {}, {1, 2}, {}, {}),
    Entity(NodeKind, "a", {0}, {}, {}, {}),
    Entity(NodeKind, "b", {0}, {}, {}, {})])

  /** The graph "g" holding the nodes "a" and "b" and the edge "x" from a to b. */
  const TwoStore: Store := Store([
    Entity(GraphKind, "g", {}, {1, 2}, {}, {}),
    Entity(NodeKind, "a", {0}, {}, {}, {3}),
    Entity(NodeKind, "b", {0}, {}, {3}, {}),
    Entity(EdgeKind, "x", {}, {}, {1}, {2})])

  /** createNode on a graph with no nodes adds the node as entity 1. */
  lemma CreateFirstNode()
    ensures IsGraph(Header, 0) && CreateNode(Header, 0, "a") == (OneStore, 1)
  {
    assert Nodes(Header, 0) == {};
    var (t, n) := Allocate(Header, NodeKind, "a");
    assert Field(t.ents[1], Containers) + {0} == {0};
    var s1 := SetField(t, 1, Containers, {0});
    assert s1 == Store([Header.ents[0], Entity(NodeKind, "a", {0}, {}, {}, {})]);
    assert Field(s1.ents[0], Contents) + {1} == {1};
    assert SetField(s1, 0, Contents, {1}) == OneStore;
  }

  /** createNode with a new text adds the node as entity 2. */
  lemma CreateSecondNode()
    ensures IsGraph(OneStore, 0) && CreateNode(OneStore, 0, "b") == (NodesStore, 2)
  {
    assert Nodes(OneStore, 0) == {1};
    var (t, n) := Allocate(OneStore, NodeKind, "b");
    assert Field(t.ents[2], Containers) + {0} == {0};
    var s1 := SetField(t, 2, Containers, {0});
    assert s1 == Store([OneStore.ents[0], OneStore.ents[1], Entity(NodeKind, "b", {0}, {}, {}, {})]);
    assert Field(s1.ents[0], Contents) + {2} == {1, 2};
    assert SetField(s1, 0, Contents, {1, 2}) == NodesStore;
  }

  /** new Edge(a, "x", b) adds the edge as entity 3. */
  lemma CreateEdge()
    ensures IsNode(NodesStore, 1) && IsNode(NodesStore, 2)
    ensures AddEdge(NodesStore, 1, "x", 2) == (TwoStore, 3)
  {
    var (t, e) := Allocate(NodesStore, EdgeKind, "x");
    assert Field(t.ents[3], Origins) + {1} == {1};
    var s1 := SetField(t, 3, Origins, {1});
    assert Field(s1.ents[1], Destinations) + {3} == {3};
    var t1 := SetField(s1, 1, Destinations, {3});
    assert t1 == Link(t, 3, Origins, 1);
    assert Field(t1.ents[3], Destinations) + {2} == {2};
    var s2 := SetField(t1, 3, Destinations, {2});
    assert Field(s2.ents[2], Origins) + {3} == {3};
    assert SetField(s2, 2, Origins, {3}) == TwoStore;
  }

  // ----- The parse states both reads pass through -----

  /** After the header. */
  const Start: ParseState := ParseState(Header, 0, AfterEol, "", None)
  /** After the node "a" at the start of a line. */
  const AtA: ParseState := ParseState(OneStore, 0, AfterNode, "", Some(1))
  /** After the node "a" and the end of its line. */
  const OneEnd: ParseState := ParseState(OneStore, 0, AfterEol, "", None)
  /** After "a x". */
  const AtLabel: ParseState := ParseState(OneStore, 0, AfterEdge, "x", Some(1))
  /** After "a x ->". */
  const AtArrow: ParseState := ParseState(OneStore, 0, AfterArrow, "x", Some(1))
  /** After "a x -> b". */
  const AtB: ParseState := ParseState(TwoStore, 0, AfterNode, "", None)
  /** After "a x -> b" and the end of its line. */
  const TwoEnd: ParseState := ParseState(TwoStore, 0, AfterEol, "", None)

  lemma StartOk()
    ensures StateOk(Start)
  {
    assert Nodes(Header, 0) == {};
  }

  /** Placing "a" at the start of the first line creates node 1. */
  lemma PlaceA()
    ensures StateOk(Start) && PlaceNode(Start, "a") == Ok(AtA)
  {
    StartOk();
    CreateFirstNode();
  }

  /** The store with both nodes is still one the reader could have built. */
  lemma NodesBuilt()
    ensures Built(NodesStore, 0) && 1 in Nodes(NodesStore, 0) && 2 in Nodes(NodesStore, 0)
  {
    PlaceA();
    CreateSecondNode();
    CreateNodeBuilt(OneStore, 0, "b");
    assert Nodes(NodesStore, 0) == {1, 2};
  }

  /** Closing the edge from a to b creates the edge 3. */
  lemma FinishB()
    ensures StateOk(AtArrow.(store := NodesStore)) && 2 in Nodes(NodesStore, 0)
    ensures FinishEdge(AtArrow.(store := NodesStore), 2) == Ok(AtB)
  {
    NodesBuilt();
    CreateEdge();
    assert NewEdge(NodesStore, Some(1), "x", Some(2)) == Ok((TwoStore, 3));
  }

  /** Placing "b" after the arrow creates node 2 and the edge 3 from a to b. */
  lemma PlaceB()
    ensures StateOk(AtArrow) && PlaceNode(AtArrow, "b") == Ok(AtB)
  {
    PlaceA();
    CreateSecondNode();
    FinishB();
  }

  /** The finished stores are well-formed graphs. */
  lemma OneBuilt()
    ensures Built(OneStore, 0) && Nodes(OneStore, 0) == {1}
  {
    PlaceA();
  }

  lemma TwoBuilt()
    ensures Built(TwoStore, 0) && Nodes(TwoStore, 0) == {1, 2}
  {
    FinishB();
    assert Nodes(TwoStore, 0) == {1, 2};
  }

  // ----- "g {\n a\n}": one isolated node -----

  const One: string := "g {\n a\n}"

  /** The tokenizer on One at `pos`, having just returned `prev`. */
  function At1(pos: nat, prev: Token): Tokenizer {
    Tokenizer(One, Keywords, pos, true, Some(prev), false)
  }

  lemma ScanOneHeader()
    ensures ReadyState(One, Keywords, 0) == Scanned(Token(NAME, "g"), 1, false)
    ensures ReadyState(One, Keywords, 1) == Scanned(Token(SYMBOL, "{"), 3, false)
  {
    assert One[0] == 'g' && One[1] == ' ' && One[2] == '{';
    ScanLetter(One, Keywords, 0);
    ScanBlank(One, Keywords, 1);
    ScanSymbol(One, Keywords, 2);
  }

  lemma ScanOneNode()
    ensures ReadyState(One, Keywords, 3) == Scanned(Token(EOL, "\n"), 4, false)
    ensures ReadyState(One, Keywords, 4) == Scanned(Token(NAME, "a"), 6, false)
  {
    assert One[3] == '\n' && One[4] == ' ' && One[5] == 'a' && One[6] == '\n';
    ScanNewline(One, Keywords, 3);
    ScanBlank(One, Keywords, 4);
    ScanLetter(One, Keywords, 5);
  }

  lemma ScanOneClose()
    ensures ReadyState(One, Keywords, 6) == Scanned(Token(EOL, "\n"), 7, false)
    ensures ReadyState(One, Keywords, 7) == Scanned(Token(SYMBOL, "}"), 8, false)
  {
    assert One[6] == '\n' && One[7] == '}';
    ScanNewline(One, Keywords, 6);
    ScanSymbol(One, Keywords, 7);
  }

  /** The header: "g" names the graph, then "{". */
  lemma HeaderOne()
    ensures InitializeGraph(Tokenizer(One, Keywords, 0, true, None, false)) == Ok((Start, At1(1, Token(NAME, "g"))))
    ensures Next(At1(1, Token(NAME, "g"))) == Ok((Token(SYMBOL, "{"), At1(3, Token(SYMBOL, "{"))))
  {
    ScanOneHeader();
  }

  lemma NextsOneNode()
    ensures Next(At1(3, Token(SYMBOL, "{"))) == Ok((Token(EOL, "\n"), At1(4, Token(EOL, "\n"))))
    ensures Next(At1(4, Token(EOL, "\n"))) == Ok((Token(NAME, "a"), At1(6, Token(NAME, "a"))))
  {
    ScanOneNode();
  }

  lemma NextsOneClose()
    ensures Next(At1(6, Token(NAME, "a"))) == Ok((Token(EOL, "\n"), At1(7, Token(EOL, "\n"))))
    ensures Next(At1(7, Token(EOL, "\n"))) == Ok((Token(SYMBOL, "}"), At1(8, Token(SYMBOL, "}"))))
  {
    ScanOneClose();
  }

  /** The passes of the loop: a newline, the node "a", a newline, then "}". */
  lemma StepsOne()
    ensures StateOk(Start) && StateOk(AtA) && StateOk(OneEnd)
    ensures Step(Start, At1(3, Token(SYMBOL, "{"))) == Continue(Start, At1(4, Token(EOL, "\n")))
    ensures Step(Start, At1(4, Token(EOL, "\n"))) == Continue(AtA, At1(6, Token(NAME, "a")))
    ensures Step(AtA, At1(6, Token(NAME, "a"))) == Continue(OneEnd, At1(7, Token(EOL, "\n")))
    ensures Step(OneEnd, At1(7, Token(EOL, "\n"))) == Close(OneEnd, At1(8, Token(SYMBOL, "}")))
  {
    PlaceA();
    NextsOneNode();
    NextsOneClose();
    StepEol(Start, At1(3, Token(SYMBOL, "{")), At1(4, Token(EOL, "\n")));
    StepWord(Start, At1(4, Token(EOL, "\n")), "a", At1(6, Token(NAME, "a")), AtA);
    StepEol(AtA, At1(6, Token(NAME, "a")), At1(7, Token(EOL, "\n")));
    StepClose(OneEnd, At1(7, Token(EOL, "\n")), At1(8, Token(SYMBOL, "}")));
  }

  lemma ReadBodyOne()
    ensures ReadBody(One) == Ok((OneEnd, At1(8, Token(SYMBOL, "}"))))
  {
    HeaderOne();
    StepsOne();
    LoopContinues(Start, At1(3, Token(SYMBOL, "{")));
    LoopContinues(Start, At1(4, Token(EOL, "\n")));
    LoopContinues(AtA, At1(6, Token(NAME, "a")));
    LoopCloses(OneEnd, At1(7, Token(EOL, "\n")));
  }

  /** Reading "g {\n a\n}" builds the graph g holding the single node a. */
  lemma ReadOne()
    ensures Read(One) == Ok((OneStore, 0))
  {
    ReadBodyOne();
    ScanOneClose();
  }

  /** The graph read from One has exactly one node, with text "a" and no edges. */
  lemma ReadOneShape()
    ensures Read(One).Ok? && Read(One).value.1 == 0
    ensures var (s, g) := Read(One).value;
            && Wf(s) && Nodes(s, g) == {1} && NodeText(s, 1) == "a"
            && OutEdges(s, 1) == {} && InEdges(s, 1) == {}
  {
    ReadOne();
    OneBuilt();
  }

  /** The items of OneStore, in any order that lists its entities: the node alone. */
  lemma ItemsOne(order: seq<Id>)
    requires Enumerates(OneStore, order)
    ensures Wf(OneStore) && IsGraph(OneStore, 0)
    ensures GraphItems(OneStore, 0, order) == [NodeItem(1)]
  {
    OneBuilt();
    GraphItemsDistinct(OneStore, 0, order);
    forall it ensures it in GraphItems(OneStore, 0, order) <==> it == NodeItem(1) {
      GraphItemsComplete(OneStore, 0, order, it);
    }
    SingleMember(GraphItems(OneStore, 0, order), NodeItem(1));
  }

  lemma RenderOne(order: seq<Id>)
    requires Enumerates(OneStore, order)
    ensures Wf(OneStore) && IsGraph(OneStore, 0) && RenderGraph(OneStore, 0, order) == "g {\na\n}"
  {
    ItemsOne(order);
    assert Lines(OneStore, [NodeItem(1)]) == "a\n";
  }

  /**
   * Reading "g {\n a\n}" and printing the result gives "g {\na\n}": the
   * node's line loses its indentation, whatever order the sets are walked in.
   */
  lemma ReadThenRenderOne(order: seq<Id>)
    requires Enumerates(OneStore, order)
    ensures Read(One).Ok?
    ensures var (s, g) := Read(One).value;
            Wf(s) && IsGraph(s, g) && RenderGraph(s, g, order) == "g {\na\n}"
  {
    ReadOne();
    RenderOne(order);
  }

  // ----- "g {\n a x -> b\n}": one labelled edge -----

  const Two: string := "g {\n a x -> b\n}"

  /** The tokenizer on Two at `pos`, having just returned `prev`. */
  function At2(pos: nat, prev: Token): Tokenizer {
    Tokenizer(Two, Keywords, pos, true, Some(prev), false)
  }

  lemma ScanTwoHeader()
    ensures ReadyState(Two, Keywords, 0) == Scanned(Token(NAME, "g"), 1, false)
    ensures ReadyState(Two, Keywords, 1) == Scanned(Token(SYMBOL, "{"), 3, false)
  {
    assert Two[0] == 'g' && Two[1] == ' ' && Two[2] == '{';
    ScanLetter(Two, Keywords, 0);
    ScanBlank(Two, Keywords, 1);
    ScanSymbol(Two, Keywords, 2);
  }

  lemma ScanTwoOrigin()
    ensures ReadyState(Two, Keywords, 3) == Scanned(Token(EOL, "\n"), 4, false)
    ensures ReadyState(Two, Keywords, 4) == Scanned(Token(NAME, "a"), 6, false)
  {
    assert Two[3] == '\n' && Two[4] == ' ' && Two[5] == 'a' && Two[6] == ' ';
    ScanNewline(Two, Keywords, 3);
    ScanBlank(Two, Keywords, 4);
    ScanLetter(Two, Keywords, 5);
  }

  lemma ScanTwoLabel()
    ensures ReadyState(Two, Keywords, 6) == Scanned(Token(NAME, "x"), 8, false)
    ensures ReadyState(Two, Keywords, 8) == Scanned(Token(KEYWORD, "-"), 10, false)
  {
    assert Two[6] == ' ' && Two[7] == 'x' && Two[8] == ' ' && Two[9] == '-';
    ScanBlank(Two, Keywords, 6);
    ScanLetter(Two, Keywords, 7);
    ScanBlank(Two, Keywords, 8);
    ScanSymbol(Two, Keywords, 9);
  }

  lemma ScanTwoArrow()
    ensures ReadyState(Two, Keywords, 10) == Scanned(Token(SYMBOL, ">"), 11, false)
    ensures ReadyState(Two, Keywords, 11) == Scanned(Token(NAME, "b"), 13, false)
  {
    assert Two[10] == '>' && Two[11] == ' ' && Two[12] == 'b' && Two[13] == '\n';
    ScanSymbol(Two, Keywords, 10);
    ScanBlank(Two, Keywords, 11);
    ScanLetter(Two, Keywords, 12);
  }

  lemma ScanTwoClose()
    ensures ReadyState(Two, Keywords, 13) == Scanned(Token(EOL, "\n"), 14, false)
    ensures ReadyState(Two, Keywords, 14) == Scanned(Token(SYMBOL, "}"), 15, false)
  {
    assert Two[13] == '\n' && Two[14] == '}';
    ScanNewline(Two, Keywords, 13);
    ScanSymbol(Two, Keywords, 14);
  }

  lemma HeaderTwo()
    ensures InitializeGraph(Tokenizer(Two, Keywords, 0, true, None, false)) == Ok((Start, At2(1, Token(NAME, "g"))))
    ensures Next(At2(1, Token(NAME, "g"))) == Ok((Token(SYMBOL, "{"), At2(3, Token(SYMBOL, "{"))))
  {
    ScanTwoHeader();
  }

  lemma NextsTwoOrigin()
    ensures Next(At2(3, Token(SYMBOL, "{"))) == Ok((Token(EOL, "\n"), At2(4, Token(EOL, "\n"))))
    ensures Next(At2(4, Token(EOL, "\n"))) == Ok((Token(NAME, "a"), At2(6, Token(NAME, "a"))))
  {
    ScanTwoOrigin();
  }

  lemma NextsTwoLabel()
    ensures Next(At2(6, Token(NAME, "a"))) == Ok((Token(NAME, "x"), At2(8, Token(NAME, "x"))))
    ensures Next(At2(8, Token(NAME, "x"))) == Ok((Token(KEYWORD, "-"), At2(10, Token(KEYWORD, "-"))))
  {
    ScanTwoLabel();
  }

  lemma NextsTwoArrow()
    ensures Next(At2(10, Token(KEYWORD, "-"))) == Ok((Token(SYMBOL, ">"), At2(11, Token(SYMBOL, ">"))))
    ensures Next(At2(11, Token(SYMBOL, ">"))) == Ok((Token(NAME, "b"), At2(13, Token(NAME, "b"))))
  {
    ScanTwoArrow();
  }

  lemma NextsTwoClose()
    ensures Next(At2(13, Token(NAME, "b"))) == Ok((Token(EOL, "\n"), At2(14, Token(EOL, "\n"))))
    ensures Next(At2(14, Token(EOL, "\n"))) == Ok((Token(SYMBOL, "}"), At2(15, Token(SYMBOL, "}"))))
  {
    ScanTwoClose();
  }

  /** The passes up to the origin: a newline, then the node "a". */
  lemma StepsTwoOrigin()
    ensures StateOk(Start)
    ensures Step(Start, At2(3, Token(SYMBOL, "{"))) == Continue(Start, At2(4, Token(EOL, "\n")))
    ensures Step(Start, At2(4, Token(EOL, "\n"))) == Continue(AtA, At2(6, Token(NAME, "a")))
  {
    PlaceA();
    NextsTwoOrigin();
    StepEol(Start, At2(3, Token(SYMBOL, "{")), At2(4, Token(EOL, "\n")));
    StepWord(Start, At2(4, Token(EOL, "\n")), "a", At2(6, Token(NAME, "a")), AtA);
  }

  /** After the node "a", the name "x" is the label. */
  lemma StepTwoLabel()
    ensures StateOk(AtA)
    ensures Step(AtA, At2(6, Token(NAME, "a"))) == Continue(AtLabel, At2(8, Token(NAME, "x")))
  {
    PlaceA();
    NextsTwoLabel();
    StepWord(AtA, At2(6, Token(NAME, "a")), "x", At2(8, Token(NAME, "x")), AtLabel);
  }

  /** After the label, the dash and ">" make the arrow. */
  lemma StepTwoArrow()
    ensures StateOk(AtLabel)
    ensures Step(AtLabel, At2(8, Token(NAME, "x"))) == Continue(AtArrow, At2(11, Token(SYMBOL, ">")))
  {
    PlaceA();
    NextsTwoLabel();
    NextsTwoArrow();
    StepArrow(AtLabel, At2(8, Token(NAME, "x")), At2(10, Token(KEYWORD, "-")), At2(11, Token(SYMBOL, ">")));
  }

  lemma WordB()
    ensures StateOk(AtArrow) && WordStep(AtArrow, Token(NAME, "b")) == Ok(AtB)
  {
    PlaceB();
  }

  /** The node "b" after the arrow closes the edge. */
  lemma StepTwoDestination()
    ensures StateOk(AtArrow)
    ensures Step(AtArrow, At2(11, Token(SYMBOL, ">"))) == Continue(AtB, At2(13, Token(NAME, "b")))
  {
    WordB();
    NextsTwoArrow();
    StepWord(AtArrow, At2(11, Token(SYMBOL, ">")), "b", At2(13, Token(NAME, "b")), AtB);
  }

  /** A newline, then "}". */
  lemma StepsTwoClose()
    ensures StateOk(AtB) && StateOk(TwoEnd)
    ensures Step(AtB, At2(13, Token(NAME, "b"))) == Continue(TwoEnd, At2(14, Token(EOL, "\n")))
    ensures Step(TwoEnd, At2(14, Token(EOL, "\n"))) == Close(TwoEnd, At2(15, Token(SYMBOL, "}")))
  {
    TwoBuilt();
    NextsTwoClose();
    StepEol(AtB, At2(13, Token(NAME, "b")), At2(14, Token(EOL, "\n")));
    StepClose(TwoEnd, At2(14, Token(EOL, "\n")), At2(15, Token(SYMBOL, "}")));
  }

  lemma ReadBodyTwo()
    ensures ReadBody(Two) == Ok((TwoEnd, At2(15, Token(SYMBOL, "}"))))
  {
    HeaderTwo();
    StepsTwoOrigin();
    StepTwoLabel();
    StepTwoArrow();
    StepTwoDestination();
    StepsTwoClose();
    LoopContinues(Start, At2(3, Token(SYMBOL, "{")));
    LoopContinues(Start, At2(4, Token(EOL, "\n")));
    LoopContinues(AtA, At2(6, Token(NAME, "a")));
    LoopContinues(AtLabel, At2(8, Token(NAME, "x")));
    LoopContinues(AtArrow, At2(11, Token(SYMBOL, ">")));
    LoopContinues(AtB, At2(13, Token(NAME, "b")));
    LoopCloses(TwoEnd, At2(14, Token(EOL, "\n")));
  }

  /** Reading "g {\n a x -> b\n}" builds the graph g with nodes a and b and the edge x from a to b. */
  lemma ReadTwo()
    ensures Read(Two) == Ok((TwoStore, 0))
  {
    ReadBodyTwo();
    ScanTwoClose();
  }

  /** TwoStore has two nodes, and one edge labelled "x" leaving a and entering b. */
  lemma TwoShape()
    ensures Wf(TwoStore) && Nodes(TwoStore, 0) == {1, 2}
    ensures NodeText(TwoStore, 1) == "a" && NodeText(TwoStore, 2) == "b"
    ensures OutEdges(TwoStore, 1) == {3} && InEdges(TwoStore, 2) == {3}
    ensures OutEdges(TwoStore, 2) == {} && InEdges(TwoStore, 1) == {}
    ensures IsEdge(TwoStore, 3) && TwoStore.ents[3].value == "x"
    ensures EdgeOrigin(TwoStore, 3) == Some(1) && EdgeDestination(TwoStore, 3) == Some(2)
  {
    TwoBuilt();
  }

  /** The graph read from Two: two nodes, and one edge labelled "x" leaving a and entering b. */
  lemma ReadTwoShape()
    ensures Read(Two).Ok? && Read(Two).value.1 == 0
    ensures var (s, g) := Read(Two).value;
            && Wf(s) && Nodes(s, g) == {1, 2} && NodeText(s, 1) == "a" && NodeText(s, 2) == "b"
            && OutEdges(s, 1) == {3} && InEdges(s, 2) == {3} && OutEdges(s, 2) == {} && InEdges(s, 1) == {}
            && IsEdge(s, 3) && s.ents[3].value == "x"
            && EdgeOrigin(s, 3) == Some(1) && EdgeDestination(s, 3) == Some(2)
  {
    ReadTwo();
    TwoShape();
  }

  /** An item is printed for TwoStore exactly when it is the edge. */
  lemma ItemTwo(order: seq<Id>, it: Item)
    requires Enumerates(TwoStore, order)
    ensures Wf(TwoStore) && IsGraph(TwoStore, 0)
    ensures it in GraphItems(TwoStore, 0, order) <==> it == EdgeItem(3)
  {
    TwoShape();
    GraphItemsComplete(TwoStore, 0, order, it);
    match it
    case NodeItem(n) =>
      if n in Nodes(TwoStore, 0) {
        assert !Isolated(TwoStore, n);
      }
    case EdgeItem(e) =>
      if e == 3 {
        assert 1 in Nodes(TwoStore, 0) && e in OutEdges(TwoStore, 1);
      }
  }

  /** The items of TwoStore, in any order that lists its entities: the edge alone. */
  lemma ItemsTwo(order: seq<Id>)
    requires Enumerates(TwoStore, order)
    ensures Wf(TwoStore) && IsGraph(TwoStore, 0)
    ensures GraphItems(TwoStore, 0, order) == [EdgeItem(3)]
  {
    TwoBuilt();
    GraphItemsDistinct(TwoStore, 0, order);
    forall it ensures it in GraphItems(TwoStore, 0, order) <==> it == EdgeItem(3) {
      ItemTwo(order, it);
    }
    SingleMember(GraphItems(TwoStore, 0, order), EdgeItem(3));
  }

  /** The line of the edge. */
  lemma LineTwo()
    ensures Printable(TwoStore, EdgeItem(3)) && Lines(TwoStore, [EdgeItem(3)]) == "a -- x --> b\n"
  {
    TwoShape();
    assert EdgeLine(TwoStore, 3) == "a -- x --> b\n";
  }

  lemma TextTwo()
    ensures "g" + " {\n" + "a -- x --> b\n" + "}" == "g {\na -- x --> b\n}"
  {
  }

  lemma RenderTwo(order: seq<Id>)
    requires Enumerates(TwoStore, order)
    ensures Wf(TwoStore) && IsGraph(TwoStore, 0) && RenderGraph(TwoStore, 0, order) == "g {\na -- x --> b\n}"
  {
    ItemsTwo(order);
    LineTwo();
    TextTwo();
  }

  /**
   * Reading "g {\n a x -> b\n}" and printing the result gives
   * "g {\na -- x --> b\n}", whatever order the sets are walked in: the
   * arrow is printed in the form the reader does not take back.
   */
  lemma ReadThenRenderTwo(order: seq<Id>)
    requires Enumerates(TwoStore, order)
    ensures Read(Two).Ok?
    ensures var (s, g) := Read(Two).value;
            Wf(s) && IsGraph(s, g) && RenderGraph(s, g, order) == "g {\na -- x --> b\n}"
  {
    ReadTwo();
    RenderTwo(order);
  }

  // ----- The printed text of Two does not read back -----

  const Printed: string := "g {\na -- x --> b\n}"

  /** The tokenizer on Printed at `pos`, having just returned `prev`. */
  function At3(pos: nat, prev: Token): Tokenizer {
    Tokenizer(Printed, Keywords, pos, true, Some(prev), false)
  }

  lemma ScanPrintedName()
    ensures ReadyState(Printed, Keywords, 0) == Scanned(Token(NAME, "g"), 1, false)
  {
    assert Printed[0] == 'g' && Printed[1] == ' ';
    ScanLetter(Printed, Keywords, 0);
  }

  lemma ScanPrintedBrace()
    ensures ReadyState(Printed, Keywords, 1) == Scanned(Token(SYMBOL, "{"), 3, false)
  {
    assert Printed[1] == ' ' && Printed[2] == '{';
    ScanBlank(Printed, Keywords, 1);
    ScanSymbol(Printed, Keywords, 2);
  }

  lemma ScanPrintedOrigin()
    ensures ReadyState(Printed, Keywords, 3) == Scanned(Token(EOL, "\n"), 4, false)
    ensures ReadyState(Printed, Keywords, 4) == Scanned(Token(NAME, "a"), 5, false)
  {
    assert Printed[3] == '\n' && Printed[4] == 'a' && Printed[5] == ' ';
    ScanNewline(Printed, Keywords, 3);
    ScanLetter(Printed, Keywords, 4);
  }

  lemma ScanPrintedDashes()
    ensures ReadyState(Printed, Keywords, 5) == Scanned(Token(KEYWORD, "-"), 7, false)
    ensures ReadyState(Printed, Keywords, 7) == Scanned(Token(KEYWORD, "-"), 8, false)
  {
    assert Printed[5] == ' ' && Printed[6] == '-' && Printed[7] == '-';
    ScanBlank(Printed, Keywords, 5);
    ScanSymbol(Printed, Keywords, 6);
    ScanSymbol(Printed, Keywords, 7);
  }

  lemma ScanPrintedLabel()
    ensures ReadyState(Printed, Keywords, 8) == Scanned(Token(NAME, "x"), 10, false)
  {
    assert Printed[8] == ' ' && Printed[9] == 'x' && Printed[10] == ' ';
    ScanBlank(Printed, Keywords, 8);
    ScanLetter(Printed, Keywords, 9);
  }

  lemma HeaderPrinted()
    ensures InitializeGraph(Tokenizer(Printed, Keywords, 0, true, None, false)) == Ok((Start, At3(1, Token(NAME, "g"))))
    ensures Next(At3(1, Token(NAME, "g"))) == Ok((Token(SYMBOL, "{"), At3(3, Token(SYMBOL, "{"))))
  {
    ScanPrintedName();
    ScanPrintedBrace();
  }

  lemma NextsPrinted()
    ensures Next(At3(3, Token(SYMBOL, "{"))) == Ok((Token(EOL, "\n"), At3(4, Token(EOL, "\n"))))
    ensures Next(At3(4, Token(EOL, "\n"))) == Ok((Token(NAME, "a"), At3(5, Token(NAME, "a"))))
    ensures Next(At3(5, Token(NAME, "a"))) == Ok((Token(KEYWORD, "-"), At3(7, Token(KEYWORD, "-"))))
    ensures Next(At3(7, Token(KEYWORD, "-"))) == Ok((Token(KEYWORD, "-"), At3(8, Token(KEYWORD, "-"))))
    ensures Next(At3(8, Token(KEYWORD, "-"))) == Ok((Token(NAME, "x"), At3(10, Token(NAME, "x"))))
  {
    ScanPrintedOrigin();
    ScanPrintedDashes();
    ScanPrintedLabel();
  }

  /**
   * The passes over "a -- x": the node, then the first dash taken as the
   * label because another dash follows, then the second dash, read again,
   * which fails because "x" is not ">".
   */
  lemma StepsPrinted()
    ensures StateOk(Start) && StateOk(AtA)
    ensures Step(Start, At3(3, Token(SYMBOL, "{"))) == Continue(Start, At3(4, Token(EOL, "\n")))
    ensures Step(Start, At3(4, Token(EOL, "\n"))) == Continue(AtA, At3(5, Token(NAME, "a")))
    ensures Step(AtA, At3(5, Token(NAME, "a"))) ==
              Continue(AtA.(edgeName := "-", prev := AfterEdge), PushBack(At3(8, Token(KEYWORD, "-"))))
    ensures Step(AtA.(edgeName := "-", prev := AfterEdge), PushBack(At3(8, Token(KEYWORD, "-")))).Fail?
  {
    PlaceA();
    NextsPrinted();
    StepEol(Start, At3(3, Token(SYMBOL, "{")), At3(4, Token(EOL, "\n")));
    StepWord(Start, At3(4, Token(EOL, "\n")), "a", At3(5, Token(NAME, "a")), AtA);
    StepDashLabel(AtA, At3(5, Token(NAME, "a")), At3(7, Token(KEYWORD, "-")), At3(8, Token(KEYWORD, "-")));
    StepDashFails(AtA.(edgeName := "-", prev := AfterEdge), PushBack(At3(8, Token(KEYWORD, "-"))),
      At3(8, Token(KEYWORD, "-")), Token(NAME, "x"), At3(10, Token(NAME, "x")));
  }

  /** Graph.read rejects the text Graph.toString printed for Two. */
  lemma ReadPrintedFails()
    ensures Read(Printed).Err?
  {
    HeaderPrinted();
    StepsPrinted();
    LoopContinues(Start, At3(3, Token(SYMBOL, "{")));
    LoopContinues(Start, At3(4, Token(EOL, "\n")));
    LoopContinues(AtA, At3(5, Token(NAME, "a")));
    LoopFails(AtA.(edgeName := "-", prev := AfterEdge), PushBack(At3(8, Token(KEYWORD, "-"))));
  }

  /**
   * Print-then-read is not the identity: the text Graph.toString gives for
   * the graph read from Two, in any order, is one Graph.read rejects.
   */
  lemma RenderThenReadFails(order: seq<Id>)
    requires Enumerates(TwoStore, order)
    ensures Wf(TwoStore) && IsGraph(TwoStore, 0) && Read(RenderGraph(TwoStore, 0, order)).Err?
  {
    RenderTwo(order);
    ReadPrintedFails();
  }
}
