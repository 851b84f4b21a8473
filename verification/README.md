# Graphs: plex store, tokenizer, graph reader and maze search in Dafny

This project models the core of a small Java library for directed graphs and
the maze solver built on it:

- **Plex** (`plex.dfy`). Every object of the library is a plex: a value plus
  four relation sets (containers, contents, origins, destinations). Here the
  plexes live in an arena `Store` indexed by `Id`. `Link` and `Unlink` are
  the eight `add…`/`remove…` mutators, and each updates both ends of a pair.
  `Mirrored` is the invariant that every pair is recorded at both ends.
- **Graph, Node, Edge** (`graph.dfy`). These are the constructors, queries
  and deletions on top of the store. `Wf` is the shape they keep:
  - a graph contains only nodes;
  - a node is on at most one graph;
  - an edge has one origin node and one destination node, or none of either
    once deleted.
- **Graph.toString** (`render.dfy`). The source walks HashSets in an
  unspecified order, so the order is an explicit parameter.
- **Token** (`token.dfy`): construction, `equals`, `hashCode` (Java `int`
  arithmetic written out) and `toString`.
- **Tokenizer** (`lexer.dfy`, `float_syntax.dfy`):
  - the character state machine of `next()`, one function per state;
  - `validateFloat`;
  - `pushBack`;
  - the part of `Double.parseDouble` and `String.trim` that the tokenizer
    can reach.
- **Graph.read** (`parser.dfy`). The reader's loop is one function per
  scenario of the source: `Step`, `DashStep`, `WordStep`, `PlaceNode` and
  `FinishEdge`, plus `initializeGraph`, `createNode` and the check after the
  loop.
- **Mazes** (`mazes.dfy`): `getStartNode`, `validateGraph` and the
  depth-first `traverseGraph`. The search returns its printed text instead
  of building it in a StringBuilder.

Some design notes:

- Java `null` results become `Option` values.
- Exceptions become `Result.Err` carrying the source's message. The one
  exception thrown after earlier changes have been made is `Node.delete` on
  a node that is on no graph. There `Graphs.DeleteNode` returns the store as
  the source leaves it, with the node's edges already deleted, together with
  the error.
- A HashSet walk becomes a choice of any remaining member (`:|`).
- Where the source keeps the first member it meets, the model takes the
  least id (`Least`). It does so only where at most one member can qualify.

The text `Graph.toString` prints is not the syntax `Graph.read` accepts. An
edge prints as `a -- v --> b`, while the reader expects `a v -> b`, and it
fails on the second dash of `--`. So there is no general print-then-read
round trip, and `RenderGraph` is specified on its own terms: which lines
appear, and that none appears twice. Read-then-print is stated on concrete
texts in `read_cases.dfy`, following the reader token by token:
- `"g {\n a\n}"` reads as one isolated node and prints as `"g {\na\n}"`;
- `"g {\n a x -> b\n}"` reads as two nodes and one edge and prints as
  `"g {\na -- x --> b\n}"`;
- that printed text does not read back.

A general read-then-print theorem is not stated: the printed text depends on
the walk order of every node's edge set, and the reader's result is only
characterised by its contracts.

## Model

| member | source | states |
|---|---|---|
| Plex.Allocate | src/graphs/Plex.java:39-41 | a new plex gets the next id, holds the given value, has four empty relation sets, and leaves every existing pair and the mirror invariant as they were |
| Plex.Link | src/graphs/Plex.java:50-53 | adding a pair records it at both ends, changes no other pair, kind or value, and keeps the mirror invariant |
| Plex.Unlink | src/graphs/Plex.java:62-65 | removing a pair removes it at both ends, changes no other pair, kind or value, and keeps the mirror invariant |
| Plex.LinkSwap | src/graphs/Plex.java:43-53 | this.addContainer(that) has the same effect as that.addContent(this), and likewise for origins and destinations |
| Plex.UnlinkSwap | src/graphs/Plex.java:55-65 | this.removeContainer(that) has the same effect as that.removeContent(this), and likewise for origins and destinations |
| Plex.LinkIdempotent | src/graphs/Plex.java:12-21 | the relations are sets: adding a pair that is already there changes nothing |
| Plex.UnlinkAbsent | src/graphs/Plex.java:110-113 | removing a pair that is not there changes nothing |
| Plex.UnlinkLink | src/graphs/Plex.java:50-65 | a remove… call undoes the matching add… of a pair that was not there: the store is back exactly as before |
| Plex.LinkUnlink | src/graphs/Plex.java:50-65 | an add… call undoes the matching remove… of a pair that was there |
| Plex.UnlinkAll | src/graphs/Edge.java:45-48 | removing each member of a set in turn removes exactly the pairs (a, x) with x in the set, together with their mirrors |
| Plex.Clear | src/graphs/Edge.java:50-53 | the loop over a whole relation set leaves it empty, removes the plex from each former member's mirrored set, and touches nothing else |
| Plex.GetOne | src/graphs/Plex.java:145-149 | null exactly for the empty set, otherwise a member, and the member when there is only one |
| Graphs.NewGraph | src/graphs/Graph.java:22-24 | a new graph has the given name and no nodes, adds no pair, and keeps the store well-formed |
| Graphs.NewNode | src/graphs/Node.java:22-25 | a new node has the given value, is on graph g and among g's nodes, has no edges, and adds only the pair between it and g |
| Graphs.NewNodeWf | src/graphs/Node.java:22-25 | adding a node to a graph keeps every role constraint of the store |
| Graphs.NewEdge | src/graphs/Edge.java:32-38 | a null endpoint fails with "Null nodes"; otherwise the new edge's only origin is `from` and only destination is `to`, it is in from's outgoing and to's incoming edges, and only those four pairs are added |
| Graphs.NewEdgeWf | src/graphs/Edge.java:32-38 | an edge between two nodes keeps every role constraint of the store |
| Graphs.NodesAreContents | src/graphs/Graph.java:51-59 | in a well-formed store getNodes returns the whole contents set: the instanceof filter never drops anything |
| Graphs.NodeOnGraph | src/graphs/Node.java:48-51 | getGraph returns g exactly when the node is among g's nodes |
| Graphs.OutEdgesOriginate | src/graphs/Node.java:58-66 | the node's outgoing edges are exactly the edges whose getOrigin is that node |
| Graphs.InEdgesTerminate | src/graphs/Node.java:73-80 | the node's incoming edges are exactly the edges whose getDestination is that node |
| Graphs.OutEdgeLive | src/graphs/Edge.java:74-85 | an outgoing edge of a node has non-null getOrigin (that node) and getDestination, and its destination is a node |
| Graphs.EdgeGraph | src/graphs/Edge.java:62-67 | the result is a graph that holds the edge's origin, and it is the graph that holds the origin whenever there is one |
| Graphs.DeleteEdge | src/graphs/Edge.java:43-55 | exactly the origin and destination pairs of the edge disappear, at both ends; nothing else changes |
| Graphs.DeleteEdgeWf | src/graphs/Graph.java:42-44 | deleting an edge from a graph keeps the store well-formed |
| Graphs.DeleteEdges | src/graphs/Node.java:33-35 | deleting a set of edges one by one removes exactly the directed pairs that touch any of them |
| Graphs.DetachEdges | src/graphs/Node.java:31-38 | after both edge loops of Node.delete, no directed pair touches an edge that was incident to the node, and nothing else changes |
| Graphs.DeleteNode | src/graphs/Node.java:30-41 | deleting a node removes exactly its incident edges' pairs and its graph membership; a node on no graph fails with NullPointerException after its edges have already been deleted, and the store is left in that state |
| Graphs.DeleteNodeWf | src/graphs/Node.java:30-41 | deleting a node keeps the store well-formed, whether it succeeds or throws after deleting the edges |
| Graphs.WfDeletable | src/graphs/Node.java:58-80 | in a well-formed store the (Edge) casts of getOutpointingEdges and getInpointingEdges succeed |
| Graphs.NodeTextStable | src/graphs/Node.java:86-88 | a node prints as its value alone, so adding or removing pairs never changes its text |
| Graphs.EdgeText | src/graphs/Edge.java:91-93 | an edge prints as " -- ", then its value, then " --> ", nine characters longer than the value |
| Graphs.EdgeTextInjective | src/graphs/Edge.java:91-93 | two edges print alike exactly when their values are equal, so the label can be read back from the text |
| Graphs.DeleteNodeDetaches | src/graphs/Node.java:26-41 | a deleted node has no relations left, is no longer among any graph's nodes, and none of its former edges is recorded anywhere |
| Render.Filter | src/graphs/Graph.java:69-71 | the members of a set in iteration order: each member exactly once, nothing else |
| Render.NodeItems | src/graphs/Graph.java:73-82 | a node with neither outgoing nor incoming edges prints as itself; any other node prints exactly its outgoing edges, each once (none when it only has incoming ones) |
| Render.RenderGraph | src/graphs/Graph.java:65-86 | the text starts with the graph's name and " {\n" and ends with "}" |
| Render.GraphItemsComplete | src/graphs/Graph.java:65-86 | a line is printed for every outgoing edge of every node and for every node with no edges, and for nothing else |
| Render.GraphItemsDistinct | src/graphs/Graph.java:69-83 | no line is printed twice; in particular each edge appears once, under its origin |
| Tokens.NewToken | src/graphs/Token.java:27-32 | a null type or value throws; otherwise the token holds exactly the given type and value |
| Tokens.ToStringRoundTrip | src/graphs/Token.java:77-79 | the `value:TYPE` text determines the token: reading it back at the last ':' gives the same token |
| Tokens.ToStringInjective | src/graphs/Token.java:77-79 | distinct tokens print differently |
| Tokens.StringHashIsPolynomial | src/graphs/Token.java:69-71 | the int hash of the value is the polynomial sum of c·31^k taken modulo 2^32 |
| Tokens.EqualsHash | src/graphs/Token.java:56-71 | tokens equal in type and value have the same hashCode |
| Tokens.HashIgnoresType | src/graphs/Token.java:69-71 | two tokens with the same text hash alike even when their types differ |
| Tokens.EqualsAsWritten | src/graphs/Token.java:56-63 | equals as written: every object equals itself, and what the reference comparison accepts always has equal types and equal values |
| Tokens.EqualsAsWrittenMissesEqualTokens | src/graphs/Token.java:62 | two tokens with the same type and the same characters held in different String objects are not equal as written |
| Tokens.Equals | src/graphs/Token.java:53-63 | the corrected comparison, same type and same characters, is exactly equality of tokens, so it is an equivalence relation |
| FloatSyntax.TrimSpec | src/graphs/Tokenizer.java:103 | String.trim removes only characters up to ' ', only at the two ends, and leaves none at either end |
| FloatSyntax.TrimIdempotent | src/graphs/Tokenizer.java:103 | trimming twice is trimming once |
| FloatSyntax.ParsesTrims | src/graphs/Tokenizer.java:199 | parseDouble accepts a text exactly when its trimmed form is a decimal literal |
| FloatSyntax.DecimalLiteralPieces | src/graphs/Tokenizer.java:216 | a decimal literal is exactly a mantissa (digits, at most one '.', at least one digit), an optional exponent and an optional f/F/d/D suffix |
| Lexer.ValidateFloat | src/graphs/Tokenizer.java:196-237 | the answer is null, the value, or the value plus the character, and never the latter at a newline or at the end of input |
| Lexer.ValidateFloatCases | src/graphs/Tokenizer.java:196-237 | the text grows when the longer text parses or would parse with one more digit; it stops when only the text parses; otherwise null |
| Lexer.ReadyState | src/graphs/Tokenizer.java:70-107 | one call of next() returns the end-of-input token, with empty text, only at the end of the input, and otherwise moves past at least one character |
| Lexer.ScanAtEnd | src/graphs/Tokenizer.java:95-98 | at the end of input, next() returns the end-of-input token and clears hasNext |
| Lexer.ScanNewline | src/graphs/Tokenizer.java:90-92 | a newline is an end-of-line token of its own |
| Lexer.ScanBlank | src/graphs/Tokenizer.java:93-94 | other whitespace is skipped |
| Lexer.ScanSymbol | src/graphs/Tokenizer.java:100-106 | any other single character is a symbol token, or a keyword token when it is a keyword |
| Lexer.ScanIdentifier | src/graphs/Tokenizer.java:108-121 | a name runs as long as identifier parts follow, is a keyword token when it is a keyword, and the character after it is read again |
| Lexer.ScanComment | src/graphs/Tokenizer.java:148-166 | "//" skips everything up to the next newline or end of input, which is then read as the next token |
| Lexer.ScanLoneSlash | src/graphs/Tokenizer.java:148-155 | a '/' not followed by another is a symbol token |
| Lexer.ScanNumber | src/graphs/Tokenizer.java:122-147 | a number text grows while validateFloat allows; it is a NUMBER token exactly when the text parses, a SYMBOL exactly when it is ".", an ERROR otherwise |
| Lexer.NewTokenizer | src/graphs/Tokenizer.java:37-43 | a null reader throws; otherwise the tokenizer starts at the beginning with hasNext set and nothing to push back |
| Lexer.Next | src/graphs/Tokenizer.java:60-69 | a pushed-back token comes back first; next() throws exactly when nothing is pushed back and hasNext is false; otherwise the position advances past the token and hasNext turns false exactly with the end-of-input token |
| Lexer.HasNext | src/graphs/Tokenizer.java:50-52 | when hasNext answers true, next() returns a token; when it answers false and nothing is pushed back, next() throws |
| Lexer.PushBack | src/graphs/Tokenizer.java:185-190 | pushBack before any token does nothing; otherwise it sets pushBack and hasNext |
| Lexer.PushBackReplays | src/graphs/Tokenizer.java:60-64 | next() right after pushBack returns the token just returned, without reading input |
| Lexer.PushBackIdempotent | src/graphs/Tokenizer.java:185-190 | pushing back twice is pushing back once: only one token can be taken back |
| Lexer.AllTokens | src/graphs/Tokenizer.java:60-178 | the tokens of any input end with exactly one end-of-input token, which is the last |
| Parser.CreateNode | src/graphs/Graph.java:327-340 | returns the node of g with the given text when there is one, leaving the store unchanged; otherwise a new node on g with that text |
| Parser.CreateNodeBuilt | src/graphs/Graph.java:327-340 | createNode keeps node texts on the graph distinct and the store well-formed |
| Parser.FinishEdge | src/graphs/Graph.java:194-199 | closing an edge needs a previous node (otherwise new Edge throws); it adds one edge from that node to the given node and leaves the node set alone |
| Parser.PlaceNode | src/graphs/Graph.java:257-278 | a node token starts a line or ends an edge; at line start it becomes the previous node; after an arrow the edge to it is added |
| Parser.DashStep | src/graphs/Graph.java:133-238 | a "-" ends an arrow after an edge; after a node it starts an edge label (negative number), an empty label ("->") or a pushed-back dash, and any other token after it fails (3biv); after an arrow it succeeds exactly when there is a previous node; at line start or after an arrow it is a node, negative when a number follows |
| Parser.WordStep | src/graphs/Graph.java:253-283 | another token is the line's first node, the edge label after a node, or the node at the end of an edge; anything else is a syntax error |
| Parser.Step | src/graphs/Graph.java:121-130 | a "}" ends the loop, end of input is an error, and every other token consumes input |
| Parser.Loop | src/graphs/Graph.java:121-285 | the loop keeps the store built and, when it stops without an error after reading a token, the last token read was "}" |
| Parser.InitializeGraph | src/graphs/Graph.java:303-315 | the first token names a new empty graph unless it is end of input, a newline or an error token |
| Parser.FinalCheck | src/graphs/Graph.java:287-291 | the read succeeds after the loop exactly when the last token read was "}" |
| Parser.Read | src/graphs/Graph.java:102-294 | read succeeds exactly when its loop does (the final check never fails), and then yields a well-formed store whose graph is named by the first token and whose node texts are distinct |
| Parser.ReadHeader | src/graphs/Graph.java:113-119 | a successful read began with a token that may name a graph, followed by "{" |
| Parser.ReadNeedsAName | src/graphs/Graph.java:303-313 | input whose first token is the end of input (empty, or only spaces, tabs and a comment) is not a graph |
| Parser.BuiltEdge | src/graphs/Graph.java:195 | every edge of a read graph runs between two nodes of that graph |
| ReadCases.ReadOne | src/tests/GraphTest.java:196-203 | reading "g {\n a\n}" gives exactly the store holding graph g and its single node a |
| ReadCases.ReadOneShape | src/tests/GraphTest.java:196-203 | the graph read from "g {\n a\n}" has one node, with text "a" and no edges |
| ReadCases.ReadThenRenderOne | src/tests/GraphTest.java:196-203 | reading "g {\n a\n}" and printing the graph gives "g {\na\n}", in every walk order |
| ReadCases.ReadTwo | src/tests/GraphTest.java:70-76 | reading "g {\n a x -> b\n}" gives exactly the store holding graph g, nodes a and b, and the edge x from a to b |
| ReadCases.ReadTwoShape | src/tests/GraphTest.java:70-76 | the graph read from "g {\n a x -> b\n}" has two nodes and one edge labelled "x", leaving a and entering b |
| ReadCases.ReadThenRenderTwo | src/tests/GraphTest.java:70-76 | reading "g {\n a x -> b\n}" and printing the graph gives "g {\na -- x --> b\n}", in every walk order |
| ReadCases.ReadPrintedFails | src/graphs/Graph.java:136-173 | read rejects "g {\na -- x --> b\n}": the first dash after a node becomes the label because another dash follows, and the second dash, read again, is not followed by ">" |
| ReadCases.RenderThenReadFails | src/graphs/Graph.java:65-86 | the text printed for the graph read from "g {\n a x -> b\n}" is rejected by read, in every walk order |
| Mazes.NamedIgnoresCase | src/mazes/Mazes.java:129 | names are compared after lower-casing: "Start", "START" and "start" all name the start node |
| Mazes.GetStartNode | src/mazes/Mazes.java:125-135 | returns a node of g named "start" (any case), and null exactly when there is none |
| Mazes.ValidateGraph | src/mazes/Mazes.java:192-203 | true exactly when g has a node named "start" and a node named "finish" |
| Mazes.PushOne | src/mazes/Mazes.java:108-111 | an edge is recorded as pushed, and goes on top of the stack exactly when it was not pushed before; otherwise the stack is unchanged |
| Mazes.PushOut | src/mazes/Mazes.java:106-112 | the pushed set grows by the node's outgoing edges; the old stack is kept as it was, and exactly those edges not pushed before are put on top of it, each once |
| Mazes.Traverse | src/mazes/Mazes.java:83-114 | every popped edge is reachable from start and none is popped twice, so the loop runs at most once per entity; the result is the popped edges' lines ending with one into "finish", or "No path exists" exactly when no edge reachable from start arrives at "finish" |
| Mazes.NothingReachesFinish | src/mazes/Mazes.java:91-113 | when every pushed edge has had its destination's out-edges pushed and none of them reached "finish", no reachable edge does |
| Mazes.TraverseGraph | src/mazes/Mazes.java:73-116 | with no start node it throws NullPointerException; otherwise it answers "No path exists" exactly when no edge reachable from the start node arrives at "finish", and any other answer is the printed path of reachable edges that ends with an edge into "finish" |

## Left out

- Reader I/O: `BufferedReader`, `mark` and `reset`, and `IOException`. The input is a string read by position. A read past the end gives U+FFFF, as `(char) -1` does. No I/O error can happen.
- `Mazes.main`, `run`, `generateGraph` and `openFile`, and `Graph.print`. These are console, Swing file chooser and file I/O. `traverseGraph`'s printed text is the returned string.
- `Lexer.IsIdentifierStart`, `Lexer.IsIdentifierPart`, `FloatSyntax.IsDigit` and `Mazes.LowerChar` cover ASCII only: letters, `_`, `$`, `0`-`9` and `A`-`Z`. Java's `Character` classes and `toLowerCase` also take in other Unicode letters and digits, which would need the Unicode tables.
- Java `char` is a UTF-16 code unit and Dafny's `char` is a Unicode scalar value. Surrogate code units are therefore not modelled.
- `Double.parseDouble`'s signs, `NaN`, `Infinity` and hexadecimal forms are left out. A token text starts with a digit or '.', so none of them can arise, as the header of `float_syntax.dfy` explains. The numeric value of a double is not modelled, only whether the text parses.
- HashSet iteration order is not modelled.
  - A walk over a set chooses any remaining member.
  - `Plex.GetOne` and `Parser.CreateNode` take the least id.
  - `GetOne` is only used on sets of at most one member in a well-formed store.
  - `createNode` can match at most one node, because node texts on a read graph are distinct.
- `Graphs.DeleteEdge` removes the edge's origins and destinations whatever kind they are. The source casts each one to Node first (src/graphs/Edge.java:45, 50), which throws ClassCastException on a non-node. That cannot happen in a well-formed store, and the model does not represent it.
- `Graphs.EdgeGraph` requires a well-formed store. There the `(Graph)` cast in `Edge.getGraph` (src/graphs/Edge.java:65-66) always succeeds. The ClassCastException it would throw on a node whose container is not a graph is not modelled.
- `Graphs.EdgeGraph`: on a deleted edge, which has no origin, `Edge.getGraph` throws NullPointerException. The model answers `None` instead.
- `Double.parseDouble` is JDK code and is not part of this model. `FloatSyntax.Parses` follows its documented decimal grammar.
- `Plex.Clear` (and so `Graphs.DeleteEdge`) removes every member of the set. The source removes from the set it is iterating over. A second member would throw ConcurrentModificationException, but a well-formed edge has at most one origin and one destination.
- `Token.equals` with an argument that is not a Token (it returns false) is left out: the model compares tokens only.
- The Java object model: reference identity, allocation and the garbage collector.
  - Identity appears only in `Tokens.TokenObject`, for the `equals` finding.
  - `new Edge` allocates its plex before the null check throws. That plex becomes garbage and is not modelled.
- TokenType.java is not part of this model. Its constants are listed in `Tokens.TokenType`, and their `toString` is the constant's name.
- The `default` branch of the tokenizer's switch (the ERROR state) is left out: no transition ever enters that state.
- `Graph.read` on a null reader is left out. The model's reader always has text, and `Lexer.NewTokenizer` models the null check.
- `Lexer.Next`: the model's guard is `hasNext`, as in the source. The model does not state that a tokenizer which has returned end of input only gives the pushed-back end of input token again.
- `Render.RenderGraph`: the contract states the frame of the text, which is the name, " {\n" and the closing "}". `Render.GraphItemsComplete` and `Render.GraphItemsDistinct` state which lines come between. The printed syntax is not the syntax read accepts (see above), so there is no print-then-read lemma beyond the counterexample `ReadCases.RenderThenReadFails`.
- `Parser.Read`: read-then-print is proved only for the two texts in `read_cases.dfy`. A general statement would need an independent description of the graph each text denotes; the contract gives well-formedness, the graph name and distinct node texts.
- `Mazes.Traverse` does not say which edges are popped or in what order, since that depends on HashSet order. It says that every popped edge is reachable and popped at most once, and that the answer is "No path exists" exactly when no reachable edge arrives at "finish".

## Findings

| source | as written | input that shows it | evidently intended | confidence | as-written member | corrected member |
|---|---|---|---|---|---|---|
| src/graphs/Token.java:62 | `this.value == that.value` compares String references | `new Token(NAME, "Bob")` and `new Token(NAME, new String("Bob"))`: same type and same characters, but `equals` is false | the documented "types match and values match", i.e. `value.equals(that.value)`, which `hashCode` (the value's hash) already agrees with | not executed | Tokens.EqualsAsWritten | Tokens.Equals |
