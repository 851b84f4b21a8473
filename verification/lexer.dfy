/**
 * The tokenizer: a state machine over the characters of the input that
 * returns one token per call, with a one-token pushback.
 *
 * The reader becomes the input string and a position in it. Reading at the
 * end yields Java's `(char) -1`, the character U+FFFF, and leaves the
 * position where it is; `reader.reset()` after `reader.mark()` means "the
 * character just read is read again", so the position is not advanced.
 */
module Lexer {
  import opened Wrappers
  import opened Tokens
  import opened FloatSyntax

  /** `(char) -1`: what a read at the end of the input turns into. */
  const EofChar: char := '\U{FFFF}'

  // ----- Character classes (exact on ASCII, see README) -----

  predicate IsAsciiLetter(c: char) {
    ('a' <= c <= 'z') || ('A' <= c <= 'Z')
  }

  /** Character.isJavaIdentifierStart. */
  predicate IsIdentifierStart(c: char) {
    IsAsciiLetter(c) || c == '_' || c == '$'
  }

  /** Character.isIdentifierIgnorable: the control characters an identifier may contain. */
  predicate IsIdentifierIgnorable(c: char) {
    var n := c as int;
    (0 <= n <= 8) || (0x0E <= n <= 0x1B) || (0x7F <= n <= 0x9F)
  }

  /** Character.isJavaIdentifierPart. */
  predicate IsIdentifierPart(c: char) {
    IsIdentifierStart(c) || IsDigit(c) || IsIdentifierIgnorable(c)
  }

  /** Character.isWhitespace. */
  predicate IsWhitespace(c: char) {
    var n := c as int;
    || (0x09 <= n <= 0x0D) || (0x1C <= n <= 0x20)
    || n == 0x1680 || (0x2000 <= n <= 0x2006) || (0x2008 <= n <= 0x200A)
    || n == 0x2028 || n == 0x2029 || n == 0x205F || n == 0x3000
  }

  // ----- validateFloat -----

  /**
   * Whether a number text may take in one more character: `Some(value + [ch])`
   * when it can (now or once a digit follows), `Some(value)` when value is a
   * complete number and stops here, `None` when value is not a number.
   */
  function ValidateFloat(value: string, ch: char): (r: Option<string>)
    ensures r.Some? ==> r.value == value || r.value == value + [ch]
    ensures r == Some(value + [ch]) ==> ch != EofChar && ch != '\n'
  {
    assert |value + [ch]| != |value|;
    if ch == EofChar || ch == '\n' then
      if Parses(value) then Some(value) else None
    else
      var extended := value + [ch];
      if Parses(extended) then Some(extended)
      else if Parses(extended + "1") then Some(extended)
      else if Parses(value) then Some(value)
      else None
  }

  /**
   * The three answers of validateFloat by what Double.parseDouble says: the
   * text grows when the longer text parses or would parse once a digit
   * follows; it is complete when only the text itself parses; it is no
   * number when neither does.
   */
  lemma ValidateFloatCases(value: string, ch: char)
    ensures var r := ValidateFloat(value, ch);
            var grows := ch != EofChar && ch != '\n' && (Parses(value + [ch]) || Parses(value + [ch] + "1"));
            && (r == Some(value + [ch]) <==> grows)
            && (r == Some(value) <==> Parses(value) && !grows)
            && (r.None? <==> !Parses(value) && !grows)
  {
    assert |value + [ch]| != |value|;
  }

  // ----- One call of next() -----

  /** What a scan yields: the token, the position after it, and whether it was the end of input. */
  datatype Scanned = Scanned(tok: Token, pos: nat, eoi: bool)

  /** The character the reader yields at `pos`. */
  function CharAt(src: string, pos: nat): char {
    if pos < |src| then src[pos] else EofChar
  }

  /** The position after reading at `pos`: one further, except at the end. */
  function After(src: string, pos: nat): nat {
    if pos < |src| then pos + 1 else pos
  }

  function KeywordOr(keywords: set<string>, value: string, otherwise: TokenType): TokenType {
    if value in keywords then KEYWORD else otherwise
  }

  /**
   * The loop of Tokenizer.next, one function per state of its switch. Each
   * reads the character at `pos`; `value` is the text collected so far.
   * READY starts afresh from the character it reads.
   */
  function ReadyState(src: string, keywords: set<string>, pos: nat): (r: Scanned)
    requires pos <= |src|
    ensures pos <= r.pos <= |src| && (!r.eoi ==> r.pos > pos)
    ensures r.eoi <==> r.tok.ty == EOI
    ensures r.eoi ==> r.pos == |src| && r.tok == Token(EOI, "")
    decreases |src| - pos, 0
  {
    var ch := CharAt(src, pos);
    var next := After(src, pos);
    var v := [ch];
    if IsIdentifierStart(ch) then VariableState(src, keywords, next, v)
    else if IsDigit(ch) || ch == '.' then NumberState(src, keywords, next, v)
    else if ch == '/' then CommentState(src, keywords, next, v)
    else if ch == '\n' then Scanned(Token(EOL, "\n"), next, false)
    else if IsWhitespace(ch) then ReadyState(src, keywords, next)
    else if pos == |src| then Scanned(Token(EOI, ""), pos, true)
    else Scanned(Token(KeywordOr(keywords, v, SYMBOL), Trim(v)), next, false)
  }

  /** IN_VARIABLE: identifier parts are taken in; the first other character ends the name and is read again. */
  function VariableState(src: string, keywords: set<string>, pos: nat, value: string): (r: Scanned)
    requires pos <= |src|
    ensures pos <= r.pos <= |src| && !r.eoi && r.tok.ty != EOI
    decreases |src| - pos, 0
  {
    var ch := CharAt(src, pos);
    if IsIdentifierPart(ch) then VariableState(src, keywords, After(src, pos), value + [ch])
    else Scanned(Token(KeywordOr(keywords, value, NAME), Trim(value)), pos, false)
  }

  /** IN_NUMBER: validateFloat decides whether the character is taken in or ends the number. */
  function NumberState(src: string, keywords: set<string>, pos: nat, value: string): (r: Scanned)
    requires pos <= |src|
    ensures pos <= r.pos <= |src| && !r.eoi && r.tok.ty != EOI
    decreases |src| - pos, 0
  {
    var ch := CharAt(src, pos);
    var output := ValidateFloat(value, ch);
    if output.None? then
      if value == "." then Scanned(Token(SYMBOL, Trim(value)), pos, false)
      else Scanned(Token(ERROR, Trim(value)), pos, false)
    else if output.value == value then Scanned(Token(NUMBER, Trim(value)), pos, false)
    else NumberState(src, keywords, After(src, pos), value + [ch])
  }

  /**
   * IN_COMMENTS: a second '/' opens a comment, anything else makes the
   * first one a symbol; a comment runs up to a newline or U+FFFF, which is
   * read again in READY.
   */
  function CommentState(src: string, keywords: set<string>, pos: nat, value: string): (r: Scanned)
    requires pos <= |src|
    ensures pos <= r.pos <= |src|
    ensures r.eoi <==> r.tok.ty == EOI
    ensures r.eoi ==> r.pos == |src| && r.tok == Token(EOI, "")
    decreases |src| - pos, 1
  {
    var ch := CharAt(src, pos);
    var next := After(src, pos);
    if |value| == 1 then
      if ch == '/' then CommentState(src, keywords, next, value + [ch])
      else Scanned(Token(SYMBOL, Trim(value)), pos, false)
    else if ch == '\n' || ch == EofChar then ReadyState(src, keywords, pos)
    else CommentState(src, keywords, next, value + [ch])
  }

  // ----- One scan from READY, by the character it starts at -----

  /** The end of input: the end-of-input token, and hasNext turns false. */
  lemma ScanAtEnd(src: string, keywords: set<string>)
    ensures ReadyState(src, keywords, |src|) == Scanned(Token(EOI, ""), |src|, true)
  {
  }

  /** A newline is an end-of-line token of its own. */
  lemma ScanNewline(src: string, keywords: set<string>, p: nat)
    requires p < |src| && src[p] == '\n'
    ensures ReadyState(src, keywords, p) == Scanned(Token(EOL, "\n"), p + 1, false)
  {
  }

  /** Other whitespace is skipped. */
  lemma ScanBlank(src: string, keywords: set<string>, p: nat)
    requires p < |src| && IsWhitespace(src[p]) && src[p] != '\n'
    ensures ReadyState(src, keywords, p) == ReadyState(src, keywords, p + 1)
  {
  }

  /** A character that starts nothing else is a symbol, or a keyword when it is one. */
  lemma ScanSymbol(src: string, keywords: set<string>, p: nat)
    requires p < |src|
    requires var c := src[p]; !IsIdentifierStart(c) && !IsMantissaChar(c) && c != '/' && !IsWhitespace(c)
    ensures ReadyState(src, keywords, p) ==
              Scanned(Token(KeywordOr(keywords, [src[p]], SYMBOL), Trim([src[p]])), p + 1, false)
  {
  }

  /** The first position at or after i whose character is not an identifier part; the end counts as one. */
  function IdentEnd(src: string, i: nat): (r: nat)
    requires i <= |src|
    ensures i <= r <= |src|
    ensures forall k :: i <= k < r ==> IsIdentifierPart(src[k])
    ensures !IsIdentifierPart(CharAt(src, r))
    decreases |src| - i
  {
    if i == |src| || !IsIdentifierPart(src[i]) then i else IdentEnd(src, i + 1)
  }

  lemma {:induction false} ScanIdentifierFrom(src: string, keywords: set<string>, p: nat, q: nat)
    requires p < |src| && p < q <= IdentEnd(src, p + 1)
    ensures var e := IdentEnd(src, p + 1);
            VariableState(src, keywords, q, src[p..q]) ==
              Scanned(Token(KeywordOr(keywords, src[p..e], NAME), Trim(src[p..e])), e, false)
    decreases |src| - q
  {
    if q < IdentEnd(src, p + 1) {
      assert src[p..q] + [src[q]] == src[p..q + 1];
      ScanIdentifierFrom(src, keywords, p, q + 1);
    }
  }

  /**
   * An identifier start begins a name (or a keyword) that runs as long as
   * identifier parts follow; the character after it is read again next time.
   */
  lemma ScanIdentifier(src: string, keywords: set<string>, p: nat)
    requires p < |src| && IsIdentifierStart(src[p])
    ensures var e := IdentEnd(src, p + 1);
            ReadyState(src, keywords, p) ==
              Scanned(Token(KeywordOr(keywords, src[p..e], NAME), Trim(src[p..e])), e, false)
  {
    assert [src[p]] == src[p..p + 1];
    ScanIdentifierFrom(src, keywords, p, p + 1);
  }

  /** The first position at or after i that ends a comment: a newline, U+FFFF, or the end. */
  function CommentEnd(src: string, i: nat): (r: nat)
    requires i <= |src|
    ensures i <= r <= |src|
    ensures forall k :: i <= k < r ==> src[k] != '\n' && src[k] != EofChar
    ensures CharAt(src, r) == '\n' || CharAt(src, r) == EofChar
    decreases |src| - i
  {
    if i == |src| || src[i] == '\n' || src[i] == EofChar then i else CommentEnd(src, i + 1)
  }

  lemma {:induction false} ScanCommentFrom(src: string, keywords: set<string>, q: nat, value: string)
    requires q <= |src| && |value| >= 2
    ensures CommentState(src, keywords, q, value) == ReadyState(src, keywords, CommentEnd(src, q))
    decreases |src| - q
  {
    if q < CommentEnd(src, q) {
      ScanCommentFrom(src, keywords, q + 1, value + [src[q]]);
    }
  }

  /**
   * "//" starts a comment: everything up to the next newline (or U+FFFF, or
   * the end) is skipped, and the newline itself is then read as a token.
   */
  lemma ScanComment(src: string, keywords: set<string>, p: nat)
    requires p + 1 < |src| && src[p] == '/' && src[p + 1] == '/'
    ensures ReadyState(src, keywords, p) == ReadyState(src, keywords, CommentEnd(src, p + 2))
  {
    assert [src[p]] + [src[p + 1]] == "//";
    ScanCommentFrom(src, keywords, p + 2, "//");
  }

  /** A '/' not followed by another is a symbol, whatever the keywords. */
  lemma ScanLoneSlash(src: string, keywords: set<string>, p: nat)
    requires p < |src| && src[p] == '/' && CharAt(src, p + 1) != '/'
    ensures ReadyState(src, keywords, p) == Scanned(Token(SYMBOL, "/"), p + 1, false)
  {
    assert Trim("/") == "/" by { TrimOfClean("/"); }
  }

  /** The number text src[p..k] stops growing before the character at k. */
  predicate NumberStops(src: string, p: nat, k: nat)
    requires p <= k <= |src|
  {
    var value := src[p..k];
    ValidateFloat(value, CharAt(src, k)) != Some(value + [CharAt(src, k)])
  }

  /** The lone "." is not a number. */
  lemma PointDoesNotParse()
    ensures !Parses(".")
  {
    TrimOfClean(".");
    assert !MantissaFrom(".", 1, 1, false);
  }

  /** The token made where a number text stops growing. */
  lemma NumberStopToken(src: string, keywords: set<string>, p: nat, e: nat)
    requires p < e <= |src| && NumberStops(src, p, e)
    ensures var r := NumberState(src, keywords, e, src[p..e]);
            var text := src[p..e];
            && !r.eoi && r.pos == e
            && r.tok.value == Trim(text)
            && (r.tok.ty == NUMBER || r.tok.ty == SYMBOL || r.tok.ty == ERROR)
            && (r.tok.ty == NUMBER <==> Parses(text))
            && (r.tok.ty == SYMBOL <==> text == ".")
  {
    PointDoesNotParse();
  }

  /** A number text that does not stop takes in the next character. */
  lemma NumberGrows(src: string, keywords: set<string>, p: nat, q: nat)
    requires p < q <= |src| && !NumberStops(src, p, q)
    ensures q < |src|
    ensures NumberState(src, keywords, q, src[p..q]) == NumberState(src, keywords, q + 1, src[p..q + 1])
  {
    var value := src[p..q];
    assert CharAt(src, q) != EofChar;
    assert q < |src|;
    assert value + [src[q]] == src[p..q + 1];
    GrowStep(src, keywords, q, value);
  }

  lemma GrowStep(src: string, keywords: set<string>, q: nat, value: string)
    requires q < |src| && ValidateFloat(value, src[q]) == Some(value + [src[q]])
    ensures NumberState(src, keywords, q, value) == NumberState(src, keywords, q + 1, value + [src[q]])
  {
    assert |value + [src[q]]| != |value|;
  }

  /** The first position at or after q where the number text that starts at p stops growing. */
  function NumberEnd(src: string, p: nat, q: nat): (e: nat)
    requires p < q <= |src|
    ensures q <= e <= |src|
    ensures forall k :: q <= k < e ==> !NumberStops(src, p, k)
    ensures NumberStops(src, p, e)
    decreases |src| - q
  {
    if NumberStops(src, p, q) then q
    else
      assert CharAt(src, q) != EofChar;
      NumberEnd(src, p, q + 1)
  }

  /** Where the number text stops is the same seen from q and from the next position, when it does not stop at q. */
  lemma NumberEndStep(src: string, p: nat, q: nat)
    requires p < q <= |src| && !NumberStops(src, p, q)
    ensures q < |src| && NumberEnd(src, p, q) == NumberEnd(src, p, q + 1)
  {
    assert CharAt(src, q) != EofChar;
  }

  /** One step of NumberRun: growing by one character, then running from there. */
  lemma NumberRunStep(src: string, keywords: set<string>, p: nat, q: nat)
    requires p < q <= |src| && q < NumberEnd(src, p, q)
    requires var e := NumberEnd(src, p, q + 1);
             NumberState(src, keywords, q + 1, src[p..q + 1]) == NumberState(src, keywords, e, src[p..e])
    ensures var e := NumberEnd(src, p, q);
            NumberState(src, keywords, q, src[p..q]) == NumberState(src, keywords, e, src[p..e])
  {
    assert !NumberStops(src, p, q);
    NumberEndStep(src, p, q);
    NumberGrows(src, keywords, p, q);
  }

  /** A number text keeps growing from q up to the position where it stops. */
  lemma {:induction false} NumberRun(src: string, keywords: set<string>, p: nat, q: nat)
    requires p < q <= |src|
    ensures var e := NumberEnd(src, p, q);
            NumberState(src, keywords, q, src[p..q]) == NumberState(src, keywords, e, src[p..e])
    decreases |src| - q
  {
    if q < NumberEnd(src, p, q) {
      NumberRun(src, keywords, p, q + 1);
      NumberRunStep(src, keywords, p, q);
    }
  }

  /**
   * A digit or '.' begins a number text that grows one character at a time
   * as long as validateFloat allows. It becomes a number token exactly when
   * the text parses as a double, a symbol when it is the lone ".", and an
   * error token otherwise.
   */
  lemma ScanNumber(src: string, keywords: set<string>, p: nat)
    requires p < |src| && IsMantissaChar(src[p])
    ensures var r := ReadyState(src, keywords, p);
            var text := src[p..r.pos];
            && !r.eoi && p < r.pos
            && (forall k :: p < k < r.pos ==> !NumberStops(src, p, k))
            && NumberStops(src, p, r.pos)
            && r.tok.value == Trim(text)
            && (r.tok.ty == NUMBER || r.tok.ty == SYMBOL || r.tok.ty == ERROR)
            && (r.tok.ty == NUMBER <==> Parses(text))
            && (r.tok.ty == SYMBOL <==> text == ".")
  {
    assert [src[p]] == src[p..p + 1];
    NumberRun(src, keywords, p, p + 1);
    NumberStopToken(src, keywords, p, NumberEnd(src, p, p + 1));
  }

  // ----- The tokenizer object -----

  /**
   * A Tokenizer: the input and the read position, the keyword set, the
   * hasNext flag, the last token returned and the pushback flag.
   */
  datatype Tokenizer = Tokenizer(
    src: string,
    keywords: set<string>,
    pos: nat,
    hasNext: bool,
    previous: Option<Token>,
    pushBack: bool)

  /**
   * What every Tokenizer satisfies: the position is within the input, a
   * pushback has a token to give back, and an end-of-input token has no text.
   */
  predicate Valid(t: Tokenizer) {
    && t.pos <= |t.src| && (t.pushBack ==> t.previous.Some?)
    && (t.previous.Some? && t.previous.value.ty == EOI ==> t.previous.value == Token(EOI, ""))
  }

  /** new Tokenizer(reader, keywords): a null reader is a NullPointerException. */
  function NewTokenizer(src: Option<string>, keywords: set<string>): (r: Result<Tokenizer>)
    ensures r.Ok? <==> src.Some?
    ensures r.Ok? ==> Valid(r.value) && r.value.src == src.value && r.value.pos == 0
    ensures r.Ok? ==> r.value.hasNext && r.value.previous.None? && !r.value.pushBack
  {
    match src
    case None => Err("NullPointerException")
    case Some(s) => Ok(Tokenizer(s, keywords, 0, true, None, false))
  }

  /** Tokenizer.hasNext: when it answers true, next() returns a token instead of throwing. */
  function HasNext(t: Tokenizer): (r: bool)
    requires Valid(t)
    ensures r ==> Next(t).Ok?
    ensures !r && !t.pushBack ==> Next(t).Err?
  {
    t.hasNext
  }

  /**
   * Tokenizer.next: the pushed-back token if there is one; otherwise a
   * failure once the end of input has been returned; otherwise the next
   * token of the input.
   */
  function Next(t: Tokenizer): (r: Result<(Token, Tokenizer)>)
    requires Valid(t)
    ensures t.pushBack ==> r.Ok? && r.value.0 == t.previous.value && r.value.1.pos == t.pos
    ensures r.Err? <==> !t.pushBack && !t.hasNext
    ensures r.Ok? ==>
              var (tok, t') := r.value;
              && Valid(t') && t'.src == t.src && t'.keywords == t.keywords
              && t'.previous == Some(tok) && !t'.pushBack
              && t.pos <= t'.pos
    ensures r.Ok? && !t.pushBack ==>
              var (tok, t') := r.value;
              && (tok.ty == EOI <==> !t'.hasNext)
              && (tok.ty == EOI ==> t'.pos == |t.src|)
              && (tok.ty != EOI ==> t'.pos > t.pos)
  {
    if t.pushBack then
      Ok((t.previous.value, t.(pushBack := false)))
    else if !t.hasNext then
      Err("No more tokens!")
    else
      var sc := ReadyState(t.src, t.keywords, t.pos);
      Ok((sc.tok, t.(pos := sc.pos, hasNext := !sc.eoi, previous := Some(sc.tok))))
  }

  /** Tokenizer.pushBack: arranges for the last token to be returned again; does nothing before the first token. */
  function PushBack(t: Tokenizer): (r: Tokenizer)
    requires Valid(t)
    ensures Valid(r) && r.src == t.src && r.pos == t.pos && r.previous == t.previous
    ensures t.previous.Some? ==> r.pushBack && r.hasNext
    ensures t.previous.None? ==> r == t
  {
    if t.previous.Some? then t.(pushBack := true, hasNext := true) else t
  }

  /** After a pushback, next() gives back the token just returned, and the position does not move. */
  lemma PushBackReplays(t: Tokenizer)
    requires Valid(t) && Next(t).Ok?
    ensures var (tok, t1) := Next(t).value;
            Next(PushBack(t1)).Ok? && Next(PushBack(t1)).value.0 == tok && Next(PushBack(t1)).value.1.pos == t1.pos
  {
  }

  /** Pushing back twice is pushing back once. */
  lemma PushBackIdempotent(t: Tokenizer)
    requires Valid(t)
    ensures PushBack(PushBack(t)) == PushBack(t)
  {
  }

  // ----- Tokens of a whole input -----

  /** The tokens next() returns from position `pos` up to and including the end of input. */
  function TokensFrom(src: string, keywords: set<string>, pos: nat): (r: seq<Token>)
    requires pos <= |src|
    ensures |r| >= 1 && r[|r| - 1] == Token(EOI, "")
    ensures forall i :: 0 <= i < |r| - 1 ==> r[i].ty != EOI
    decreases |src| - pos
  {
    var sc := ReadyState(src, keywords, pos);
    if sc.eoi then [sc.tok] else [sc.tok] + TokensFrom(src, keywords, sc.pos)
  }

  function AllTokens(src: string, keywords: set<string>): (r: seq<Token>)
    ensures |r| >= 1 && r[|r| - 1] == Token(EOI, "")
    ensures forall i :: 0 <= i < |r| - 1 ==> r[i].ty != EOI
  {
    TokensFrom(src, keywords, 0)
  }
}
