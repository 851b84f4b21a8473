/**
 * Tokens: a type and the exact characters that make up the token.
 */
module Tokens {
  import opened Wrappers

  datatype TokenType = NAME | NUMBER | KEYWORD | SYMBOL | EOL | EOI | ERROR

  datatype Token = Token(ty: TokenType, value: string)

  /** The name of an enum constant, as Java's Enum.toString prints it. */
  function TypeName(t: TokenType): string {
    match t
    case NAME => "NAME"
    case NUMBER => "NUMBER"
    case KEYWORD => "KEYWORD"
    case SYMBOL => "SYMBOL"
    case EOL => "EOL"
    case EOI => "EOI"
    case ERROR => "ERROR"
  }

  /** The type whose name is `name`, if any. */
  function TypeNamed(name: string): (r: Option<TokenType>)
    ensures r.Some? ==> TypeName(r.value) == name
    ensures forall t :: TypeName(t) == name ==> r == Some(t)
  {
    if name == "NAME" then Some(NAME)
    else if name == "NUMBER" then Some(NUMBER)
    else if name == "KEYWORD" then Some(KEYWORD)
    else if name == "SYMBOL" then Some(SYMBOL)
    else if name == "EOL" then Some(EOL)
    else if name == "EOI" then Some(EOI)
    else if name == "ERROR" then Some(ERROR)
    else None
  }

  /** new Token(type, value): a null type or value is a NullPointerException. */
  function NewToken(ty: Option<TokenType>, value: Option<string>): (r: Result<Token>)
    ensures r.Ok? <==> ty.Some? && value.Some?
    ensures r.Ok? ==> r.value.ty == ty.value && r.value.value == value.value
  {
    if ty.None? || value.None? then Err("NullPointerException")
    else Ok(Token(ty.value, value.value))
  }

  /** Token.toString: `value:TYPE`. */
  function ToString(t: Token): string {
    t.value + ":" + TypeName(t.ty)
  }

  /** The position of the last ':' in `s`, if there is one. */
  function LastColon(s: string): (r: Option<nat>)
    ensures r.Some? ==> r.value < |s| && s[r.value] == ':' && ':' !in s[r.value + 1..]
    ensures r.None? ==> ':' !in s
  {
    if s == [] then None
    else if s[|s| - 1] == ':' then Some(|s| - 1)
    else
      var r := LastColon(s[..|s| - 1]);
      assert forall i :: 0 <= i < |s| - 1 ==> s[..|s| - 1][i] == s[i];
      if r.Some? then
        assert s[r.value + 1..] == s[..|s| - 1][r.value + 1..] + [s[|s| - 1]];
        r
      else r
  }

  /** Reads a token back from its toString form: the text after the last ':' names the type. */
  function ParseToString(s: string): (r: Option<Token>)
    ensures r.Some? ==> ToString(r.value) == s
  {
    match LastColon(s)
    case None => None
    case Some(i) =>
      match TypeNamed(s[i + 1..])
      case None => None
      case Some(ty) =>
        assert s == s[..i] + ":" + s[i + 1..];
        Some(Token(ty, s[..i]))
  }

  /** No type name contains ':', so toString can be read back: the printed form determines the token. */
  lemma ToStringRoundTrip(t: Token)
    ensures ParseToString(ToString(t)) == Some(t)
  {
    var s := ToString(t);
    var i := |t.value|;
    assert s[i] == ':';
    assert s[i + 1..] == TypeName(t.ty);
    assert ':' !in TypeName(t.ty) by {
      match t.ty
      case NAME =>
      case NUMBER =>
      case KEYWORD =>
      case SYMBOL =>
      case EOL =>
      case EOI =>
      case ERROR =>
    }
    LastColonOf(s, i);
    assert s[..i] == t.value;
  }

  /** A ':' with no ':' after it is the last one. */
  lemma {:induction false} LastColonOf(s: string, i: nat)
    requires i < |s| && s[i] == ':' && ':' !in s[i + 1..]
    ensures LastColon(s) == Some(i)
    decreases |s|
  {
    if i < |s| - 1 {
      var p := s[..|s| - 1];
      assert s[|s| - 1] == s[i + 1..][|s| - 2 - i];
      assert p[i + 1..] == s[i + 1..|s| - 1];
      assert s[i + 1..] == s[i + 1..|s| - 1] + [s[|s| - 1]];
      LastColonOf(p, i);
    }
  }

  /** Distinct tokens print differently. */
  lemma ToStringInjective(a: Token, b: Token)
    ensures ToString(a) == ToString(b) ==> a == b
  {
    ToStringRoundTrip(a);
    ToStringRoundTrip(b);
  }

  // ----- Equality and hashing -----

  /**
   * Token.equals with the intended value comparison: same type and same
   * characters. That is exactly equality of tokens, so it is reflexive,
   * symmetric and transitive, as Object.equals demands.
   */
  function Equals(a: Token, b: Token): (r: bool)
    ensures r <==> a == b
  {
    a.ty == b.ty && a.value == b.value
  }

  const Two32: int := 0x1_0000_0000
  const Two31: int := 0x8000_0000

  /** The 32-bit two's-complement value of x, as Java int arithmetic leaves it. */
  function Wrap32(x: int): (r: int)
    ensures -Two31 <= r < Two31
    ensures (r - x) % Two32 == 0
  {
    (x + Two31) % Two32 - Two31
  }

  /** Java's String.hashCode: h = 31 * h + c over the characters, in int arithmetic. */
  function StringHash(s: string): (r: int)
    ensures -Two31 <= r < Two31
  {
    if s == [] then 0
    else Wrap32(31 * StringHash(s[..|s| - 1]) + s[|s| - 1] as int)
  }

  /** The polynomial the hash stands for, without overflow: the sum of s[i] * 31^(n-1-i). */
  function HashPolynomial(s: string): nat {
    if s == [] then 0
    else 31 * HashPolynomial(s[..|s| - 1]) + s[|s| - 1] as int
  }

  /** Token.hashCode: the hash of the value. */
  function HashCode(t: Token): (r: int)
    ensures -Two31 <= r < Two31
  {
    StringHash(t.value)
  }

  /** One step of the hash keeps the congruence with the polynomial. */
  lemma CongruentStep(h: int, p: int, c: int, w: int)
    requires (h - p) % Two32 == 0
    requires (w - (31 * h + c)) % Two32 == 0
    ensures (w - (31 * p + c)) % Two32 == 0
  {
    var k := (h - p) / Two32;
    var j := (w - (31 * h + c)) / Two32;
    assert h - p == k * Two32;
    assert w - (31 * h + c) == j * Two32;
    assert w - (31 * p + c) == (j + 31 * k) * Two32;
  }

  /** The int hash agrees with the exact polynomial modulo 2^32. */
  lemma {:induction false} StringHashIsPolynomial(s: string)
    ensures (StringHash(s) - HashPolynomial(s)) % Two32 == 0
  {
    if s != [] {
      var p := s[..|s| - 1];
      var c := s[|s| - 1] as int;
      StringHashIsPolynomial(p);
      CongruentStep(StringHash(p), HashPolynomial(p), c, StringHash(s));
    }
  }

  /**
   * Equal tokens hash alike, as the equals/hashCode contract requires. With
   * the corrected Equals this is immediate, since Equals is token equality;
   * it is EqualsAsWritten that lets equal-looking tokens compare unequal.
   */
  lemma EqualsHash(a: Token, b: Token)
    requires Equals(a, b)
    ensures HashCode(a) == HashCode(b)
  {
  }

  /** The hash ignores the type: a name and a keyword with the same text collide. */
  lemma HashIgnoresType(v: string, t1: TokenType, t2: TokenType)
    ensures HashCode(Token(t1, v)) == HashCode(Token(t2, v))
    ensures Token(t1, v) != Token(t2, v) <==> t1 != t2
  {
  }

  // ----- Equality as written -----

  /**
   * A Token object on the Java heap: its own identity, its contents and the
   * identity of its value string. Equal identities mean the same object.
   */
  datatype TokenObject = TokenObject(self: nat, token: Token, valueRef: nat)

  predicate Coherent(a: TokenObject, b: TokenObject) {
    && (a.self == b.self ==> a == b)
    && (a.valueRef == b.valueRef ==> a.token.value == b.token.value)
  }

  /**
   * Token.equals as written: the same object, or the same type and the same
   * value string object (`==` on strings compares references).
   */
  function EqualsAsWritten(a: TokenObject, b: TokenObject): (r: bool)
    ensures a.self == b.self ==> r
    ensures Coherent(a, b) && r ==> Equals(a.token, b.token)
  {
    a.self == b.self || (a.token.ty == b.token.ty && a.valueRef == b.valueRef)
  }

  /**
   * Two tokens with the same type and the same characters held in two
   * different string objects are not equal as written.
   */
  lemma EqualsAsWrittenMissesEqualTokens()
    ensures var a := TokenObject(0, Token(NAME, "Bob"), 10);
            var b := TokenObject(1, Token(NAME, "Bob"), 11);
            Coherent(a, b) && Equals(a.token, b.token) && !EqualsAsWritten(a, b)
  {
  }
}
