/**
 * The decimal floating-point syntax that Java's Double.parseDouble accepts,
 * as far as the tokenizer can reach it, and Java's String.trim.
 *
 * Double.parseDouble trims its argument and then accepts
 *
 *   mantissa  = digits and at most one '.', with at least one digit
 *   exponent  = optional: 'e' or 'E', an optional '+' or '-', one or more digits
 *   suffix    = optional: one of f F d D, as the very last character
 *
 * The tokenizer only asks about texts that start with a digit or '.', so the
 * signed, "NaN", "Infinity" and hexadecimal forms never arise (a hexadecimal
 * literal needs a 'p' exponent, and neither "0x" nor "0x1" parses, so a
 * number text never grows past "0" into one).
 */
module FloatSyntax {
  import opened Wrappers

  /** Character.isDigit, for the ASCII digits. */
  predicate IsDigit(c: char) {
    '0' <= c <= '9'
  }

  /** What String.trim removes: every character up to and including ' '. */
  predicate IsTrimmed(c: char) {
    c <= ' '
  }

  /** The first index at or after i that is not trimmable, or |s|. */
  function SkipLeft(s: string, i: nat): (r: nat)
    requires i <= |s|
    ensures i <= r <= |s|
    ensures forall k :: i <= k < r ==> IsTrimmed(s[k])
    ensures r < |s| ==> !IsTrimmed(s[r])
    decreases |s| - i
  {
    if i == |s| || !IsTrimmed(s[i]) then i else SkipLeft(s, i + 1)
  }

  /** The last index j <= hi such that s[j-1] is not trimmable, or lo. */
  function SkipRight(s: string, lo: nat, hi: nat): (r: nat)
    requires lo <= hi <= |s|
    ensures lo <= r <= hi
    ensures forall k :: r <= k < hi ==> IsTrimmed(s[k])
    ensures r > lo ==> !IsTrimmed(s[r - 1])
    decreases hi
  {
    if hi == lo || !IsTrimmed(s[hi - 1]) then hi else SkipRight(s, lo, hi - 1)
  }

  /** String.trim: s without its leading and trailing characters <= ' '. */
  function Trim(s: string): string {
    var i := SkipLeft(s, 0);
    var j := SkipRight(s, i, |s|);
    s[i..j]
  }

  /**
   * Trim removes only trimmable characters, and only at the two ends, and
   * leaves no trimmable character at either end.
   */
  lemma TrimSpec(s: string)
    ensures var r := Trim(s);
            && (exists i, j :: 0 <= i <= j <= |s| && r == s[i..j]
                  && (forall k :: 0 <= k < i ==> IsTrimmed(s[k]))
                  && (forall k :: j <= k < |s| ==> IsTrimmed(s[k])))
            && (r == [] || (!IsTrimmed(r[0]) && !IsTrimmed(r[|r| - 1])))
  {
    var i, j := TrimCut(s);
  }

  /** Trimming is idempotent. */
  lemma TrimIdempotent(s: string)
    ensures Trim(Trim(s)) == Trim(s)
  {
    TrimSpec(s);
    var t := Trim(s);
    if t != [] {
      assert SkipLeft(t, 0) == 0;
      assert SkipRight(t, 0, |t|) == |t|;
    }
  }

  /** A text without leading or trailing blanks is its own trim. */
  lemma TrimOfClean(s: string)
    requires s == [] || (!IsTrimmed(s[0]) && !IsTrimmed(s[|s| - 1]))
    ensures Trim(s) == s
  {
    if s != [] {
      assert SkipLeft(s, 0) == 0;
      assert SkipRight(s, 0, |s|) == |s|;
    }
  }

  // ----- The decimal grammar -----

  /** The first index at or after i that is not a digit, or |s|. */
  function DigitsEnd(s: string, i: nat): (r: nat)
    requires i <= |s|
    ensures i <= r <= |s|
    ensures forall k :: i <= k < r ==> IsDigit(s[k])
    ensures r < |s| ==> !IsDigit(s[r])
    decreases |s| - i
  {
    if i == |s| || !IsDigit(s[i]) then i else DigitsEnd(s, i + 1)
  }

  predicate IsMantissaChar(c: char) {
    IsDigit(c) || c == '.'
  }

  /** The first index at or after i that is neither a digit nor '.', or |s|. */
  function MantissaEnd(s: string, i: nat): (r: nat)
    requires i <= |s|
    ensures i <= r <= |s|
    ensures forall k :: i <= k < r ==> IsMantissaChar(s[k])
    ensures r < |s| ==> !IsMantissaChar(s[r])
    decreases |s| - i
  {
    if i == |s| || !IsMantissaChar(s[i]) then i else MantissaEnd(s, i + 1)
  }

  function CountPoints(s: string): (r: nat)
    ensures r == 0 <==> '.' !in s
  {
    if s == [] then 0 else (if s[0] == '.' then 1 else 0) + CountPoints(s[1..])
  }

  predicate HasDigit(s: string) {
    exists k :: 0 <= k < |s| && IsDigit(s[k])
  }

  predicate IsSuffixChar(c: char) {
    c == 'f' || c == 'F' || c == 'd' || c == 'D'
  }

  /** Where the exponent that may start at m ends; `None` when an 'e' is not followed by digits. */
  function ExponentEnd(s: string, m: nat): (r: Option<nat>)
    requires m <= |s|
    ensures r.Some? ==> m <= r.value <= |s|
  {
    if m < |s| && (s[m] == 'e' || s[m] == 'E') then
      var k := if m + 1 < |s| && (s[m + 1] == '+' || s[m + 1] == '-') then m + 2 else m + 1;
      var e := DigitsEnd(s, k);
      if e > k then Some(e) else None
    else Some(m)
  }

  /** From position m on: an optional exponent, then an optional suffix as the last character. */
  predicate ExponentAndSuffix(s: string, m: nat)
    requires m <= |s|
  {
    match ExponentEnd(s, m)
    case None => false
    case Some(e) => e == |s| || (e == |s| - 1 && IsSuffixChar(s[e]))
  }

  /**
   * The literal read left to right from i: the mantissa characters, having
   * seen `points` points so far and a digit if `digit`, then the rest.
   */
  predicate MantissaFrom(s: string, i: nat, points: nat, digit: bool)
    requires i <= |s|
    decreases |s| - i
  {
    if i < |s| && IsMantissaChar(s[i]) then
      MantissaFrom(s, i + 1, points + (if s[i] == '.' then 1 else 0), digit || IsDigit(s[i]))
    else
      points <= 1 && digit && ExponentAndSuffix(s, i)
  }

  /** The text, with no trimming, is a decimal floating-point literal. */
  predicate DecimalLiteral(s: string) {
    MantissaFrom(s, 0, 0, false)
  }

  /** The same check in one piece: the run of mantissa characters has at most one point and a digit, and the rest is well formed. */
  predicate MantissaThenRest(s: string) {
    var m := MantissaEnd(s, 0);
    && CountPoints(s[..m]) <= 1
    && HasDigit(s[..m])
    && ExponentAndSuffix(s, m)
  }

  /** A text has a digit when its first character is one or the rest has one. */
  lemma HasDigitFirst(t: string)
    requires t != []
    ensures HasDigit(t) <==> IsDigit(t[0]) || HasDigit(t[1..])
  {
    if HasDigit(t[1..]) {
      var k :| 0 <= k < |t[1..]| && IsDigit(t[1..][k]);
      assert t[k + 1] == t[1..][k];
    }
    if HasDigit(t) && !IsDigit(t[0]) {
      var k :| 0 <= k < |t| && IsDigit(t[k]);
      assert k > 0 && t[1..][k - 1] == t[k];
    }
  }

  /** Reading the mantissa one character at a time counts its points and digits. */
  lemma {:induction false} MantissaFromRun(s: string, i: nat, points: nat, digit: bool)
    requires i <= |s|
    ensures var m := MantissaEnd(s, i);
            MantissaFrom(s, i, points, digit) <==>
              points + CountPoints(s[i..m]) <= 1 && (digit || HasDigit(s[i..m])) && ExponentAndSuffix(s, m)
    decreases |s| - i
  {
    var m := MantissaEnd(s, i);
    if i < |s| && IsMantissaChar(s[i]) {
      var c := s[i];
      MantissaFromRun(s, i + 1, points + (if c == '.' then 1 else 0), digit || IsDigit(c));
      assert MantissaEnd(s, i + 1) == m;
      var t := s[i..m];
      assert t[0] == c && t[1..] == s[i + 1..m];
      HasDigitFirst(t);
    } else {
      assert m == i;
      assert s[i..m] == [];
    }
  }

  /** The left-to-right reading and the one-piece check agree. */
  lemma DecimalLiteralInOnePiece(s: string)
    ensures DecimalLiteral(s) <==> MantissaThenRest(s)
  {
    MantissaFromRun(s, 0, 0, false);
    assert s[0..MantissaEnd(s, 0)] == s[..MantissaEnd(s, 0)];
  }

  /**
   * Double.parseDouble(s) returns normally: with the trimmable characters
   * taken off both ends, one at a time, what is left is a decimal literal.
   */
  predicate Parses(s: string)
    decreases |s|
  {
    if s != [] && IsTrimmed(s[0]) then Parses(s[1..])
    else if s != [] && IsTrimmed(s[|s| - 1]) then Parses(s[..|s| - 1])
    else DecimalLiteral(s)
  }

  /** Trim is determined by where the kept text starts and ends. */
  lemma TrimAt(s: string, i: nat, j: nat)
    requires i <= j <= |s|
    requires forall k :: 0 <= k < i ==> IsTrimmed(s[k])
    requires forall k :: j <= k < |s| ==> IsTrimmed(s[k])
    requires i == j || (!IsTrimmed(s[i]) && !IsTrimmed(s[j - 1]))
    ensures Trim(s) == s[i..j]
  {
    var a := SkipLeft(s, 0);
    if i == j {
      assert a == |s|;
    } else {
      assert a == i;
      assert SkipRight(s, a, |s|) == j;
    }
  }

  /** Where Trim cuts: the kept text s[i..j] with only trimmable characters outside it. */
  lemma TrimCut(s: string) returns (i: nat, j: nat)
    ensures i <= j <= |s| && Trim(s) == s[i..j]
    ensures forall k :: 0 <= k < i ==> IsTrimmed(s[k])
    ensures forall k :: j <= k < |s| ==> IsTrimmed(s[k])
    ensures i == j || (!IsTrimmed(s[i]) && !IsTrimmed(s[j - 1]))
  {
    i := SkipLeft(s, 0);
    j := SkipRight(s, i, |s|);
  }

  /** A trimmable first character makes no difference to Trim. */
  lemma TrimDropFirst(s: string)
    requires s != [] && IsTrimmed(s[0])
    ensures Trim(s) == Trim(s[1..])
  {
    var t := s[1..];
    var i, j := TrimCut(t);
    assert forall k :: 1 <= k < |s| ==> s[k] == t[k - 1];
    assert forall k :: 0 <= k < i + 1 ==> IsTrimmed(s[k]) by {
      forall k | 0 <= k < i + 1 ensures IsTrimmed(s[k]) {
        if k > 0 {
          assert s[k] == t[k - 1];
        }
      }
    }
    TrimAt(s, i + 1, j + 1);
    assert s[i + 1..j + 1] == t[i..j];
  }

  /** A trimmable last character makes no difference to Trim. */
  lemma TrimDropLast(s: string)
    requires s != [] && IsTrimmed(s[|s| - 1])
    ensures Trim(s) == Trim(s[..|s| - 1])
  {
    var t := s[..|s| - 1];
    var i, j := TrimCut(t);
    assert forall k :: 0 <= k < i ==> IsTrimmed(s[k]) by {
      forall k | 0 <= k < i ensures IsTrimmed(s[k]) {
        assert s[k] == t[k];
      }
    }
    assert forall k :: j <= k < |s| ==> IsTrimmed(s[k]) by {
      forall k | j <= k < |s| ensures IsTrimmed(s[k]) {
        if k < |t| {
          assert s[k] == t[k];
        }
      }
    }
    assert i < j ==> s[i] == t[i] && s[j - 1] == t[j - 1];
    TrimAt(s, i, j);
    assert s[i..j] == t[i..j];
  }

  /** Parsing trims its argument first: Parses is DecimalLiteral after Trim. */
  lemma {:induction false} ParsesTrims(s: string)
    ensures Parses(s) <==> DecimalLiteral(Trim(s))
    decreases |s|
  {
    if s != [] && IsTrimmed(s[0]) {
      ParsesTrims(s[1..]);
      TrimDropFirst(s);
    } else if s != [] && IsTrimmed(s[|s| - 1]) {
      ParsesTrims(s[..|s| - 1]);
      TrimDropLast(s);
    } else {
      TrimAt(s, 0, |s|);
      assert s[0..|s|] == s;
    }
  }

  // ----- The grammar piece by piece -----

  predicate IsMantissa(t: string) {
    && (forall k :: 0 <= k < |t| ==> IsMantissaChar(t[k]))
    && CountPoints(t) <= 1
    && HasDigit(t)
  }

  predicate AllDigits(t: string) {
    forall k :: 0 <= k < |t| ==> IsDigit(t[k])
  }

  predicate IsExponent(t: string) {
    || t == []
    || (&& |t| >= 2 && (t[0] == 'e' || t[0] == 'E')
        && if t[1] == '+' || t[1] == '-' then |t| >= 3 && AllDigits(t[2..]) else AllDigits(t[1..]))
  }

  predicate IsSuffix(t: string) {
    t == [] || (|t| == 1 && IsSuffixChar(t[0]))
  }

  /**
   * The scanner above accepts exactly the texts that split into a mantissa,
   * an exponent part and a suffix.
   */
  lemma DecimalLiteralPieces(s: string)
    ensures DecimalLiteral(s) <==>
              exists m, e :: 0 <= m <= e <= |s| && IsMantissa(s[..m]) && IsExponent(s[m..e]) && IsSuffix(s[e..])
  {
    DecimalLiteralInOnePiece(s);
    if DecimalLiteral(s) {
      LiteralHasPieces(s);
    }
    if m, e :| 0 <= m <= e <= |s| && IsMantissa(s[..m]) && IsExponent(s[m..e]) && IsSuffix(s[e..]) {
      PiecesMakeLiteral(s, m, e);
    }
  }

  lemma LiteralHasPieces(s: string)
    requires MantissaThenRest(s)
    ensures exists m, e :: 0 <= m <= e <= |s| && IsMantissa(s[..m]) && IsExponent(s[m..e]) && IsSuffix(s[e..])
  {
    var m := MantissaEnd(s, 0);
    var e := ExponentEnd(s, m).value;
    assert IsMantissa(s[..m]);
    assert IsExponent(s[m..e]) by {
      if e > m {
        var t := s[m..e];
        if t[1] == '+' || t[1] == '-' {
          assert forall k :: 0 <= k < |t| - 2 ==> t[2..][k] == s[m + 2 + k];
        } else {
          assert forall k :: 0 <= k < |t| - 1 ==> t[1..][k] == s[m + 1 + k];
        }
      }
    }
    assert IsSuffix(s[e..]);
  }

  lemma PiecesMakeLiteral(s: string, m: nat, e: nat)
    requires m <= e <= |s| && IsMantissa(s[..m]) && IsExponent(s[m..e]) && IsSuffix(s[e..])
    ensures MantissaThenRest(s)
  {
    assert forall k :: 0 <= k < m ==> IsMantissaChar(s[..m][k]);
    if m < |s| {
      if e > m {
        assert s[m] == s[m..e][0];
      } else {
        assert s[m] == s[e..][0];
      }
    }
    MantissaEndOf(s, 0, m);
    ExponentEndOf(s, m, e);
  }

  /** A run of mantissa characters ending at a non-mantissa character (or the end) is where MantissaEnd stops. */
  lemma {:induction false} MantissaEndOf(s: string, i: nat, m: nat)
    requires i <= m <= |s|
    requires forall k :: i <= k < m ==> IsMantissaChar(s[k])
    requires m < |s| ==> !IsMantissaChar(s[m])
    ensures MantissaEnd(s, i) == m
    decreases m - i
  {
    if i < m {
      MantissaEndOf(s, i + 1, m);
    }
  }

  lemma {:induction false} DigitsEndOf(s: string, i: nat, e: nat)
    requires i <= e <= |s|
    requires forall k :: i <= k < e ==> IsDigit(s[k])
    requires e < |s| ==> !IsDigit(s[e])
    ensures DigitsEnd(s, i) == e
    decreases e - i
  {
    if i < e {
      DigitsEndOf(s, i + 1, e);
    }
  }

  /** An exponent part followed by a suffix is where ExponentEnd stops. */
  lemma ExponentEndOf(s: string, m: nat, e: nat)
    requires m <= e <= |s| && IsExponent(s[m..e]) && IsSuffix(s[e..])
    ensures ExponentEnd(s, m) == Some(e)
  {
    var t := s[m..e];
    if t != [] {
      var k := if t[1] == '+' || t[1] == '-' then m + 2 else m + 1;
      assert forall j :: k <= j < e ==> IsDigit(s[j]) by {
        forall j | k <= j < e ensures IsDigit(s[j]) {
          assert s[j] == t[j - m];
          if t[1] == '+' || t[1] == '-' {
            assert t[2..][j - m - 2] == t[j - m];
          } else {
            assert t[1..][j - m - 1] == t[j - m];
          }
        }
      }
      assert e < |s| ==> s[e] == s[e..][0];
      DigitsEndOf(s, k, e);
    } else {
      assert m < |s| ==> s[m] == s[e..][0];
    }
  }
}
