/** The spellings of the expression language's tokens, and the tokenizer's
    choice of the longest one. */
module ExprTokens {
  import opened Expr

  predicate All(s: string, k: CharClass) { forall i :: 0 <= i < |s| ==> InClass(s[i], k) }

  predicate IsName(s: string) {
    s != "" && (IsAlpha(s[0]) || s[0] == '_' || s[0] == '\'') && All(s, IdentChar)
  }

  /** Digits of a base behind a prefix. */
  predicate IsNumber(s: string, skip: nat, k: CharClass, base: nat, v: int)
    requires k == Decimal || k == Hex || k == Binary2
  {
    skip < |s| && All(s[skip..], k) && v == ToInt32(NumberValue(s[skip..], base))
  }

  /** The text s is a spelling of the token t; '&' and '%' depend on whether an
      operand comes before. */
  predicate Spells(s: string, t: Token, after: bool) {
    match t
    case LParen => s == "("
    case RParen => s == ")"
    case Comma => s == ","
    case Plus => s == "+"
    case Minus => s == "-"
    case Star => s == "*"
    case Slash => s == "/"
    case Lt => s == "<"
    case Le => s == "<="
    case Gt => s == ">"
    case Ge => s == ">="
    case Eq => s == "=" || s == "=="
    case Ne => s == "<>" || s == "!="
    case Ident(n) => (IsName(s) && n == s) || (after && ((s == "&" && n == "and") || (s == "%" && n == "mod")))
    case Number(v) =>
      || IsNumber(s, 0, Decimal, 10, v)
      || (s != "" && (s[0] == '#' || s[0] == '$' || (s[0] == '&' && !after)) && IsNumber(s, 1, Hex, 16, v))
      || (|s| > 1 && s[0] == '0' && (s[1] == 'x' || s[1] == 'X') && IsNumber(s, 2, Hex, 16, v))
      || (s != "" && s[0] == '%' && !after && IsNumber(s, 1, Binary2, 2, v))
    case Bad(_) => false
  }

  /** "0x" without a digit is an error, not a 0 before a name. */
  predicate HalfHex(s: string) {
    |s| > 1 && s[0] == '0' && (s[1] == 'x' || s[1] == 'X') && (|s| == 2 || !InClass(s[2], Hex))
  }

  /** No longer piece of s is a token. */
  ghost predicate Longest(s: string, n: nat, after: bool)
    requires n <= |s|
  {
    forall m, u :: n < m <= |s| ==> !Spells(s[..m], u, after)
  }

  lemma OneToken(s: string, t: Token, u: Token, after: bool)
    requires Spells(s, t, after) && Spells(s, u, after)
    ensures t == u
  {
  }

  /** What a longer piece can start with. */
  lemma LongSpelling(s: string, t: Token, after: bool)
    requires Spells(s, t, after) && |s| >= 2
    ensures s == "<=" || s == ">=" || s == "==" || s == "<>" || s == "!=" || IsName(s) || t.Number?
  {
  }

  lemma SpanStops(s: string, skip: nat, k: CharClass, m: nat)
    requires skip <= |s| && skip + Span(s[skip..], k) < m <= |s|
    ensures !All(s[..m][skip..], k)
  {
    var n := Span(s[skip..], k);
    assert s[..m][skip..][n] == s[skip..][n];
  }

  lemma SpanAll(s: string, skip: nat, k: CharClass)
    requires skip <= |s|
    ensures All(s[skip..][..Span(s[skip..], k)], k)
    ensures s[..skip + Span(s[skip..], k)][skip..] == s[skip..][..Span(s[skip..], k)]
  {
  }

  /** A number token is as long as its digits go. */
  lemma NumberSound(s: string, k: CharClass, base: nat, skip: nat, message: string)
    requires skip <= |s| && (k == Hex || k == Decimal || k == Binary2) && (skip > 0 || Span(s, k) > 0)
    ensures var (t, n) := NumberToken(s, k, base, skip, message);
      && (t.Bad? <==> Span(s[skip..], k) == 0)
      && (!t.Bad? ==> t.Number? && IsNumber(s[..n], skip, k, base, t.value)
                      && forall m :: n < m <= |s| ==> !All(s[..m][skip..], k))
  {
    hide NumberValue;
    SpanAll(s, skip, k);
    assert s[0..] == s;
    forall m | skip + Span(s[skip..], k) < m <= |s| ensures !All(s[..m][skip..], k) { SpanStops(s, skip, k, m); }
  }

  predicate SignStart(c: char) {
    || c == '(' || c == ')' || c == ',' || c == '+' || c == '-' || c == '*' || c == '/'
    || c == '<' || c == '>' || c == '=' || c == '!'
  }

  /** A piece of two or more characters that starts with a sign. */
  lemma LongSign(s: string, t: Token, after: bool)
    requires Spells(s, t, after) && |s| >= 2 && SignStart(s[0])
    ensures s == "<=" || s == ">=" || s == "==" || s == "<>" || s == "!="
  {
  }

  lemma SignSound(s: string, after: bool)
    requires s != "" && SignStart(s[0]) && !RawToken(s, after).0.Bad?
    ensures var (t, n) := RawToken(s, after); Spells(s[..n], t, after) && Longest(s, n, after)
  {
    var (t, n) := RawToken(s, after);
    assert n <= 2 && s[..1] == [s[0]] && (|s| > 1 ==> s[..2] == [s[0], s[1]]);
    hide RawToken;
    forall m, u | n < m <= |s| && Spells(s[..m], u, after) ensures false {
      LongSign(s[..m], u, after);
    }
  }

  lemma LongName(s: string, t: Token, after: bool)
    requires Spells(s, t, after) && s != "" && (IsAlpha(s[0]) || s[0] == '_' || s[0] == '\'')
    ensures All(s, IdentChar)
  {
  }

  lemma NameSound(s: string, after: bool)
    requires s != "" && (IsAlpha(s[0]) || s[0] == '_' || s[0] == '\'')
    ensures var (t, n) := RawToken(s, after); Spells(s[..n], t, after) && Longest(s, n, after)
  {
    var n := Span(s, IdentChar);
    assert RawToken(s, after) == (Ident(s[..n]), n);
    hide RawToken;
    assert s[0..] == s && n > 0;
    SpanAll(s, 0, IdentChar);
    forall m, u | n < m <= |s| && Spells(s[..m], u, after) ensures false {
      assert s[..m][0..] == s[..m];
      SpanStops(s, 0, IdentChar, m);
      LongName(s[..m], u, after);
    }
  }

  lemma LongPrefixed(s: string, t: Token, after: bool)
    requires Spells(s, t, after) && |s| >= 2
    ensures s[0] == '#' || s[0] == '$' || s[0] == '&' ==> All(s[1..], Hex) && !(s[0] == '&' && after)
    ensures s[0] == '%' ==> All(s[1..], Binary2) && !after
    ensures s[0] == '0' && (s[1] == 'x' || s[1] == 'X') ==> |s| > 2 && All(s[2..], Hex)
    ensures InClass(s[0], Decimal) && !(s[0] == '0' && (s[1] == 'x' || s[1] == 'X')) ==> All(s, Decimal)
  {
  }

  lemma OperatorSound(s: string, after: bool)
    requires s != "" && (s[0] == '&' || s[0] == '%') && after
    ensures var (t, n) := RawToken(s, after); Spells(s[..n], t, after) && Longest(s, n, after)
  {
    assert s[..1] == [s[0]];
    assert RawToken(s, after) == (Ident(if s[0] == '&' then "and" else "mod"), 1);
    hide RawToken;
    forall m, u | 1 < m <= |s| && Spells(s[..m], u, after) ensures false { LongPrefixed(s[..m], u, after); }
  }

  /** The prefix, digits and base of a number that starts s. */
  predicate NumberStart(s: string, after: bool, skip: nat, k: CharClass, base: nat) {
    s != "" && (
      || ((s[0] == '#' || s[0] == '$' || (s[0] == '&' && !after)) && skip == 1 && k == Hex && base == 16)
      || (|s| > 1 && s[0] == '0' && (s[1] == 'x' || s[1] == 'X') && skip == 2 && k == Hex && base == 16)
      || (s[0] == '%' && !after && skip == 1 && k == Binary2 && base == 2)
      || (InClass(s[0], Decimal) && !(|s| > 1 && s[0] == '0' && (s[1] == 'x' || s[1] == 'X'))
          && skip == 0 && k == Decimal && base == 10))
  }

  lemma NumberRaw(s: string, after: bool, skip: nat, k: CharClass, base: nat)
    requires NumberStart(s, after, skip, k, base)
    ensures skip <= |s| && (k == Hex || k == Decimal || k == Binary2) && (skip > 0 || Span(s, k) > 0)
    ensures exists message :: RawToken(s, after) == NumberToken(s, k, base, skip, message)
  {
    hide NumberToken;
    if skip == 0 {
      assert RawToken(s, after) == NumberToken(s, Decimal, 10, 0, "");
    } else if k == Hex {
      assert RawToken(s, after) == NumberToken(s, Hex, 16, skip, "expected hex digits");
    } else {
      assert RawToken(s, after) == NumberToken(s, Binary2, 2, 1, "expected binary digits");
    }
  }

  lemma NumberSpells(s: string, after: bool, skip: nat, k: CharClass, base: nat, n: nat, v: int)
    requires NumberStart(s, after, skip, k, base) && skip < n <= |s| && IsNumber(s[..n], skip, k, base, v)
    ensures Spells(s[..n], Number(v), after)
  {
    hide NumberValue;
    assert s[..n][0] == s[0] && (n > 1 ==> s[..n][1] == s[1]);
  }

  lemma NumberLonger(s: string, after: bool, skip: nat, k: CharClass, base: nat, m: nat, u: Token)
    requires NumberStart(s, after, skip, k, base) && 1 < m <= |s| && m > skip && Spells(s[..m], u, after)
    ensures All(s[..m][skip..], k)
  {
    var p := s[..m];
    assert p[0] == s[0] && p[1] == s[1] && p[0..] == p;
    LongPrefixed(p, u, after);
  }

  lemma DigitsSound(s: string, after: bool, skip: nat, k: CharClass, base: nat)
    requires NumberStart(s, after, skip, k, base) && !RawToken(s, after).0.Bad?
    ensures var (t, n) := RawToken(s, after); n > skip && Spells(s[..n], t, after) && Longest(s, n, after)
  {
    hide RawToken, NumberToken, NumberStart, Spells, IsNumber;
    NumberRaw(s, after, skip, k, base);
    var message :| RawToken(s, after) == NumberToken(s, k, base, skip, message);
    var (t, n) := RawToken(s, after);
    NumberSound(s, k, base, skip, message);
    NumberEnds(s, k, base, skip, message);
    NumberSpells(s, after, skip, k, base, n, t.value);
    forall m, u | n < m <= |s| && Spells(s[..m], u, after) ensures false {
      NumberLonger(s, after, skip, k, base, m, u);
    }
  }

  lemma NumberEnds(s: string, k: CharClass, base: nat, skip: nat, message: string)
    requires skip <= |s| && (k == Hex || k == Decimal || k == Binary2) && (skip > 0 || Span(s, k) > 0)
    requires !NumberToken(s, k, base, skip, message).0.Bad?
    ensures skip < NumberToken(s, k, base, skip, message).1 <= |s|
    ensures NumberToken(s, k, base, skip, message).1 > 0
  {
  }

  lemma RawSound(s: string, after: bool)
    requires s != "" && !RawToken(s, after).0.Bad?
    ensures var (t, n) := RawToken(s, after); Spells(s[..n], t, after) && Longest(s, n, after) && !HalfHex(s)
  {
    HalfHexBad(s, after);
    var c := s[0];
    if SignStart(c) {
      SignSound(s, after);
    } else if IsAlpha(c) || c == '_' || c == '\'' {
      NameSound(s, after);
    } else if (c == '&' || c == '%') && after {
      OperatorSound(s, after);
    } else if c == '#' || c == '$' || c == '&' {
      DigitsSound(s, after, 1, Hex, 16);
    } else if c == '%' {
      DigitsSound(s, after, 1, Binary2, 2);
    } else if |s| > 1 && c == '0' && (s[1] == 'x' || s[1] == 'X') {
      DigitsSound(s, after, 2, Hex, 16);
    } else if InClass(c, Decimal) {
      DigitsSound(s, after, 0, Decimal, 10);
    }
  }

  lemma HalfHexBad(s: string, after: bool)
    requires s != ""
    ensures HalfHex(s) ==> RawToken(s, after).0.Bad?
  {
    if HalfHex(s) {
      assert NumberStart(s, after, 2, Hex, 16);
      NumberRaw(s, after, 2, Hex, 16);
    }
  }

  /** Where some piece is a token, the tokenizer finds one. */
  lemma TokenFound(s: string, after: bool, m: nat, u: Token)
    requires 1 <= m <= |s| && Spells(s[..m], u, after) && !HalfHex(s)
    ensures !RawToken(s, after).0.Bad?
  {
    var c, p := s[0], s[..m];
    assert p[0] == c && (m > 1 ==> p[1] == s[1]);
    if c == '#' || c == '$' || (c == '&' && !after) {
      DigitsFound(s, after, 1, Hex, 16, m, u);
    } else if c == '%' && !after {
      DigitsFound(s, after, 1, Binary2, 2, m, u);
    } else if |s| > 1 && c == '0' && (s[1] == 'x' || s[1] == 'X') {
      NumberRaw(s, after, 2, Hex, 16);
    } else if InClass(c, Decimal) {
      NumberRaw(s, after, 0, Decimal, 10);
    } else if c == '!' {
      assert p == "!=";
    }
  }

  lemma DigitsFound(s: string, after: bool, skip: nat, k: CharClass, base: nat, m: nat, u: Token)
    requires skip == 1 && NumberStart(s, after, skip, k, base) && 1 <= m <= |s| && Spells(s[..m], u, after)
    ensures !RawToken(s, after).0.Bad?
  {
    hide RawToken, NumberValue;
    var p := s[..m];
    assert p[0] == s[0];
    NumberRaw(s, after, skip, k, base);
    assert m > 1;
    LongPrefixed(p, u, after);
    assert p[1..][0] == s[1..][0];
    var message :| RawToken(s, after) == NumberToken(s, k, base, skip, message);
  }

  /** The tokenizer takes a piece for a token if and only if it is a spelling of
      that token and no longer piece is one of any, "0x" apart. */
  lemma TokenExactly(s: string, after: bool, t: Token, n: nat)
    requires 1 <= n <= |s| && !t.Bad?
    ensures RawToken(s, after) == (t, n) <==> Spells(s[..n], t, after) && Longest(s, n, after) && !HalfHex(s)
  {
    hide RawToken, Spells, HalfHex;
    if RawToken(s, after) == (t, n) {
      RawSound(s, after);
    }
    if Spells(s[..n], t, after) && Longest(s, n, after) && !HalfHex(s) {
      TokenFound(s, after, n, t);
      RawSound(s, after);
      var (u, m) := RawToken(s, after);
      assert m == n;
      OneToken(s[..n], t, u, after);
    }
  }
}
