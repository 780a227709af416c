/** Printing an expression and parsing it again gives the same tree. */
module ExprProofs {
  import opened Wrappers
  import opened Expr

  /** Trees whose literals fit 32 bits and whose names are known. */
  predicate WellFormed(e: Expr) {
    match e
    case Literal(v) => IsInt32(v)
    case Variable(n) => KnownVariable(n)
    case Not(x) => WellFormed(x)
    case Binary(_, l, r) => WellFormed(l) && WellFormed(r)
    case Call(n, x) => KnownFunction(n) && WellFormed(x)
  }

  // ----- the tokens of a printed tree

  function OpToken(op: BinaryOp): Token {
    match op
    case Add => Plus
    case Sub => Minus
    case Mul => Star
    case Div => Slash
    case Mod => Ident("mod")
    case And => Ident("and")
    case Or => Ident("or")
    case Xor => Ident("xor")
    case Less => Lt
    case LessEq => Le
    case Equal => Eq
    case GreaterEq => Ge
    case Greater => Gt
    case NotEqual => Ne
  }

  function Level(op: BinaryOp): nat {
    match op
    case Mul => 1
    case Div => 1
    case Mod => 1
    case Add => 2
    case Sub => 2
    case And => 4
    case Xor => 5
    case Or => 6
    case _ => 3
  }

  function Toks(e: Expr): (r: seq<Token>)
    ensures r != []
  {
    match e
    case Literal(v) => [Number(v)]
    case Variable(n) => [Ident(n)]
    case Not(x) => [Ident("not")] + Toks(x)
    case Binary(op, l, r) => [LParen] + Toks(l) + [OpToken(op)] + Toks(r) + [RParen]
    case Call(n, x) => [Ident(n)] + [LParen] + Toks(x) + [RParen]
  }

  // ----- names and numbers as tokens

  lemma {:induction false} SpanPrefix(s: string, t: string, k: CharClass)
    requires forall i :: 0 <= i < |s| ==> InClass(s[i], k)
    requires t != "" ==> !InClass(t[0], k)
    ensures Span(s + t, k) == |s|
  {
    if s == "" {
      assert s + t == t;
    } else {
      SpanPrefix(s[1..], t, k);
      assert (s + t)[1..] == s[1..] + t;
    }
  }

  predicate IsIdent(s: string) {
    s != "" && IsAlpha(s[0]) && forall i :: 0 <= i < |s| ==> InClass(s[i], IdentChar)
  }

  lemma LowerClass(s: string, i: nat)
    requires i < |s|
    ensures InClass(Lower(s)[i], IdentChar) ==> InClass(s[i], IdentChar)
    ensures IsAlpha(Lower(s)[i]) ==> IsAlpha(s[i])
  {
  }

  lemma RegisterIsIdent(n: string)
    requires IsRegister(n)
    ensures IsIdent(n)
    ensures n != "and" && n != "or" && n != "xor" && n != "mod" && n != "not"
  {
  }

  lemma StateIsIdent(n: string)
    requires IsState(n)
    ensures IsIdent(n)
    ensures n != "and" && n != "or" && n != "xor" && n != "mod" && n != "not"
  {
  }

  lemma KnownVariableIsIdent(n: string)
    requires KnownVariable(n)
    ensures IsIdent(n) && !IsKeyword(n)
  {
    var l := Lower(n);
    if IsRegister(l) { RegisterIsIdent(l); } else { StateIsIdent(l); }
    forall i | 0 <= i < |n| ensures InClass(n[i], IdentChar) { LowerClass(n, i); }
    LowerClass(n, 0);
  }

  lemma KnownFunctionIsIdent(n: string)
    requires KnownFunction(n)
    ensures IsIdent(n) && !IsKeyword(n) && Lower(n) == n
  {
    forall i | 0 <= i < |n| ensures InClass(n[i], IdentChar) && ToLower(n[i]) == n[i] { }
    assert Lower(n) == n;
  }

  lemma {:induction false} DecimalValue(n: nat)
    ensures forall i :: 0 <= i < |DecimalDigits(n)| ==> InClass(DecimalDigits(n)[i], Hex)
    ensures NumberValue(DecimalDigits(n), 10) == n
  {
    var s := DecimalDigits(n);
    assert forall i :: 0 <= i < |s| ==> InClass(s[i], Decimal);
    if n < 10 {
      assert s[..0] == "";
    } else {
      DecimalValue(n / 10);
      assert s[..|s| - 1] == DecimalDigits(n / 10);
    }
  }

  lemma {:induction false} HexValue(n: nat)
    ensures NumberValue(HexDigits(n), 16) == n
  {
    var s := HexDigits(n);
    if n < 16 {
      assert s[..0] == "";
    } else {
      HexValue(n / 16);
      assert s[..|s| - 1] == HexDigits(n / 16);
    }
  }

  // ----- lexing printed text

  /** One token, given that it is the one at the front. */
  lemma LexToken(s: string, t: string, after: bool, tok: Token)
    requires s != "" && !InClass(s[0], Space)
    requires RawToken(s + t, after) == (tok, |s|)
    ensures Tokens(s + t, after) == [tok] + Tokens(t, EndsOperand(tok))
  {
  }

  lemma LexSpace(t: string, after: bool)
    ensures Tokens(" " + t, after) == Tokens(t, after)
  {
    var u := " " + t;
    assert u[1..] == t;
    assert Span(u, Space) == 1 + Span(t, Space);
    assert SkipSpace(u) == SkipSpace(t);
  }

  lemma LexIdent(n: string, t: string, after: bool)
    requires IsIdent(n)
    requires t != "" ==> !InClass(t[0], IdentChar)
    ensures Tokens(n + t, after) == [Ident(n)] + Tokens(t, !IsKeyword(n))
  {
    SpanPrefix(n, t, IdentChar);
    var u := n + t;
    assert u[0] == n[0];
    assert u[..|n|] == n;
    LexToken(n, t, after, Ident(n));
  }

  /** Characters that may follow an operand in printed text. */
  predicate Boundary(t: string) {
    t == "" || t[0] == ')' || t[0] == '+' || t[0] == '-' || t[0] == '*' || t[0] == '/'
    || t[0] == '<' || t[0] == '=' || t[0] == '>' || t[0] == ' '
  }

  lemma LexHex(m: nat, t: string, after: bool)
    requires Boundary(t)
    ensures Tokens("#" + HexDigits(m) + t, after) == [Number(ToInt32(m))] + Tokens(t, true)
  {
    var digits := HexDigits(m);
    var s := "#" + digits;
    var u := s + t;
    HexValue(m);
    SpanPrefix(digits, t, Hex);
    assert u[0] == '#' && u[1..] == digits + t;
    assert u[1..][..|digits|] == digits;
    LexToken(s, t, after, Number(ToInt32(m)));
  }

  lemma LexDecimal(m: nat, t: string, after: bool)
    requires Boundary(t)
    ensures Tokens(DecimalDigits(m) + t, after) == [Number(ToInt32(m))] + Tokens(t, true)
  {
    var s := DecimalDigits(m);
    var u := s + t;
    DecimalValue(m);
    SpanPrefix(s, t, Decimal);
    assert u[0] == s[0] && InClass(u[0], Decimal);
    assert |u| > 1 ==> u[1] == if |s| > 1 then s[1] else t[0];
    assert u[0..] == u && u[..|s|] == s;
    assert RawToken(u, after) == NumberToken(u, Decimal, 10, 0, "");
    LexToken(s, t, after, Number(ToInt32(m)));
  }

  lemma LexLiteral(v: int, t: string, after: bool)
    requires IsInt32(v) && Boundary(t)
    ensures Tokens(LiteralText(v) + t, after) == [Number(v)] + Tokens(t, true)
  {
    if v < 0 || v > 255 {
      LexHex(v % 0x1_0000_0000, t, after);
      Int32Bits(v);
    } else {
      LexDecimal(v, t, after);
      Int32Bits(v);
    }
  }

  lemma Int32Bits(v: int)
    requires IsInt32(v)
    ensures ToInt32(v % 0x1_0000_0000) == v
    ensures v >= 0 ==> ToInt32(v) == v
  {
  }

  lemma LexOpen(t: string, after: bool)
    ensures Tokens("(" + t, after) == [LParen] + Tokens(t, false)
  {
  }

  lemma LexClose(t: string, after: bool)
    ensures Tokens(")" + t, after) == [RParen] + Tokens(t, true)
  {
    LexToken(")", t, after, RParen);
  }

  lemma LexOp(op: BinaryOp, t: string, after: bool)
    requires t != "" && t[0] != '=' && t[0] != '>'
    ensures Tokens(OpText(op) + t, after) == [OpToken(op)] + Tokens(t, false)
  {
    hide Tokens;
    var s := OpText(op);
    if op.Mod? || op.And? || op.Or? || op.Xor? {
      var word := OpToken(op).name;
      assert s == " " + word + " ";
      assert s + t == " " + (word + (" " + t));
      LexSpace(word + (" " + t), after);
      assert IsIdent(word) && Lower(word) == word && IsKeyword(word);
      LexIdent(word, " " + t, after);
      LexSpace(t, false);
    } else {
      assert (s + t)[|s|] == t[0];
      LexToken(s, t, after, OpToken(op));
    }
  }

  /** Printed text starts like an operand. */
  lemma {:induction false} PrintStart(e: Expr)
    requires WellFormed(e)
    ensures Print(e) != ""
    ensures Print(e)[0] != '=' && Print(e)[0] != '>'
  {
    match e
    case Literal(v) =>
      if 0 <= v <= 255 { assert InClass(DecimalDigits(v)[0], Decimal); }
    case Variable(n) => KnownVariableIsIdent(n);
    case Not(x) =>
    case Binary(op, l, r) =>
    case Call(n, x) => KnownFunctionIsIdent(n);
  }

  /** Printed text lexes to the tokens of the tree, whatever follows it. */
  lemma {:induction false} LexPrint(e: Expr, t: string, after: bool)
    requires WellFormed(e) && Boundary(t)
    ensures Tokens(Print(e) + t, after) == Toks(e) + Tokens(t, true)
    decreases e, 1
  {
    hide Tokens, KnownVariable, KnownFunction;
    match e
    case Literal(v) =>
      LexLiteral(v, t, after);
    case Variable(n) =>
      KnownVariableIsIdent(n);
      LexIdent(n, t, after);
    case Not(x) =>
      LexNot(x, t, after);
    case Binary(op, l, r) =>
      LexBinary(op, l, r, t, after);
    case Call(n, x) =>
      KnownFunctionIsIdent(n);
      LexCall(n, x, t, after);
  }

  lemma LexNot(x: Expr, t: string, after: bool)
    requires WellFormed(x) && Boundary(t)
    ensures Tokens(Print(Not(x)) + t, after) == Toks(Not(x)) + Tokens(t, true)
    decreases Not(x), 0
  {
    hide Tokens, KnownVariable, KnownFunction;
    var rest := Print(x) + t;
    assert Print(Not(x)) + t == "not" + (" " + rest);
    assert IsIdent("not") && Lower("not") == "not";
    LexIdent("not", " " + rest, after);
    LexSpace(rest, false);
    LexPrint(x, t, false);
  }

  lemma AssociateCall<T>(a: seq<T>, b: seq<T>, c: seq<T>, d: seq<T>, e: seq<T>)
    ensures a + b + c + d + e == a + (b + (c + (d + e)))
  {
  }

  lemma LexCall(n: string, x: Expr, t: string, after: bool)
    requires IsIdent(n) && !IsKeyword(n) && WellFormed(x) && Boundary(t)
    ensures Tokens(Print(Call(n, x)) + t, after) == Toks(Call(n, x)) + Tokens(t, true)
    decreases Call(n, x), 0
  {
    hide Tokens, KnownVariable, KnownFunction;
    var close := ")" + t;
    var rest := Print(x) + close;
    AssociateCall(n, "(", Print(x), ")", t);
    LexIdent(n, "(" + rest, after);
    LexOpen(rest, true);
    LexPrint(x, close, false);
    LexClose(t, true);
    AssociateCall([Ident(n)], [LParen], Toks(x), [RParen], Tokens(t, true));
  }

  lemma Associate<T>(a: seq<T>, b: seq<T>, c: seq<T>, d: seq<T>, e: seq<T>, f: seq<T>)
    ensures a + b + c + d + e + f == a + (b + (c + (d + (e + f))))
  {
  }

  lemma LexBinary(op: BinaryOp, l: Expr, r: Expr, t: string, after: bool)
    requires WellFormed(l) && WellFormed(r) && Boundary(t)
    ensures Tokens(Print(Binary(op, l, r)) + t, after) == Toks(Binary(op, l, r)) + Tokens(t, true)
    decreases Binary(op, l, r), 0
  {
    hide Tokens, KnownVariable, KnownFunction;
    var close := ")" + t;
    var right := Print(r) + close;
    var rest := OpText(op) + right;
    Associate("(", Print(l), OpText(op), Print(r), ")", t);
    LexOpen(Print(l) + rest, after);
    assert Boundary(rest);
    LexPrint(l, rest, false);
    PrintStart(r);
    LexOp(op, right, true);
    LexPrint(r, close, false);
    LexClose(t, true);
    Associate([LParen], Toks(l), [OpToken(op)], Toks(r), [RParen], Tokens(t, true));
  }

  // ----- parsing the tokens of a tree

  lemma OpTokenLevel(op: BinaryOp, k: nat)
    ensures OpAt(k, OpToken(op)) == if k == Level(op) then Some(op) else None
    ensures OpToken(op) != LParen
  {
    assert Lower("mod") == "mod" && Lower("and") == "and" && Lower("or") == "or" && Lower("xor") == "xor";
  }

  /** Nothing in front of these tokens can be continued by an operator of that level or below. */
  predicate Stops(level: nat, ts: seq<Token>) {
    ts != [] ==> ts[0] != LParen && forall k :: 1 <= k <= level ==> OpAt(k, ts[0]).None?
  }

  lemma UnaryNot(ts: seq<Token>, e: Expr, rest: seq<Token>)
    requires ParseUnary(ts) == Ok(e, rest)
    ensures ParseUnary([Ident("not")] + ts) == Ok(Not(e), rest)
  {
    assert Lower("not") == "not";
    assert ([Ident("not")] + ts)[1..] == ts;
  }

  lemma AtomParen(ts: seq<Token>, e: Expr, rest: seq<Token>)
    requires ParseLevel(OR_LEVEL, ts) == Ok(e, [RParen] + rest)
    ensures ParseUnary([LParen] + ts) == Ok(e, rest)
  {
  }

  lemma AtomCall(n: string, ts: seq<Token>, e: Expr, rest: seq<Token>)
    requires ParseLevel(OR_LEVEL, ts) == Ok(e, [RParen] + rest) && !IsKeyword(n)
    ensures ParseUnary([Ident(n)] + ([LParen] + ts)) == Ok(Call(Lower(n), e), rest)
  {
    assert ([Ident(n)] + ([LParen] + ts))[2..] == ts;
    assert ([RParen] + rest)[1..] == rest;
  }

  lemma {:induction false} ParseToks(e: Expr, rest: seq<Token>)
    requires WellFormed(e) && Stops(0, rest)
    ensures ParseUnary(Toks(e) + rest) == Ok(e, rest)
    decreases e, 0
  {
    hide KnownVariable, KnownFunction, ParseUnary;
    var ts := Toks(e) + rest;
    match e
    case Literal(v) =>
      AtomOperand(Number(v), rest);
    case Variable(n) =>
      KnownVariableIsIdent(n);
      AtomOperand(Ident(n), rest);
    case Not(x) =>
      ParseToks(x, rest);
      UnaryNot(Toks(x) + rest, x, rest);
      assert ts == [Ident("not")] + (Toks(x) + rest);
    case Binary(op, l, r) =>
      var close := [RParen] + rest;
      Associate([LParen], Toks(l), [OpToken(op)], Toks(r), [RParen], rest);
      ParseInside(OR_LEVEL, op, l, r, close);
      AtomParen(Toks(l) + ([OpToken(op)] + (Toks(r) + close)), e, rest);
    case Call(n, x) =>
      KnownFunctionIsIdent(n);
      ParseAt(OR_LEVEL, x, [RParen] + rest);
      AtomCall(n, Toks(x) + ([RParen] + rest), x, rest);
      AssociateCall([Ident(n)], [LParen], Toks(x), [RParen], rest);
  }

  lemma AtomOperand(t: Token, rest: seq<Token>)
    requires t.Number? || (t.Ident? && !IsKeyword(t.name) && Stops(0, rest))
    ensures ParseUnary([t] + rest) == Ok(if t.Number? then Literal(t.value) else Variable(t.name), rest)
  {
  }

  lemma {:induction false} ParseAt(level: nat, e: Expr, rest: seq<Token>)
    requires WellFormed(e) && level <= OR_LEVEL && Stops(level, rest)
    ensures ParseLevel(level, Toks(e) + rest) == Ok(e, rest)
    decreases e, 1, level
  {
    if level == 0 {
      ParseToks(e, rest);
    } else {
      ParseAt(level - 1, e, rest);
    }
  }

  lemma {:induction false} ParseInside(level: nat, op: BinaryOp, l: Expr, r: Expr, close: seq<Token>)
    requires WellFormed(l) && WellFormed(r) && Level(op) <= level <= OR_LEVEL
    requires close != [] && close[0] == RParen
    ensures ParseLevel(level, Toks(l) + ([OpToken(op)] + (Toks(r) + close))) == Ok(Binary(op, l, r), close)
    decreases Binary(op, l, r), 0, level
  {
    hide Toks, WellFormed;
    var right := Toks(r) + close;
    var rest := [OpToken(op)] + right;
    if level > Level(op) {
      ParseInside(level - 1, op, l, r, close);
    } else {
      OpTokenLevel(op, level);
      forall k | 1 <= k <= level - 1 ensures OpAt(k, rest[0]).None? { OpTokenLevel(op, k); }
      ParseAt(level - 1, l, rest);
      ParseAt(level - 1, r, close);
      assert rest[1..] == right;
      assert level != CMP_LEVEL ==> ParseRest(level, Binary(op, l, r), close) == Ok(Binary(op, l, r), close);
      assert ParseRest(level, l, rest) == Ok(Binary(op, l, r), close);
    }
  }

  lemma {:induction false} WellFormedNames(e: Expr)
    requires WellFormed(e)
    ensures ValidateNames(e).None?
  {
    hide KnownVariable, KnownFunction;
    match e
    case Literal(v) =>
    case Variable(n) =>
    case Not(x) => WellFormedNames(x);
    case Binary(op, l, r) => WellFormedNames(l); WellFormedNames(r);
    case Call(n, x) => WellFormedNames(x);
  }

  /** Printing then parsing: every well-formed tree comes back as it was. */
  lemma PrintParse(e: Expr)
    requires WellFormed(e)
    ensures ParseExpression(Print(e)) == Tree(e)
  {
    hide KnownVariable, KnownFunction, RawToken;
    LexPrint(e, "", false);
    assert Print(e) + "" == Print(e);
    assert Tokens("", true) == [];
    assert Toks(e) + [] == Toks(e);
    ParseAt(OR_LEVEL, e, []);
    WellFormedNames(e);
  }

  // ----- every accepted input has a printable tree

  predicate GoodTokens(ts: seq<Token>) {
    forall i :: 0 <= i < |ts| && ts[i].Number? ==> IsInt32(ts[i].value)
  }

  lemma {:induction false} TokensGood(s: string, after: bool)
    ensures GoodTokens(Tokens(s, after))
    decreases |s|
  {
    var s' := SkipSpace(s);
    if s' != "" {
      var (t, n) := RawToken(s', after);
      TokensGood(s'[n..], EndsOperand(t));
      RawTokenGood(s', after);
    }
  }

  lemma RawTokenGood(s: string, after: bool)
    requires s != ""
    ensures RawToken(s, after).0.Number? ==> IsInt32(RawToken(s, after).0.value)
  {
  }

  predicate GoodLiterals(e: Expr) {
    match e
    case Literal(v) => IsInt32(v)
    case Variable(n) => true
    case Not(x) => GoodLiterals(x)
    case Binary(_, l, r) => GoodLiterals(l) && GoodLiterals(r)
    case Call(n, x) => GoodLiterals(x)
  }

  predicate GoodResult(r: Parsed) { r.Ok? ==> GoodLiterals(r.expr) && GoodTokens(r.rest) }

  lemma {:induction false} LevelGood(level: nat, ts: seq<Token>)
    requires level <= OR_LEVEL && GoodTokens(ts)
    ensures GoodResult(ParseLevel(level, ts))
    decreases |ts|, level + 2
  {
    if level == 0 {
      UnaryGood(ts);
    } else {
      LevelGood(level - 1, ts);
      var p := ParseLevel(level - 1, ts);
      if p.Ok? { RestGood(level, p.expr, p.rest); }
    }
  }

  lemma {:induction false} RestGood(level: nat, left: Expr, ts: seq<Token>)
    requires 1 <= level <= OR_LEVEL && GoodTokens(ts) && GoodLiterals(left)
    ensures GoodResult(ParseRest(level, left, ts))
    decreases |ts|, 0
  {
    if ts != [] && OpAt(level, ts[0]).Some? {
      LevelGood(level - 1, ts[1..]);
      var p := ParseLevel(level - 1, ts[1..]);
      if p.Ok? && level != CMP_LEVEL {
        RestGood(level, Binary(OpAt(level, ts[0]).value, left, p.expr), p.rest);
      }
    }
  }

  lemma {:induction false} UnaryGood(ts: seq<Token>)
    requires GoodTokens(ts)
    ensures GoodResult(ParseUnary(ts))
    decreases |ts|, 1
  {
    if ts != [] && (IsWord(ts[0], "not") || ts[0] == Minus) {
      UnaryGood(ts[1..]);
    } else {
      AtomGood(ts);
    }
  }

  lemma {:induction false} AtomGood(ts: seq<Token>)
    requires GoodTokens(ts)
    ensures GoodResult(ParseAtom(ts))
    decreases |ts|, 0
  {
    if ts != [] && ts[0] == LParen {
      LevelGood(OR_LEVEL, ts[1..]);
    } else if |ts| > 1 && ts[0].Ident? && ts[1] == LParen {
      LevelGood(OR_LEVEL, ts[2..]);
    }
  }

  lemma {:induction false} CheckedTree(e: Expr)
    requires GoodLiterals(e) && ValidateNames(e).None?
    ensures WellFormed(e)
  {
    hide KnownVariable, KnownFunction;
    match e
    case Literal(v) =>
    case Variable(n) =>
    case Not(x) => CheckedTree(x);
    case Binary(op, l, r) => CheckedTree(l); CheckedTree(r);
    case Call(n, x) => CheckedTree(x);
  }

  /** Whatever the parser accepts, printing its tree gives text that parses to
      the same tree: the printed form is a normal form of the input. */
  lemma ParsePrintParse(input: string)
    requires ParseExpression(input).Tree?
    ensures WellFormed(ParseExpression(input).expr)
    ensures ParseExpression(Print(ParseExpression(input).expr)) == ParseExpression(input)
  {
    hide KnownVariable, KnownFunction, RawToken;
    TokensGood(input, false);
    LevelGood(OR_LEVEL, Tokens(input, false));
    CheckedTree(ParseExpression(input).expr);
    PrintParse(ParseExpression(input).expr);
  }

  /** Well-formed trees are exactly those that survive the round trip. */
  lemma PrintParseExactly(e: Expr)
    ensures ParseExpression(Print(e)) == Tree(e) <==> WellFormed(e)
  {
    if WellFormed(e) { PrintParse(e); }
    if ParseExpression(Print(e)) == Tree(e) { ParsePrintParse(Print(e)); }
  }
}
