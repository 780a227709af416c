/** The grammar of breakpoint expressions, as written down beside the parser,
    and the parser's agreement with it. */
module ExprGrammar {
  import opened Wrappers
  import opened Expr
  import opened ExprProofs

  // ----- the grammar

  /** A derivation: what was written, parentheses, signs and spellings included. */
  datatype Syntax =
    | Digits(value: int)
    | Name(name: string)
    | Group(inner: Syntax)
    | Apply(name: string, arg: Syntax)
    | Negate(operand: Syntax)
    | Invert(word: string, operand: Syntax)
    | Infix(op: BinaryOp, sign: Token, left: Syntax, right: Syntax)

  /** The spellings of an operator. */
  predicate Denotes(t: Token, op: BinaryOp) {
    match op
    case Add => t == Plus
    case Sub => t == Minus
    case Mul => t == Star
    case Div => t == Slash
    case Mod => IsWord(t, "mod")
    case And => IsWord(t, "and")
    case Or => IsWord(t, "or")
    case Xor => IsWord(t, "xor")
    case Less => t == Lt
    case LessEq => t == Le
    case Equal => t == Eq
    case GreaterEq => t == Ge
    case Greater => t == Gt
    case NotEqual => t == Ne
  }

  predicate IsComparison(op: BinaryOp) { Level(op) == 3 }

  /** s can stand where the grammar asks for an expression of that level. Level 0
      is a name, a number, a call, a group, or any of them behind 'not's and
      signs. An operator of level n takes a looser or equal operand on its left
      and a strictly tighter one on its right; a comparison takes tighter ones
      on both sides. */
  predicate Derives(level: nat, s: Syntax)
    decreases s
  {
    match s
    case Digits(_) => true
    case Name(n) => Lower(n) != "not"
    case Group(x) => Derives(6, x)
    case Apply(n, x) => Lower(n) != "not" && Derives(6, x)
    case Negate(x) => Derives(0, x)
    case Invert(w, x) => Lower(w) == "not" && Derives(0, x)
    case Infix(op, t, l, r) =>
      && Level(op) <= level && Denotes(t, op)
      && Derives(if IsComparison(op) then 2 else Level(op), l)
      && Derives(Level(op) - 1, r)
  }

  /** The tokens of a derivation. */
  function Yield(s: Syntax): (r: seq<Token>)
    ensures r != []
  {
    match s
    case Digits(v) => [Number(v)]
    case Name(n) => [Ident(n)]
    case Group(x) => [LParen] + Yield(x) + [RParen]
    case Apply(n, x) => [Ident(n)] + [LParen] + Yield(x) + [RParen]
    case Negate(x) => [Minus] + Yield(x)
    case Invert(w, x) => [Ident(w)] + Yield(x)
    case Infix(_, t, l, r) => Yield(l) + [t] + Yield(r)
  }

  /** The tree a derivation stands for. A sign subtracts from zero. */
  function Meaning(s: Syntax): Expr {
    match s
    case Digits(v) => Literal(v)
    case Name(n) => Variable(n)
    case Group(x) => Meaning(x)
    case Apply(n, x) => Call(Lower(n), Meaning(x))
    case Negate(x) => Binary(Sub, Literal(0), Meaning(x))
    case Invert(_, x) => Not(Meaning(x))
    case Infix(op, _, l, r) => Binary(op, Meaning(l), Meaning(r))
  }

  // ----- operators and levels

  /** From the tightest to the loosest; words are compared in lower case. */
  lemma Precedence(op: BinaryOp, word: string, i: nat)
    ensures Level(op) == 1 <==> op == Mul || op == Div || op == Mod
    ensures Level(op) == 2 <==> op == Add || op == Sub
    ensures Level(op) == 4 <==> op == And
    ensures Level(op) == 5 <==> op == Xor
    ensures Level(op) == 6 <==> op == Or
    ensures Level(op) == 3 <==> op in {Less, LessEq, Equal, GreaterEq, Greater, NotEqual}
    ensures i < |word| ==>
      Lower(word)[i] as int == word[i] as int + (if 'A' <= word[i] <= 'Z' then 32 else 0)
  {
  }

  lemma LevelRange(op: BinaryOp)
    ensures 1 <= Level(op) <= 6
  {
  }

  lemma OpAtExactly(k: nat, t: Token, op: BinaryOp)
    ensures OpAt(k, t) == Some(op) <==> Denotes(t, op) && Level(op) == k
  {
  }

  lemma OnlyThere(t: Token, op: BinaryOp, k: nat)
    requires Denotes(t, op)
    ensures OpAt(k, t) == if k == Level(op) then Some(op) else None
    ensures t != LParen
  {
    OpAtExactly(Level(op), t, op);
    if OpAt(k, t).Some? {
      OpAtExactly(k, t, OpAt(k, t).value);
      OneMeaning(t, op, OpAt(k, t).value);
    }
  }

  lemma OneMeaning(t: Token, a: BinaryOp, b: BinaryOp)
    requires Denotes(t, a) && Denotes(t, b)
    ensures a == b
  {
  }

  lemma {:induction false} DerivesLooser(j: nat, k: nat, s: Syntax)
    requires j <= k && Derives(j, s)
    ensures Derives(k, s)
  {
  }

  // ----- every derivation is parsed

  lemma SignStops(level: nat, op: BinaryOp, t: Token, rest: seq<Token>)
    requires Denotes(t, op) && level < Level(op)
    ensures Stops(level, [t] + rest)
  {
    forall k | 1 <= k <= level ensures OpAt(k, t).None? { OnlyThere(t, op, k); }
    OnlyThere(t, op, 0);
  }

  lemma CloseStops(level: nat, rest: seq<Token>)
    ensures Stops(level, [RParen] + rest)
  {
  }

  lemma FewerStop(j: nat, k: nat, rest: seq<Token>)
    requires j <= k && Stops(k, rest)
    ensures Stops(j, rest)
  {
  }

  lemma UnaryMinus(ts: seq<Token>, e: Expr, rest: seq<Token>)
    requires ParseUnary(ts) == Ok(e, rest)
    ensures ParseUnary([Minus] + ts) == Ok(Binary(Sub, Literal(0), e), rest)
  {
    assert ([Minus] + ts)[1..] == ts;
  }

  lemma UnaryWord(w: string, ts: seq<Token>, e: Expr, rest: seq<Token>)
    requires Lower(w) == "not" && ParseUnary(ts) == Ok(e, rest)
    ensures ParseUnary([Ident(w)] + ts) == Ok(Not(e), rest)
  {
    assert ([Ident(w)] + ts)[1..] == ts;
  }

  lemma UnaryName(n: string, rest: seq<Token>)
    requires Lower(n) != "not" && (rest != [] ==> rest[0] != LParen)
    ensures ParseUnary([Ident(n)] + rest) == Ok(Variable(n), rest)
  {
    assert ([Ident(n)] + rest)[1..] == rest;
  }

  lemma UnaryCall(n: string, ts: seq<Token>, e: Expr, rest: seq<Token>)
    requires Lower(n) != "not" && ParseLevel(OR_LEVEL, ts) == Ok(e, [RParen] + rest)
    ensures ParseUnary([Ident(n)] + ([LParen] + ts)) == Ok(Call(Lower(n), e), rest)
  {
    var all := [Ident(n)] + ([LParen] + ts);
    assert all[2..] == ts && all[1] == LParen;
    assert ([RParen] + rest)[1..] == rest;
  }

  /** Level 0. */
  lemma {:induction false} UnaryComplete(s: Syntax, rest: seq<Token>)
    requires Derives(0, s) && Stops(0, rest)
    ensures ParseUnary(Yield(s) + rest) == Ok(Meaning(s), rest)
    decreases s, 0, 0
  {
    hide ParseUnary, ParseLevel, Lower;
    match s
    case Digits(v) => AtomOperand(Number(v), rest);
    case Name(n) => UnaryName(n, rest);
    case Group(x) =>
      CloseStops(6, rest);
      LevelComplete(6, x, [RParen] + rest);
      AtomParen(Yield(x) + ([RParen] + rest), Meaning(x), rest);
      Associate3([LParen], Yield(x), [RParen], rest);
    case Apply(n, x) =>
      CloseStops(6, rest);
      LevelComplete(6, x, [RParen] + rest);
      UnaryCall(n, Yield(x) + ([RParen] + rest), Meaning(x), rest);
      AssociateCall([Ident(n)], [LParen], Yield(x), [RParen], rest);
    case Negate(x) =>
      UnaryComplete(x, rest);
      UnaryMinus(Yield(x) + rest, Meaning(x), rest);
      Associate2([Minus], Yield(x), rest);
    case Invert(w, x) =>
      UnaryComplete(x, rest);
      UnaryWord(w, Yield(x) + rest, Meaning(x), rest);
      Associate2([Ident(w)], Yield(x), rest);
    case Infix(op, _, _, _) =>
      LevelRange(op);
  }

  lemma Associate2<T>(a: seq<T>, b: seq<T>, c: seq<T>)
    ensures a + b + c == a + (b + c)
  {
  }

  lemma Associate3<T>(a: seq<T>, b: seq<T>, c: seq<T>, d: seq<T>)
    ensures a + b + c + d == a + (b + (c + d))
  {
  }

  /** Whatever follows, the operators of that level go on from a derivation as
      they would from its tree. */
  lemma {:induction false} ChainComplete(level: nat, s: Syntax, rest: seq<Token>)
    requires 1 <= level <= 6 && level != 3 && Derives(level, s) && Stops(level - 1, rest)
    ensures ParseLevel(level, Yield(s) + rest) == ParseRest(level, Meaning(s), rest)
    decreases s, level, 0
  {
    hide ParseLevel, ParseRest, Denotes;
    if s.Infix? && Level(s.op) == level {
      var op, t, l, r := s.op, s.sign, s.left, s.right;
      var right := Yield(r) + rest;
      SignStops(level - 1, op, t, right);
      ChainComplete(level, l, [t] + right);
      LevelComplete(level - 1, r, rest);
      RestTakes(level, Meaning(l), op, t, right, Meaning(r), rest);
      Associate3(Yield(l), [t], Yield(r), rest);
    } else {
      LevelComplete(level - 1, s, rest);
      LevelFrom(level, Yield(s) + rest, Meaning(s), rest);
    }
  }

  lemma LevelFrom(level: nat, ts: seq<Token>, e: Expr, rest: seq<Token>)
    requires 1 <= level <= 6 && ParseLevel(level - 1, ts) == Ok(e, rest)
    ensures ParseLevel(level, ts) == ParseRest(level, e, rest)
  {
  }

  lemma RestTakes(level: nat, left: Expr, op: BinaryOp, t: Token, ts: seq<Token>, right: Expr, rest: seq<Token>)
    requires 1 <= level <= 6 && Level(op) == level && Denotes(t, op)
    requires ParseLevel(level - 1, ts) == Ok(right, rest)
    ensures ParseRest(level, left, [t] + ts)
      == if level == 3 then Ok(Binary(op, left, right), rest) else ParseRest(level, Binary(op, left, right), rest)
  {
    OnlyThere(t, op, level);
    assert ([t] + ts)[1..] == ts;
  }

  lemma RestStops(level: nat, left: Expr, rest: seq<Token>)
    requires 1 <= level <= 6 && Stops(level, rest)
    ensures ParseRest(level, left, rest) == Ok(left, rest)
  {
  }

  lemma {:induction false} LevelComplete(level: nat, s: Syntax, rest: seq<Token>)
    requires level <= 6 && Derives(level, s) && Stops(level, rest)
    ensures ParseLevel(level, Yield(s) + rest) == Ok(Meaning(s), rest)
    decreases s, level, 1
  {
    hide ParseLevel, ParseRest, Denotes, Stops;
    if level == 0 {
      UnaryComplete(s, rest);
      LevelZero(Yield(s) + rest);
    } else if level == 3 && s.Infix? && Level(s.op) == 3 {
      ComparisonComplete(s, rest);
    } else if s.Infix? && Level(s.op) == level {
      FewerStop(level - 1, level, rest);
      ChainComplete(level, s, rest);
      RestStops(level, Meaning(s), rest);
    } else {
      FewerStop(level - 1, level, rest);
      LevelComplete(level - 1, s, rest);
      LevelFrom(level, Yield(s) + rest, Meaning(s), rest);
      RestStops(level, Meaning(s), rest);
    }
  }

  lemma LevelZero(ts: seq<Token>)
    ensures ParseLevel(0, ts) == ParseUnary(ts)
  {
  }

  lemma ComparisonComplete(s: Syntax, rest: seq<Token>)
    requires s.Infix? && Level(s.op) == 3 && Derives(3, s) && Stops(3, rest)
    ensures ParseLevel(3, Yield(s) + rest) == Ok(Meaning(s), rest)
    decreases s, 3, 0
  {
    hide ParseLevel, ParseRest, Denotes;
    var op, t, l, r := s.op, s.sign, s.left, s.right;
    var right := Yield(r) + rest;
    SignStops(2, op, t, right);
    FewerStop(2, 3, rest);
    LevelComplete(2, l, [t] + right);
    LevelComplete(2, r, rest);
    LevelFrom(3, Yield(l) + ([t] + right), Meaning(l), [t] + right);
    RestTakes(3, Meaning(l), op, t, right, Meaning(r), rest);
    Associate3(Yield(l), [t], Yield(r), rest);
  }

  // ----- and nothing else is

  /** The tokens a parse has taken have a derivation with its meaning. */
  lemma {:induction false} LevelSound(level: nat, ts: seq<Token>) returns (s: Syntax)
    requires level <= 6 && ParseLevel(level, ts).Ok?
    ensures Derives(level, s) && Meaning(s) == ParseLevel(level, ts).expr
    ensures Yield(s) + ParseLevel(level, ts).rest == ts
    decreases |ts|, level + 2
  {
    hide Denotes, Lower;
    if level == 0 {
      s := UnarySound(ts);
    } else {
      var l := LevelSound(level - 1, ts);
      var p := ParseLevel(level - 1, ts);
      DerivesLooser(level - 1, level, l);
      s := RestSound(level, l, p.rest);
    }
  }

  lemma {:induction false} RestSound(level: nat, left: Syntax, ts: seq<Token>) returns (s: Syntax)
    requires 1 <= level <= 6 && ParseRest(level, Meaning(left), ts).Ok?
    requires Derives(if level == 3 then 2 else level, left) && Derives(level, left)
    ensures var p := ParseRest(level, Meaning(left), ts);
      Derives(level, s) && Meaning(s) == p.expr && Yield(s) + p.rest == Yield(left) + ts
    decreases |ts|, 0
  {
    hide Denotes, Lower;
    if ts == [] || OpAt(level, ts[0]).None? {
      s := left;
    } else {
      var op, t := OpAt(level, ts[0]).value, ts[0];
      OpAtExactly(level, t, op);
      var r := LevelSound(level - 1, ts[1..]);
      var p := ParseLevel(level - 1, ts[1..]);
      s := Infix(op, t, left, r);
      assert ts == [t] + ts[1..];
      Associate3(Yield(left), [t], Yield(r), p.rest);
      if level != CMP_LEVEL {
        s := RestSound(level, s, p.rest);
      }
    }
  }

  lemma {:induction false} UnarySound(ts: seq<Token>) returns (s: Syntax)
    requires ParseUnary(ts).Ok?
    ensures Derives(0, s) && Meaning(s) == ParseUnary(ts).expr && Yield(s) + ParseUnary(ts).rest == ts
    decreases |ts|, 1
  {
    hide Lower;
    if ts != [] && IsWord(ts[0], "not") {
      var x := UnarySound(ts[1..]);
      s := Invert(ts[0].name, x);
      Associate2([ts[0]], Yield(x), ParseUnary(ts[1..]).rest);
      assert ts == [ts[0]] + ts[1..];
    } else if ts != [] && ts[0] == Minus {
      var x := UnarySound(ts[1..]);
      s := Negate(x);
      Associate2([ts[0]], Yield(x), ParseUnary(ts[1..]).rest);
      assert ts == [ts[0]] + ts[1..];
    } else {
      s := AtomSound(ts);
    }
  }

  lemma {:induction false} AtomSound(ts: seq<Token>) returns (s: Syntax)
    requires ParseAtom(ts).Ok? && (ts != [] ==> !IsWord(ts[0], "not"))
    ensures Derives(0, s) && Meaning(s) == ParseAtom(ts).expr && Yield(s) + ParseAtom(ts).rest == ts
    decreases |ts|, 0
  {
    hide Lower;
    var t := ts[0];
    assert ts == [t] + ts[1..];
    if t.Number? {
      s := Digits(t.value);
    } else if t == LParen {
      var x := LevelSound(6, ts[1..]);
      s := Group(x);
      var p := ParseLevel(6, ts[1..]);
      assert p.rest == [RParen] + p.rest[1..];
      Associate3([LParen], Yield(x), [RParen], p.rest[1..]);
    } else if |ts| > 1 && ts[1] == LParen {
      var x := LevelSound(6, ts[2..]);
      s := Apply(t.name, x);
      var p := ParseLevel(6, ts[2..]);
      assert p.rest == [RParen] + p.rest[1..];
      assert ts == [t] + ([LParen] + ts[2..]);
      AssociateCall([t], [LParen], Yield(x), [RParen], p.rest[1..]);
    } else {
      s := Name(t.name);
    }
  }

  // ----- the whole parser

  /** A text is accepted with a tree if and only if its tokens have a derivation
      from the grammar that means this tree, and its names are known. */
  lemma ParseExactly(input: string, e: Expr)
    ensures ParseExpression(input) == Tree(e) <==>
      && ValidateNames(e).None?
      && exists s :: Derives(6, s) && Yield(s) == Tokens(input, false) && Meaning(s) == e
  {
    hide Denotes, Tokens, ParseLevel, ValidateNames, Derives, Yield, Meaning;
    var ts := Tokens(input, false);
    if ParseExpression(input) == Tree(e) {
      var s := LevelSound(6, ts);
      assert Yield(s) + [] == Yield(s);
    }
    forall s | Derives(6, s) && Yield(s) == ts && Meaning(s) == e ensures ParseLevel(6, ts) == Ok(e, []) {
      LevelComplete(6, s, []);
      assert Yield(s) + [] == Yield(s);
    }
  }

  /** The grammar is unambiguous: one text, one meaning. */
  lemma Unambiguous(s: Syntax, u: Syntax)
    requires Derives(6, s) && Derives(6, u) && Yield(s) == Yield(u)
    ensures Meaning(s) == Meaning(u)
  {
    LevelComplete(6, s, []);
    LevelComplete(6, u, []);
    assert Yield(s) + [] == Yield(s) && Yield(u) + [] == Yield(u);
  }

  // ----- as few parentheses as possible

  /** A tree written with parentheses only where its own levels ask for them: a
      left operand if it binds looser, a right one if it binds looser or alike,
      a comparison in a comparison always. */
  function Sparse(level: nat, e: Expr): Syntax
    decreases e, 1
  {
    if e.Binary? && Level(e.op) > level then Group(Bare(e)) else Bare(e)
  }

  function Bare(e: Expr): Syntax
    decreases e, 0
  {
    match e
    case Literal(v) => Digits(v)
    case Variable(n) => Name(n)
    case Not(x) => Invert("not", Sparse(0, x))
    case Call(n, x) => Apply(n, Sparse(6, x))
    case Binary(op, l, r) =>
      Infix(op, OpToken(op), Sparse(if IsComparison(op) then 2 else Level(op), l), Sparse(Level(op) - 1, r))
  }

  lemma {:induction false} SparseDerives(level: nat, e: Expr)
    requires level <= 6 && WellFormed(e)
    ensures Derives(level, Sparse(level, e)) && Meaning(Sparse(level, e)) == e
    decreases e, 1
  {
    hide KnownVariable, KnownFunction, Lower;
    BareDerives(e);
    if e.Binary? { LevelRange(e.op); }
    DerivesLooser(if e.Binary? then Level(e.op) else 0, 6, Bare(e));
    if !(e.Binary? && Level(e.op) > level) {
      DerivesLooser(if e.Binary? then Level(e.op) else 0, level, Bare(e));
    }
  }

  lemma {:induction false} BareDerives(e: Expr)
    requires WellFormed(e)
    ensures Derives(if e.Binary? then Level(e.op) else 0, Bare(e)) && Meaning(Bare(e)) == e
    decreases e, 0
  {
    hide KnownVariable, KnownFunction, Lower;
    match e
    case Literal(_) =>
    case Variable(n) => KnownVariableIsIdent(n); NotKeyword(n);
    case Not(x) => SparseDerives(0, x); WordNot();
    case Call(n, x) => SparseDerives(6, x); KnownFunctionIsIdent(n); NotKeyword(n);
    case Binary(op, l, r) =>
      LevelRange(op);
      OwnToken(op);
      SparseDerives(if IsComparison(op) then 2 else Level(op), l);
      SparseDerives(Level(op) - 1, r);
  }

  lemma NotKeyword(n: string)
    requires !IsKeyword(n)
    ensures Lower(n) != "not"
  {
  }

  lemma WordNot()
    ensures Lower("not") == "not"
  {
  }

  lemma OwnToken(op: BinaryOp)
    ensures Denotes(OpToken(op), op)
  {
    assert Lower("mod") == "mod" && Lower("and") == "and" && Lower("or") == "or" && Lower("xor") == "xor";
  }

  /** Precedence and associativity: a well-formed tree written with as few
      parentheses as possible parses to that tree. */
  lemma SparseParses(e: Expr)
    requires WellFormed(e)
    ensures ParseLevel(6, Yield(Sparse(6, e))) == Ok(e, [])
  {
    SparseDerives(6, e);
    LevelComplete(6, Sparse(6, e), []);
    assert Yield(Sparse(6, e)) + [] == Yield(Sparse(6, e));
  }

  // ----- where '&' and '%' are operators

  /** No name of the derivation is one of the five words. */
  predicate PlainNames(s: Syntax) {
    match s
    case Digits(_) => true
    case Name(n) => !IsKeyword(n)
    case Group(x) => PlainNames(x)
    case Apply(n, x) => !IsKeyword(n) && PlainNames(x)
    case Negate(x) => PlainNames(x)
    case Invert(_, x) => PlainNames(x)
    case Infix(_, _, l, r) => PlainNames(l) && PlainNames(r)
  }

  function Final(ts: seq<Token>): Token
    requires ts != []
  {
    ts[|ts| - 1]
  }

  /** Every operand ends with a token that says so, */
  lemma {:induction false} OperandEnds(s: Syntax)
    requires PlainNames(s)
    ensures EndsOperand(Final(Yield(s)))
  {
    hide IsKeyword;
    match s
    case Digits(_) =>
    case Name(_) =>
    case Group(_) =>
    case Apply(_, _) =>
    case Negate(x) => OperandEnds(x);
    case Invert(_, x) => OperandEnds(x);
    case Infix(_, _, _, r) => OperandEnds(r);
  }

  /** and no token that stands in front of an operand does. */
  lemma OperandAwaited(t: Token, op: BinaryOp)
    requires Denotes(t, op) || IsWord(t, "not") || t == LParen || t == Minus
    ensures !EndsOperand(t)
  {
  }
}
