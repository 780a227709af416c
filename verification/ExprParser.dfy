/** The tokenizer and recursive-descent parser as the program runs them: one
    token of look-ahead over a moving position (src/expr_parser.cpp). */
module ExprParser {
  import opened Wrappers
  import opened Expr

  lemma TokensStep(s: string, after: bool)
    ensures SkipSpace(s) == "" ==> Tokens(s, after) == []
    ensures SkipSpace(s) != "" ==>
      var (t, n) := RawToken(SkipSpace(s), after); Tokens(s, after) == [t] + Tokens(SkipSpace(s)[n..], EndsOperand(t))
    ensures s == "" ==> SkipSpace(s) == ""
  {
    hide RawToken;
  }

  class Parser {
    const src: string
    var pos: nat
    var afterOperand: bool
    /** The current token; None at the end of the input. */
    var cur: Option<Token>
    var err: string

    constructor (input: string)
      ensures src == input && pos == 0 && !afterOperand && cur == None
    {
      src, pos, afterOperand, cur, err := input, 0, false, None, "";
    }

    ghost predicate Valid()
      reads this
    {
      pos <= |src| && (cur.None? ==> Tokens(src[pos..], afterOperand) == [])
    }

    /** The tokens still to be consumed, the current one first. */
    ghost function Remaining(): seq<Token>
      requires pos <= |src|
      reads this
    {
      (if cur.Some? then [cur.value] else []) + Tokens(src[pos..], afterOperand)
    }

    method SkipSpaces()
      requires pos <= |src|
      modifies this`pos
      ensures old(pos) <= pos <= |src|
      ensures src[pos..] == SkipSpace(src[old(pos)..])
    {
      hide InClass;
      while pos < |src| && InClass(src[pos], Space)
        invariant old(pos) <= pos <= |src|
        invariant SkipSpace(src[pos..]) == SkipSpace(src[old(pos)..])
      {
        var s := src[pos..];
        assert s[1..] == src[pos + 1..];
        assert Span(s, Space) == 1 + Span(s[1..], Space);
        assert SkipSpace(s) == SkipSpace(s[1..]);
        pos := pos + 1;
      }
      assert Span(src[pos..], Space) == 0;
    }

    /** Fetch the next token. */
    method Advance()
      requires pos <= |src|
      modifies this`pos, this`cur, this`afterOperand
      ensures Valid()
      ensures Remaining() == Tokens(src[old(pos)..], old(afterOperand))
    {
      hide Tokens, RawToken, SkipSpace, EndsOperand;
      TokensStep(src[pos..], afterOperand);
      SkipSpaces();
      if pos == |src| {
        cur, afterOperand := None, false;
        TokensStep(src[pos..], false);
        assert Tokens(src[pos..], afterOperand) == [];
      } else {
        var (t, n) := RawToken(src[pos..], afterOperand);
        assert src[pos..][n..] == src[pos + n..];
        assert pos + n <= |src|;
        cur, pos, afterOperand := Some(t), pos + n, EndsOperand(t);
        assert Valid();
      }
    }

    /** One grammar level: operands of the level below, joined by its operators.
        parse_or_expr, parse_xor_expr, parse_and_expr, parse_cmp_expr,
        parse_add_expr and parse_mul_expr are levels 6 to 1. */
    method ParseAtLevel(level: nat) returns (node: Option<Expr>)
      requires level <= OR_LEVEL && Valid()
      modifies this`pos, this`cur, this`afterOperand, this`err
      ensures Valid()
      ensures Agrees(node, ParseLevel(level, old(Remaining())))
      decreases |Remaining()|, level + 2
    {
      hide Tokens;
      if level == 0 {
        node := ParseUnaryExpr();
        return;
      }
      ghost var target := ParseLevel(level, Remaining());
      node := ParseAtLevel(level - 1);
      if node.None? {
        return;
      }
      assert ParseRest(level, node.value, Remaining()) == target;
      while cur.Some? && OpAt(level, cur.value).Some?
        invariant Valid() && node.Some?
        invariant |Remaining()| < |old(Remaining())|
        invariant ParseRest(level, node.value, Remaining()) == target
        decreases |Remaining()|
      {
        var op := OpAt(level, cur.value).value;
        ghost var ts := Remaining();
        Advance();
        assert Remaining() == ts[1..];
        var rhs := ParseAtLevel(level - 1);
        if rhs.None? {
          node := None;
          return;
        }
        node := Some(Binary(op, node.value, rhs.value));
        if level == CMP_LEVEL {
          return;
        }
      }
    }

    method ParseUnaryExpr() returns (node: Option<Expr>)
      requires Valid()
      modifies this`pos, this`cur, this`afterOperand, this`err
      ensures Valid()
      ensures Agrees(node, ParseUnary(old(Remaining())))
      decreases |Remaining()|, 1
    {
      hide Tokens;
      ghost var ts := Remaining();
      if cur.Some? && (IsWord(cur.value, "not") || cur.value == Minus) {
        var negated := cur.value == Minus;
        Advance();
        assert Remaining() == ts[1..];
        node := ParseUnaryExpr();
        if node.Some? {
          node := Some(if negated then Binary(Sub, Literal(0), node.value) else Not(node.value));
        }
      } else {
        node := ParseAtomExpr();
      }
    }

    method ParseAtomExpr() returns (node: Option<Expr>)
      requires Valid()
      modifies this`pos, this`cur, this`afterOperand, this`err
      ensures Valid()
      ensures Agrees(node, ParseAtom(old(Remaining())))
      decreases |Remaining()|, 0
    {
      hide Tokens;
      ghost var ts := Remaining();
      if cur.None? {
        err := "unexpected token";
        return None;
      }
      var t := cur.value;
      match t {
        case Number(v) =>
          Advance();
          assert Remaining() == ts[1..];
          node := Some(Literal(v));
        case LParen =>
          Advance();
          assert Remaining() == ts[1..];
          node := ParseClosed("expected ')'");
        case Ident(name) =>
          Advance();
          assert Remaining() == ts[1..];
          if cur == Some(LParen) {
            Advance();
            assert Remaining() == ts[2..];
            node := ParseClosed("expected ')' after function argument");
            if node.Some? {
              node := Some(Call(Lower(name), node.value));
            }
          } else {
            node := Some(Variable(name));
          }
        case Bad(m) =>
          err := m;
          node := None;
        case _ =>
          err := "unexpected token";
          node := None;
      }
    }

    /** A whole expression and the parenthesis that closes it. */
    method ParseClosed(message: string) returns (node: Option<Expr>)
      requires Valid()
      modifies this`pos, this`cur, this`afterOperand, this`err
      ensures Valid()
      ensures Agrees(node, Closed(ParseLevel(OR_LEVEL, old(Remaining())), message))
      decreases |Remaining()|, OR_LEVEL + 3
    {
      hide Tokens;
      node := ParseAtLevel(OR_LEVEL);
      if node.Some? {
        ghost var ts := Remaining();
        if cur != Some(RParen) {
          err := message;
          return None;
        }
        Advance();
        assert Remaining() == ts[1..];
      }
    }

    /** The parser's state and result are what the grammar says. */
    ghost predicate Agrees(node: Option<Expr>, p: Parsed)
      requires pos <= |src|
      reads this
    {
      match p
      case Ok(e, rest) => node == Some(e) && Remaining() == rest
      case Err(m) => node == None && err == m
    }
  }

  /** expr_parse. */
  method Parse(input: string) returns (r: Result)
    ensures r == ParseExpression(input)
  {
    var p := new Parser(input);
    assert input[0..] == input;
    p.Advance();
    var node := p.ParseAtLevel(OR_LEVEL);
    if node.None? {
      return Error(p.err);
    }
    if p.cur.Some? {
      return Error("unexpected token after expression");
    }
    var complaint := ValidateNames(node.value);
    if complaint.Some? {
      return Error(complaint.value);
    }
    r := Tree(node.value);
  }
}
