/** The breakpoint expression language: tokens, syntax trees, the grammar and
    the printer (src/expr_parser.cpp). */
module Expr {
  import opened Wrappers

  datatype BinaryOp =
    Add | Sub | Mul | Div | Mod | And | Or | Xor | Less | LessEq | Equal | GreaterEq | Greater | NotEqual

  datatype Expr =
    | Literal(value: int)
    | Variable(name: string)
    | Not(operand: Expr)
    | Binary(op: BinaryOp, left: Expr, right: Expr)
    | Call(name: string, arg: Expr)

  datatype Token =
    | Number(value: int) | Ident(name: string) | LParen | RParen | Comma
    | Plus | Minus | Star | Slash | Lt | Le | Gt | Ge | Eq | Ne | Bad(message: string)

  // ----- characters

  datatype CharClass = Space | Decimal | Hex | Binary2 | IdentChar

  predicate IsAlpha(c: char) { 'a' <= c <= 'z' || 'A' <= c <= 'Z' }

  predicate InClass(c: char, k: CharClass) {
    match k
    case Space => c == ' ' || '\t' <= c <= '\r'
    case Decimal => '0' <= c <= '9'
    case Hex => '0' <= c <= '9' || 'a' <= c <= 'f' || 'A' <= c <= 'F'
    case Binary2 => c == '0' || c == '1'
    case IdentChar => IsAlpha(c) || '0' <= c <= '9' || c == '_' || c == '\''
  }

  /** The length of the longest prefix in the class. */
  function Span(s: string, k: CharClass): (n: nat)
    ensures n <= |s|
    ensures forall i :: 0 <= i < n ==> InClass(s[i], k)
    ensures n < |s| ==> !InClass(s[n], k)
  {
    if s == "" || !InClass(s[0], k) then 0 else 1 + Span(s[1..], k)
  }

  function ToLower(c: char): char { if 'A' <= c <= 'Z' then c + ' ' else c }

  function Lower(s: string): (r: string)
    ensures |r| == |s|
  {
    seq(|s|, i requires 0 <= i < |s| => ToLower(s[i]))
  }

  // ----- numbers

  function DigitValue(c: char): nat
    requires InClass(c, Hex)
  {
    if c <= '9' then c as int - '0' as int
    else if c <= 'F' then c as int - 'A' as int + 10
    else c as int - 'a' as int + 10
  }

  function NumberValue(s: string, base: nat): nat
    requires forall i :: 0 <= i < |s| ==> InClass(s[i], Hex)
  {
    if s == "" then 0 else base * NumberValue(s[..|s| - 1], base) + DigitValue(s[|s| - 1])
  }

  /** The value's low 32 bits, as a signed number. */
  function ToInt32(n: nat): int {
    var m := n % 0x1_0000_0000;
    if m < 0x8000_0000 then m else m - 0x1_0000_0000
  }

  predicate IsInt32(n: int) { -0x8000_0000 <= n < 0x8000_0000 }

  // ----- the tokenizer

  function NumberToken(s: string, k: CharClass, base: nat, skip: nat, message: string): (r: (Token, nat))
    requires skip <= |s| && (k == Hex || k == Decimal || k == Binary2)
    requires skip > 0 || Span(s, k) > 0
    ensures 1 <= r.1 <= |s|
  {
    var n := Span(s[skip..], k);
    if n == 0 then (Bad(message), skip)
    else (Number(ToInt32(NumberValue(s[skip..][..n], base))), skip + n)
  }

  /** The token at the start of s and its length. After a complete operand,
      '&' and '%' are the operators AND and MOD, not number prefixes. */
  function RawToken(s: string, afterOperand: bool): (r: (Token, nat))
    requires s != ""
    ensures 1 <= r.1 <= |s|
  {
    var c := s[0];
    var d := if |s| > 1 then s[1] else '\0';
    if c == '(' then (LParen, 1)
    else if c == ')' then (RParen, 1)
    else if c == ',' then (Comma, 1)
    else if c == '+' then (Plus, 1)
    else if c == '-' then (Minus, 1)
    else if c == '*' then (Star, 1)
    else if c == '/' then (Slash, 1)
    else if c == '<' then
      if d == '=' then (Le, 2) else if d == '>' then (Ne, 2) else (Lt, 1)
    else if c == '>' then
      if d == '=' then (Ge, 2) else (Gt, 1)
    else if c == '=' then
      if d == '=' then (Eq, 2) else (Eq, 1)
    else if c == '!' && d == '=' then (Ne, 2)
    else if c == '&' && afterOperand then (Ident("and"), 1)
    else if c == '%' && afterOperand then (Ident("mod"), 1)
    else if c == '#' || c == '&' || c == '$' then NumberToken(s, Hex, 16, 1, "expected hex digits")
    else if c == '0' && (d == 'x' || d == 'X') then NumberToken(s, Hex, 16, 2, "expected hex digits")
    else if c == '%' then NumberToken(s, Binary2, 2, 1, "expected binary digits")
    else if InClass(c, Decimal) then NumberToken(s, Decimal, 10, 0, "")
    else if IsAlpha(c) || c == '_' || c == '\'' then (Ident(s[..Span(s, IdentChar)]), Span(s, IdentChar))
    else (Bad("unexpected character: " + [c]), 1)
  }

  predicate IsKeyword(name: string) {
    Lower(name) == "and" || Lower(name) == "or" || Lower(name) == "xor" || Lower(name) == "mod" || Lower(name) == "not"
  }

  /** Does the token complete an operand? */
  predicate EndsOperand(t: Token) {
    t.Number? || t.RParen? || (t.Ident? && !IsKeyword(t.name))
  }

  function SkipSpace(s: string): string { s[Span(s, Space)..] }

  /** All tokens of s, up to its end. */
  function Tokens(s: string, afterOperand: bool): seq<Token>
    decreases |s|
  {
    var s' := SkipSpace(s);
    if s' == "" then []
    else
      var (t, n) := RawToken(s', afterOperand);
      [t] + Tokens(s'[n..], EndsOperand(t))
  }

  // ----- the grammar

  datatype Parsed = Ok(expr: Expr, rest: seq<Token>) | Err(message: string)

  const OR_LEVEL := 6
  const CMP_LEVEL := 3

  predicate IsWord(t: Token, word: string) { t.Ident? && Lower(t.name) == word }

  /** The operator a token denotes at one level of the grammar:
      1 multiplicative, 2 additive, 3 comparison, 4 and, 5 xor, 6 or. */
  function OpAt(level: nat, t: Token): Option<BinaryOp> {
    if level == 1 then
      if t == Star then Some(Mul) else if t == Slash then Some(Div) else if IsWord(t, "mod") then Some(Mod) else None
    else if level == 2 then
      if t == Plus then Some(Add) else if t == Minus then Some(Sub) else None
    else if level == 3 then
      match t
      case Lt => Some(Less)
      case Le => Some(LessEq)
      case Eq => Some(Equal)
      case Ge => Some(GreaterEq)
      case Gt => Some(Greater)
      case Ne => Some(NotEqual)
      case _ => None
    else if level == 4 then if IsWord(t, "and") then Some(And) else None
    else if level == 5 then if IsWord(t, "xor") then Some(Xor) else None
    else if level == 6 then if IsWord(t, "or") then Some(Or) else None
    else None
  }

  /** level := level-1 (op level-1)*; a comparison takes one operator at most.
      Level 0 is the unary level. */
  function ParseLevel(level: nat, ts: seq<Token>): (r: Parsed)
    requires level <= OR_LEVEL
    ensures r.Ok? ==> |r.rest| < |ts|
    decreases |ts|, level + 2
  {
    if level == 0 then ParseUnary(ts)
    else
      match ParseLevel(level - 1, ts)
      case Err(m) => Err(m)
      case Ok(e, rest) => ParseRest(level, e, rest)
  }

  function ParseRest(level: nat, left: Expr, ts: seq<Token>): (r: Parsed)
    requires 1 <= level <= OR_LEVEL
    ensures r.Ok? ==> |r.rest| <= |ts|
    decreases |ts|, 0
  {
    if ts == [] || OpAt(level, ts[0]).None? then Ok(left, ts)
    else
      match ParseLevel(level - 1, ts[1..])
      case Err(m) => Err(m)
      case Ok(right, rest) =>
        var e := Binary(OpAt(level, ts[0]).value, left, right);
        if level == CMP_LEVEL then Ok(e, rest) else ParseRest(level, e, rest)
  }

  function ParseUnary(ts: seq<Token>): (r: Parsed)
    ensures r.Ok? ==> |r.rest| < |ts|
    decreases |ts|, 1
  {
    if ts != [] && IsWord(ts[0], "not") then
      match ParseUnary(ts[1..])
      case Err(m) => Err(m)
      case Ok(e, rest) => Ok(Not(e), rest)
    else if ts != [] && ts[0] == Minus then
      match ParseUnary(ts[1..])
      case Err(m) => Err(m)
      case Ok(e, rest) => Ok(Binary(Sub, Literal(0), e), rest)
    else ParseAtom(ts)
  }

  function ParseAtom(ts: seq<Token>): (r: Parsed)
    ensures r.Ok? ==> |r.rest| < |ts|
    decreases |ts|, 0
  {
    if ts == [] then Err("unexpected token")
    else
      match ts[0]
      case Number(v) => Ok(Literal(v), ts[1..])
      case LParen => Closed(ParseLevel(OR_LEVEL, ts[1..]), "expected ')'")
      case Ident(name) =>
        if |ts| > 1 && ts[1] == LParen then
          match Closed(ParseLevel(OR_LEVEL, ts[2..]), "expected ')' after function argument")
          case Err(m) => Err(m)
          case Ok(arg, rest) => Ok(Call(Lower(name), arg), rest)
        else Ok(Variable(name), ts[1..])
      case Bad(m) => Err(m)
      case _ => Err("unexpected token")
  }

  /** An expression that must be followed by a closing parenthesis. */
  function Closed(p: Parsed, message: string): (r: Parsed)
    ensures p.Ok? && r.Ok? ==> |r.rest| < |p.rest|
    ensures r.Ok? ==> p.Ok?
  {
    match p
    case Err(m) => Err(m)
    case Ok(e, rest) => if rest != [] && rest[0] == RParen then Ok(e, rest[1..]) else Err(message)
  }

  // ----- names

  /** Registers, in lower case. */
  predicate IsRegister(n: string) {
    || n == "a" || n == "f" || n == "b" || n == "c" || n == "d" || n == "e"
    || n == "h" || n == "l" || n == "i" || n == "r"
    || n == "af" || n == "bc" || n == "de" || n == "hl" || n == "ix" || n == "iy" || n == "sp" || n == "pc"
    || n == "ixh" || n == "ixl" || n == "iyh" || n == "iyl"
    || n == "af'" || n == "afx" || n == "bc'" || n == "bcx" || n == "de'" || n == "dex" || n == "hl'" || n == "hlx"
  }

  /** Interrupt state, flags and the breakpoint's own variables. */
  predicate IsState(n: string) {
    || n == "im" || n == "iff1" || n == "iff2"
    || n == "carry" || n == "nsub" || n == "parity" || n == "overflow" || n == "halfcarry" || n == "zero" || n == "sign"
    || n == "address" || n == "value" || n == "previous" || n == "mode"
  }

  predicate KnownVariable(name: string) { IsRegister(Lower(name)) || IsState(Lower(name)) }

  predicate KnownFunction(name: string) {
    || name == "peek" || name == "byte" || name == "hibyte" || name == "word" || name == "hiword"
    || name == "ay" || name == "crtc" || name == "timer_start" || name == "timer_stop"
  }

  /** The first complaint about a name in the tree, left to right. */
  function ValidateNames(e: Expr): Option<string> {
    match e
    case Literal(_) => None
    case Variable(n) => if KnownVariable(n) then None else Some("unknown name '" + n + "'")
    case Not(x) => ValidateNames(x)
    case Binary(_, l, r) => if ValidateNames(l).Some? then ValidateNames(l) else ValidateNames(r)
    case Call(n, x) => if KnownFunction(n) then ValidateNames(x) else Some("unknown function '" + n + "'")
  }

  datatype Result = Tree(expr: Expr) | Error(message: string)

  function ParseExpression(input: string): Result {
    match ParseLevel(OR_LEVEL, Tokens(input, false))
    case Err(m) => Error(m)
    case Ok(e, rest) =>
      if rest != [] then Error("unexpected token after expression")
      else if ValidateNames(e).Some? then Error(ValidateNames(e).value)
      else Tree(e)
  }

  // ----- the printer

  function DigitChar(d: nat): (c: char)
    requires d < 16
    ensures InClass(c, Hex) && DigitValue(c) == d
    ensures d < 10 ==> InClass(c, Decimal)
  {
    if d < 10 then '0' + d as char else 'A' + (d - 10) as char
  }

  function DecimalDigits(n: nat): (s: string)
    ensures |s| > 0
    ensures forall i :: 0 <= i < |s| ==> InClass(s[i], Decimal)
  {
    if n < 10 then [DigitChar(n)] else DecimalDigits(n / 10) + [DigitChar(n % 10)]
  }

  function HexDigits(n: nat): (s: string)
    ensures |s| > 0
    ensures forall i :: 0 <= i < |s| ==> InClass(s[i], Hex)
  {
    if n < 16 then [DigitChar(n)] else HexDigits(n / 16) + [DigitChar(n % 16)]
  }

  function OpText(op: BinaryOp): string {
    match op
    case Add => "+"
    case Sub => "-"
    case Mul => "*"
    case Div => "/"
    case Mod => " mod "
    case And => " and "
    case Or => " or "
    case Xor => " xor "
    case Less => "<"
    case LessEq => "<="
    case Equal => "="
    case GreaterEq => ">="
    case Greater => ">"
    case NotEqual => "<>"
  }

  /** Small literals in decimal, all others as the hexadecimal of their 32 bits. */
  function LiteralText(v: int): string {
    if v < 0 || v > 255 then "#" + HexDigits(v % 0x1_0000_0000) else DecimalDigits(v)
  }

  function Print(e: Expr): string {
    match e
    case Literal(v) => LiteralText(v)
    case Variable(n) => n
    case Not(x) => "not " + Print(x)
    case Binary(op, l, r) => "(" + Print(l) + OpText(op) + Print(r) + ")"
    case Call(n, x) => n + "(" + Print(x) + ")"
  }
}
