/** The ~KEY~ text the autotype queue is fed with (src/autotype.cpp). */
module AutotypeText {
  import opened Wrappers
  import opened Autotype
  import Expr
  import ExprProofs

  /** The machine's key tables. */
  datatype Keys = Keys(names: map<string, Key>, chars: map<char, Key>)

  datatype ParseError = Unclosed(pos: nat) | BadPause(tag: string) | UnknownKey(name: string)
  datatype Parsed = Ok(actions: seq<Action>) | Err(error: ParseError)

  /** The first position of c, or the length. */
  function IndexOf(s: string, c: char): (i: nat)
    ensures i <= |s| && (i < |s| ==> s[i] == c)
    ensures forall j :: 0 <= j < i ==> s[j] != c
  {
    if s == "" || s[0] == c then 0 else 1 + IndexOf(s[1..], c)
  }

  function Upper(s: string): string {
    seq(|s|, i requires 0 <= i < |s| => if 'a' <= s[i] <= 'z' then s[i] - ' ' else s[i])
  }

  /** A key by name in any case, or by its character. */
  function Resolve(keys: Keys, name: string): Option<Key> {
    if Upper(name) in keys.names then Some(keys.names[Upper(name)])
    else if |name| == 1 && name[0] in keys.chars then Some(keys.chars[name[0]])
    else None
  }

  // ----- pauses

  const LONG_MAX := 0x7fff_ffff_ffff_ffff

  /** The value strtol reads if it takes the whole C string: blanks, a sign,
      digits, clamped to 64 bits. */
  function ReadLong(s: string): Option<int> {
    var c := s[..IndexOf(s, '\0')];
    var d := c[Expr.Span(c, Expr.Space)..];
    var signed := d != "" && (d[0] == '-' || d[0] == '+');
    var digits := if signed then d[1..] else d;
    if digits == "" || Expr.Span(digits, Expr.Decimal) < |digits| then None
    else
      var v := Expr.NumberValue(digits, 10);
      if signed && d[0] == '-' then Some(if v > LONG_MAX then -LONG_MAX - 1 else 0 - v)
      else Some(if v > LONG_MAX then LONG_MAX else v)
  }

  /** The frame count is cut down to an int. */
  function ReadPause(s: string): Option<Action> {
    match ReadLong(s)
    case None => None
    case Some(v) => if v < 1 then None else Some(Pause(Expr.ToInt32(v)))
  }

  lemma ReadDecimal(n: nat)
    requires n >= 1
    ensures ReadPause(Expr.DecimalDigits(n)) == Some(Pause(Expr.ToInt32(if n > LONG_MAX then LONG_MAX else n)))
  {
    hide Expr.DecimalDigits, Expr.Span, IndexOf, Expr.NumberValue;
    var s := Expr.DecimalDigits(n);
    ExprProofs.DecimalValue(n);
    assert forall i :: 0 <= i < |s| ==> Expr.InClass(s[i], Expr.Decimal);
    assert IndexOf(s, '\0') == |s|;
    assert s[..|s|] == s && s[0..] == s;
    assert !Expr.InClass(s[0], Expr.Space);
    assert Expr.Span(s, Expr.Space) == 0;
    assert Expr.Span(s, Expr.Decimal) == |s|;
  }

  /** A written frame count is accepted whatever its size, but kept exactly when
      it fits an int: */
  lemma PauseKept(n: nat)
    requires n >= 1
    ensures ReadPause(Expr.DecimalDigits(n)).Some?
    ensures ReadPause(Expr.DecimalDigits(n)) == Some(Pause(n)) <==> n < 0x8000_0000
  {
    hide Expr.DecimalDigits, ReadPause;
    ReadDecimal(n);
  }

  /** 2^32 frames come out as a pause of a single tick. */
  lemma PauseLost()
    ensures ReadPause(Expr.DecimalDigits(0x1_0000_0000)) == Some(Pause(0))
    ensures ActionCost(Pause(0)) == 1
  {
    hide Expr.DecimalDigits, ReadPause;
    ReadDecimal(0x1_0000_0000);
  }

  // ----- the text

  datatype TagResult = Good(action: Action) | Bad(error: ParseError)

  /** What stands between two tildes. */
  function ReadTag(keys: Keys, tag: string): TagResult {
    if |tag| > 6 && tag[..6] == "PAUSE " then
      match ReadPause(tag[6..])
      case None => Bad(BadPause(tag))
      case Some(a) => Good(a)
    else if |tag| >= 2 && (tag[0] == '+' || tag[0] == '-') then
      match Resolve(keys, tag[1..])
      case None => Bad(UnknownKey(tag[1..]))
      case Some(k) => Good(if tag[0] == '+' then Press(k) else Release(k))
    else
      match Resolve(keys, tag)
      case None => Bad(UnknownKey(tag))
      case Some(k) => Good(Type(k))
  }

  function Behind(done: seq<Action>, rest: Parsed): Parsed {
    match rest
    case Ok(more) => Ok(done + more)
    case Err(_) => rest
  }

  /** The actions of a text that starts at position `at`. A doubled tilde and
      characters without a key are skipped. */
  function Parse(keys: Keys, text: string, at: nat): Parsed
    decreases |text|
  {
    if text == "" then Ok([])
    else if text[0] == '~' then
      if |text| > 1 && text[1] == '~' then Parse(keys, text[2..], at + 2)
      else
        var close := 1 + IndexOf(text[1..], '~');
        if close == |text| then Err(Unclosed(at))
        else
          match ReadTag(keys, text[1..close])
          case Bad(e) => Err(e)
          case Good(a) => Behind([a], Parse(keys, text[close + 1..], at + close + 1))
    else if text[0] in keys.chars then Behind([Type(keys.chars[text[0]])], Parse(keys, text[1..], at + 1))
    else Parse(keys, text[1..], at + 1)
  }

  lemma {:induction false} IndexOfFirst(a: string, b: string, c: char)
    requires IndexOf(a, c) < |a|
    ensures IndexOf(a + b, c) == IndexOf(a, c)
  {
    if a[0] != c {
      assert (a + b)[1..] == a[1..] + b;
      IndexOfFirst(a[1..], b, c);
    }
  }

  lemma BehindTwice(a: seq<Action>, b: seq<Action>, rest: Parsed)
    ensures Behind(a, Behind(b, rest)) == Behind(a + b, rest)
  {
  }

  lemma BehindNone(rest: Parsed)
    ensures Behind([], rest) == rest
  {
  }

  /** A text may be fed in pieces: once the first piece is good, the rest is read
      as if it stood alone. */
  lemma {:induction false} ParseConcat(keys: Keys, a: string, b: string, at: nat)
    requires Parse(keys, a, at).Ok?
    ensures Parse(keys, a + b, at) == Behind(Parse(keys, a, at).actions, Parse(keys, b, at + |a|))
    decreases |a|
  {
    hide ReadTag;
    var t := a + b;
    if a == "" {
      assert t == b;
      BehindNone(Parse(keys, b, at));
    } else if a[0] == '~' {
      if |a| > 1 && a[1] == '~' {
        assert t[2..] == a[2..] + b;
        ParseConcat(keys, a[2..], b, at + 2);
      } else {
        ParseConcatTag(keys, a, b, at);
        var close := 1 + IndexOf(a[1..], '~');
        ParseConcat(keys, a[close + 1..], b, at + close + 1);
        var x := ReadTag(keys, a[1..close]).action;
        BehindTwice([x], Parse(keys, a[close + 1..], at + close + 1).actions, Parse(keys, b, at + |a|));
      }
    } else {
      assert t[1..] == a[1..] + b;
      ParseConcat(keys, a[1..], b, at + 1);
      if a[0] in keys.chars {
        BehindTwice([Type(keys.chars[a[0]])], Parse(keys, a[1..], at + 1).actions, Parse(keys, b, at + |a|));
      }
    }
  }

  /** A tag closed inside the first piece is the same tag in the whole. */
  lemma ParseConcatTag(keys: Keys, a: string, b: string, at: nat)
    requires a != "" && a[0] == '~' && !(|a| > 1 && a[1] == '~') && Parse(keys, a, at).Ok?
    ensures var close := 1 + IndexOf(a[1..], '~');
      && close < |a| && ReadTag(keys, a[1..close]).Good?
      && Parse(keys, a[close + 1..], at + close + 1).Ok?
      && Parse(keys, a, at).actions
         == [ReadTag(keys, a[1..close]).action] + Parse(keys, a[close + 1..], at + close + 1).actions
      && Parse(keys, a + b, at)
         == Behind([ReadTag(keys, a[1..close]).action], Parse(keys, a[close + 1..] + b, at + close + 1))
  {
    hide ReadTag;
    var t, close := a + b, 1 + IndexOf(a[1..], '~');
    assert close < |a|;
    assert t[1..] == a[1..] + b;
    IndexOfFirst(a[1..], b, '~');
    assert t[1..close] == a[1..close];
    assert t[close + 1..] == a[close + 1..] + b;
    assert |t| > 1 && t[1] == a[1];
  }
}
