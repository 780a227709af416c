/** Writing autotype actions as text, and reading the text back. */
module AutotypePrint {
  import opened Wrappers
  import opened Autotype
  import opened AutotypeText
  import Expr

  /** A piece of text: a character, a doubled tilde, or an action in a tag. */
  datatype Item = Character(c: char) | TwoTildes | Tag(action: Action)

  /** Names for keys, as the key table has them. */
  type Labels = map<Key, string>

  predicate NoTilde(s: string) { forall i :: 0 <= i < |s| ==> s[i] != '~' }

  /** The label is that key's entry in the table, and can stand in a tag. */
  predicate Names(keys: Keys, labels: Labels, k: Key) {
    && k in labels && labels[k] != "" && NoTilde(labels[k])
    && (forall i :: 0 <= i < |labels[k]| ==> !('a' <= labels[k][i] <= 'z'))
    && labels[k] in keys.names && keys.names[labels[k]] == k
  }

  /** A key typed by name must not look like a hold, a release or a pause. */
  predicate Plain(name: string) {
    && !(|name| >= 2 && (name[0] == '+' || name[0] == '-'))
    && !(|name| > 6 && name[..6] == "PAUSE ")
  }

  predicate Printable(keys: Keys, labels: Labels, item: Item) {
    match item
    case Character(c) => c != '~'
    case TwoTildes => true
    case Tag(Type(k)) => Names(keys, labels, k) && Plain(labels[k])
    case Tag(Press(k)) => Names(keys, labels, k)
    case Tag(Release(k)) => Names(keys, labels, k)
    case Tag(Pause(n)) => 1 <= n < 0x8000_0000
    case Tag(Command(_)) => false
  }

  function TagText(labels: Labels, a: Action): string {
    match a
    case Type(k) => if k in labels then labels[k] else ""
    case Press(k) => "+" + (if k in labels then labels[k] else "")
    case Release(k) => "-" + (if k in labels then labels[k] else "")
    case Pause(n) => "PAUSE " + Expr.DecimalDigits(if n < 0 then 0 else n)
    case Command(_) => ""
  }

  function ItemText(labels: Labels, item: Item): string {
    match item
    case Character(c) => [c]
    case TwoTildes => "~~"
    case Tag(a) => "~" + TagText(labels, a) + "~"
  }

  function Text(labels: Labels, items: seq<Item>): string {
    if items == [] then "" else ItemText(labels, items[0]) + Text(labels, items[1..])
  }

  /** What a piece asks for: a character its key, if it has one; a doubled
      tilde nothing; a tag its action. */
  function Asks(keys: Keys, item: Item): seq<Action> {
    match item
    case Character(c) => if c in keys.chars then [Type(keys.chars[c])] else []
    case TwoTildes => []
    case Tag(a) => [a]
  }

  function Meant(keys: Keys, items: seq<Item>): seq<Action> {
    if items == [] then [] else Asks(keys, items[0]) + Meant(keys, items[1..])
  }

  lemma UpperAsIs(s: string)
    requires forall i :: 0 <= i < |s| ==> !('a' <= s[i] <= 'z')
    ensures Upper(s) == s
  {
  }

  lemma {:induction false} TildeAt(s: string, t: string)
    requires NoTilde(s)
    ensures IndexOf(s + ("~" + t), '~') == |s|
  {
    var u := s + ("~" + t);
    if s != "" {
      assert u[1..] == s[1..] + ("~" + t);
      TildeAt(s[1..], t);
    }
  }

  lemma TagReads(keys: Keys, labels: Labels, a: Action)
    requires Printable(keys, labels, Tag(a))
    ensures TagText(labels, a) != "" && NoTilde(TagText(labels, a))
    ensures ReadTag(keys, TagText(labels, a)) == Good(a)
  {
    hide ReadPause, Expr.DecimalDigits;
    var tag := TagText(labels, a);
    match a
    case Type(k) => UpperAsIs(labels[k]);
    case Press(k) =>
      UpperAsIs(labels[k]);
      assert tag[1..] == labels[k] && tag[0] == '+';
    case Release(k) =>
      UpperAsIs(labels[k]);
      assert tag[1..] == labels[k] && tag[0] == '-';
    case Pause(n) =>
      PauseKept(n);
      PauseText(n);
      assert tag[..6] == "PAUSE " && tag[6..] == Expr.DecimalDigits(n);
  }

  lemma PauseText(n: nat)
    ensures Expr.DecimalDigits(n) != "" && NoTilde("PAUSE " + Expr.DecimalDigits(n))
  {
    var d := Expr.DecimalDigits(n);
    forall i | 0 <= i < |d| ensures d[i] != '~' { assert Expr.InClass(d[i], Expr.Decimal); }
  }

  lemma TagParses(keys: Keys, tag: string, rest: string, at: nat, a: Action)
    requires tag != "" && NoTilde(tag) && ReadTag(keys, tag) == Good(a)
    ensures Parse(keys, "~" + tag + "~" + rest, at) == Behind([a], Parse(keys, rest, at + |tag| + 2))
  {
    hide ReadTag;
    var text := "~" + tag + "~" + rest;
    assert text[1..] == tag + ("~" + rest) && text[1] == tag[0];
    TildeAt(tag, rest);
    var close := 1 + |tag|;
    assert text[1..close] == tag && text[close + 1..] == rest;
  }

  /** One piece, whatever stands behind it. */
  lemma ItemParses(keys: Keys, labels: Labels, item: Item, rest: string, at: nat)
    requires Printable(keys, labels, item)
    ensures Parse(keys, ItemText(labels, item) + rest, at)
      == Behind(Asks(keys, item), Parse(keys, rest, at + |ItemText(labels, item)|))
  {
    hide ReadTag, Parse, TagText, Printable, Behind;
    match item
    case Character(c) => CharacterParses(keys, labels, c, rest, at);
    case TwoTildes => TildesParse(keys, rest, at);
    case Tag(a) =>
      TagReads(keys, labels, a);
      TagParses(keys, TagText(labels, a), rest, at, a);
      assert ItemText(labels, item) + rest == "~" + TagText(labels, a) + "~" + rest;
  }

  lemma TildesParse(keys: Keys, rest: string, at: nat)
    ensures Parse(keys, "~~" + rest, at) == Behind([], Parse(keys, rest, at + 2))
  {
    hide ReadTag;
    var text := "~~" + rest;
    assert text[0] == '~' && text[1] == '~' && text[2..] == rest;
    BehindNone(Parse(keys, rest, at + 2));
  }

  /** Every printable text parses to exactly what its pieces ask for. */
  lemma {:induction false} PrintParses(keys: Keys, labels: Labels, items: seq<Item>, at: nat)
    requires forall i :: 0 <= i < |items| ==> Printable(keys, labels, items[i])
    ensures Parse(keys, Text(labels, items), at) == Ok(Meant(keys, items))
    decreases |items|
  {
    hide ReadTag, Printable, ItemText, Asks;
    if items != [] {
      hide Parse;
      PrintParses(keys, labels, items[1..], at + |ItemText(labels, items[0])|);
      ItemParses(keys, labels, items[0], Text(labels, items[1..]), at);
    }
  }

  lemma CharacterParses(keys: Keys, labels: Labels, c: char, rest: string, at: nat)
    requires Printable(keys, labels, Character(c))
    ensures Parse(keys, [c] + rest, at)
      == Behind(if c in keys.chars then [Type(keys.chars[c])] else [], Parse(keys, rest, at + 1))
  {
    var text := [c] + rest;
    assert text[1..] == rest;
    BehindNone(Parse(keys, rest, at + 1));
  }

  /** A key is found by its name in any case, and only then by its character. */
  lemma KeyByName(keys: Keys, name: string, upper: string)
    requires |upper| == |name|
    requires forall i :: 0 <= i < |name| ==>
      if 'a' <= name[i] <= 'z' then upper[i] as int == name[i] as int - 32 else upper[i] == name[i]
    ensures upper in keys.names ==> Resolve(keys, name) == Some(keys.names[upper])
    ensures upper !in keys.names && |name| == 1 && name[0] in keys.chars ==>
      Resolve(keys, name) == Some(keys.chars[name[0]])
    ensures upper !in keys.names && !(|name| == 1 && name[0] in keys.chars) ==> Resolve(keys, name) == None
  {
    assert Upper(name) == upper;
  }

  // ----- what is refused

  /** A tilde without a partner is reported where it stands. */
  lemma UnclosedTag(keys: Keys, front: string, rest: string)
    requires Parse(keys, front, 0).Ok? && NoTilde(rest)
    ensures Parse(keys, front + ("~" + rest), 0) == Err(Unclosed(|front|))
  {
    ParseConcat(keys, front, "~" + rest, 0);
    LoneTilde(keys, rest, |front|);
  }

  lemma LoneTilde(keys: Keys, rest: string, at: nat)
    requires NoTilde(rest)
    ensures Parse(keys, "~" + rest, at) == Err(Unclosed(at))
  {
    hide ReadTag;
    var text := "~" + rest;
    assert text[1..] == rest;
    assert IndexOf(rest, '~') == |rest|;
  }

  /** A tag that names no key, or counts no frames, is reported with its name. */
  lemma BadTag(keys: Keys, front: string, tag: string, rest: string)
    requires Parse(keys, front, 0).Ok? && tag != "" && NoTilde(tag) && ReadTag(keys, tag).Bad?
    ensures Parse(keys, front + ("~" + tag + "~" + rest), 0) == Err(ReadTag(keys, tag).error)
  {
    hide ReadTag, Parse;
    ParseConcat(keys, front, "~" + tag + "~" + rest, 0);
    TagFails(keys, tag, rest, |front|);
  }

  lemma TagFails(keys: Keys, tag: string, rest: string, at: nat)
    requires tag != "" && NoTilde(tag) && ReadTag(keys, tag).Bad?
    ensures Parse(keys, "~" + tag + "~" + rest, at) == Err(ReadTag(keys, tag).error)
  {
    hide ReadTag;
    var text := "~" + tag + "~" + rest;
    assert text[1..] == tag + ("~" + rest) && text[1] == tag[0];
    TildeAt(tag, rest);
    assert text[1..1 + |tag|] == tag;
  }

  /** Which tags those are. */
  lemma TagErrors(keys: Keys, name: string, sign: char)
    requires name != "" && (sign == '+' || sign == '-')
    ensures Resolve(keys, name).None? ==> ReadTag(keys, [sign] + name) == Bad(UnknownKey(name))
    ensures Resolve(keys, name).None? && Plain(name) ==> ReadTag(keys, name) == Bad(UnknownKey(name))
    ensures ReadPause(name).None? ==> ReadTag(keys, "PAUSE " + name) == Bad(BadPause("PAUSE " + name))
  {
    hide ReadPause, Resolve;
    assert ([sign] + name)[1..] == name && ([sign] + name)[0] == sign;
    assert ("PAUSE " + name)[..6] == "PAUSE " && ("PAUSE " + name)[6..] == name;
  }
}
