/** The syntax of configuration lines, and the parser's agreement with it. */
module ConfigLines {
  import opened Wrappers
  import opened ConfigText

  /** What may stand around a key, */
  predicate KeyGap(c: char) { c == '\t' || c == ' ' || c == '=' }

  /** between a key and its value, */
  predicate ValueGap(c: char) { c == '\t' || c == ' ' || c == '=' || c == '#' }

  /** and what ends a value. */
  predicate ValueEnd(c: char) { c == '\t' || c == '=' || c == '#' }

  datatype Parts = Parts(head: string, key: string, sep: string, value: string, spaces: string, tail: string)

  function Written(p: Parts): string { p.head + p.key + (p.sep + p.value + (p.spaces + p.tail)) }

  /** [gap] key gap value [spaces] [anything behind a tab, '=' or '#'], where the
      line is no header and the key no comment. */
  predicate Assigns(p: Parts) {
    && (forall i :: 0 <= i < |p.head| ==> KeyGap(p.head[i]))
    && p.key != "" && p.key[0] != '#' && (p.head == "" ==> p.key[0] != '[')
    && (forall i :: 0 <= i < |p.key| ==> !KeyGap(p.key[i]))
    && p.sep != "" && p.sep[0] != '#' && (forall i :: 0 <= i < |p.sep| ==> ValueGap(p.sep[i]))
    && p.value != "" && p.value[0] != ' ' && p.value[|p.value| - 1] != ' '
    && (forall i :: 0 <= i < |p.value| ==> !ValueEnd(p.value[i]))
    && (forall i :: 0 <= i < |p.spaces| ==> p.spaces[i] == ' ')
    && (p.tail != "" ==> ValueEnd(p.tail[0]))
  }

  lemma SameSets(c: char)
    ensures Has(KeyDelims, c) == KeyGap(c) && Has(BeforeValue, c) == ValueGap(c) && Has(ValueDelims, c) == ValueEnd(c)
    ensures ValueGap(c) == (ValueEnd(c) || c == ' ') == (KeyGap(c) || c == '#')
  {
  }

  lemma GapSpan(sep: string, more: string)
    requires (forall i :: 0 <= i < |sep| ==> ValueGap(sep[i])) && more != "" && !ValueGap(more[0])
    ensures FindNotOf(sep + more, BeforeValue, 0) == |sep|
  {
    hide Has, ValueGap, FindNotOf;
    var rest := sep + more;
    forall k | 0 <= k < |sep| ensures Has(BeforeValue, rest[k]) { SameSets(sep[k]); }
    SameSets(more[0]);
    assert rest[|sep|] == more[0];
    FindNotOfIs(rest, BeforeValue, 0, |sep|);
  }

  lemma TextSpan(sep: string, text: string, tail: string)
    requires (forall i :: 0 <= i < |text| ==> !ValueEnd(text[i])) && (tail != "" ==> ValueEnd(tail[0]))
    ensures var rest, end := sep + (text + tail), |sep| + |text|;
      FindOf(rest, ValueDelims, |sep|) == end && rest[|sep|..end] == text
  {
    hide Has, ValueEnd, FindOf;
    var rest, end := sep + (text + tail), |sep| + |text|;
    forall k | |sep| <= k < end ensures !Has(ValueDelims, rest[k]) {
      SameSets(text[k - |sep|]);
      assert rest[k] == text[k - |sep|];
    }
    if tail != "" {
      SameSets(tail[0]);
      assert rest[end] == tail[0];
    }
    FindOfIs(rest, ValueDelims, |sep|, end);
  }

  lemma ValuePart(sep: string, v: string, spaces: string, tail: string)
    requires forall i :: 0 <= i < |sep| ==> ValueGap(sep[i])
    requires v != "" && v[0] != ' ' && v[|v| - 1] != ' ' && forall i :: 0 <= i < |v| ==> !ValueEnd(v[i])
    requires (forall i :: 0 <= i < |spaces| ==> spaces[i] == ' ') && (tail != "" ==> ValueEnd(tail[0]))
    ensures var rest := sep + v + (spaces + tail);
      && FindNotOf(rest, BeforeValue, 0) == |sep|
      && FindOf(rest, ValueDelims, |sep|) == |sep| + |v| + |spaces|
      && rest[|sep|..|sep| + |v| + |spaces|] == v + spaces
  {
    hide Has, ValueGap, ValueEnd, FindOf, FindNotOf;
    var text := v + spaces;
    TextOf(v, spaces);
    SameSets(v[0]);
    assert (text + tail)[0] == v[0];
    Regrouped(sep, v, spaces, tail);
    GapSpan(sep, text + tail);
    TextSpan(sep, text, tail);
  }

  lemma Regrouped(a: string, b: string, c: string, d: string)
    ensures a + b + (c + d) == a + ((b + c) + d)
  {
  }

  lemma TextOf(v: string, spaces: string)
    requires forall i :: 0 <= i < |v| ==> !ValueEnd(v[i])
    requires forall i :: 0 <= i < |spaces| ==> spaces[i] == ' '
    ensures forall i :: 0 <= i < |v + spaces| ==> !ValueEnd((v + spaces)[i])
  {
    var text := v + spaces;
    forall i | 0 <= i < |text| ensures !ValueEnd(text[i]) {
      if i >= |v| { assert text[i] == spaces[i - |v|]; }
    }
  }

  lemma KeyPart(p: Parts)
    requires Assigns(p)
    ensures HasKey(Written(p)) && LineKey(Written(p)) == p.key
    ensures Written(p)[KeyEnd(Written(p))..] == p.sep + p.value + (p.spaces + p.tail)
  {
    var rest := p.sep + p.value + (p.spaces + p.tail);
    assert rest[0] == p.sep[0];
    KeySpan(p.head, p.key, rest);
  }

  /** Every such line assigns its value to its key. */
  lemma LineReads(p: Parts)
    requires Assigns(p)
    ensures ParseLine(Written(p)) == Some(Assignment(p.key, p.value))
  {
    hide HasKey, LineKey, KeyEnd, FindOf, FindNotOf, StripSpaces, Written;
    KeyPart(p);
    ValuePart(p.sep, p.value, p.spaces, p.tail);
    StripValue(p.value, p.spaces);
  }

  lemma {:induction false} TrimEndSplits(s: string)
    requires s != "" && s[0] != ' '
    ensures var v := TrimEnd(s); v <= s && v != "" && v[|v| - 1] != ' ' && forall i :: |v| <= i < |s| ==> s[i] == ' '
  {
    if s[|s| - 1] == ' ' { TrimEndSplits(s[..|s| - 1]); }
  }

  lemma StripSplits(s: string)
    requires s != "" && s[0] != ' '
    ensures StripSpaces(s) == TrimEnd(s)
  {
    assert s[0..] == s;
  }

  /** And every line that assigns anything is such a line. */
  lemma LineSplits(line: string) returns (p: Parts)
    requires ParseLine(line).Some?
    ensures Assigns(p) && Written(p) == line && ParseLine(line).value == Assignment(p.key, p.value)
  {
    hide TrimEnd, StripSpaces, Has, FindOf, FindNotOf, KeyGap, ValueGap, ValueEnd, KeyStart, KeyEnd, HasKey, Written;
    var ks, ke := KeyStart(line), KeyEnd(line);
    var rest := line[ke..];
    var start := FindNotOf(rest, BeforeValue, 0);
    var end := FindOf(rest, ValueDelims, start);
    var v := TextPieces(rest, start, end);
    p := Parts(line[..ks], line[ks..ke], rest[..start], v, rest[start..end][|v|..], rest[end..]);
    WrittenBack(line, ks, ke, start, end, v);
    KeyPieces(line, p.head, p.key);
    GapPieces(line, rest, start, p.sep);
  }

  /** The value and the spaces behind it. */
  lemma TextPieces(rest: string, start: nat, end: nat) returns (v: string)
    requires start == FindNotOf(rest, BeforeValue, 0) < |rest| && end == FindOf(rest, ValueDelims, start)
    ensures v <= rest[start..end] && v == StripSpaces(rest[start..end])
    ensures v != "" && v[0] != ' ' && v[|v| - 1] != ' ' && forall i :: 0 <= i < |v| ==> !ValueEnd(v[i])
    ensures forall i :: |v| <= i < end - start ==> rest[start..end][i] == ' '
    ensures end < |rest| ==> ValueEnd(rest[end])
  {
    hide TrimEnd, StripSpaces;
    var text := rest[start..end];
    assert end > start && text[0] == rest[start];
    StripSplits(text);
    TrimEndSplits(text);
    v := TrimEnd(text);
    forall i | 0 <= i < |v| ensures !ValueEnd(v[i]) { assert v[i] == text[i] == rest[start + i]; }
  }

  lemma Rejoin(rest: string, start: nat, end: nat, v: string)
    requires start <= end <= |rest| && v <= rest[start..end]
    ensures rest == rest[..start] + v + (rest[start..end][|v|..] + rest[end..])
  {
  }

  lemma CutKey(line: string, i: nat, j: nat)
    requires i <= j <= |line|
    ensures line == line[..i] + line[i..j] + line[j..]
  {
  }

  lemma WrittenBack(line: string, ks: nat, ke: nat, start: nat, end: nat, v: string)
    requires ks <= ke <= |line| && start <= end <= |line[ke..]| && v <= line[ke..][start..end]
    ensures var rest := line[ke..];
      Written(Parts(line[..ks], line[ks..ke], rest[..start], v, rest[start..end][|v|..], rest[end..])) == line
  {
    Rejoin(line[ke..], start, end, v);
    CutKey(line, ks, ke);
  }

  lemma KeyPieces(line: string, head: string, key: string)
    requires HasKey(line) && head == line[..KeyStart(line)] && key == line[KeyStart(line)..KeyEnd(line)]
    ensures (forall i :: 0 <= i < |head| ==> KeyGap(head[i])) && (forall i :: 0 <= i < |key| ==> !KeyGap(key[i]))
    ensures key != "" && key[0] != '#' && (head == "" ==> key[0] != '[')
  {
    forall i | 0 <= i < |key| ensures !KeyGap(key[i]) { assert key[i] == line[KeyStart(line) + i]; }
  }

  lemma GapPieces(line: string, rest: string, start: nat, sep: string)
    requires HasKey(line) && rest == line[KeyEnd(line)..] && start == FindNotOf(rest, BeforeValue, 0) < |rest|
    requires sep == rest[..start]
    ensures sep != "" && sep[0] != '#' && forall i :: 0 <= i < |sep| ==> ValueGap(sep[i])
  {
    assert rest[0] == line[KeyEnd(line)];
  }

  // ----- headers

  predicate Bracket(c: char) { c == '[' || c == ']' }

  /** A header names what stands between its first brackets and the next. */
  lemma SectionReads(open: string, name: string, tail: string)
    requires open != "" && open[0] == '[' && forall i :: 0 <= i < |open| ==> Bracket(open[i])
    requires (forall i :: 0 <= i < |name| ==> !Bracket(name[i])) && (tail != "" ==> Bracket(tail[0]))
    requires name == "" ==> tail == ""
    ensures IsHeader(open + name + tail) && SectionName(open + name + tail) == name
  {
    var line := open + name + tail;
    assert line[0] == open[0];
    forall k | 0 <= k < |open| ensures Has(Brackets, line[k]) { assert line[k] == open[k]; }
    FindNotOfIs(line, Brackets, 0, |open|);
    forall k | |open| <= k < |open| + |name| ensures !Has(Brackets, line[k]) { assert line[k] == name[k - |open|]; }
    assert tail != "" ==> line[|open| + |name|] == tail[0];
    FindOfIs(line, Brackets, |open|, |open| + |name|);
    assert line[|open|..|open| + |name|] == name;
  }
}
