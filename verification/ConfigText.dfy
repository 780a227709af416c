/** How one line of a configuration file is read and rewritten
    (src/configuration.cpp). */
module ConfigText {
  import opened Wrappers

  /** The character sets the parser searches for. */
  datatype Chars = KeyDelims | ValueDelims | BeforeValue | Blanks | Spaces | Brackets | Equals | Hashes | LineEnds

  predicate Has(cs: Chars, c: char) {
    match cs
    case KeyDelims => c == '\t' || c == ' ' || c == '='
    case ValueDelims => c == '\t' || c == '=' || c == '#'
    case BeforeValue => c == '\t' || c == '=' || c == '#' || c == ' '
    case Blanks => c == ' ' || c == '\t'
    case Spaces => c == ' '
    case Brackets => c == '[' || c == ']'
    case Equals => c == '='
    case Hashes => c == '#'
    case LineEnds => c == '\n' || c == '\r'
  }

  /** find_first_not_of from a position; |s| when there is none. */
  function FindNotOf(s: string, cs: Chars, from: nat): (i: nat)
    requires from <= |s|
    ensures from <= i <= |s|
    ensures forall k :: from <= k < i ==> Has(cs, s[k])
    ensures i < |s| ==> !Has(cs, s[i])
    decreases |s| - from
  {
    if from == |s| || !Has(cs, s[from]) then from else FindNotOf(s, cs, from + 1)
  }

  /** find_first_of from a position; |s| when there is none. */
  function FindOf(s: string, cs: Chars, from: nat): (i: nat)
    requires from <= |s|
    ensures from <= i <= |s|
    ensures forall k :: from <= k < i ==> !Has(cs, s[k])
    ensures i < |s| ==> Has(cs, s[i])
    decreases |s| - from
  {
    if from == |s| || Has(cs, s[from]) then from else FindOf(s, cs, from + 1)
  }

  /** The end of s[..n] without its trailing blanks. */
  function TrimmedEnd(s: string, n: nat): (i: nat)
    requires n <= |s|
    ensures i <= n
    ensures forall k :: i <= k < n ==> Has(Blanks, s[k])
  {
    if n == 0 || !Has(Blanks, s[n - 1]) then n else TrimmedEnd(s, n - 1)
  }

  function TrimEnd(s: string): string {
    if s == "" || s[|s| - 1] != ' ' then s else TrimEnd(s[..|s| - 1])
  }

  function StripSpaces(s: string): string { TrimEnd(s[FindNotOf(s, Spaces, 0)..]) }

  predicate IsHeader(line: string) { line != "" && line[0] == '[' }

  /** "[section] # comment" names the token between the bracket characters. */
  function SectionName(line: string): string {
    var start := FindNotOf(line, Brackets, 0);
    line[start..FindOf(line, Brackets, start)]
  }

  function KeyStart(line: string): (i: nat)
    ensures i <= |line|
  {
    FindNotOf(line, KeyDelims, 0)
  }

  function KeyEnd(line: string): (i: nat)
    ensures KeyStart(line) <= i <= |line|
  {
    FindOf(line, KeyDelims, KeyStart(line))
  }

  /** Does the line carry a key and a separator? */
  predicate HasKey(line: string) {
    && !IsHeader(line)
    && KeyStart(line) < |line| && line[KeyStart(line)] != '#'
    && KeyEnd(line) < |line|
  }

  /** The key a line assigns, or empty when it carries no key/value pair. */
  function LineKey(line: string): string {
    if HasKey(line) then line[KeyStart(line)..KeyEnd(line)] else ""
  }

  datatype Assignment = Assignment(key: string, value: string)

  /** The pair a line assigns when it is parsed. */
  function ParseLine(line: string): Option<Assignment> {
    if !HasKey(line) then None
    else
      var rest := line[KeyEnd(line)..];
      var start := FindNotOf(rest, BeforeValue, 0);
      if start == |rest| then None
      else Some(Assignment(LineKey(line), StripSpaces(rest[start..FindOf(rest, ValueDelims, start)])))
  }

  /** The first '=' from the end of the key; |line| when there is none. */
  function Separator(line: string): (i: nat)
    ensures KeyEnd(line) <= i <= |line|
  {
    FindOf(line, Equals, KeyEnd(line))
  }

  function ValueStart(line: string): (i: nat)
    ensures i <= |line|
  {
    var eq := Separator(line);
    FindNotOf(line, Blanks, if eq == |line| then KeyEnd(line) else eq + 1)
  }

  /** The inline comment a rewritten line keeps, with the blanks before it. */
  function KeptComment(line: string): string {
    var start := ValueStart(line);
    var hash := FindOf(line, Hashes, start);
    if hash == |line| then ""
    else
      var gap := TrimmedEnd(line, hash);
      line[if gap < start then start else gap..]
  }

  /** Replace the value of a line, keeping the spelling of its key, the spacing
      around the separator and any inline comment. */
  function Rewrite(line: string, value: string): string {
    line[..ValueStart(line)] + (if Separator(line) == |line| then "=" else "") + value
      + (if value == "" then "" else KeptComment(line))
  }

  // ----- what can be rewritten faithfully

  predicate GoodKey(k: string) {
    && k != "" && k[0] != '#' && k[0] != '['
    && forall i :: 0 <= i < |k| ==> !Has(KeyDelims, k[i]) && !Has(LineEnds, k[i])
  }

  predicate GoodValue(v: string) {
    && v != "" && v[0] != ' ' && v[|v| - 1] != ' '
    && forall i :: 0 <= i < |v| ==> !Has(ValueDelims, v[i]) && !Has(LineEnds, v[i])
  }

  predicate GoodSection(s: string) {
    forall i :: 0 <= i < |s| ==> !Has(Brackets, s[i]) && !Has(LineEnds, s[i])
  }

  /** Nothing that could be read as a value stands between the key and '='. */
  predicate PlainSeparator(line: string) {
    Separator(line) == |line| || FindNotOf(line, BeforeValue, KeyEnd(line)) >= Separator(line)
  }

  predicate OneLine(s: string) { forall i :: 0 <= i < |s| ==> !Has(LineEnds, s[i]) }

  predicate GoodLine(line: string) { OneLine(line) && (HasKey(line) ==> LineKey(line)[0] != '[') }

  // ----- facts about the searches

  lemma FindNotOfIs(s: string, cs: Chars, from: nat, i: nat)
    requires from <= i <= |s|
    requires forall k :: from <= k < i ==> Has(cs, s[k])
    requires i < |s| ==> !Has(cs, s[i])
    ensures FindNotOf(s, cs, from) == i
  {
  }

  lemma FindOfIs(s: string, cs: Chars, from: nat, i: nat)
    requires from <= i <= |s|
    requires forall k :: from <= k < i ==> !Has(cs, s[k])
    requires i < |s| ==> Has(cs, s[i])
    ensures FindOf(s, cs, from) == i
  {
  }

  lemma {:induction false} TrimEndSpaces(v: string, spaces: string)
    requires v != "" && v[|v| - 1] != ' '
    requires forall i :: 0 <= i < |spaces| ==> spaces[i] == ' '
    ensures TrimEnd(v + spaces) == v
    decreases |spaces|
  {
    var s := v + spaces;
    if spaces == "" {
      assert s == v;
    } else {
      var shorter := spaces[..|spaces| - 1];
      assert s[|s| - 1] == ' ';
      assert s[..|s| - 1] == v + shorter;
      TrimEndSpaces(v, shorter);
    }
  }

  lemma StripValue(v: string, spaces: string)
    requires v != "" && v[0] != ' ' && v[|v| - 1] != ' '
    requires forall i :: 0 <= i < |spaces| ==> spaces[i] == ' '
    ensures StripSpaces(v + spaces) == v
  {
    var s := v + spaces;
    assert s[0] == v[0];
    assert FindNotOf(s, Spaces, 0) == 0;
    assert s[0..] == s;
    TrimEndSpaces(v, spaces);
  }

  /** Blanks leading to a comment, or nothing. */
  predicate CommentTail(tail: string) {
    tail == "" || (FindNotOf(tail, Blanks, 0) < |tail| && tail[FindNotOf(tail, Blanks, 0)] == '#')
  }

  lemma CommentTailSpaces(tail: string, i: nat)
    requires CommentTail(tail) && i < FindOf(tail, ValueDelims, 0)
    ensures tail[i] == ' '
  {
  }

  /** Where the value starts and ends behind its separator. */
  lemma ValueSpan(sep: string, v: string, tail: string)
    requires forall i :: 0 <= i < |sep| ==> Has(BeforeValue, sep[i])
    requires GoodValue(v)
    ensures FindNotOf(sep + v + tail, BeforeValue, 0) == |sep|
    ensures FindOf(sep + v + tail, ValueDelims, |sep|) == |sep| + |v| + FindOf(tail, ValueDelims, 0)
  {
    var rest := sep + v + tail;
    forall k | 0 <= k < |sep| ensures Has(BeforeValue, rest[k]) { assert rest[k] == sep[k]; }
    assert rest[|sep|] == v[0];
    FindNotOfIs(rest, BeforeValue, 0, |sep|);
    var j := FindOf(tail, ValueDelims, 0);
    forall k | |sep| <= k < |sep| + |v| + j ensures !Has(ValueDelims, rest[k]) {
      assert rest[k] == if k < |sep| + |v| then v[k - |sep|] else tail[k - |sep| - |v|];
    }
    assert j < |tail| ==> rest[|sep| + |v| + j] == tail[j];
    FindOfIs(rest, ValueDelims, |sep|, |sep| + |v| + j);
  }

  lemma SliceAcross(a: string, b: string, c: string, j: nat)
    requires j <= |c|
    ensures (a + b + c)[|a|..|a| + |b| + j] == b + c[..j]
  {
  }

  lemma ParseRestOfLine(sep: string, v: string, tail: string)
    requires forall i :: 0 <= i < |sep| ==> Has(BeforeValue, sep[i])
    requires GoodValue(v) && CommentTail(tail)
    ensures FindNotOf(sep + v + tail, BeforeValue, 0) == |sep|
    ensures StripSpaces((sep + v + tail)[|sep|..FindOf(sep + v + tail, ValueDelims, |sep|)]) == v
  {
    hide Has, FindOf, FindNotOf, CommentTail, StripSpaces;
    ValueSpan(sep, v, tail);
    var j := FindOf(tail, ValueDelims, 0);
    SliceAcross(sep, v, tail, j);
    forall i | 0 <= i < j ensures tail[i] == ' ' { CommentTailSpaces(tail, i); }
    StripValue(v, tail[..j]);
  }

  lemma KeySpan(head: string, key: string, rest: string)
    requires forall i :: 0 <= i < |head| ==> Has(KeyDelims, head[i])
    requires key != "" && key[0] != '#' && (head == "" ==> key[0] != '[')
    requires forall i :: 0 <= i < |key| ==> !Has(KeyDelims, key[i])
    requires rest != "" && Has(KeyDelims, rest[0])
    ensures HasKey(head + key + rest)
    ensures KeyStart(head + key + rest) == |head| && KeyEnd(head + key + rest) == |head| + |key|
  {
    var line := head + key + rest;
    var ks, ke := |head|, |head| + |key|;
    forall k | 0 <= k < ks ensures Has(KeyDelims, line[k]) { assert line[k] == head[k]; }
    forall k | ks <= k < ke ensures !Has(KeyDelims, line[k]) { assert line[k] == key[k - ks]; }
    assert line[ke] == rest[0];
    FindNotOfIs(line, KeyDelims, 0, ks);
    FindOfIs(line, KeyDelims, ks, ke);
    assert line[0] == if head != "" then head[0] else key[0];
  }

  /** A line made of a key (with what precedes it), a separator, a value and a
      kept comment parses to that key and value. */
  lemma ParseParts(head: string, key: string, sep: string, v: string, tail: string)
    requires forall i :: 0 <= i < |head| ==> Has(KeyDelims, head[i])
    requires key != "" && key[0] != '#' && (head == "" ==> key[0] != '[')
    requires forall i :: 0 <= i < |key| ==> !Has(KeyDelims, key[i])
    requires sep != "" && Has(KeyDelims, sep[0])
    requires forall i :: 0 <= i < |sep| ==> Has(BeforeValue, sep[i])
    requires GoodValue(v) && CommentTail(tail)
    ensures HasKey(head + key + (sep + v + tail))
    ensures ParseLine(head + key + (sep + v + tail)) == Some(Assignment(key, v))
  {
    hide Has;
    var rest := sep + v + tail;
    var line := head + key + rest;
    assert rest[0] == sep[0];
    KeySpan(head, key, rest);
    assert line[|head|..|head| + |key|] == key;
    assert line[|head| + |key|..] == rest;
    ParseRestOfLine(sep, v, tail);
  }

  // ----- rewriting

  /** The kept comment is nothing, or blanks and a comment. */
  lemma KeptCommentTail(line: string)
    ensures CommentTail(KeptComment(line))
  {
    var start := ValueStart(line);
    var hash := FindOf(line, Hashes, start);
    if hash < |line| {
      var gap := if TrimmedEnd(line, hash) < start then start else TrimmedEnd(line, hash);
      var tail := line[gap..];
      assert gap <= hash;
      forall k | 0 <= k < hash - gap ensures Has(Blanks, tail[k]) { assert tail[k] == line[gap + k]; }
      assert tail[hash - gap] == '#';
      FindNotOfIs(tail, Blanks, 0, hash - gap);
    }
  }

  /** The separator of a rewritten line. */
  function SepText(line: string): string
    requires KeyEnd(line) <= ValueStart(line)
  {
    line[KeyEnd(line)..ValueStart(line)] + (if Separator(line) == |line| then "=" else "")
  }

  lemma SepTextBlank(line: string)
    requires HasKey(line) && PlainSeparator(line)
    ensures KeyEnd(line) <= ValueStart(line)
    ensures SepText(line) != "" && Has(KeyDelims, SepText(line)[0])
    ensures forall i :: 0 <= i < |SepText(line)| ==> Has(BeforeValue, SepText(line)[i])
  {
  }

  lemma RewriteShape(line: string, v: string)
    requires KeyEnd(line) <= ValueStart(line) && v != ""
    ensures Rewrite(line, v)
      == line[..KeyStart(line)] + line[KeyStart(line)..KeyEnd(line)] + (SepText(line) + v + KeptComment(line))
  {
    var ks, ke, start := KeyStart(line), KeyEnd(line), ValueStart(line);
    hide KeptComment, KeyStart, KeyEnd, ValueStart;
    Cut(line, ks, ke, start);
    Regroup(line[..ks], line[ks..ke], line[ke..start],
            if Separator(line) == |line| then "=" else "", v, KeptComment(line));
  }

  lemma Cut(line: string, i: nat, j: nat, k: nat)
    requires i <= j <= k <= |line|
    ensures line[..k] == line[..i] + line[i..j] + line[j..k]
  {
  }

  lemma Regroup(a: string, b: string, c: string, d: string, e: string, f: string)
    ensures (a + b + c) + d + e + f == a + b + ((c + d) + e + f)
  {
  }

  /** The writer and the reader agree: a rewritten line still assigns its key,
      and assigns it the new value. */
  lemma RewriteParses(line: string, v: string)
    requires HasKey(line) && PlainSeparator(line) && GoodValue(v)
    ensures HasKey(Rewrite(line, v))
    ensures ParseLine(Rewrite(line, v)) == Some(Assignment(LineKey(line), v))
  {
    hide Has, ParseLine, Rewrite, SepText, KeptComment;
    var ks, ke := KeyStart(line), KeyEnd(line);
    SepTextBlank(line);
    KeptCommentTail(line);
    RewriteShape(line, v);
    ParseParts(line[..ks], line[ks..ke], SepText(line), v, KeptComment(line));
  }

  /** Where text precedes the '=', a new value is written behind it and never
      read: the line keeps assigning what it assigned before. */
  lemma RewriteIgnored(line: string, v: string)
    requires HasKey(line) && !PlainSeparator(line) && GoodValue(v)
    ensures HasKey(Rewrite(line, v))
    ensures ParseLine(Rewrite(line, v)) == ParseLine(line)
  {
    var eq, start, out := Separator(line), ValueStart(line), Rewrite(line, v);
    assert eq < start;
    SameBefore(line, out, eq);
  }

  /** Parsing looks no further than an '=' that follows some text. */
  lemma SameBefore(line: string, out: string, eq: nat)
    requires HasKey(line) && KeyEnd(line) <= eq < |line| && line[eq] == '='
    requires FindNotOf(line, BeforeValue, KeyEnd(line)) < eq
    requires eq < |out| && forall k :: 0 <= k <= eq ==> out[k] == line[k]
    ensures HasKey(out) && ParseLine(out) == ParseLine(line)
  {
    hide Has, FindOf, FindNotOf, StripSpaces, HasKey, LineKey, KeyEnd, KeyStart;
    var ke := KeyEnd(line);
    SameKey(line, out);
    SameRest(line[ke..], out[ke..], FindNotOf(line, BeforeValue, ke) - ke, eq - ke);
  }

  lemma SameKey(line: string, out: string)
    requires HasKey(line) && KeyEnd(line) < |out| && forall k :: 0 <= k <= KeyEnd(line) ==> out[k] == line[k]
    ensures HasKey(out) && KeyEnd(out) == KeyEnd(line) && LineKey(out) == LineKey(line)
  {
  }

  lemma SameRest(a: string, b: string, start: nat, eq: nat)
    requires start < eq < |a| && eq < |b| && a[eq] == '='
    requires forall k :: 0 <= k < start ==> Has(BeforeValue, a[k])
    requires !Has(BeforeValue, a[start])
    requires forall k :: 0 <= k <= eq ==> a[k] == b[k]
    ensures FindNotOf(a, BeforeValue, 0) == FindNotOf(b, BeforeValue, 0) == start
    ensures FindOf(a, ValueDelims, start) == FindOf(b, ValueDelims, start) <= eq
    ensures a[start..FindOf(a, ValueDelims, start)] == b[start..FindOf(b, ValueDelims, start)]
  {
    FindNotOfIs(a, BeforeValue, 0, start);
    FindNotOfIs(b, BeforeValue, 0, start);
    var end := FindOf(a, ValueDelims, start);
    assert Has(ValueDelims, a[eq]);
    assert end <= eq;
    FindOfIs(b, ValueDelims, start, end);
  }

  // ----- lines made from scratch

  function PairLine(k: string, v: string): string { k + "=" + v }

  function HeaderLine(section: string): string { "[" + section + "]" }

  lemma PairLineParses(k: string, v: string)
    requires GoodKey(k) && GoodValue(v)
    ensures HasKey(PairLine(k, v))
    ensures ParseLine(PairLine(k, v)) == Some(Assignment(k, v))
    ensures OneLine(PairLine(k, v))
  {
    hide ParseLine, HasKey, Has;
    PairLineShape(k, v);
    ParseParts("", k, "=", v, "");
  }

  lemma PairLineShape(k: string, v: string)
    requires GoodKey(k) && GoodValue(v)
    ensures PairLine(k, v) == "" + k + ("=" + v + "")
    ensures OneLine(PairLine(k, v))
    ensures CommentTail("") && Has(KeyDelims, "="[0]) && Has(BeforeValue, "="[0])
  {
  }

  lemma HeaderLineParses(s: string)
    requires GoodSection(s)
    ensures IsHeader(HeaderLine(s)) && SectionName(HeaderLine(s)) == s
    ensures OneLine(HeaderLine(s))
  {
    var line := HeaderLine(s);
    if s == "" {
      assert line == "[]";
      FindNotOfIs(line, Brackets, 0, 2);
    } else {
      assert line[1] == s[0];
      FindNotOfIs(line, Brackets, 0, 1);
      forall k | 1 <= k < 1 + |s| ensures !Has(Brackets, line[k]) { assert line[k] == s[k - 1]; }
      FindOfIs(line, Brackets, 1, 1 + |s|);
      assert line[1..1 + |s|] == s;
    }
  }

  lemma RewriteOneLine(line: string, v: string)
    requires OneLine(line) && GoodValue(v)
    ensures OneLine(Rewrite(line, v))
  {
    var start := ValueStart(line);
    var tail := KeptComment(line);
    var hash := FindOf(line, Hashes, start);
    assert OneLine(line[..start]) && OneLine(v);
    assert OneLine(tail) by {
      if hash < |line| {
        var gap := if TrimmedEnd(line, hash) < start then start else TrimmedEnd(line, hash);
        assert tail == line[gap..];
      }
    }
    var mid := if Separator(line) == |line| then "=" else "";
    OneLineConcat(line[..start], mid);
    OneLineConcat(line[..start] + mid, v);
    OneLineConcat(line[..start] + mid + v, tail);
  }

  lemma OneLineConcat(a: string, b: string)
    requires OneLine(a) && OneLine(b)
    ensures OneLine(a + b)
  {
  }

  // ----- what a good line yields

  lemma {:induction false} TrimEndShape(s: string)
    requires s != "" && s[0] != ' '
    ensures TrimEnd(s) != "" && TrimEnd(s) <= s && TrimEnd(s)[|TrimEnd(s)| - 1] != ' '
  {
    if s[|s| - 1] == ' ' {
      TrimEndShape(s[..|s| - 1]);
    }
  }

  lemma ParsedGood(line: string)
    requires GoodLine(line) && ParseLine(line).Some?
    ensures GoodKey(ParseLine(line).value.key) && GoodValue(ParseLine(line).value.value)
  {
    hide Has, StripSpaces, GoodKey, GoodValue;
    KeyGood(line);
    var rest := line[KeyEnd(line)..];
    var start := FindNotOf(rest, BeforeValue, 0);
    RestValueGood(rest, start, FindOf(rest, ValueDelims, start));
  }

  lemma KeyGood(line: string)
    requires GoodLine(line) && HasKey(line)
    ensures GoodKey(LineKey(line))
  {
  }

  lemma RestValueGood(rest: string, start: nat, end: nat)
    requires OneLine(rest) && start < |rest| && !Has(BeforeValue, rest[start])
    requires end == FindOf(rest, ValueDelims, start)
    ensures GoodValue(StripSpaces(rest[start..end]))
  {
    assert start < end;
    var s := rest[start..end];
    assert s[0] == rest[start] && s[0] != ' ';
    assert FindNotOf(s, Spaces, 0) == 0;
    assert s[0..] == s;
    TrimEndShape(s);
    var v := TrimEnd(s);
    assert v[0] == s[0];
    forall i | 0 <= i < |v| ensures !Has(ValueDelims, v[i]) && !Has(LineEnds, v[i]) {
      assert v[i] == s[i] == rest[start + i];
    }
  }
}
