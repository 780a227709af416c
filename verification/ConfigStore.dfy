/** The configuration store: parsing a file and writing it back
    (src/configuration.cpp). */
module ConfigStore {
  import opened Wrappers
  import opened ConfigText

  type Section = map<string, string>
  type ConfigMap = map<string, Section>

  function Find(m: ConfigMap, section: string, key: string): Option<string> {
    if section in m && key in m[section] then Some(m[section][key]) else None
  }

  function Put(m: ConfigMap, section: string, key: string, value: string): ConfigMap {
    m[section := (if section in m then m[section] else map[])[key := value]]
  }

  lemma PutFind(m: ConfigMap, s: string, k: string, v: string, section: string, key: string)
    ensures Find(Put(m, s, k, v), section, key)
      == if s == section && k == key then Some(v) else Find(m, section, key)
  {
  }

  // ----- parsing

  /** The section in force after a line. */
  function NextSection(line: string, section: string): string {
    if IsHeader(line) && SectionName(line) != "" then SectionName(line) else section
  }

  function ParseLines(lines: seq<string>, section: string, m: ConfigMap): ConfigMap
    decreases |lines|
  {
    if lines == [] then m
    else
      var m' := match ParseLine(lines[0])
        case None => m
        case Some(a) => Put(m, section, a.key, a.value);
      ParseLines(lines[1..], NextSection(lines[0], section), m')
  }

  // ----- text and lines

  /** getline: lines are ended by a newline; a final empty line is not one. */
  function SplitLines(text: string): seq<string>
    decreases |text|
  {
    if text == "" then []
    else
      var i := FindNewline(text);
      if i == |text| then [text] else [text[..i]] + SplitLines(text[i + 1..])
  }

  function FindNewline(text: string): (i: nat)
    ensures i <= |text|
    ensures forall k :: 0 <= k < i ==> text[k] != '\n'
    ensures i < |text| ==> text[i] == '\n'
  {
    if text == "" || text[0] == '\n' then 0 else 1 + FindNewline(text[1..])
  }

  function StripReturn(line: string): string {
    if line != "" && line[|line| - 1] == '\r' then line[..|line| - 1] else line
  }

  function TextLines(text: string): (r: seq<string>)
  {
    var raw := SplitLines(text);
    seq(|raw|, i requires 0 <= i < |raw| => StripReturn(raw[i]))
  }

  function JoinLines(lines: seq<string>): string {
    if lines == [] then "" else lines[0] + "\n" + JoinLines(lines[1..])
  }

  // ----- key order

  predicate LexLe(a: string, b: string) {
    a == "" || (b != "" && (a[0] < b[0] || (a[0] == b[0] && LexLe(a[1..], b[1..]))))
  }

  lemma {:induction false} LexLeTotal(a: string, b: string)
    ensures LexLe(a, b) || LexLe(b, a)
    decreases |a|
  {
    if a != "" && b != "" && a[0] == b[0] { LexLeTotal(a[1..], b[1..]); }
  }

  lemma {:induction false} LexLeAntisymmetric(a: string, b: string)
    requires LexLe(a, b) && LexLe(b, a)
    ensures a == b
    decreases |a|
  {
    if a != "" {
      LexLeAntisymmetric(a[1..], b[1..]);
      assert a == [a[0]] + a[1..] && b == [b[0]] + b[1..];
    }
  }

  lemma {:induction false} LexLeTransitive(a: string, b: string, c: string)
    requires LexLe(a, b) && LexLe(b, c)
    ensures LexLe(a, c)
    decreases |a|
  {
    if a != "" && a[0] == b[0] == c[0] { LexLeTransitive(a[1..], b[1..], c[1..]); }
  }

  predicate IsLeast(k: string, s: set<string>) { k in s && forall j :: j in s ==> LexLe(k, j) }

  lemma {:induction false} LeastExists(s: set<string>) returns (k: string)
    requires s != {}
    ensures IsLeast(k, s)
    decreases |s|
  {
    var x :| x in s;
    LexLeTotal(x, x);
    if s == {x} {
      k := x;
    } else {
      var rest := s - {x};
      assert s == rest + {x};
      assert rest != {};
      var y := LeastExists(rest);
      LexLeTotal(x, y);
      if LexLe(x, y) {
        k := x;
        forall j | j in s ensures LexLe(x, j) { if j != x { LexLeTransitive(x, y, j); } }
      } else {
        k := y;
      }
    }
  }

  lemma LeastUnique(s: set<string>)
    ensures forall j, k :: IsLeast(j, s) && IsLeast(k, s) ==> j == k
  {
    forall j, k | IsLeast(j, s) && IsLeast(k, s) ensures j == k { LexLeAntisymmetric(j, k); }
  }

  lemma SomeLeast(s: set<string>)
    requires s != {}
    ensures exists k :: IsLeast(k, s)
  {
    var k := LeastExists(s);
  }

  /** The keys of a std::map, in iteration order. */
  function InOrder(s: set<string>): (r: seq<string>)
    ensures forall k :: k in r <==> k in s
    decreases |s|
  {
    if s == {} then []
    else
      SomeLeast(s);
      LeastUnique(s);
      var k :| IsLeast(k, s);
      [k] + InOrder(s - {k})
  }

  /** Ascending by character code, each key once. */
  lemma {:induction false} InOrderAscends(s: set<string>, i: nat, j: nat)
    requires i < j < |InOrder(s)|
    ensures LexLe(InOrder(s)[i], InOrder(s)[j]) && InOrder(s)[i] != InOrder(s)[j]
    decreases |s|
  {
    SomeLeast(s);
    LeastUnique(s);
    var k :| IsLeast(k, s);
    var rest := InOrder(s - {k});
    assert InOrder(s) == [k] + rest;
    if i == 0 {
      assert rest[j - 1] in rest;
    } else {
      InOrderAscends(s - {k}, i - 1, j - 1);
    }
  }

  // ----- writing

  /** One "key=value" line for each of the keys. */
  function PairLines(m: Section, keys: seq<string>): seq<string>
    requires forall k :: k in keys ==> k in m
  {
    if keys == [] then [] else [PairLine(keys[0], m[keys[0]])] + PairLines(m, keys[1..])
  }

  function SectionLines(m: Section): seq<string> { PairLines(m, InOrder(m.Keys)) }

  function DumpLines(m: ConfigMap, names: seq<string>): seq<string>
    requires forall s :: s in names ==> s in m
  {
    if names == [] then []
    else [HeaderLine(names[0])] + SectionLines(m[names[0]]) + DumpLines(m, names[1..])
  }

  function NonEmpty(m: ConfigMap): ConfigMap { map s | s in m && m[s] != map[] :: m[s] }

  /** The number of lines up to and including the last non-blank one. */
  function BodyLength(lines: seq<string>): (n: nat)
    ensures n <= |lines|
    ensures forall i :: n <= i < |lines| ==> lines[i] == ""
  {
    if lines == [] || lines[|lines| - 1] != "" then |lines| else BodyLength(lines[..|lines| - 1])
  }

  /** The lines of a finished section, with the keys it still lacks added
      after its last non-blank line. */
  function FlushLines(buffered: seq<string>, pending: ConfigMap, section: string): seq<string> {
    if section in pending && pending[section] != map[] then
      var at := BodyLength(buffered);
      buffered[..at] + SectionLines(pending[section]) + buffered[at..]
    else buffered
  }

  function DropKey(pending: ConfigMap, section: string, key: string): ConfigMap {
    if section in pending then pending[section := pending[section] - {key}] else pending
  }

  /** Rewrite the parsed lines in place. `pending` loses each key as its line
      is rewritten; what is left is added to its section, or as a new one. */
  function StreamLines(lines: seq<string>, config: ConfigMap, pending: ConfigMap, section: string,
                       buffered: seq<string>): seq<string>
    decreases |lines|
  {
    if lines == [] then
      var left := NonEmpty(pending - {section});
      FlushLines(buffered, pending, section) + DumpLines(left, InOrder(left.Keys))
    else
      var line := lines[0];
      if IsHeader(line) && SectionName(line) != "" then
        FlushLines(buffered, pending, section)
          + StreamLines(lines[1..], config, pending - {section}, SectionName(line), [line])
      else if LineKey(line) != "" && Find(config, section, LineKey(line)).Some? then
        StreamLines(lines[1..], config, DropKey(pending, section, LineKey(line)), section,
                    buffered + [Rewrite(line, Find(config, section, LineKey(line)).value)])
      else
        StreamLines(lines[1..], config, pending, section, buffered + [line])
  }

  /** toStream. */
  function OutputLines(lines: seq<string>, config: ConfigMap): seq<string> {
    if lines == [] then DumpLines(config, InOrder(config.Keys))
    else StreamLines(lines, config, config, "", [])
  }
}
