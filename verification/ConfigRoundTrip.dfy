/** Print-then-parse for whole configuration files. */
module ConfigRoundTrip {
  import opened Wrappers
  import opened ConfigText
  import opened ConfigStore
  import opened ConfigProofs

  // ----- lines and text

  lemma {:induction false} NewlineAt(line: string, rest: string)
    requires OneLine(line)
    ensures FindNewline(line + "\n" + rest) == |line|
  {
    var t := line + "\n" + rest;
    if line != "" {
      assert !Has(LineEnds, line[0]);
      NewlineAt(line[1..], rest);
      assert t[1..] == line[1..] + "\n" + rest;
    }
  }

  /** Lines without line ends survive being joined and split. */
  lemma {:induction false} SplitJoin(lines: seq<string>)
    requires forall i :: 0 <= i < |lines| ==> OneLine(lines[i])
    ensures SplitLines(JoinLines(lines)) == lines
    decreases |lines|
  {
    if lines != [] {
      var line, rest := lines[0], JoinLines(lines[1..]);
      var t := JoinLines(lines);
      assert t == line + "\n" + rest;
      NewlineAt(line, rest);
      assert t[..|line|] == line && t[|line| + 1..] == rest;
      SplitJoin(lines[1..]);
    }
  }

  lemma TextJoin(lines: seq<string>)
    requires forall i :: 0 <= i < |lines| ==> OneLine(lines[i])
    ensures TextLines(JoinLines(lines)) == lines
  {
    SplitJoin(lines);
    forall i | 0 <= i < |lines| ensures StripReturn(lines[i]) == lines[i] {
      if lines[i] != "" { assert !Has(LineEnds, lines[i][|lines[i]| - 1]); }
    }
  }

  // ----- every written line is one line

  ghost predicate AllOneLine(lines: seq<string>) { forall i :: 0 <= i < |lines| ==> OneLine(lines[i]) }

  lemma {:induction false} PairLinesOneLine(m: Section, keys: seq<string>)
    requires forall k :: k in keys ==> k in m
    requires GoodSectionMap(m)
    ensures AllOneLine(PairLines(m, keys))
  {
    if keys != [] {
      assert keys[0] in keys;
      PairLineParses(keys[0], m[keys[0]]);
      PairLinesOneLine(m, keys[1..]);
    }
  }

  lemma {:induction false} DumpOneLine(m: ConfigMap, names: seq<string>)
    requires forall s :: s in names ==> s in m
    requires forall s :: s in m ==> GoodSection(s) && GoodSectionMap(m[s])
    ensures AllOneLine(DumpLines(m, names))
    decreases |names|
  {
    if names != [] {
      assert names[0] in names;
      HeaderLineParses(names[0]);
      PairLinesOneLine(m[names[0]], InOrder(m[names[0]].Keys));
      DumpOneLine(m, names[1..]);
    }
  }

  lemma FlushOneLine(buffered: seq<string>, pending: ConfigMap, section: string)
    requires AllOneLine(buffered)
    requires forall s :: s in pending ==> GoodSectionMap(pending[s])
    ensures AllOneLine(FlushLines(buffered, pending, section))
  {
    if section in pending {
      PairLinesOneLine(pending[section], InOrder(pending[section].Keys));
    }
  }

  lemma {:induction false} StreamOneLine(lines: seq<string>, config: ConfigMap, pending: ConfigMap,
                                         section: string, buffered: seq<string>)
    requires GoodConfig(config) && GoodLines(lines) && AllOneLine(buffered)
    requires forall s :: s in pending ==> s in config && GoodSectionMap(pending[s])
    ensures AllOneLine(StreamLines(lines, config, pending, section, buffered))
    decreases |lines|
  {
    hide HasKey, PlainSeparator, Rewrite, GoodKey, GoodValue, GoodSection, OneLine, IsHeader, SectionName, LineKey;
    FlushOneLine(buffered, pending, section);
    if lines == [] {
      var left := NonEmpty(pending - {section});
      DumpOneLine(left, InOrder(left.Keys));
    } else {
      var line := lines[0];
      assert GoodLine(line);
      LineKeyNonEmpty(line);
      if IsHeader(line) && SectionName(line) != "" {
        StreamOneLine(lines[1..], config, pending - {section}, SectionName(line), [line]);
      } else if LineKey(line) != "" && Find(config, section, LineKey(line)).Some? {
        var value := Find(config, section, LineKey(line)).value;
        RewriteOneLine(line, value);
        StreamOneLine(lines[1..], config, DropKey(pending, section, LineKey(line)), section,
                      buffered + [Rewrite(line, value)]);
      } else {
        StreamOneLine(lines[1..], config, pending, section, buffered + [line]);
      }
    }
  }

  // ----- what parsing a good file yields

  ghost predicate KeysWithin(a: ConfigMap, b: ConfigMap) {
    forall s, k :: Find(a, s, k).Some? ==> Find(b, s, k).Some?
  }

  lemma PutGood(m: ConfigMap, s: string, k: string, v: string)
    requires GoodConfig(m) && GoodSection(s) && GoodKey(k) && GoodValue(v)
    ensures GoodConfig(Put(m, s, k, v)) && KeysWithin(m, Put(m, s, k, v))
    ensures Find(Put(m, s, k, v), s, k).Some?
  {
    hide GoodSection, GoodKey, GoodValue;
    assert k in Put(m, s, k, v)[s];
  }

  lemma {:induction false} ParseGood(lines: seq<string>, section: string, m: ConfigMap)
    requires GoodLines(lines) && GoodConfig(m) && GoodSection(section)
    ensures GoodConfig(ParseLines(lines, section, m))
    ensures KeysWithin(m, ParseLines(lines, section, m))
    ensures Covered(lines, section, ParseLines(lines, section, m))
    decreases |lines|
  {
    hide ParseLine, GoodLine, GoodKey, GoodValue, GoodConfig, SectionName, GoodSection;
    if lines != [] {
      var line := lines[0];
      NextSectionGood(line, section);
      match ParseLine(line)
      case None =>
        ParseGood(lines[1..], NextSection(line, section), m);
      case Some(a) =>
        ParsedGood(line);
        PutGood(m, section, a.key, a.value);
        ParseGood(lines[1..], NextSection(line, section), Put(m, section, a.key, a.value));
    }
  }

  lemma NextSectionGood(line: string, section: string)
    requires GoodLine(line) && GoodSection(section)
    ensures GoodSection(NextSection(line, section))
  {
  }

  lemma {:induction false} CoveredMore(lines: seq<string>, section: string, a: ConfigMap, b: ConfigMap)
    requires Covered(lines, section, a) && KeysWithin(a, b)
    ensures Covered(lines, section, b)
    decreases |lines|
  {
    hide ParseLine;
    if lines != [] { CoveredMore(lines[1..], NextSection(lines[0], section), a, b); }
  }

  // ----- sets, and the round trip

  datatype Update = Update(section: string, key: string, value: string)

  ghost predicate GoodUpdate(u: Update) { GoodSection(u.section) && GoodKey(u.key) && GoodValue(u.value) }

  function Apply(m: ConfigMap, updates: seq<Update>): ConfigMap
    decreases |updates|
  {
    if updates == [] then m else Apply(Put(m, updates[0].section, updates[0].key, updates[0].value), updates[1..])
  }

  lemma {:induction false} ApplyGood(m: ConfigMap, updates: seq<Update>)
    requires GoodConfig(m) && forall i :: 0 <= i < |updates| ==> GoodUpdate(updates[i])
    ensures GoodConfig(Apply(m, updates)) && KeysWithin(m, Apply(m, updates))
    decreases |updates|
  {
    hide GoodConfig, GoodKey, GoodValue, GoodSection;
    if updates != [] {
      var u := updates[0];
      assert GoodUpdate(u);
      PutGood(m, u.section, u.key, u.value);
      ApplyGood(Put(m, u.section, u.key, u.value), updates[1..]);
    }
  }

  // ----- what the written file assigns

  /** The last line that carries a key decides what it is saved as; a key
      without a line is saved as it is. */
  lemma OutputLast(lines: seq<string>, config: ConfigMap, s: string, k: string)
    requires GoodConfig(config) && GoodLines(lines) && Covered(lines, "", config)
    ensures var v, line := Find(config, s, k), LastKeyLine(lines, "", s, k);
      LastAssigned(OutputLines(lines, config), "", s, k)
        == if v.Some? && line.Some? then Written(line.value, v.value) else v
  {
    if lines == [] {
      DumpLast(config, "", s, k);
    } else {
      StreamLast(lines, config, config, "", [], "", s, k);
    }
  }

  lemma OutputOneLine(lines: seq<string>, config: ConfigMap)
    requires GoodConfig(config) && GoodLines(lines)
    ensures AllOneLine(OutputLines(lines, config))
  {
    if lines == [] {
      DumpOneLine(config, InOrder(config.Keys));
    } else {
      StreamOneLine(lines, config, config, "", []);
    }
  }

  /** For every key, the last line that carries it has nothing but blanks in
      front of its '=', or already parses to the configured value. */
  ghost predicate Faithful(lines: seq<string>, config: ConfigMap) {
    forall s, k :: Find(config, s, k).Some? && LastKeyLine(lines, "", s, k).Some? ==>
      Written(LastKeyLine(lines, "", s, k).value, Find(config, s, k).value) == Find(config, s, k)
  }

  /** A configuration that goes on from a parsed text, whatever was set since,
      is written out so that it parses to itself, if and only if the text is
      faithful to it. */
  lemma SavedReloads(text: string, config: ConfigMap)
    requires GoodLines(TextLines(text)) && GoodConfig(config)
    requires KeysWithin(ParseLines(TextLines(text), "", map[]), config)
    ensures ParseLines(TextLines(JoinLines(OutputLines(TextLines(text), config))), "", map[]) == config
      <==> Faithful(TextLines(text), config)
  {
    hide Find, Written, LastKeyLine, GoodLines, TextLines, JoinLines, OutputLines, ParseLines, LastAssigned;
    var lines := TextLines(text);
    ParseGood(lines, "", map[]);
    CoveredMore(lines, "", ParseLines(lines, "", map[]), config);
    var written := OutputLines(lines, config);
    OutputOneLine(lines, config);
    TextJoin(written);
    var parsed := ParseLines(written, "", map[]);
    ParseNoEmpty(written, "", map[]);
    forall s, k
      ensures var v, line := Find(config, s, k), LastKeyLine(lines, "", s, k);
        Find(parsed, s, k) == if v.Some? && line.Some? then Written(line.value, v.value) else v
    {
      OutputLast(lines, config, s, k);
      ParseLast(written, "", map[], s, k);
      NothingFound(s, k);
    }
    if Faithful(lines, config) { FindDetermines(parsed, config); }
  }

  lemma NothingFound(s: string, k: string)
    ensures Find(map[], s, k).None?
  {
  }

  /** The program's promise about saving: a file that was parsed, changed by
      any sets and written out parses to exactly the same configuration, if and
      only if its lines are faithful to it. */
  lemma SaveThenLoad(text: string, updates: seq<Update>)
    requires GoodLines(TextLines(text))
    requires forall i :: 0 <= i < |updates| ==> GoodUpdate(updates[i])
    ensures var lines := TextLines(text);
      var config := Apply(ParseLines(lines, "", map[]), updates);
      ParseLines(TextLines(JoinLines(OutputLines(lines, config))), "", map[]) == config <==> Faithful(lines, config)
  {
    hide Faithful, GoodLines, TextLines, JoinLines, OutputLines, ParseLines;
    var parsed := ParseLines(TextLines(text), "", map[]);
    ParseGood(TextLines(text), "", map[]);
    ApplyGood(parsed, updates);
    SavedReloads(text, Apply(parsed, updates));
  }

  // ----- files in the format the writer is meant for

  ghost predicate PlainLines(lines: seq<string>) {
    forall i :: 0 <= i < |lines| ==> HasKey(lines[i]) ==> PlainSeparator(lines[i])
  }

  lemma {:induction false} KeyLinePlain(lines: seq<string>, section: string, s: string, k: string)
    requires PlainLines(lines)
    ensures LastKeyLine(lines, section, s, k).Some? ==> PlainSeparator(LastKeyLine(lines, section, s, k).value)
    decreases |lines|
  {
    hide HasKey, PlainSeparator;
    if lines != [] { KeyLinePlain(lines[1..], NextSection(lines[0], section), s, k); }
  }

  /** With nothing but blanks in front of every '=' a file is faithful to any
      configuration, repeated sections and keys and comments included. */
  lemma PlainFaithful(lines: seq<string>, config: ConfigMap)
    requires PlainLines(lines)
    ensures Faithful(lines, config)
  {
    hide PlainLines;
    forall s, k | Find(config, s, k).Some? && LastKeyLine(lines, "", s, k).Some?
      ensures Written(LastKeyLine(lines, "", s, k).value, Find(config, s, k).value) == Find(config, s, k)
    {
      KeyLinePlain(lines, "", s, k);
    }
  }

  // ----- a file that is not

  const STALE := "k a=b"

  lemma StaleKey()
    ensures OneLine(STALE) && HasKey(STALE) && LineKey(STALE) == "k" && KeyEnd(STALE) == 1
  {
    FindNotOfIs(STALE, KeyDelims, 0, 0);
    FindOfIs(STALE, KeyDelims, 0, 1);
    assert STALE[0..1] == "k";
  }

  lemma StaleValue()
    ensures !PlainSeparator(STALE) && ParseLine(STALE) == Some(Assignment("k", "a"))
  {
    hide HasKey, LineKey, KeyEnd, KeyStart;
    StaleKey();
    FindOfIs(STALE, Equals, 1, 3);
    FindNotOfIs(STALE, BeforeValue, 1, 2);
    var rest := STALE[1..];
    assert rest == " a=b";
    FindNotOfIs(rest, BeforeValue, 0, 1);
    FindOfIs(rest, ValueDelims, 1, 2);
    assert rest[1..2] == "a";
    StripValue("a", "");
    assert "a" + "" == "a";
  }

  lemma StaleText()
    ensures TextLines(STALE + "\n") == [STALE]
  {
    StaleKey();
    TextJoin([STALE]);
    assert [STALE][1..] == [];
    assert JoinLines([STALE]) == STALE + "\n" + JoinLines([]);
    assert STALE + "\n" + "" == STALE + "\n";
  }

  /** Text in front of an '=': the new value is saved but does not come back. */
  lemma StaleExample()
    ensures var lines := TextLines(STALE + "\n");
      var config := Apply(ParseLines(lines, "", map[]), [Update("", "k", "c")]);
      && GoodLines(lines) && GoodUpdate(Update("", "k", "c"))
      && ParseLines(TextLines(JoinLines(OutputLines(lines, config))), "", map[]) != config
  {
    hide TextLines, JoinLines, OutputLines, HasKey, LineKey, ParseLine, PlainSeparator, Find, Put, OneLine;
    var lines := TextLines(STALE + "\n");
    StaleKey();
    StaleValue();
    StaleText();
    var parsed := ParseLines(lines, "", map[]);
    var config := Put(parsed, "", "k", "c");
    assert Apply(parsed, [Update("", "k", "c")]) == config by { assert [Update("", "k", "c")][1..] == []; }
    PutFind(parsed, "", "k", "c", "", "k");
    StaleLast();
    SaveThenLoad(STALE + "\n", [Update("", "k", "c")]);
    assert Written(STALE, "c") == Some("a");
  }

  lemma StaleLast()
    ensures LastKeyLine([STALE], "", "", "k") == Some(STALE)
  {
    hide HasKey, LineKey;
    StaleKey();
    assert [STALE][1..] == [];
    assert LastKeyLine([], NextSection(STALE, ""), "", "k") == None;
  }
}
