/** What a written configuration assigns when it is parsed again, line by line
    and with the last assignment of a key winning. */
module ConfigProofs {
  import opened Wrappers
  import opened ConfigText
  import opened ConfigStore

  ghost predicate NoEmpty(m: ConfigMap) { forall s :: s in m ==> m[s] != map[] }

  /** Without empty sections a configuration is known by its lookups. */
  lemma FindDetermines(a: ConfigMap, b: ConfigMap)
    requires NoEmpty(a) && NoEmpty(b)
    requires forall s, k :: Find(a, s, k) == Find(b, s, k)
    ensures a == b
  {
    FindWithin(a, b);
    FindWithin(b, a);
    forall s | s in a ensures a[s] == b[s] { }
  }

  lemma FindWithin(a: ConfigMap, b: ConfigMap)
    requires NoEmpty(a) && forall s, k :: Find(a, s, k) == Find(b, s, k)
    ensures forall s :: s in a ==> s in b && forall k :: k in a[s] ==> k in b[s] && b[s][k] == a[s][k]
  {
    forall s | s in a ensures s in b {
      var k :| k in a[s];
      assert Find(a, s, k).Some?;
    }
    forall s, k | s in a && k in a[s] ensures s in b && k in b[s] && b[s][k] == a[s][k] {
      assert Find(a, s, k) == Find(b, s, k);
    }
  }

  // ----- the last assignment wins

  function Later(before: Option<string>, after: Option<string>): Option<string> {
    if after.Some? then after else before
  }

  function EndSection(lines: seq<string>, section: string): string
    decreases |lines|
  {
    if lines == [] then section else EndSection(lines[1..], NextSection(lines[0], section))
  }

  /** What a line assigns to that key, read in `section`. */
  function AssignedBy(line: string, section: string, s: string, k: string): Option<string> {
    match ParseLine(line)
    case None => None
    case Some(a) => if section == s && a.key == k then Some(a.value) else None
  }

  function LastAssigned(lines: seq<string>, section: string, s: string, k: string): Option<string>
    decreases |lines|
  {
    if lines == [] then None
    else Later(AssignedBy(lines[0], section, s, k), LastAssigned(lines[1..], NextSection(lines[0], section), s, k))
  }

  lemma {:induction false} LastConcat(a: seq<string>, b: seq<string>, section: string, s: string, k: string)
    ensures LastAssigned(a + b, section, s, k)
      == Later(LastAssigned(a, section, s, k), LastAssigned(b, EndSection(a, section), s, k))
    ensures EndSection(a + b, section) == EndSection(b, EndSection(a, section))
    decreases |a|
  {
    hide AssignedBy, NextSection;
    if a == [] {
      assert a + b == b;
    } else {
      LastConcat(a[1..], b, NextSection(a[0], section), s, k);
      assert (a + b)[1..] == a[1..] + b;
    }
  }

  lemma LastOne(line: string, section: string, s: string, k: string)
    ensures LastAssigned([line], section, s, k) == AssignedBy(line, section, s, k)
    ensures EndSection([line], section) == NextSection(line, section)
  {
    hide AssignedBy, NextSection;
    assert [line][1..] == [];
  }

  /** Parsing leaves every key at its last assignment. */
  lemma {:induction false} ParseLast(lines: seq<string>, section: string, m: ConfigMap, s: string, k: string)
    ensures Find(ParseLines(lines, section, m), s, k) == Later(Find(m, s, k), LastAssigned(lines, section, s, k))
    decreases |lines|
  {
    hide ParseLine, Find, Put, NextSection;
    if lines != [] {
      match ParseLine(lines[0])
      case None => ParseLast(lines[1..], NextSection(lines[0], section), m, s, k);
      case Some(a) =>
        PutFind(m, section, a.key, a.value, s, k);
        ParseLast(lines[1..], NextSection(lines[0], section), Put(m, section, a.key, a.value), s, k);
    }
  }

  lemma {:induction false} ParseNoEmpty(lines: seq<string>, section: string, m: ConfigMap)
    requires NoEmpty(m)
    ensures NoEmpty(ParseLines(lines, section, m))
    decreases |lines|
  {
    hide ParseLine, NextSection;
    if lines != [] {
      match ParseLine(lines[0])
      case None => ParseNoEmpty(lines[1..], NextSection(lines[0], section), m);
      case Some(a) =>
        var m' := Put(m, section, a.key, a.value);
        assert a.key in m'[section];
        ParseNoEmpty(lines[1..], NextSection(lines[0], section), m');
    }
  }

  // ----- lines made from scratch

  ghost predicate GoodSectionMap(m: Section) { forall k :: k in m ==> GoodKey(k) && GoodValue(m[k]) }

  ghost predicate GoodConfig(m: ConfigMap) {
    NoEmpty(m) && forall s :: s in m ==> GoodSection(s) && GoodSectionMap(m[s])
  }

  lemma {:induction false} PairLinesLast(m: Section, keys: seq<string>, section: string, s: string, k: string)
    requires forall j :: j in keys ==> j in m
    requires GoodSectionMap(m)
    ensures LastAssigned(PairLines(m, keys), section, s, k) == if s == section && k in keys then Some(m[k]) else None
    ensures EndSection(PairLines(m, keys), section) == section
  {
    hide ParseLine, HasKey;
    if keys != [] {
      var j := keys[0];
      assert j in keys;
      PairLineParses(j, m[j]);
      PairLineNotHeader(j, m[j]);
      PairLinesLast(m, keys[1..], section, s, k);
      var lines := PairLines(m, keys);
      assert lines[1..] == PairLines(m, keys[1..]);
      assert keys == [j] + keys[1..];
    }
  }

  lemma PairLineNotHeader(k: string, v: string)
    requires GoodKey(k)
    ensures !IsHeader(PairLine(k, v))
  {
  }

  lemma SectionLast(m: Section, section: string, s: string, k: string)
    requires GoodSectionMap(m)
    ensures LastAssigned(SectionLines(m), section, s, k) == if s == section && k in m then Some(m[k]) else None
    ensures EndSection(SectionLines(m), section) == section
  {
    PairLinesLast(m, InOrder(m.Keys), section, s, k);
  }

  /** An unnamed section can only come first. */
  ghost predicate Headed(names: seq<string>, section: string) {
    forall i :: 0 <= i < |names| && names[i] == "" ==> i == 0 && section == ""
  }

  lemma {:induction false} DumpLinesLast(m: ConfigMap, names: seq<string>, section: string, s: string, k: string)
    requires forall n :: n in names ==> n in m
    requires forall n :: n in m ==> GoodSection(n) && GoodSectionMap(m[n])
    requires Headed(names, section)
    ensures LastAssigned(DumpLines(m, names), section, s, k)
      == if s in names && k in m[s] then Some(m[s][k]) else None
    decreases |names|
  {
    hide ParseLine, SectionName, LastAssigned, SectionLines, GoodSection, GoodSectionMap, HeaderLine;
    if names == [] {
      NothingAssigned(section, s, k);
    } else {
      var name := names[0];
      assert name in names;
      var head, body := [HeaderLine(name)], SectionLines(m[name]);
      var rest := DumpLines(m, names[1..]);
      HeaderLineParses(name);
      HeaderAssignsNothing(HeaderLine(name), section, s, k);
      LastOne(HeaderLine(name), section, s, k);
      assert EndSection(head, section) == name;
      SectionLast(m[name], name, s, k);
      LastConcat(head, body, section, s, k);
      LastConcat(head + body, rest, section, s, k);
      DumpLinesLast(m, names[1..], name, s, k);
      assert names == [name] + names[1..];
    }
  }

  lemma NothingAssigned(section: string, s: string, k: string)
    ensures LastAssigned([], section, s, k) == None
  {
  }

  lemma HeaderAssignsNothing(line: string, section: string, s: string, k: string)
    requires IsHeader(line)
    ensures AssignedBy(line, section, s, k) == None
  {
  }

  lemma {:induction false} InOrderUnnamed(s: set<string>, section: string)
    requires "" in s ==> section == ""
    ensures Headed(InOrder(s), section)
    decreases |s|
  {
    if s != {} {
      SomeLeast(s);
      LeastUnique(s);
      var k :| IsLeast(k, s);
      var rest := InOrder(s - {k});
      assert "" in s ==> k == "";
      assert forall i :: 0 <= i < |rest| ==> rest[i] in rest;
    }
  }

  lemma DumpLast(m: ConfigMap, section: string, s: string, k: string)
    requires forall n :: n in m ==> GoodSection(n) && GoodSectionMap(m[n])
    requires "" in m ==> section == ""
    ensures LastAssigned(DumpLines(m, InOrder(m.Keys)), section, s, k) == Find(m, s, k)
  {
    InOrderUnnamed(m.Keys, section);
    DumpLinesLast(m, InOrder(m.Keys), section, s, k);
  }

  // ----- flushing a section

  lemma {:induction false} BlankLines(lines: seq<string>, section: string, s: string, k: string)
    requires forall i :: 0 <= i < |lines| ==> lines[i] == ""
    ensures LastAssigned(lines, section, s, k) == None && EndSection(lines, section) == section
    decreases |lines|
  {
    if lines != [] {
      assert ParseLine("") == None;
      BlankLines(lines[1..], section, s, k);
    }
  }

  /** A flushed section assigns what its lines do, then the keys added to it. */
  lemma FlushLast(buffered: seq<string>, pending: ConfigMap, section: string, s0: string, s: string, k: string)
    requires EndSection(buffered, s0) == section
    requires section in pending ==> GoodSectionMap(pending[section])
    ensures LastAssigned(FlushLines(buffered, pending, section), s0, s, k)
      == Later(LastAssigned(buffered, s0, s, k), if s == section then Find(pending, s, k) else None)
    ensures EndSection(FlushLines(buffered, pending, section), s0) == section
  {
    hide ParseLine, LastAssigned, GoodSectionMap, SectionLines;
    if section in pending && pending[section] != map[] {
      var at := BodyLength(buffered);
      var body, added, blank := buffered[..at], SectionLines(pending[section]), buffered[at..];
      assert buffered == body + blank;
      var s1 := EndSection(body, s0);
      BlankLines(blank, s1, s, k);
      LastConcat(body, blank, s0, s, k);
      SectionLast(pending[section], section, s, k);
      LastConcat(body, added, s0, s, k);
      LastConcat(body + added, blank, s0, s, k);
      BlankLines(blank, section, s, k);
    }
  }

  // ----- rewriting the whole file

  /** Every assignment of the lines is to a key the configuration has. */
  ghost predicate Covered(lines: seq<string>, section: string, config: ConfigMap)
    decreases |lines|
  {
    lines != [] ==>
      && (ParseLine(lines[0]).Some? ==> Find(config, section, ParseLine(lines[0]).value.key).Some?)
      && Covered(lines[1..], NextSection(lines[0], section), config)
  }

  ghost predicate GoodLines(lines: seq<string>) { forall i :: 0 <= i < |lines| ==> GoodLine(lines[i]) }

  predicate IsKeyLine(line: string, section: string, s: string, k: string) {
    section == s && HasKey(line) && LineKey(line) == k
  }

  /** The last line that carries the key in its section. */
  function LastKeyLine(lines: seq<string>, section: string, s: string, k: string): Option<string>
    decreases |lines|
  {
    if lines == [] then None
    else Later(if IsKeyLine(lines[0], section, s, k) then Some(lines[0]) else None,
               LastKeyLine(lines[1..], NextSection(lines[0], section), s, k))
  }

  /** What a line that carries a key assigns once `v` has been written to it:
      text in front of its '=' still stands for the value. */
  function Written(line: string, v: string): Option<string> {
    if PlainSeparator(line) then Some(v)
    else match ParseLine(line) case None => None case Some(a) => Some(a.value)
  }

  lemma WrittenAssigns(line: string, v: string, section: string, s: string, k: string)
    requires HasKey(line) && GoodValue(v)
    ensures Written(line, v).Some? && !IsHeader(Rewrite(line, v))
    ensures AssignedBy(Rewrite(line, v), section, s, k)
      == if section == s && LineKey(line) == k then Written(line, v) else None
  {
    hide ParseLine, Rewrite, PlainSeparator, HasKey, GoodValue;
    if PlainSeparator(line) {
      RewriteParses(line, v);
    } else {
      RewriteIgnored(line, v);
      TextParses(line);
      LineKeyNonEmpty(line);
    }
    NotBoth(Rewrite(line, v));
  }

  lemma {:induction false} KeyLineWritten(lines: seq<string>, section: string, s: string, k: string, v: string)
    ensures var line := LastKeyLine(lines, section, s, k); line.Some? ==> Written(line.value, v).Some?
    decreases |lines|
  {
    hide ParseLine, HasKey, PlainSeparator;
    if lines != [] {
      KeyLineWritten(lines[1..], NextSection(lines[0], section), s, k, v);
      if HasKey(lines[0]) && !PlainSeparator(lines[0]) { TextParses(lines[0]); }
    }
  }

  lemma TextParses(line: string)
    requires HasKey(line) && !PlainSeparator(line)
    ensures ParseLine(line).Some?
  {
    hide LineKey, StripSpaces;
    var ke := KeyEnd(line);
    var at := FindNotOf(line, BeforeValue, ke);
    var rest := line[ke..];
    assert rest[at - ke] == line[at];
    assert FindNotOf(rest, BeforeValue, 0) <= at - ke;
  }

  lemma LineKeyNonEmpty(line: string)
    ensures LineKey(line) != "" <==> HasKey(line)
    ensures ParseLine(line).Some? ==> HasKey(line) && ParseLine(line).value.key == LineKey(line)
  {
  }

  lemma NotBoth(line: string)
    requires HasKey(line)
    ensures !IsHeader(line)
  {
  }

  /** What holds while the lines are being rewritten: `buffered` has been read
      in section s0 and ends in `section`, and `pending` says nothing the
      configuration does not. */
  ghost predicate Writing(config: ConfigMap, pending: ConfigMap, section: string, buffered: seq<string>, s0: string) {
    && GoodConfig(config)
    && (forall s :: s in pending ==> s in config && GoodSectionMap(pending[s]))
    && (forall s, k :: Find(pending, s, k).Some? ==> Find(config, s, k) == Find(pending, s, k))
    && ("" in pending ==> section == "")
    && EndSection(buffered, s0) == section
  }

  /** What a key comes to: the last line that carries it decides; without one,
      what is still pending; without that, what the buffer holds. */
  ghost function Outcome(lines: seq<string>, config: ConfigMap, pending: ConfigMap, section: string,
                         held: Option<string>, s: string, k: string): Option<string>
  {
    var v, line := Find(config, s, k), LastKeyLine(lines, section, s, k);
    if v.Some? && line.Some? then Written(line.value, v.value) else Later(held, Find(pending, s, k))
  }

  lemma StreamEnd(config: ConfigMap, pending: ConfigMap, section: string, buffered: seq<string>, s0: string,
                  s: string, k: string)
    requires Writing(config, pending, section, buffered, s0)
    ensures LastAssigned(StreamLines([], config, pending, section, buffered), s0, s, k)
      == Later(LastAssigned(buffered, s0, s, k), Find(pending, s, k))
  {
    hide LastAssigned, FlushLines, DumpLines, GoodSectionMap, GoodSection;
    var left := NonEmpty(pending - {section});
    FlushLast(buffered, pending, section, s0, s, k);
    DumpLast(left, section, s, k);
    LastConcat(FlushLines(buffered, pending, section), DumpLines(left, InOrder(left.Keys)), s0, s, k);
  }

  /** From every point of the rewriting loop, each key ends up at its outcome. */
  lemma {:induction false} StreamLast(lines: seq<string>, config: ConfigMap, pending: ConfigMap, section: string,
                                      buffered: seq<string>, s0: string, s: string, k: string)
    requires Writing(config, pending, section, buffered, s0)
    requires GoodLines(lines) && Covered(lines, section, config)
    ensures LastAssigned(StreamLines(lines, config, pending, section, buffered), s0, s, k)
      == Outcome(lines, config, pending, section, LastAssigned(buffered, s0, s, k), s, k)
    decreases |lines|, 1
  {
    hide ParseLine, HasKey, GoodLine, Rewrite, Writing, Written, LastAssigned, Find, SectionName, PlainSeparator;
    if lines == [] {
      StreamEnd(config, pending, section, buffered, s0, s, k);
    } else {
      var line := lines[0];
      LineKeyNonEmpty(line);
      if IsHeader(line) && SectionName(line) != "" {
        StreamHeader(lines, config, pending, section, buffered, s0, s, k);
      } else if LineKey(line) != "" && Find(config, section, LineKey(line)).Some? {
        StreamRewrite(lines, config, pending, section, buffered, s0, s, k);
      } else {
        StreamKept(lines, config, pending, section, buffered, s0, s, k);
      }
    }
  }

  /** A header starts a new section buffer. */
  lemma StreamHeader(lines: seq<string>, config: ConfigMap, pending: ConfigMap, section: string,
                     buffered: seq<string>, s0: string, s: string, k: string)
    requires Writing(config, pending, section, buffered, s0)
    requires lines != [] && GoodLines(lines) && Covered(lines, section, config)
    requires IsHeader(lines[0]) && SectionName(lines[0]) != ""
    ensures LastAssigned(StreamLines(lines, config, pending, section, buffered), s0, s, k)
      == Outcome(lines, config, pending, section, LastAssigned(buffered, s0, s, k), s, k)
    decreases |lines|, 0
  {
    hide ParseLine, GoodLine, LastAssigned, FlushLines, SectionName, Written, Find, Writing, HasKey, LineKey;
    var line, name := lines[0], SectionName(lines[0]);
    var flushed := FlushLines(buffered, pending, section);
    var rest := StreamLines(lines[1..], config, pending - {section}, name, [line]);
    LeaveSection(config, pending, section, buffered, s0, line);
    FlushLast(buffered, pending, section, s0, s, k);
    LastOne(line, section, s, k);
    HeaderAssignsNothing(line, section, s, k);
    StreamLast(lines[1..], config, pending - {section}, name, [line], section, s, k);
    LastConcat(flushed, rest, s0, s, k);
    HeaderNoKey(line);
    assert LastKeyLine(lines, section, s, k) == LastKeyLine(lines[1..], name, s, k);
    if Find(config, s, k).Some? { KeyLineWritten(lines[1..], name, s, k, Find(config, s, k).value); }
    RemoveFind(pending, section, s, k);
    assert StreamLines(lines, config, pending, section, buffered) == flushed + rest;
  }

  lemma LeaveSection(config: ConfigMap, pending: ConfigMap, section: string, buffered: seq<string>,
                     s0: string, line: string)
    requires Writing(config, pending, section, buffered, s0) && IsHeader(line) && SectionName(line) != ""
    ensures EndSection(buffered, s0) == section && (section in pending ==> GoodSectionMap(pending[section]))
    ensures Writing(config, pending - {section}, SectionName(line), [line], section)
  {
    hide Find, GoodSection, GoodSectionMap, SectionName;
    LastOne(line, section, "", "");
    forall s, k | Find(pending - {section}, s, k).Some? ensures Find(config, s, k) == Find(pending - {section}, s, k) {
      RemoveFind(pending, section, s, k);
    }
  }

  lemma RemoveFind(pending: ConfigMap, section: string, s: string, k: string)
    ensures Find(pending - {section}, s, k) == if s == section then None else Find(pending, s, k)
  {
  }

  lemma HeaderNoKey(line: string)
    requires IsHeader(line)
    ensures !HasKey(line)
  {
  }

  /** A line without a setting is taken over as it is. */
  lemma StreamKept(lines: seq<string>, config: ConfigMap, pending: ConfigMap, section: string,
                   buffered: seq<string>, s0: string, s: string, k: string)
    requires Writing(config, pending, section, buffered, s0)
    requires lines != [] && GoodLines(lines) && Covered(lines, section, config)
    requires !(IsHeader(lines[0]) && SectionName(lines[0]) != "")
    requires !(LineKey(lines[0]) != "" && Find(config, section, LineKey(lines[0])).Some?)
    ensures LastAssigned(StreamLines(lines, config, pending, section, buffered), s0, s, k)
      == Outcome(lines, config, pending, section, LastAssigned(buffered, s0, s, k), s, k)
    decreases |lines|, 0
  {
    hide ParseLine, HasKey, GoodLine, LastAssigned, SectionName, GoodSection, GoodSectionMap, Written, Find, LineKey;
    var line := lines[0];
    LineKeyNonEmpty(line);
    assert ParseLine(line).None?;
    LastOne(line, section, s, k);
    LastConcat(buffered, [line], s0, s, k);
    StreamLast(lines[1..], config, pending, section, buffered + [line], s0, s, k);
  }

  /** A rewritten line takes its key out of `pending`. */
  lemma StreamRewrite(lines: seq<string>, config: ConfigMap, pending: ConfigMap, section: string,
                      buffered: seq<string>, s0: string, s: string, k: string)
    requires Writing(config, pending, section, buffered, s0)
    requires lines != [] && GoodLines(lines) && Covered(lines, section, config)
    requires HasKey(lines[0]) && LineKey(lines[0]) != "" && Find(config, section, LineKey(lines[0])).Some?
    ensures LastAssigned(StreamLines(lines, config, pending, section, buffered), s0, s, k)
      == Outcome(lines, config, pending, section, LastAssigned(buffered, s0, s, k), s, k)
    decreases |lines|, 0
  {
    hide ParseLine, HasKey, GoodLine, LastAssigned, SectionName, Written, Find, LineKey, Rewrite, Writing, DropKey;
    var line := lines[0];
    var key, value := LineKey(line), Find(config, section, LineKey(line)).value;
    var line', pending' := Rewrite(line, value), DropKey(pending, section, key);
    FoundGood(config, pending, section, buffered, s0, key);
    NotBoth(line);
    WrittenAssigns(line, value, section, s, k);
    LastOne(line', section, s, k);
    LastConcat(buffered, [line'], s0, s, k);
    DropWriting(config, pending, section, buffered, s0, key, line');
    DropFind(pending, section, key, s, k);
    StreamLast(lines[1..], config, pending', section, buffered + [line'], s0, s, k);
    assert NextSection(line, section) == section;
    assert LastKeyLine(lines, section, s, k) == Later(if IsKeyLine(line, section, s, k) then Some(line) else None,
                                                      LastKeyLine(lines[1..], section, s, k));
  }

  lemma FoundGood(config: ConfigMap, pending: ConfigMap, section: string, buffered: seq<string>,
                  s0: string, key: string)
    requires Writing(config, pending, section, buffered, s0) && Find(config, section, key).Some?
    ensures GoodValue(Find(config, section, key).value) && EndSection(buffered, s0) == section
  {
    hide GoodValue, GoodKey, GoodSection;
  }

  lemma DropFind(pending: ConfigMap, section: string, key: string, s: string, k: string)
    ensures Find(DropKey(pending, section, key), s, k)
      == if s == section && k == key then None else Find(pending, s, k)
  {
  }

  lemma DropWriting(config: ConfigMap, pending: ConfigMap, section: string, buffered: seq<string>, s0: string,
                    key: string, line: string)
    requires Writing(config, pending, section, buffered, s0) && !IsHeader(line)
    ensures Writing(config, DropKey(pending, section, key), section, buffered + [line], s0)
  {
    hide Find, DropKey, LastAssigned, GoodSection, GoodKey, GoodValue;
    var pending' := DropKey(pending, section, key);
    LastConcat(buffered, [line], s0, "", "");
    LastOne(line, section, "", "");
    forall s, k | Find(pending', s, k).Some? ensures Find(config, s, k) == Find(pending', s, k) {
      DropFind(pending, section, key, s, k);
    }
    DropSections(pending, section, key);
  }

  lemma DropSections(pending: ConfigMap, section: string, key: string)
    ensures DropKey(pending, section, key).Keys == pending.Keys
    ensures forall s :: s in pending && GoodSectionMap(pending[s]) ==> GoodSectionMap(DropKey(pending, section, key)[s])
  {
    hide GoodKey, GoodValue;
  }
}
