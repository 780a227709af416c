/** Where saving a configuration adds what its file lacks: section by section. */
module ConfigLayout {
  import opened Wrappers
  import opened ConfigText
  import opened ConfigStore
  import opened ConfigProofs
  import opened ConfigKept

  // ----- the file as sections

  /** A stretch of the file in one section: its header, unless the file starts
      with it, and the lines up to the next header that names a section. */
  datatype Part = Part(section: string, lines: seq<string>)

  predicate Names(line: string) { IsHeader(line) && SectionName(line) != "" }

  function Parts(lines: seq<string>, section: string): (r: seq<Part>)
    ensures r != []
    decreases |lines|
  {
    if lines == [] then [Part(section, [])]
    else
      var rest := Parts(lines[1..], if Names(lines[0]) then SectionName(lines[0]) else section);
      var first := Part(rest[0].section, [lines[0]] + rest[0].lines);
      if Names(lines[0]) then [Part(section, []), first] + rest[1..] else [first] + rest[1..]
  }

  function Joined(parts: seq<Part>): seq<string> { if parts == [] then [] else parts[0].lines + Joined(parts[1..]) }

  lemma {:induction false} FirstSection(lines: seq<string>, section: string)
    ensures Parts(lines, section)[0].section == section
    decreases |lines|
  {
    if lines != [] { FirstSection(lines[1..], if Names(lines[0]) then SectionName(lines[0]) else section); }
  }

  /** The parts are the whole file; each but the first starts with the header
      that names it, and no other line of a part names a section. */
  lemma {:induction false} PartsWhole(lines: seq<string>, section: string)
    ensures var ps := Parts(lines, section);
      && Joined(ps) == lines && ps[0].section == section
      && (forall i :: 0 <= i < |ps[0].lines| ==> !Names(ps[0].lines[i]))
      && (forall j :: 1 <= j < |ps| ==>
            && ps[j].lines != [] && Names(ps[j].lines[0]) && SectionName(ps[j].lines[0]) == ps[j].section
            && forall i :: 1 <= i < |ps[j].lines| ==> !Names(ps[j].lines[i]))
    decreases |lines|
  {
    hide SectionName, IsHeader;
    if lines != [] {
      var next := if Names(lines[0]) then SectionName(lines[0]) else section;
      PartsWhole(lines[1..], next);
      var rest, ps := Parts(lines[1..], next), Parts(lines, section);
      var first := Part(rest[0].section, [lines[0]] + rest[0].lines);
      JoinedFirst(rest, first, lines[0]);
      if Names(lines[0]) {
        assert ps[1..] == [first] + rest[1..];
        forall j | 1 <= j < |ps| ensures
          && ps[j].lines != [] && Names(ps[j].lines[0]) && SectionName(ps[j].lines[0]) == ps[j].section
          && forall i :: 1 <= i < |ps[j].lines| ==> !Names(ps[j].lines[i])
        {
          if j == 1 { assert ps[1] == first; } else { assert ps[j] == rest[j - 1]; }
        }
      } else {
        forall j | 1 <= j < |ps| ensures ps[j] == rest[j] { }
      }
    }
  }

  lemma JoinedFirst(rest: seq<Part>, first: Part, line: string)
    requires rest != [] && first.lines == [line] + rest[0].lines
    ensures Joined([first] + rest[1..]) == [line] + Joined(rest)
  {
    var tail := Joined(rest[1..]);
    assert ([first] + rest[1..])[1..] == rest[1..];
    assert ([line] + rest[0].lines) + tail == [line] + (rest[0].lines + tail);
  }

  // ----- the saved file

  /** The keys that some line of the stretch carries. */
  function Carried(lines: seq<string>): set<string> {
    set i | 0 <= i < |lines| && HasKey(lines[i]) :: LineKey(lines[i])
  }

  function EditedLines(lines: seq<string>, section: string, config: ConfigMap): (r: seq<string>)
    ensures |r| == |lines| && forall i :: 0 <= i < |lines| ==> r[i] == EditedLine(lines[i], section, config)
  {
    seq(|lines|, i requires 0 <= i < |lines| => EditedLine(lines[i], section, config))
  }

  /** The settings of its section that no line of the stretch carries, written
      behind its last non-blank line. */
  function SavedPart(part: Part, config: ConfigMap, first: bool): seq<string> {
    var lines, at := EditedLines(part.lines, part.section, config), BodyLength(part.lines);
    var lacking := if first && part.section in config then config[part.section] - Carried(part.lines) else map[];
    lines[..at] + SectionLines(lacking) + lines[at..]
  }

  /** Part by part, a section's first stretch taking what it lacks, and behind
      them the sections the file does not have. */
  function SavedParts(parts: seq<Part>, config: ConfigMap, seen: set<string>): seq<string>
    decreases |parts|
  {
    if parts == [] then
      var left := NonEmpty(config - seen);
      DumpLines(left, InOrder(left.Keys))
    else
      SavedPart(parts[0], config, parts[0].section !in seen)
        + SavedParts(parts[1..], config, seen + {parts[0].section})
  }

  // ----- the rewriting loop

  /** What the loop still has to write in some stretch of a section. */
  function Pending(config: ConfigMap, seen: set<string>, section: string, read: seq<string>): ConfigMap {
    map s | s in config && s !in seen :: if s == section then config[s] - Carried(read) else config[s]
  }

  lemma EditedBlank(line: string, section: string, config: ConfigMap)
    ensures EditedLine(line, section, config) == "" <==> line == ""
  {
  }

  lemma {:induction false} SameBody(a: seq<string>, b: seq<string>)
    requires |a| == |b| && forall i :: 0 <= i < |a| ==> (a[i] == "" <==> b[i] == "")
    ensures BodyLength(a) == BodyLength(b)
    decreases |a|
  {
    if a != [] && a[|a| - 1] == "" { SameBody(a[..|a| - 1], b[..|b| - 1]); }
  }

  lemma NothingToAdd()
    ensures SectionLines(map[]) == []
  {
    var m: Section := map[];
    assert m.Keys == {} && InOrder({}) == [];
  }

  lemma FlushIs(read: seq<string>, section: string, config: ConfigMap, seen: set<string>)
    ensures FlushLines(EditedLines(read, section, config), Pending(config, seen, section, read), section)
      == SavedPart(Part(section, read), config, section !in seen)
  {
    hide SectionLines, EditedLine;
    var buffered, pending := EditedLines(read, section, config), Pending(config, seen, section, read);
    forall i | 0 <= i < |read| ensures buffered[i] == "" <==> read[i] == "" {
      EditedBlank(read[i], section, config);
    }
    SameBody(buffered, read);
    NothingToAdd();
    assert buffered == buffered[..BodyLength(read)] + [] + buffered[BodyLength(read)..];
  }

  lemma PendingLeft(config: ConfigMap, seen: set<string>, section: string, read: seq<string>)
    ensures Pending(config, seen, section, read) - {section}
      == map s | s in config && s !in seen + {section} :: config[s]
    ensures NonEmpty(Pending(config, seen, section, read) - {section}) == NonEmpty(config - (seen + {section}))
  {
  }

  lemma PendingStart(config: ConfigMap, seen: set<string>, section: string, line: string)
    requires IsHeader(line)
    ensures Pending(config, seen, section, [line]) == map s | s in config && s !in seen :: config[s]
  {
    assert Carried([line]) == {};
    assert forall m: Section :: m - {} == m;
  }

  lemma CarriedMore(read: seq<string>, line: string)
    ensures Carried(read + [line]) == Carried(read) + (if HasKey(line) then {LineKey(line)} else {})
  {
    hide HasKey, LineKey;
    var all := read + [line];
    forall k | k in Carried(all) ensures k in Carried(read) + (if HasKey(line) then {LineKey(line)} else {}) {
      var i :| 0 <= i < |all| && HasKey(all[i]) && LineKey(all[i]) == k;
      if i < |read| { assert read[i] == all[i]; }
    }
    forall k | k in Carried(read) ensures k in Carried(all) {
      var i :| 0 <= i < |read| && HasKey(read[i]) && LineKey(read[i]) == k;
      assert all[i] == read[i];
    }
    if HasKey(line) { assert all[|read|] == line; }
  }

  lemma PendingStep(config: ConfigMap, seen: set<string>, section: string, read: seq<string>, line: string)
    ensures var pending := Pending(config, seen, section, read);
      Pending(config, seen, section, read + [line])
        == if LineKey(line) != "" && Find(config, section, LineKey(line)).Some?
           then DropKey(pending, section, LineKey(line)) else pending
  {
    hide HasKey, LineKey;
    CarriedMore(read, line);
    LineKeyNonEmpty(line);
    var next, pending := Pending(config, seen, section, read + [line]), Pending(config, seen, section, read);
    if section in config && section !in seen {
      var gone := if HasKey(line) then {LineKey(line)} else {};
      assert next[section] == config[section] - Carried(read) - gone;
      if LineKey(line) != "" && Find(config, section, LineKey(line)).None? {
        assert config[section] - Carried(read) - gone == config[section] - Carried(read);
      }
      assert pending[section] - {} == pending[section];
    }
  }

  lemma EditedLinesMore(read: seq<string>, line: string, section: string, config: ConfigMap)
    ensures EditedLines(read + [line], section, config)
      == EditedLines(read, section, config) + [EditedLine(line, section, config)]
  {
    hide EditedLine;
  }

  lemma {:induction false} StreamIs(read: seq<string>, lines: seq<string>, config: ConfigMap, section: string,
                                    seen: set<string>)
    ensures var ps := Parts(lines, section);
      StreamLines(lines, config, Pending(config, seen, section, read), section, EditedLines(read, section, config))
        == SavedParts([Part(section, read + ps[0].lines)] + ps[1..], config, seen)
    decreases |lines|
  {
    hide FlushLines, SavedPart, Pending, EditedLines, DumpLines, LineKey, Find, SectionName, IsHeader, Rewrite,
         NonEmpty;
    var ps := Parts(lines, section);
    var pending, buffered := Pending(config, seen, section, read), EditedLines(read, section, config);
    var all := [Part(section, read + ps[0].lines)] + ps[1..];
    FirstSection(lines, section);
    PendingLeft(config, seen, section, read);
    FlushIs(read, section, config, seen);
    assert all[1..] == ps[1..];
    if lines == [] {
      assert read + [] == read && all[1..] == [];
      assert SavedParts(all[1..], config, seen + {section}) == DumpAll(config, seen + {section});
    } else {
      var line, rest := lines[0], lines[1..];
      if Names(line) {
        var name := SectionName(line);
        FirstSection(rest, name);
        var qs := Parts(rest, name);
        assert ps[1..] == [Part(name, [line] + qs[0].lines)] + qs[1..] && read + ps[0].lines == read;
        PendingStart(config, seen + {section}, name, line);
        HeaderEdited(line, name, config);
        StreamIs([line], rest, config, name, seen + {section});
      } else {
        var qs := Parts(rest, section);
        FirstSection(rest, section);
        PendingStep(config, seen, section, read, line);
        EditedLinesMore(read, line, section, config);
        StreamIs(read + [line], rest, config, section, seen);
        assert (read + [line]) + qs[0].lines == read + ps[0].lines && ps[1..] == qs[1..];
      }
    }
  }

  function DumpAll(config: ConfigMap, seen: set<string>): seq<string> {
    var left := NonEmpty(config - seen);
    DumpLines(left, InOrder(left.Keys))
  }

  lemma HeaderEdited(line: string, section: string, config: ConfigMap)
    requires IsHeader(line)
    ensures EditedLines([line], section, config) == [line]
  {
  }

  /** The saved file of every text and configuration, section by section: each
      line kept or edited, the lacking settings of a section behind the last
      non-blank line of its first stretch, and new sections at the end. */
  lemma OutputLayout(lines: seq<string>, config: ConfigMap)
    requires lines != []
    ensures OutputLines(lines, config) == SavedParts(Parts(lines, ""), config, {})
  {
    hide StreamLines, SavedParts, Pending, EditedLines, Parts;
    StreamIs([], lines, config, "", {});
    FirstSection(lines, "");
    var ps := Parts(lines, "");
    assert [] + ps[0].lines == ps[0].lines && [Part("", ps[0].lines)] + ps[1..] == ps;
    NothingRead(config);
  }

  lemma NothingRead(config: ConfigMap)
    ensures Pending(config, {}, "", []) == config && EditedLines([], "", config) == []
  {
    assert Carried([]) == {};
    assert forall m: Section :: m - {} == m;
  }
}
