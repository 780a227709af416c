/** What saving a configuration keeps of the file it was parsed from: every
    line in its place, and of a rewritten line all but its value. */
module ConfigKept {
  import opened Wrappers
  import opened ConfigText
  import opened ConfigStore
  import opened ConfigProofs

  // ----- one line

  predicate IsBlank(c: char) { c == ' ' || c == '\t' }

  predicate HasEquals(line: string) { exists e :: KeyEnd(line) <= e < |line| && line[e] == '=' }

  /** p is where the value of the line starts: behind the first '=' from the key
      on, or behind the key if there is none, and the blanks that follow. */
  ghost predicate ValueFrom(line: string, p: nat) {
    && KeyEnd(line) <= p <= |line| && (p < |line| ==> !IsBlank(line[p]))
    && if HasEquals(line) then
         exists e :: KeyEnd(line) <= e < p && line[e] == '='
           && (forall i :: KeyEnd(line) <= i < e ==> line[i] != '=') && (forall i :: e < i < p ==> IsBlank(line[i]))
       else forall i :: KeyEnd(line) <= i < p ==> IsBlank(line[i])
  }

  /** q is where the inline comment starts, with the blanks before it: the first
      '#' from the value on; the end of the line if there is none. */
  ghost predicate CommentFrom(line: string, p: nat, q: nat) {
    && p <= q <= |line|
    && if exists h :: p <= h < |line| && line[h] == '#' then
         exists h :: q <= h < |line| && line[h] == '#' && (forall i :: p <= i < h ==> line[i] != '#')
           && (forall i :: q <= i < h ==> IsBlank(line[i])) && (q > p ==> !IsBlank(line[q - 1]))
       else q == |line|
  }

  /** The line with its value replaced by v: the same up to the value, then v,
      then the same from the comment on. An empty value drops the comment. */
  ghost predicate Replaced(line: string, v: string, out: string) {
    exists p: nat, q: nat :: ValueFrom(line, p) && CommentFrom(line, p, q)
      && out == line[..p] + (if HasEquals(line) then "" else "=") + v + (if v == "" then "" else line[q..])
  }

  lemma ValueStarts(line: string)
    requires HasKey(line)
    ensures ValueFrom(line, ValueStart(line)) && (Separator(line) == |line| <==> !HasEquals(line))
  {
    var e, p := Separator(line), ValueStart(line);
    if e < |line| {
      assert line[e] == '=' && HasEquals(line);
    }
  }

  lemma CommentStarts(line: string) returns (q: nat)
    requires HasKey(line)
    ensures CommentFrom(line, ValueStart(line), q) && KeptComment(line) == line[q..]
  {
    hide ValueStart, HasKey;
    var p := ValueStart(line);
    var h := FindOf(line, Hashes, p);
    q := |line|;
    if h < |line| {
      var gap := TrimmedEnd(line, h);
      q := if gap < p then p else gap;
      TrimmedBlank(line, h);
      assert line[h] == '#' && forall i :: p <= i < h ==> line[i] != '#';
      assert forall i :: q <= i < h ==> IsBlank(line[i]);
    }
  }

  lemma {:induction false} TrimmedBlank(s: string, n: nat)
    requires n <= |s|
    ensures TrimmedEnd(s, n) > 0 ==> !IsBlank(s[TrimmedEnd(s, n) - 1])
  {
    if n > 0 && Has(Blanks, s[n - 1]) { TrimmedBlank(s, n - 1); }
  }

  /** Rewriting a line changes its value and nothing else. */
  lemma RewriteReplaces(line: string, v: string)
    requires HasKey(line)
    ensures Replaced(line, v, Rewrite(line, v))
  {
    hide KeptComment, ValueStart, ValueFrom, CommentFrom, HasEquals;
    ValueStarts(line);
    var p := ValueStart(line);
    var q := CommentStarts(line);
    assert ValueFrom(line, p);
  }

  // ----- the whole file, line by line

  /** What becomes of one line: a line that carries a configured key has its
      value replaced; any other stays as it is. */
  ghost predicate LineKept(line: string, section: string, config: ConfigMap, out: string) {
    if HasKey(line) && Find(config, section, LineKey(line)).Some?
    then Replaced(line, Find(config, section, LineKey(line)).value, out)
    else out == line
  }

  /** A line the file did not have: a setting of the configuration or the header
      of one of its sections. */
  ghost predicate AddedLine(config: ConfigMap, out: string) {
    || (exists s, k :: Find(config, s, k).Some? && out == PairLine(k, Find(config, s, k).value))
    || (exists s :: s in config && out == HeaderLine(s))
  }

  /** `out` holds what becomes of the lines, all of them and in order, and
      between them nothing but added lines. */
  ghost predicate Kept(lines: seq<string>, section: string, config: ConfigMap, out: seq<string>)
    decreases |out|
  {
    if out == [] then lines == []
    else
      || (lines != [] && LineKept(lines[0], section, config, out[0])
          && Kept(lines[1..], NextSection(lines[0], section), config, out[1..]))
      || (AddedLine(config, out[0]) && Kept(lines, section, config, out[1..]))
  }

  ghost predicate AllAdded(config: ConfigMap, out: seq<string>) {
    forall i :: 0 <= i < |out| ==> AddedLine(config, out[i])
  }

  lemma {:induction false} KeptConcat(a: seq<string>, b: seq<string>, section: string, config: ConfigMap,
                                      x: seq<string>, y: seq<string>)
    requires Kept(a, section, config, x) && Kept(b, EndSection(a, section), config, y)
    ensures Kept(a + b, section, config, x + y)
    decreases |x|
  {
    hide LineKept, AddedLine, NextSection;
    if x == [] {
      assert a + b == b && x + y == y;
    } else {
      assert (x + y)[1..] == x[1..] + y && (x + y)[0] == x[0];
      if a != [] && LineKept(a[0], section, config, x[0])
         && Kept(a[1..], NextSection(a[0], section), config, x[1..]) {
        assert (a + b)[1..] == a[1..] + b && (a + b)[0] == a[0];
        KeptConcat(a[1..], b, NextSection(a[0], section), config, x[1..], y);
      } else {
        KeptConcat(a, b, section, config, x[1..], y);
      }
    }
  }

  lemma {:induction false} AddedKept(section: string, config: ConfigMap, out: seq<string>)
    requires AllAdded(config, out)
    ensures Kept([], section, config, out)
    decreases |out|
  {
    hide AddedLine;
    if out != [] { AddedKept(section, config, out[1..]); }
  }

  /** The lines as they come to be buffered. */
  function Edited(lines: seq<string>, section: string, config: ConfigMap): (r: seq<string>)
    ensures |r| == |lines|
    decreases |lines|
  {
    if lines == [] then []
    else [EditedLine(lines[0], section, config)] + Edited(lines[1..], NextSection(lines[0], section), config)
  }

  function EditedLine(line: string, section: string, config: ConfigMap): string {
    if LineKey(line) != "" && Find(config, section, LineKey(line)).Some?
    then Rewrite(line, Find(config, section, LineKey(line)).value)
    else line
  }

  lemma {:induction false} EditedConcat(a: seq<string>, b: seq<string>, section: string, config: ConfigMap)
    ensures Edited(a + b, section, config) == Edited(a, section, config) + Edited(b, EndSection(a, section), config)
    decreases |a|
  {
    hide EditedLine, NextSection;
    if a == [] {
      assert a + b == b;
    } else {
      assert (a + b)[1..] == a[1..] + b;
      EditedConcat(a[1..], b, NextSection(a[0], section), config);
    }
  }

  lemma EditedLineKept(line: string, section: string, config: ConfigMap)
    ensures LineKept(line, section, config, EditedLine(line, section, config))
  {
    hide Rewrite, HasKey, Replaced, Find;
    LineKeyNonEmpty(line);
    if HasKey(line) && Find(config, section, LineKey(line)).Some? {
      RewriteReplaces(line, Find(config, section, LineKey(line)).value);
    }
  }

  lemma {:induction false} EditedKept(lines: seq<string>, section: string, config: ConfigMap)
    ensures Kept(lines, section, config, Edited(lines, section, config))
    decreases |lines|
  {
    hide LineKept, EditedLine, NextSection;
    if lines != [] {
      EditedLineKept(lines[0], section, config);
      EditedKept(lines[1..], NextSection(lines[0], section), config);
    }
  }

  // ----- what is added

  ghost predicate WithinConfig(m: ConfigMap, config: ConfigMap) {
    && (forall s :: s in m ==> s in config)
    && forall s, k :: Find(m, s, k).Some? ==> Find(config, s, k) == Find(m, s, k)
  }

  lemma {:induction false} PairsAdded(config: ConfigMap, m: ConfigMap, s: string, keys: seq<string>)
    requires WithinConfig(m, config) && s in m && forall k :: k in keys ==> k in m[s]
    ensures AllAdded(config, PairLines(m[s], keys))
  {
    if keys != [] {
      assert keys[0] in keys;
      assert Find(m, s, keys[0]) == Some(m[s][keys[0]]);
      PairsAdded(config, m, s, keys[1..]);
    }
  }

  lemma SectionAdded(config: ConfigMap, m: ConfigMap, s: string)
    requires WithinConfig(m, config) && s in m
    ensures AllAdded(config, SectionLines(m[s]))
  {
    PairsAdded(config, m, s, InOrder(m[s].Keys));
  }

  lemma AddedConcat(config: ConfigMap, a: seq<string>, b: seq<string>)
    requires AllAdded(config, a) && AllAdded(config, b)
    ensures AllAdded(config, a + b)
  {
  }

  lemma {:induction false} DumpAdded(config: ConfigMap, m: ConfigMap, names: seq<string>)
    requires WithinConfig(m, config) && forall s :: s in names ==> s in m
    ensures AllAdded(config, DumpLines(m, names))
    decreases |names|
  {
    hide AddedLine, SectionLines, HeaderLine, WithinConfig;
    if names != [] {
      assert names[0] in names;
      HeaderAdded(config, m, names[0]);
      SectionAdded(config, m, names[0]);
      DumpAdded(config, m, names[1..]);
      AddedConcat(config, [HeaderLine(names[0])], SectionLines(m[names[0]]));
      AddedConcat(config, [HeaderLine(names[0])] + SectionLines(m[names[0]]), DumpLines(m, names[1..]));
    }
  }

  lemma HeaderAdded(config: ConfigMap, m: ConfigMap, s: string)
    requires WithinConfig(m, config) && s in m
    ensures AllAdded(config, [HeaderLine(s)])
  {
  }

  lemma FlushKept(read: seq<string>, s0: string, config: ConfigMap, pending: ConfigMap, section: string)
    requires WithinConfig(pending, config)
    ensures Kept(read, s0, config, FlushLines(Edited(read, s0, config), pending, section))
  {
    hide Kept, SectionLines, WithinConfig;
    var buffered := Edited(read, s0, config);
    EditedKept(read, s0, config);
    if section in pending && pending[section] != map[] {
      var at := BodyLength(buffered);
      var a, b := read[..at], read[at..];
      assert read == a + b;
      EditedConcat(a, b, s0, config);
      var x, y := Edited(a, s0, config), Edited(b, EndSection(a, s0), config);
      assert buffered[..at] == x && buffered[at..] == y;
      EditedKept(a, s0, config);
      EditedKept(b, EndSection(a, s0), config);
      SectionAdded(config, pending, section);
      AddedKept(EndSection(a, s0), config, SectionLines(pending[section]));
      KeptConcat(a, [], s0, config, x, SectionLines(pending[section]));
      assert a + [] == a;
      KeptConcat(a, b, s0, config, x + SectionLines(pending[section]), y);
    }
  }

  lemma WithinLess(config: ConfigMap, pending: ConfigMap, section: string, key: string)
    requires WithinConfig(pending, config)
    ensures WithinConfig(pending - {section}, config) && WithinConfig(NonEmpty(pending - {section}), config)
    ensures WithinConfig(DropKey(pending, section, key), config)
  {
    var less, left, drop := pending - {section}, NonEmpty(pending - {section}), DropKey(pending, section, key);
    forall s, k | Find(less, s, k).Some? ensures Find(pending, s, k) == Find(less, s, k) { }
    forall s, k | Find(left, s, k).Some? ensures Find(pending, s, k) == Find(left, s, k) { }
    forall s, k | Find(drop, s, k).Some? ensures Find(pending, s, k) == Find(drop, s, k) { }
  }

  // ----- the rewriting loop

  lemma {:induction false} StreamKeeps(read: seq<string>, lines: seq<string>, config: ConfigMap, pending: ConfigMap,
                                       section: string, s0: string)
    requires WithinConfig(pending, config) && EndSection(read, s0) == section
    ensures Kept(read + lines, s0, config, StreamLines(lines, config, pending, section, Edited(read, s0, config)))
    decreases |lines|
  {
    hide Kept, FlushLines, WithinConfig, Rewrite, SectionName, LineKey, DropKey, DumpLines, Find, IsHeader, NonEmpty;
    var buffered := Edited(read, s0, config);
    WithinLess(config, pending, section, if lines == [] then "" else LineKey(lines[0]));
    if lines == [] {
      var left := NonEmpty(pending - {section});
      FlushKept(read, s0, config, pending, section);
      DumpAdded(config, left, InOrder(left.Keys));
      AddedKept(EndSection(read, s0), config, DumpLines(left, InOrder(left.Keys)));
      KeptConcat(read, [], s0, config, FlushLines(buffered, pending, section), DumpLines(left, InOrder(left.Keys)));
      assert read + [] == read && read + lines == read;
    } else {
      var line := lines[0];
      assert lines == [line] + lines[1..];
      if IsHeader(line) && SectionName(line) != "" {
        var name := SectionName(line);
        HeaderAsIs(line, section, config);
        LastOne(line, section, "", "");
        StreamKeeps([line], lines[1..], config, pending - {section}, name, section);
        FlushKept(read, s0, config, pending, section);
        KeptConcat(read, [line] + lines[1..], s0, config, FlushLines(buffered, pending, section),
                   StreamLines(lines[1..], config, pending - {section}, name, [line]));
      } else {
        var pending' := if LineKey(line) != "" && Find(config, section, LineKey(line)).Some?
                        then DropKey(pending, section, LineKey(line)) else pending;
        EditedConcat(read, [line], s0, config);
        EditedOne(line, section, config);
        LastConcat(read, [line], s0, "", "");
        LastOne(line, section, "", "");
        StreamKeeps(read + [line], lines[1..], config, pending', section, s0);
        assert (read + [line]) + lines[1..] == read + lines;
      }
    }
  }

  lemma EditedOne(line: string, section: string, config: ConfigMap)
    ensures Edited([line], section, config) == [EditedLine(line, section, config)]
  {
    assert [line][1..] == [];
  }

  lemma HeaderAsIs(line: string, section: string, config: ConfigMap)
    requires IsHeader(line)
    ensures Edited([line], section, config) == [line]
  {
    EditedOne(line, section, config);
  }

  lemma WithinItself(config: ConfigMap)
    ensures WithinConfig(config, config)
  {
  }

  /** Over every text and configuration: the saved file holds every line of the
      text, in order, changed in nothing but the value of a configured key, and
      beside them only settings and section headers of the configuration. */
  lemma OutputKeeps(lines: seq<string>, config: ConfigMap)
    ensures Kept(lines, "", config, OutputLines(lines, config))
  {
    hide Kept;
    WithinItself(config);
    if lines == [] {
      DumpAdded(config, config, InOrder(config.Keys));
      AddedKept("", config, DumpLines(config, InOrder(config.Keys)));
    } else {
      StreamKeeps([], lines, config, config, "", "");
      assert [] + lines == lines;
    }
  }
}
