/** The Config object: its text, its settings, and the overrides that shield
    the file from values forced at launch (src/configuration.cpp). */
module Config {
  import opened Wrappers
  import opened ConfigText
  import opened ConfigStore
  import ConfigProofs
  import ConfigRoundTrip

  // ----- overrides, as a value

  /** The persisted map, what reads see first, and the overrides as launched. */
  datatype Layers = Layers(config: ConfigMap, overrides: ConfigMap, launch: ConfigMap)

  function Get(st: Layers, section: string, key: string): Option<string> {
    if Find(st.overrides, section, key).Some? then Find(st.overrides, section, key)
    else Find(st.config, section, key)
  }

  function Erase(m: ConfigMap, section: string, key: string): ConfigMap
    requires section in m
  {
    m[section := m[section] - {key}]
  }

  /** A set that repeats what the launch forced is an echo and is not persisted;
      a different value is, and ends the protection of its key. */
  function Set(st: Layers, section: string, key: string, value: string): Layers {
    var launched := Find(st.launch, section, key);
    if launched == Some(value) then st.(overrides := Put(st.overrides, section, key, value))
    else
      Layers(Put(st.config, section, key, value), Put(st.overrides, section, key, value),
             if launched.Some? then Erase(st.launch, section, key) else st.launch)
  }

  datatype Change = Change(section: string, key: string, value: string)

  function Run(st: Layers, changes: seq<Change>): Layers
    decreases |changes|
  {
    if changes == [] then st
    else Run(Set(st, changes[0].section, changes[0].key, changes[0].value), changes[1..])
  }

  predicate Touches(c: Change, section: string, key: string) { c.section == section && c.key == key }

  /** The last value a key was set to. */
  function LastSet(changes: seq<Change>, section: string, key: string): Option<string>
    decreases |changes|
  {
    if changes == [] then None
    else if LastSet(changes[1..], section, key).Some? then LastSet(changes[1..], section, key)
    else if Touches(changes[0], section, key) then Some(changes[0].value)
    else None
  }

  /** Was the key ever set to anything but that value? */
  predicate Departs(changes: seq<Change>, section: string, key: string, value: string) {
    exists i :: 0 <= i < |changes| && Touches(changes[i], section, key) && changes[i].value != value
  }

  lemma SetFind(st: Layers, c: Change, section: string, key: string)
    ensures var st' := Set(st, c.section, c.key, c.value); var launched := Find(st.launch, section, key);
      && Find(st'.overrides, section, key)
           == (if Touches(c, section, key) then Some(c.value) else Find(st.overrides, section, key))
      && Find(st'.config, section, key)
           == (if Touches(c, section, key) && launched != Some(c.value) then Some(c.value)
               else Find(st.config, section, key))
      && Find(st'.launch, section, key)
           == (if Touches(c, section, key) && launched != Some(c.value) then None else launched)
  {
    PutFind(st.overrides, c.section, c.key, c.value, section, key);
    PutFind(st.config, c.section, c.key, c.value, section, key);
  }

  /** Reads return the last value set. */
  lemma {:induction false} ReadsSeeLastSet(st: Layers, changes: seq<Change>, section: string, key: string)
    ensures Get(Run(st, changes), section, key)
         == (if LastSet(changes, section, key).Some? then LastSet(changes, section, key) else Get(st, section, key))
    decreases |changes|
  {
    if changes != [] {
      var c := changes[0];
      var st' := Set(st, c.section, c.key, c.value);
      SetFind(st, c, section, key);
      ReadsSeeLastSet(st', changes[1..], section, key);
    }
  }

  /** The echo guard over every sequence of sets: a key the launch overrode
      keeps its persisted value as long as every set repeats the override; from
      the first that differs on, the last value set is persisted. A key the
      launch left alone always persists the last value set. */
  lemma {:induction false} EchoGuard(st: Layers, changes: seq<Change>, section: string, key: string)
    ensures var launched := Find(st.launch, section, key); var last := LastSet(changes, section, key);
      Find(Run(st, changes).config, section, key)
        == (if last.None? || (launched.Some? && !Departs(changes, section, key, launched.value))
            then Find(st.config, section, key) else last)
    decreases |changes|
  {
    if changes != [] {
      var c, rest := changes[0], changes[1..];
      var st' := Set(st, c.section, c.key, c.value);
      SetFind(st, c, section, key);
      EchoGuard(st', rest, section, key);
      var launched := Find(st.launch, section, key);
      if launched.Some? {
        DepartsStep(changes, section, key, launched.value);
        if LastSet(rest, section, key).None? { NeverSet(rest, section, key, launched.value); }
      }
    }
  }

  lemma DepartsStep(changes: seq<Change>, section: string, key: string, value: string)
    requires changes != []
    ensures Departs(changes, section, key, value)
      <==> (Touches(changes[0], section, key) && changes[0].value != value)
           || Departs(changes[1..], section, key, value)
  {
    if Departs(changes[1..], section, key, value) {
      var i :| 0 <= i < |changes[1..]| && Touches(changes[1..][i], section, key) && changes[1..][i].value != value;
      assert changes[i + 1] == changes[1..][i];
    }
    if Departs(changes, section, key, value) && !(Touches(changes[0], section, key) && changes[0].value != value) {
      var i :| 0 <= i < |changes| && Touches(changes[i], section, key) && changes[i].value != value;
      assert changes[1..][i - 1] == changes[i];
    }
  }

  lemma {:induction false} NeverSet(changes: seq<Change>, section: string, key: string, value: string)
    requires LastSet(changes, section, key).None?
    ensures !Departs(changes, section, key, value)
    decreases |changes|
  {
    if changes != [] {
      NeverSet(changes[1..], section, key, value);
      DepartsStep(changes, section, key, value);
    }
  }

  // ----- a whole session

  predicate GoodChange(c: Change) { GoodSection(c.section) && GoodKey(c.key) && GoodValue(c.value) }

  lemma {:induction false} RunGood(st: Layers, changes: seq<Change>)
    requires ConfigProofs.GoodConfig(st.config) && forall i :: 0 <= i < |changes| ==> GoodChange(changes[i])
    ensures ConfigProofs.GoodConfig(Run(st, changes).config)
    ensures ConfigRoundTrip.KeysWithin(st.config, Run(st, changes).config)
    decreases |changes|
  {
    hide ConfigProofs.GoodConfig, GoodSection, GoodKey, GoodValue, Put, Find;
    if changes != [] {
      var c := changes[0];
      assert GoodChange(c);
      ConfigRoundTrip.PutGood(st.config, c.section, c.key, c.value);
      RunGood(Set(st, c.section, c.key, c.value), changes[1..]);
    }
  }

  /** A text parsed, overrides forced at launch, any sets, and the file written
      out: it parses to exactly the persisted settings, if and only if its lines
      are faithful to them. */
  lemma SessionSaved(text: string, forced: ConfigMap, changes: seq<Change>)
    requires ConfigProofs.GoodLines(TextLines(text))
    requires forall i :: 0 <= i < |changes| ==> GoodChange(changes[i])
    ensures var lines := TextLines(text);
      var config := Run(Layers(ParseLines(lines, "", map[]), forced, forced), changes).config;
      var saved := TextLines(JoinLines(OutputLines(lines, config)));
      ParseLines(saved, "", map[]) == config <==> ConfigRoundTrip.Faithful(lines, config)
  {
    var parsed := ParseLines(TextLines(text), "", map[]);
    ConfigRoundTrip.ParseGood(TextLines(text), "", map[]);
    var st := Layers(parsed, forced, forced);
    RunGood(st, changes);
    ConfigRoundTrip.SavedReloads(text, Run(st, changes).config);
  }

  // ----- the object

  lemma ParseStep(lines: seq<string>, i: nat, section: string, m: ConfigMap)
    requires i < |lines|
    ensures ParseLines(lines[i..], section, m)
      == if IsHeader(lines[i]) then
           ParseLines(lines[i + 1..], if SectionName(lines[i]) != "" then SectionName(lines[i]) else section, m)
         else
           match ParseLine(lines[i])
           case None => ParseLines(lines[i + 1..], section, m)
           case Some(a) => ParseLines(lines[i + 1..], section, Put(m, section, a.key, a.value))
  {
    hide SectionName, Put;
    assert lines[i..][1..] == lines[i + 1..];
  }

  lemma ParseNone(section: string, m: ConfigMap)
    ensures ParseLines([], section, m) == m
  {
  }

  class Config {
    var config: ConfigMap
    var overrides: ConfigMap
    var launchOverrides: ConfigMap
    /** The text of everything parsed, line by line. */
    var lines: seq<string>

    constructor ()
      ensures config == map[] && State() == Layers(map[], map[], map[]) && lines == []
    {
      config, overrides, launchOverrides, lines := map[], map[], map[], [];
    }

    ghost function State(): Layers
      reads this
    {
      Layers(config, overrides, launchOverrides)
    }

    method ParseText(text: string)
      modifies this`config, this`lines
      ensures lines == old(lines) + TextLines(text)
      ensures config == ParseLines(TextLines(text), "", old(config))
    {
      hide SectionName, Put, ParseLine, IsHeader, ParseLines;
      var section := "";
      var input := TextLines(text);
      var i := 0;
      assert input[0..] == input;
      while i < |input|
        invariant 0 <= i <= |input|
        invariant lines == old(lines) + input[..i]
        invariant ParseLines(input[i..], section, config) == ParseLines(input, "", old(config))
      {
        var line := input[i];
        ParseStep(input, i, section, config);
        lines := lines + [line];
        if IsHeader(line) {
          var name := SectionName(line);
          if name != "" {
            section := name;
          }
        } else {
          var a := ParseLine(line);
          if a.Some? {
            config := Put(config, section, a.value.key, a.value.value);
          }
        }
        i := i + 1;
      }
      assert input[i..] == [] && input[..i] == input;
      ParseNone(section, config);
    }

    method SetOverrides(values: ConfigMap)
      modifies this`overrides, this`launchOverrides
      ensures State() == Layers(old(config), values, values)
    {
      overrides, launchOverrides := values, values;
    }

    method GetString(section: string, key: string, default: string) returns (r: string)
      ensures r == match Get(State(), section, key) case Some(v) => v case None => default
    {
      var value := Find(overrides, section, key);
      if value.None? {
        value := Find(config, section, key);
      }
      r := if value.Some? then value.value else default;
    }

    method SetString(section: string, key: string, value: string)
      modifies this`config, this`overrides, this`launchOverrides
      ensures State() == Set(old(State()), section, key, value)
    {
      var launched := Find(launchOverrides, section, key);
      if launched.Some? {
        if launched.value == value {
          overrides := Put(overrides, section, key, value);
          return;
        }
        launchOverrides := Erase(launchOverrides, section, key);
      }
      overrides := Put(overrides, section, key, value);
      config := Put(config, section, key, value);
    }

    /** toStream: the lines of the saved file. */
    method Save() returns (out: seq<string>)
      ensures out == OutputLines(lines, config)
    {
      hide LineKey, Rewrite, SectionName, FlushLines, DropKey, Find, NonEmpty, DumpLines, IsHeader;
      if lines == [] {
        return DumpLines(config, InOrder(config.Keys));
      }
      out := [];
      var pending := config;
      var section := "";
      var buffered := [];
      var i := 0;
      while i < |lines|
        invariant 0 <= i <= |lines|
        invariant out + StreamLines(lines[i..], config, pending, section, buffered) == OutputLines(lines, config)
      {
        var line := lines[i];
        assert lines[i..][1..] == lines[i + 1..];
        ghost var rest := StreamLines(lines[i..], config, pending, section, buffered);
        var name := if IsHeader(line) then SectionName(line) else "";
        var value := if LineKey(line) != "" then Find(config, section, LineKey(line)) else None;
        if name != "" {
          var flushed := FlushLines(buffered, pending, section);
          assert rest == flushed + StreamLines(lines[i + 1..], config, pending - {section}, name, [line]);
          out, pending, section, buffered := out + flushed, pending - {section}, name, [line];
        } else if value.Some? {
          buffered, pending := buffered + [Rewrite(line, value.value)], DropKey(pending, section, LineKey(line));
        } else {
          buffered := buffered + [line];
        }
        i := i + 1;
      }
      assert lines[i..] == [];
      out := out + FlushLines(buffered, pending, section);
      var left := NonEmpty(pending - {section});
      out := out + DumpLines(left, InOrder(left.Keys));
    }
  }
}
