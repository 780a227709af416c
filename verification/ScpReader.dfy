/** Reading a SuperCard Pro container back into bitcells (src/hfe_write.cpp). */
module ScpReader {
  import opened Bits
  import opened Bytes
  import opened Wrappers
  import opened Flux
  import opened Scp

  const SLOTS := 168

  datatype Reader = Reader(legacy: bool, cyls: nat)

  predicate LongEnough(scp: seq<byte>) { |scp| >= TLUT_END }

  function Slot(scp: seq<byte>, slot: nat): nat
    requires LongEnough(scp) && slot < SLOTS
  {
    Read32(scp, TLUT + 4 * slot)
  }

  /** Where a cylinder's record is, or 0. Legacy files use one slot a cylinder. */
  function TrackOffset(scp: seq<byte>, legacy: bool, cyl: nat): nat
    requires LongEnough(scp)
  {
    var slot := if legacy then cyl else cyl * 2;
    if slot >= SLOTS then 0 else Slot(scp, slot)
  }

  predicate AnyOddSlot(scp: seq<byte>)
    requires LongEnough(scp)
  {
    exists k :: 0 <= k < MAX_CYLS && Slot(scp, 2 * k + 1) != 0
  }

  /** One more than the last cylinder present below n. */
  function LastPresent(scp: seq<byte>, legacy: bool, n: nat): (r: nat)
    requires LongEnough(scp)
    ensures r <= n
    ensures r > 0 ==> TrackOffset(scp, legacy, r - 1) != 0
    ensures forall k :: r <= k < n ==> TrackOffset(scp, legacy, k) == 0
  {
    if n == 0 then 0 else if TrackOffset(scp, legacy, n - 1) != 0 then n else LastPresent(scp, legacy, n - 1)
  }

  function OpenScp(scp: seq<byte>): Option<Reader> {
    if !LongEnough(scp) || scp[0] != 83 || scp[1] != 67 || scp[2] != 80 then None
    else if scp[5] == 0 || scp[0x0A] == 2 then None
    else
      var legacy := scp[0x0A] != 0 && AnyOddSlot(scp);
      var cyls := LastPresent(scp, legacy, MAX_CYLS);
      if cyls > 0 then Some(Reader(legacy, cyls)) else None
  }

  function ReadWords(scp: seq<byte>, start: nat, n: nat): (r: seq<nat>)
    requires start + 2 * n <= |scp|
    ensures |r| == n
    decreases n
  {
    if n == 0 then [] else [Read16(scp, start)] + ReadWords(scp, start + 2, n - 1)
  }

  /** Zero cells up to a whole byte. */
  function PadByte(cells: seq<bool>): (r: seq<bool>)
    ensures |r| % 8 == 0 && cells <= r && |r| < |cells| + 8
    ensures forall i :: |cells| <= i < |r| ==> !r[i]
  {
    cells + Zeros((8 - |cells| % 8) % 8)
  }

  /** Revolution r of the record at toff, as whole bytes of cells. */
  function ReconstructAt(scp: seq<byte>, toff: nat, r: nat): seq<bool> {
    var entry := toff + 4 + 12 * r;
    if entry + 12 > |scp| then []
    else
      var words := Read32(scp, entry + 4);
      var start := toff + Read32(scp, entry + 8);
      if start + 2 * words > |scp| then []
      else PadByte(CellsOfWords(ReadWords(scp, start, words), 0))
  }

  /** What the program reads: revolution 0. */
  function Reconstruct(scp: seq<byte>, toff: nat): seq<bool> { ReconstructAt(scp, toff, 0) }

  /** Where slot s of the lookup table points. */
  function Points(scp: seq<byte>, s: nat): nat
    requires |scp| >= 688 && s < 168
  {
    Little(scp, 16 + 4 * s)
  }

  /** The slot of side 0 of a cylinder. */
  function SlotOf(legacy: bool, cyl: nat): nat { if legacy then cyl else 2 * cyl }

  /** What opens, and as what: SCP with revolutions, not of side 1 alone. It is
      of the legacy kind exactly when it does not declare both sides and yet uses
      an odd slot; the cylinders end behind the last slot in use. */
  ghost predicate OpensAs(scp: seq<byte>, legacy: bool, cyls: nat) {
    && |scp| >= 688 && scp[..3] == [0x53, 0x43, 0x50] && scp[5] != 0 && scp[10] != 2
    && (legacy <==> scp[10] != 0 && exists s: nat :: s < 168 && s % 2 == 1 && Points(scp, s) != 0)
    && 1 <= cyls <= 84 && Points(scp, SlotOf(legacy, cyls - 1)) != 0
    && forall c: nat :: cyls <= c < 84 ==> Points(scp, SlotOf(legacy, c)) == 0
  }

  lemma OpensExactly(scp: seq<byte>, legacy: bool, cyls: nat)
    ensures OpenScp(scp) == Some(Reader(legacy, cyls)) <==> OpensAs(scp, legacy, cyls)
  {
    hide Little, Read32;
    if LongEnough(scp) {
      forall s: nat | s < 168 ensures Points(scp, s) == Slot(scp, s) { LittleIs(scp, 16 + 4 * s); }
      OddSlots(scp);
      assert scp[..3] == [scp[0], scp[1], scp[2]];
      var l := scp[10] != 0 && AnyOddSlot(scp);
      var n := LastPresent(scp, l, 84);
      forall c: nat | c < 84 ensures TrackOffset(scp, l, c) == Points(scp, SlotOf(l, c)) { }
      if OpensAs(scp, legacy, cyls) {
        assert legacy == l && cyls <= n;
      } else if n > 0 && legacy == l && cyls == n {
        assert Points(scp, SlotOf(legacy, cyls - 1)) != 0;
      }
    }
  }

  lemma OddSlots(scp: seq<byte>)
    requires LongEnough(scp)
    ensures AnyOddSlot(scp) <==> exists s: nat :: s < 168 && s % 2 == 1 && Points(scp, s) != 0
  {
    hide Little, Read32;
    forall s: nat | s < 168 ensures Points(scp, s) == Slot(scp, s) { LittleIs(scp, 16 + 4 * s); }
    if s: nat :| s < 168 && s % 2 == 1 && Points(scp, s) != 0 {
      assert Slot(scp, 2 * (s / 2) + 1) != 0;
    }
    if k :| 0 <= k < MAX_CYLS && Slot(scp, 2 * k + 1) != 0 {
      assert Points(scp, 2 * k + 1) != 0;
    }
  }

  // ----- reading what was written

  lemma {:induction false} WordBytesRead(scp: seq<byte>, start: nat, words: seq<nat>)
    requires start + 2 * |words| <= |scp|
    requires scp[start..start + 2 * |words|] == WordBytes(words)
    requires forall i :: 0 <= i < |words| ==> words[i] < CARRY
    ensures ReadWords(scp, start, |words|) == words
    decreases |words|
  {
    if words != [] {
      var b := scp[start..start + 2 * |words|];
      assert b[0] == scp[start] && b[1] == scp[start + 1];
      assert b[2..] == WordBytes(words[1..]);
      SubSlice(scp, start, start + 2 * |words|, 2, 2 * (|words| - 1));
      WordBytesRead(scp, start + 2, words[1..]);
    }
  }

  lemma FileOpens(cyls: seq<CellTrack>, c: nat)
    requires Accepted(cyls) && Formatted(cyls, c) && |File(cyls)| < 0x1_0000_0000
    ensures LongEnough(File(cyls))
    ensures OpenScp(File(cyls)).Some? && !OpenScp(File(cyls)).value.legacy && c < OpenScp(File(cyls)).value.cyls
    ensures TrackOffset(File(cyls), false, c) == Offset(cyls, c)
  {
    hide Body, Offset, Record, Read32, Slots;
    var f := File(cyls);
    SlotsPointAtRecords(cyls, c);
    HeaderBytes(cyls);
    assert TrackOffset(f, false, c) == Read32(f, TLUT + 8 * c);
    assert TrackOffset(f, false, c) != 0;
  }

  /** The fixed part of the container: one revolution count for every formatted
      cylinder, the last side-0 slot, and the constants of the format. */
  lemma HeaderFields(cyls: seq<CellTrack>, c: nat)
    requires Accepted(cyls) && Formatted(cyls, c)
    ensures |File(cyls)| >= TLUT_END
    ensures File(cyls)[..12] == [83, 67, 80, 0x19, 0x80, |cyls[c]|, 0, 2 * (|cyls| - 1), 1, 16, 0, 0]
  {
    hide Body, Sum, Le32;
  }

  /** A number of four bytes, lowest first. */
  function Little(f: seq<byte>, at: nat): nat
    requires at + 4 <= |f|
  {
    (f[at] as int) + 0x100 * (f[at + 1] as int) + 0x1_0000 * (f[at + 2] as int) + 0x100_0000 * (f[at + 3] as int)
  }

  lemma LittleIs(f: seq<byte>, at: nat)
    requires at + 4 <= |f|
    ensures Little(f, at) == Read32(f, at)
  {
  }

  lemma Bounds(cyls: seq<CellTrack>, c: nat)
    requires Accepted(cyls) && Formatted(cyls, c)
    ensures c < |cyls| <= MAX_CYLS && cyls[c] != []
  {
  }

  /** The slot of a formatted cylinder points at its record: TRK and the slot
      number, then as many entries as the header announces. */
  lemma RecordFields(cyls: seq<CellTrack>, c: nat)
    requires Accepted(cyls) && Formatted(cyls, c) && |File(cyls)| < 0x1_0000_0000
    ensures var f := File(cyls);
      && |f| >= TLUT_END && f[5] == |cyls[c]|
      && var at := Little(f, 16 + 8 * c);
         && at == Offset(cyls, c) && at + 4 + 12 * (f[5] as int) <= |f|
         && f[at..at + 4] == [84, 82, 75, 2 * c]
  {
    hide File, Accepted, Record, Read32, Little, Formatted;
    var f, off := File(cyls), Offset(cyls, c);
    Bounds(cyls, c);
    HeaderFields(cyls, c);
    assert f[5] == f[..12][5];
    SlotsPointAtRecords(cyls, c);
    RecordStart(cyls[c], c, 0);
    LittleIs(f, 16 + 8 * c);
    SubSlice(f, off, off + |Record(cyls[c], c)|, 0, 4);
  }

  /** Entry r of the record at `off` gives the length of its revolution in
      ticks, its number of words and their place behind the `n` entries; and
      there the words are, high byte first. */
  ghost predicate EntryHolds(f: seq<byte>, off: nat, n: nat, r: nat, cells: CellRev)
    requires r < n
  {
    && off + 4 + 12 * n <= |f|
    && var at, words := off + 4 + 12 * r, Words(cells);
       && Little(f, at) == U32(80 * |cells|) && Little(f, at + 4) == |words|
       && var start := off + Little(f, at + 8);
          off + 4 + 12 * n <= start && start + 2 * |words| <= |f| && WordsAt(f, start, words)
  }

  lemma EntryFields(cyls: seq<CellTrack>, c: nat, r: nat)
    requires Accepted(cyls) && Formatted(cyls, c) && |File(cyls)| < 0x1_0000_0000 && r < |cyls[c]|
    ensures |File(cyls)| >= TLUT_END && File(cyls)[5] == |cyls[c]|
    ensures EntryHolds(File(cyls), Little(File(cyls), 16 + 8 * c), |cyls[c]|, r, cyls[c][r])
  {
    hide File, Accepted, Record, Words, WordBytes, Read32, Offset, DataOffset, Formatted, Little, WordsAt;
    var f := File(cyls);
    Bounds(cyls, c);
    RecordFields(cyls, c);
    RevolutionInFile(cyls, c, r);
    RecordStart(cyls[c], c, r);
    var at := Offset(cyls, c) + 4 + 12 * r;
    LittleIs(f, at);
    LittleIs(f, at + 4);
    LittleIs(f, at + 8);
    WordBytesAt(f, WordsStart(cyls, c, r), Words(cyls[c][r]));
  }

  ghost predicate WordsAt(f: seq<byte>, start: nat, words: seq<nat>)
    requires start + 2 * |words| <= |f|
  {
    forall k :: 0 <= k < |words| ==> 0x100 * (f[start + 2 * k] as int) + (f[start + 2 * k + 1] as int) == words[k]
  }

  lemma RecordStart(trk: CellTrack, cyl: nat, r: nat)
    requires r < |trk| && cyl < MAX_CYLS
    ensures |Record(trk, cyl)| >= 4 + 12 * |trk| && Record(trk, cyl)[0..4] == [84, 82, 75, 2 * cyl]
    ensures DataOffset(trk, r) >= 4 + 12 * |trk|
  {
    hide Words, Data, Entries;
    DataGrows(trk, r);
  }

  lemma {:induction false} DataGrows(trk: CellTrack, r: nat)
    requires r <= |trk|
    ensures DataOffset(trk, r) >= 4 + 12 * |trk|
  {
    if r > 0 { DataGrows(trk, r - 1); }
  }

  lemma {:induction false} WordBytesAt(f: seq<byte>, start: nat, words: seq<nat>)
    requires start + 2 * |words| <= |f| && f[start..start + 2 * |words|] == WordBytes(words)
    requires forall k :: 0 <= k < |words| ==> words[k] < CARRY
    ensures WordsAt(f, start, words)
    decreases |words|
  {
    if words != [] {
      var b := f[start..start + 2 * |words|];
      assert b[0] == f[start] && b[1] == f[start + 1];
      assert b[2..] == WordBytes(words[1..]);
      SubSlice(f, start, start + 2 * |words|, 2, 2 * (|words| - 1));
      WordBytesAt(f, start + 2, words[1..]);
      forall k | 0 <= k < |words|
        ensures 0x100 * (f[start + 2 * k] as int) + (f[start + 2 * k + 1] as int) == words[k]
      {
        if k > 0 { assert words[k] == words[1..][k - 1] && start + 2 * k == (start + 2) + 2 * (k - 1); }
      }
    }
  }

  /** Every revolution the header announces is in the container: it reads back
      cell for cell up to its last transition, zero-padded to a byte. */
  lemma RevolutionsReadBack(cyls: seq<CellTrack>, c: nat, r: nat)
    requires Accepted(cyls) && Formatted(cyls, c) && |File(cyls)| < 0x1_0000_0000 && r < |cyls[c]|
    requires |cyls[c][r]| * TICKS_PER_CELL < 0x1_0000_0000 && !LoneLast(cyls[c][r])
    ensures LongEnough(File(cyls)) && r < (File(cyls)[5] as int)
    ensures ReconstructAt(File(cyls), TrackOffset(File(cyls), false, c), r) == PadByte(Trim(cyls[c][r]))
  {
    hide File, Accepted, Offset, Words, WordBytes, Read32, CellsOfWords, TrackOffset, ReadWords, LoneLast, Trim;
    FileOpens(cyls, c);
    HeaderFields(cyls, c);
    assert File(cyls)[5] == File(cyls)[..12][5];
    RevolutionInFile(cyls, c, r);
    var f, cells := File(cyls), cyls[c][r];
    WordBytesRead(f, WordsStart(cyls, c, r), Words(cells));
    WordsAre(cells);
    FluxRoundTrip(cells);
  }

  lemma HeaderBytes(cyls: seq<CellTrack>)
    requires Accepted(cyls)
    ensures |File(cyls)| >= TLUT_END
    ensures var f := File(cyls); f[0] == 83 && f[1] == 67 && f[2] == 80 && f[5] != 0 && f[0x0A] == 0
  {
    hide Body, Sum, Le32;
  }

  /** The whole container round trip: what was written for a cylinder is found
      through the lookup table and its first revolution reads back cell for
      cell up to the last transition, zero-padded to a byte. */
  lemma ContainerRoundTrip(cyls: seq<CellTrack>, c: nat)
    requires Accepted(cyls) && Formatted(cyls, c) && |File(cyls)| < 0x1_0000_0000
    requires |cyls[c][0]| * TICKS_PER_CELL < 0x1_0000_0000 && !LoneLast(cyls[c][0])
    ensures LongEnough(File(cyls))
    ensures Reconstruct(File(cyls), TrackOffset(File(cyls), false, c)) == PadByte(Trim(cyls[c][0]))
  {
    RevolutionsReadBack(cyls, c, 0);
  }

  lemma WordsAre(c: CellRev)
    ensures Words(c) == FluxWords(c, 0)
  {
  }
}
