/** The flux encoders and decoders as the program runs them, on packed bytes
    (src/ipf.cpp, src/hfe_write.cpp, src/hfe.cpp). */
module FluxCodecs {
  import opened Bits
  import opened Bytes
  import opened Wrappers
  import opened Bitcells
  import opened Flux
  import opened Scp
  import ScpReader

  predicate ValidTrack(t: Track) { forall r :: 0 <= r < |t| ==> ValidRev(t[r]) }

  predicate ValidTracks(cyls: seq<Track>) { forall c :: 0 <= c < |cyls| ==> ValidTrack(cyls[c]) }

  function TrackCells(t: Track): (r: CellTrack)
    requires ValidTrack(t)
    ensures |r| == |t|
    ensures forall i :: 0 <= i < |t| ==> r[i] == Cells(t[i])
  {
    seq(|t|, i requires 0 <= i < |t| => Cells(t[i]))
  }

  function AllCells(cyls: seq<Track>): (r: seq<CellTrack>)
    requires ValidTracks(cyls)
    ensures |r| == |cyls|
    ensures forall c :: 0 <= c < |cyls| ==> r[c] == TrackCells(cyls[c])
  {
    seq(|cyls|, c requires 0 <= c < |cyls| => TrackCells(cyls[c]))
  }

  // ----- flux words

  lemma {:induction false} WordBytesConcat(a: seq<nat>, b: seq<nat>)
    ensures WordBytes(a + b) == WordBytes(a) + WordBytes(b)
  {
    hide Be16;
    if a == [] {
      assert a + b == b;
    } else {
      WordBytesConcat(a[1..], b);
      assert (a + b)[0] == a[0] && (a + b)[1..] == a[1..] + b;
      Associate(Be16(a[0]), WordBytes(a[1..]), WordBytes(b));
    }
  }

  lemma WordBytesOne(w: nat, b: seq<nat>)
    ensures WordBytes([w] + b) == Be16(w) + WordBytes(b)
  {
  }

  /** The words of one interval, carried words first. */
  method PushInterval(out: seq<byte>, ticks: nat) returns (r: seq<byte>, words: nat)
    ensures r == out + WordBytes(IntervalWords(ticks))
    ensures words == |IntervalWords(ticks)|
  {
    r, words := out, 0;
    var t: nat := ticks;
    while t >= CARRY
      invariant r + WordBytes(IntervalWords(t)) == out + WordBytes(IntervalWords(ticks))
      invariant words + |IntervalWords(t)| == |IntervalWords(ticks)|
      decreases t
    {
      if t == CARRY {
        t := CARRY - 1;
        break;
      }
      WordBytesOne(0, IntervalWords(t - CARRY));
      r := r + Be16(0);
      words := words + 1;
      t := t - CARRY;
    }
    WordBytesOne(t, []);
    assert [t] + [] == [t];
    r := r + Be16(t);
    words := words + 1;
  }

  /** push_flux_rev. */
  method PushFluxRev(out: seq<byte>, rev: Rev) returns (r: seq<byte>, words: nat)
    requires ValidRev(rev)
    ensures r == out + WordBytes(Words(Cells(rev)))
    ensures words == |Words(Cells(rev))|
  {
    hide IntervalWords, WordBytes, Be16;
    ghost var cells := Cells(rev);
    r, words := out, 0;
    var gap, i := 0, 0;
    assert cells[0..] == cells;
    while i < rev.nbits
      invariant 0 <= i <= rev.nbits
      invariant r + WordBytes(FluxWords(cells[i..], gap)) == out + WordBytes(FluxWords(cells, 0))
      invariant words + |FluxWords(cells[i..], gap)| == |FluxWords(cells, 0)|
    {
      assert cells[i..][1..] == cells[i + 1..];
      gap := gap + 1;
      if CellAt(rev.bits, i) {
        var ticks := U32(gap * TICKS_PER_CELL);
        WordBytesConcat(IntervalWords(ticks), FluxWords(cells[i + 1..], 0));
        gap := 0;
        var n;
        r, n := PushInterval(r, ticks);
        words := words + n;
      }
      i := i + 1;
    }
    EmptyBytes();
  }

  lemma EmptyBytes()
    ensures WordBytes([]) == []
  {
  }

  // ----- the container

  /** Place one revolution's words at the end and fill in its entry. */
  method PlaceRevolution(scp: seq<byte>, start: nat, r: nat, rev: Rev,
                         ghost front: seq<byte>, ghost entries: seq<byte>, ghost room: nat, ghost data: seq<byte>)
    returns (out: seq<byte>)
    requires ValidRev(rev)
    requires scp == front + (entries + Fill(room, 0)) + data
    requires |front| == start + 4 && |entries| == 12 * r && room >= 12
    ensures out == front + ((entries + Entry(Cells(rev), |scp| - start)) + Fill(room - 12, 0))
                 + (data + WordBytes(Words(Cells(rev))))
  {
    hide Words, WordBytes, Entry;
    var dataOff := |scp| - start;
    var words;
    out, words := PushFluxRev(scp, rev);
    ghost var data' := data + WordBytes(Words(Cells(rev)));
    assert out == front + (entries + Fill(room, 0)) + data';
    var entry := Le32(U32(rev.nbits * TICKS_PER_CELL)) + Le32(words) + Le32(dataOff);
    EntryMade(Cells(rev), dataOff, words, entry);
    PatchEntry(front, entries, data', room, entry);
    out := Splice(out, start + 4 + 12 * r, entry);
  }

  /** One track: its marker, room for the entries, then the words, the entries
      being filled in as the words are placed. */
  method AppendRecord(out: seq<byte>, trk: Track, cyl: nat) returns (scp: seq<byte>)
    requires ValidTrack(trk)
    ensures scp == out + Record(TrackCells(trk), cyl)
  {
    hide Words, WordBytes, Entry, Entries, Data, TrackCells, Fill;
    ghost var cells := TrackCells(trk);
    EntriesDone();
    var mark: seq<byte> := [84, 82, 75, cyl * 2 % 256];
    ghost var front := out + mark;
    ghost var off := 4 + 12 * |trk|;
    scp := out + mark + Fill(12 * |trk|, 0);
    ghost var entries, data := [], [];
    assert cells[0..] == cells;
    var r := 0;
    while r < |trk|
      invariant 0 <= r <= |trk|
      invariant |entries| == 12 * r
      invariant scp == front + (entries + Fill(12 * (|trk| - r), 0)) + data
      invariant entries + Entries(cells[r..], off + |data|) == Entries(cells, off)
      invariant data + Data(cells[r..]) == Data(cells)
    {
      EntriesStep(cells, r, off + |data|);
      ghost var entry := Entry(cells[r], off + |data|);
      ghost var words := WordBytes(Words(cells[r]));
      scp := PlaceRevolution(scp, |out|, r, trk[r], front, entries, 12 * (|trk| - r), data);
      Associate(entries, entry, Entries(cells[r + 1..], off + |data| + |words|));
      Associate(data, words, Data(cells[r + 1..]));
      entries, data := entries + entry, data + words;
      r := r + 1;
    }
    assert cells[r..] == [];
    assert entries == Entries(cells, off) && data == Data(cells);
    RecordParts(out, mark, entries, Fill(0, 0), data);
  }

  lemma RecordParts(out: seq<byte>, mark: seq<byte>, entries: seq<byte>, room: seq<byte>, data: seq<byte>)
    requires room == []
    ensures (out + mark) + (entries + room) + data == out + (mark + entries + data)
  {
    assert entries + room == entries;
  }

  lemma EntriesDone()
    ensures forall off :: Entries([], off) == []
    ensures Data([]) == []
  {
  }

  lemma EntriesStep(cells: CellTrack, r: nat, off: nat)
    requires r < |cells|
    ensures Entries(cells[r..], off) == Entry(cells[r], off) + Entries(cells[r + 1..], off + 2 * |Words(cells[r])|)
    ensures Data(cells[r..]) == WordBytes(Words(cells[r])) + Data(cells[r + 1..])
  {
  }

  lemma EntryMade(c: CellRev, off: nat, words: nat, entry: seq<byte>)
    requires words == |Words(c)|
    requires entry == Le32(U32(|c| * TICKS_PER_CELL)) + Le32(words) + Le32(off)
    ensures entry == Entry(c, off)
  {
  }

  lemma PatchEntry(front: seq<byte>, entries: seq<byte>, data: seq<byte>, room: nat, entry: seq<byte>)
    requires |entry| == 12 <= room
    ensures Splice(front + (entries + Fill(room, 0)) + data, |front| + |entries|, entry)
         == front + ((entries + entry) + Fill(room - 12, 0)) + data
  {
  }

  lemma {:induction false} EmptySlots(cyls: seq<CellTrack>, c: nat, off: nat)
    requires |cyls| <= c <= MAX_CYLS
    ensures Slots(cyls, c, off) == Fill(8 * (MAX_CYLS - c), 0)
    decreases MAX_CYLS - c
  {
    hide Le32;
    if c < MAX_CYLS {
      EmptySlots(cyls, c + 1, off);
      ZeroSlot();
      assert Fill(8 * (MAX_CYLS - c), 0) == Le32(0) + [0, 0, 0, 0] + Fill(8 * (MAX_CYLS - c - 1), 0);
    }
  }

  /** Entering a record in the table, or leaving its slot empty, is one step of
      the layout. */
  lemma SlotStep(cyls: seq<CellTrack>, c: nat, front: seq<byte>, slots: seq<byte>, records: seq<byte>)
    requires c < |cyls| <= MAX_CYLS && |front| == TLUT && |slots| == 8 * c
    ensures var off := TLUT_END + |records|; var rec := RecordOf(cyls, c);
      var now := front + (slots + Fill(8 * (MAX_CYLS - c), 0)) + records;
      var slots' := slots + Le32(if rec != [] then off else 0) + [0, 0, 0, 0];
      var next := front + (slots' + Fill(8 * (MAX_CYLS - c - 1), 0)) + (records + rec);
      && |now| == off
      && |slots'| == 8 * (c + 1)
      && slots' + Slots(cyls, c + 1, off + |rec|) == slots + Slots(cyls, c, off)
      && next == (if rec != [] then Splice(now, TLUT + 8 * c, Le32(off)) + rec else now)
  {
    hide RecordOf, Le32, Splice, Fill, Slots;
    var off, rec, room := TLUT_END + |records|, RecordOf(cyls, c), 8 * (MAX_CYLS - c);
    SlotsUnfold(cyls, c, off);
    var entry := Le32(if rec != [] then off else 0);
    Associate(slots, entry, [0, 0, 0, 0]);
    Associate(slots, entry + [0, 0, 0, 0], Slots(cyls, c + 1, off + |rec|));
    var now := front + (slots + Fill(room, 0)) + records;
    if rec == [] {
      ZeroSlot();
      assert Fill(room, 0) == [0, 0, 0, 0] + [0, 0, 0, 0] + Fill(room - 8, 0);
      assert records + rec == records;
    } else {
      PatchSlot(front, slots, records, room, Le32(off));
    }
  }

  lemma SlotsUnfold(cyls: seq<CellTrack>, c: nat, off: nat)
    requires c < MAX_CYLS
    ensures Slots(cyls, c, off)
      == (Le32(if RecordOf(cyls, c) != [] then off else 0) + [0, 0, 0, 0])
         + Slots(cyls, c + 1, off + |RecordOf(cyls, c)|)
  {
  }

  lemma ZeroSlot()
    ensures Le32(0) == [0, 0, 0, 0]
  {
  }

  lemma PatchSlot(front: seq<byte>, slots: seq<byte>, records: seq<byte>, room: nat, entry: seq<byte>)
    requires |entry| == 4 && room >= 8
    ensures Splice(front + (slots + Fill(room, 0)) + records, |front| + |slots|, entry)
         == front + ((slots + entry + [0, 0, 0, 0]) + Fill(room - 8, 0)) + records
  {
  }

  method FirstRevCount(cyls: seq<Track>) returns (revs: nat)
    requires ValidTracks(cyls)
    ensures revs == Revs(AllCells(cyls))
    ensures revs > 0 ==> cyls != []
  {
    ghost var cells := AllCells(cyls);
    revs := 0;
    var c := 0;
    assert cells[0..] == cells;
    while c < |cyls|
      invariant 0 <= c <= |cyls| && revs == 0
      invariant Revs(cells[c..]) == Revs(cells)
    {
      assert cells[c..][1..] == cells[c + 1..] && cells[c..][0] == TrackCells(cyls[c]);
      if cyls[c] != [] {
        return |cyls[c]|;
      }
      c := c + 1;
    }
  }

  method ByteSum(s: seq<byte>, from: nat) returns (sum: nat)
    requires from <= |s|
    ensures sum == U32(Sum(s[from..]))
  {
    sum := 0;
    var i := from;
    while i < |s|
      invariant from <= i <= |s|
      invariant sum == U32(Sum(s[from..i]))
    {
      assert s[from..i + 1][..i - from] == s[from..i];
      sum := U32(sum + (s[i] as int));
      i := i + 1;
    }
    assert s[from..i] == s[from..];
  }

  /** The first c cylinders have been placed: their slots are filled in, the
      others still zero, and their records follow the table. */
  ghost predicate Placed(cells: seq<CellTrack>, c: nat, front: seq<byte>, slots: seq<byte>,
                         records: seq<byte>, scp: seq<byte>) {
    && c <= |cells| <= MAX_CYLS && |slots| == 8 * c && |front| == TLUT
    && scp == front + (slots + Fill(8 * (MAX_CYLS - c), 0)) + records
    && slots + Slots(cells, c, TLUT_END + |records|) == Slots(cells, 0, TLUT_END)
    && records + Records(cells, c) == Records(cells, 0)
  }

  ghost function NextSlots(cells: seq<CellTrack>, c: nat, slots: seq<byte>, records: seq<byte>): seq<byte> {
    slots + Le32(if RecordOf(cells, c) != [] then TLUT_END + |records| else 0) + [0, 0, 0, 0]
  }

  lemma PlacedStep(cells: seq<CellTrack>, c: nat, front: seq<byte>, slots: seq<byte>,
                   records: seq<byte>, scp: seq<byte>, scp': seq<byte>)
    requires Placed(cells, c, front, slots, records, scp) && c < |cells|
    requires |scp| >= TLUT + 8 * c + 4
    requires scp' == if cells[c] != [] then Splice(scp, TLUT + 8 * c, Le32(|scp|)) + Record(cells[c], c) else scp
    ensures Placed(cells, c + 1, front, NextSlots(cells, c, slots, records), records + RecordOf(cells, c), scp')
  {
    hide Record, RecordOf, Slots, Records, Le32, Fill, Splice;
    SlotStep(cells, c, front, slots, records);
    RecordsStep(cells, c);
    RecordOfFormatted(cells, c);
    var rec, slots' := RecordOf(cells, c), NextSlots(cells, c, slots, records);
    Associate(records, rec, Records(cells, c + 1));
    assert |scp| == TLUT_END + |records|;
    assert scp' == front + (slots' + Fill(8 * (MAX_CYLS - c - 1), 0)) + (records + rec);
  }

  method PlaceTrack(scp: seq<byte>, trk: Track, c: nat) returns (out: seq<byte>)
    requires ValidTrack(trk) && |scp| >= TLUT + 8 * c + 4
    ensures out == if trk != [] then Splice(scp, TLUT + 8 * c, Le32(|scp|)) + Record(TrackCells(trk), c) else scp
  {
    hide Record, Le32, Splice;
    out := scp;
    if trk != [] {
      var off := |scp|;
      out := Splice(out, TLUT + 8 * c, Le32(off));
      out := AppendRecord(out, trk, c);
    }
  }

  /** Lay the records down behind an empty table, entering each as it comes. */
  method PlaceTracks(front: seq<byte>, cyls: seq<Track>, revs: nat) returns (ok: bool, scp: seq<byte>)
    requires ValidTracks(cyls) && |cyls| <= MAX_CYLS && |front| == TLUT
    ensures ok == Uniform(AllCells(cyls), revs)
    ensures ok ==> scp == front + Body(AllCells(cyls))
  {
    hide Record, RecordOf, Placed, NextSlots, Body;
    ghost var cells := AllCells(cyls);
    scp := front + Fill(8 * MAX_CYLS, 0);
    ghost var slots, records := [], [];
    PlacedStart(cells, front, scp);
    var c := 0;
    while c < |cyls|
      invariant 0 <= c <= |cyls|
      invariant Placed(cells, c, front, slots, records, scp)
      invariant |scp| >= TLUT_END
      invariant forall k :: 0 <= k < c && cells[k] != [] ==> |cells[k]| == revs
    {
      assert cells[c] == TrackCells(cyls[c]);
      if cyls[c] != [] && |cyls[c]| != revs {
        return false, [];
      }
      ghost var before := scp;
      scp := PlaceTrack(scp, cyls[c], c);
      PlacedStep(cells, c, front, slots, records, before, scp);
      slots, records := NextSlots(cells, c, slots, records), records + RecordOf(cells, c);
      c := c + 1;
    }
    PlacedEnd(cells, front, slots, records, scp);
    ok := true;
  }

  lemma PlacedStart(cells: seq<CellTrack>, front: seq<byte>, scp: seq<byte>)
    requires |cells| <= MAX_CYLS && |front| == TLUT && scp == front + Fill(8 * MAX_CYLS, 0)
    ensures Placed(cells, 0, front, [], [], scp)
  {
    hide Slots, Records;
  }

  lemma PlacedEnd(cells: seq<CellTrack>, front: seq<byte>, slots: seq<byte>, records: seq<byte>, scp: seq<byte>)
    requires Placed(cells, |cells|, front, slots, records, scp)
    ensures scp == front + Body(cells)
  {
    hide Slots, Records, Fill;
    EmptySlots(cells, |cells|, TLUT_END + |records|);
    RecordsEnd(cells);
    assert records == Records(cells, 0);
    Associate(front, Slots(cells, 0, TLUT_END), records);
  }

  /** scp_from_mfm_tracks: empty on bad geometry. */
  method ScpFromMfmTracks(cyls: seq<Track>) returns (scp: seq<byte>)
    requires ValidTracks(cyls)
    ensures scp == File(AllCells(cyls))
  {
    hide Body, Le32, Revs, Sum, Splice, Fill;
    ghost var cells := AllCells(cyls);
    var revs := FirstRevCount(cyls);
    if revs == 0 || revs > 255 || |cyls| > MAX_CYLS {
      return [];
    }
    var front: seq<byte> := [83, 67, 80, 0x19, 0x80, revs, 0, (|cyls| - 1) * 2 % 256, 1, 16, 0, 0] + Fill(4, 0);
    var ok, placed := PlaceTracks(front, cyls, revs);
    if !ok {
      return [];
    }
    var sum := ByteSum(placed, TLUT);
    assert placed[TLUT..] == Body(cells);
    ChecksumPatch(front, Body(cells), sum, revs, |cyls|);
    scp := Splice(placed, 0x0c, Le32(sum));
  }

  lemma RecordsStep(cyls: seq<CellTrack>, c: nat)
    requires c < |cyls|
    ensures Records(cyls, c) == RecordOf(cyls, c) + Records(cyls, c + 1)
  {
  }

  lemma RecordsEnd(cyls: seq<CellTrack>)
    ensures Records(cyls, |cyls|) == []
  {
  }

  lemma ChecksumPatch(front: seq<byte>, body: seq<byte>, sum: nat, revs: nat, cyls: nat)
    requires revs <= 255 && cyls >= 1
    requires front == [83, 67, 80, 0x19, 0x80, revs, 0, (cyls - 1) * 2 % 256, 1, 16, 0, 0] + Fill(4, 0)
    ensures Splice(front + body, 0x0c, Le32(sum)) == Header(revs, cyls, sum) + body
  {
  }

  // ----- flux back to cells

  /** One cell more on a packed stream. */
  method Emit(rev: Rev, value: bool) returns (r: Rev)
    requires Tight(rev) && ValidRev(rev)
    ensures Tight(r) && ValidRev(r) && Cells(r) == Cells(rev) + [value]
  {
    AppendCell(rev, value);
    r := Append(rev, value);
  }

  method EmitZeros(rev: Rev, n: nat) returns (r: Rev)
    requires Tight(rev) && ValidRev(rev)
    ensures Tight(r) && ValidRev(r) && Cells(r) == Cells(rev) + Zeros(n)
  {
    r := rev;
    var j := 0;
    while j < n
      invariant 0 <= j <= n
      invariant Tight(r) && ValidRev(r) && Cells(r) == Cells(rev) + Zeros(j)
    {
      r := Emit(r, false);
      assert Zeros(j + 1) == Zeros(j) + [false];
      j := j + 1;
    }
  }

  /** The cells of a run of flux words: round each interval to whole cells. */
  method CellsFromWords(scp: seq<byte>, start: nat, words: nat) returns (rev: Rev)
    requires start + 2 * words <= |scp|
    ensures Tight(rev) && ValidRev(rev)
    ensures Cells(rev) == CellsOfWords(ScpReader.ReadWords(scp, start, words), 0)
  {
    hide Read16, CellCount, CellAt, Cells, Tight, U32, Zeros, CellsOfWords;
    EmptyRev();
    rev := EMPTY;
    var carry: nat := 0;
    var i := 0;
    while i < words
      invariant 0 <= i <= words
      invariant Tight(rev) && ValidRev(rev)
      invariant Cells(rev) + CellsOfWords(ScpReader.ReadWords(scp, start + 2 * i, words - i), carry)
        == CellsOfWords(ScpReader.ReadWords(scp, start, words), 0)
    {
      var word := Read16(scp, start + 2 * i);
      WordsStep(word, ScpReader.ReadWords(scp, start + 2 * i + 2, words - i - 1), carry);
      if word == 0 {
        carry := U32(carry + CARRY);
      } else {
        var cells := CellCount(U32(carry + word));
        carry := 0;
        ghost var before := Cells(rev);
        rev := EmitZeros(rev, cells - 1);
        rev := Emit(rev, true);
        Associate(before, Zeros(cells - 1), [true]);
      }
      i := i + 1;
    }
    WordsDone(carry);
  }

  /** reconstruct_rev: the first revolution's cells, padded to a byte. */
  method ReconstructRev(scp: seq<byte>, toff: nat) returns (rev: Rev)
    ensures Tight(rev) && ValidRev(rev)
    ensures Cells(rev) == ScpReader.Reconstruct(scp, toff)
  {
    hide Read32, CellAt, Cells, Tight, CellsOfWords;
    EmptyRev();
    rev := EMPTY;
    var entry := toff + 4;
    if entry + 12 > |scp| {
      return;
    }
    var words := Read32(scp, entry + 4);
    var start := toff + Read32(scp, entry + 8);
    if start + 2 * words > |scp| {
      return;
    }
    rev := CellsFromWords(scp, start, words);
    rev := EmitZeros(rev, (8 - rev.nbits % 8) % 8);
  }

  /** read_scp: which slots the cylinders use, and how many there are. */
  method OpenContainer(scp: seq<byte>) returns (reader: Option<ScpReader.Reader>)
    ensures reader == ScpReader.OpenScp(scp)
  {
    hide Read32, ScpReader.TrackOffset;
    if !ScpReader.LongEnough(scp) || scp[0] != 83 || scp[1] != 67 || scp[2] != 80 || scp[5] == 0 || scp[0x0A] == 2 {
      return None;
    }
    var legacy := false;
    if scp[0x0A] != 0 {
      var k := 0;
      while k < MAX_CYLS && !legacy
        invariant 0 <= k <= MAX_CYLS
        invariant legacy == exists j :: 0 <= j < k && ScpReader.Slot(scp, 2 * j + 1) != 0
      {
        legacy := Read32(scp, TLUT + 4 * (2 * k + 1)) != 0;
        assert legacy == (ScpReader.Slot(scp, 2 * k + 1) != 0);
        k := k + 1;
      }
    }
    var cyls, cyl := 0, 0;
    while cyl < MAX_CYLS
      invariant 0 <= cyl <= MAX_CYLS
      invariant cyls == ScpReader.LastPresent(scp, legacy, cyl)
    {
      if ScpReader.TrackOffset(scp, legacy, cyl) != 0 {
        cyls := cyl + 1;
      }
      cyl := cyl + 1;
    }
    reader := if cyls > 0 then Some(ScpReader.Reader(legacy, cyls)) else None;
  }

  lemma EmptyRev()
    ensures Tight(EMPTY) && ValidRev(EMPTY) && Cells(EMPTY) == []
  {
  }

  lemma WordsDone(carry: nat)
    ensures CellsOfWords([], carry) == []
  {
  }
}
