/** The SuperCard Pro container assembled from bitcell tracks
    (scp_from_mfm_tracks in src/ipf.cpp). */
module Scp {
  import opened Bits
  import opened Bytes
  import opened Flux

  const TLUT := 0x10
  const TLUT_END := 688
  const MAX_CYLS := 84

  type CellRev = seq<bool>
  type CellTrack = seq<CellRev>

  // ----- numbers as bytes

  function WordBytes(words: seq<nat>): (r: seq<byte>)
    ensures |r| == 2 * |words|
  {
    if words == [] then [] else Be16(words[0]) + WordBytes(words[1..])
  }

  // ----- one track record

  function Words(c: CellRev): (r: seq<nat>)
    ensures forall i :: 0 <= i < |r| ==> r[i] < CARRY
  {
    FluxWords(c, 0)
  }

  function Entry(c: CellRev, off: nat): (r: seq<byte>)
    ensures |r| == 12
  {
    Le32(U32(|c| * TICKS_PER_CELL)) + Le32(|Words(c)|) + Le32(off)
  }

  /** The revolution entries of a record whose data starts at off. */
  function Entries(trk: CellTrack, off: nat): (r: seq<byte>)
    ensures |r| == 12 * |trk|
  {
    if trk == [] then [] else Entry(trk[0], off) + Entries(trk[1..], off + 2 * |Words(trk[0])|)
  }

  function Data(trk: CellTrack): seq<byte> {
    if trk == [] then [] else WordBytes(Words(trk[0])) + Data(trk[1..])
  }

  function Record(trk: CellTrack, cyl: nat): seq<byte> {
    [84, 82, 75, cyl * 2 % 256] + Entries(trk, 4 + 12 * |trk|) + Data(trk)
  }

  // ----- the file

  function RecordOf(cyls: seq<CellTrack>, c: nat): seq<byte>
  {
    if c < |cyls| && cyls[c] != [] then Record(cyls[c], c) else []
  }

  function Records(cyls: seq<CellTrack>, c: nat): seq<byte>
    decreases |cyls| - c
  {
    if c >= |cyls| then [] else RecordOf(cyls, c) + Records(cyls, c + 1)
  }

  /** Slots from 2c up, given where the records of cylinder c and on start.
      Only even slots, side 0, are used. */
  function Slots(cyls: seq<CellTrack>, c: nat, off: nat): (r: seq<byte>)
    requires c <= MAX_CYLS
    ensures |r| == 8 * (MAX_CYLS - c)
    decreases MAX_CYLS - c
  {
    if c == MAX_CYLS then []
    else
      Le32(if RecordOf(cyls, c) != [] then off else 0) + [0, 0, 0, 0]
        + Slots(cyls, c + 1, off + |RecordOf(cyls, c)|)
  }

  function Body(cyls: seq<CellTrack>): (r: seq<byte>)
    ensures |r| >= TLUT_END - TLUT
  {
    Slots(cyls, 0, TLUT_END) + Records(cyls, 0)
  }

  function Header(revs: byte, cyls: nat, sum: nat): (r: seq<byte>)
    requires cyls >= 1
    ensures |r| == TLUT
  {
    [83, 67, 80, 0x19, 0x80, revs, 0, (cyls - 1) * 2 % 256, 1, 16, 0, 0] + Le32(sum)
  }

  /** The revolution count of the first formatted cylinder. */
  function Revs(cyls: seq<CellTrack>): nat {
    if cyls == [] then 0 else if cyls[0] != [] then |cyls[0]| else Revs(cyls[1..])
  }

  predicate Uniform(cyls: seq<CellTrack>, revs: nat) {
    forall c :: 0 <= c < |cyls| && cyls[c] != [] ==> |cyls[c]| == revs
  }

  predicate Accepted(cyls: seq<CellTrack>) {
    1 <= Revs(cyls) <= 255 && |cyls| <= MAX_CYLS && Uniform(cyls, Revs(cyls))
  }

  function File(cyls: seq<CellTrack>): seq<byte> {
    if !Accepted(cyls) then [] else Header(Revs(cyls), |cyls|, U32(Sum(Body(cyls)))) + Body(cyls)
  }

  // ----- where things are

  /** The file position of cylinder c's record. */
  function Offset(cyls: seq<CellTrack>, c: nat): (r: nat)
    ensures r >= TLUT_END
  {
    if c == 0 then TLUT_END else Offset(cyls, c - 1) + |RecordOf(cyls, c - 1)|
  }

  lemma SlotsStep(cyls: seq<CellTrack>, c: nat, off: nat)
    requires c < MAX_CYLS
    ensures Slots(cyls, c, off)[0..4] == Le32(if RecordOf(cyls, c) != [] then off else 0)
    ensures Slots(cyls, c, off)[4..8] == Le32(0)
    ensures Slots(cyls, c, off)[8..] == Slots(cyls, c + 1, off + |RecordOf(cyls, c)|)
  {
  }

  lemma {:induction false} SlotHolds(cyls: seq<CellTrack>, from: nat, c: nat)
    requires from <= c < MAX_CYLS
    ensures Slots(cyls, from, Offset(cyls, from))[8 * (c - from)..8 * (c - from) + 4]
         == Le32(if RecordOf(cyls, c) != [] then Offset(cyls, c) else 0)
    ensures Slots(cyls, from, Offset(cyls, from))[8 * (c - from) + 4..8 * (c - from) + 8] == Le32(0)
    decreases MAX_CYLS - from
  {
    hide RecordOf, Le32, Slots;
    var all := Slots(cyls, from, Offset(cyls, from));
    SlotsStep(cyls, from, Offset(cyls, from));
    if from < c {
      var rest := Slots(cyls, from + 1, Offset(cyls, from + 1));
      assert all == all[..8] + rest;
      SlotHolds(cyls, from + 1, c);
      var i := 8 * (c - from - 1);
      SliceRight(all[..8], rest, i, 4);
      SliceRight(all[..8], rest, i + 4, 4);
    }
  }

  lemma {:induction false} RecordPlace(cyls: seq<CellTrack>, from: nat, c: nat)
    requires from <= c < |cyls|
    ensures Offset(cyls, from) <= Offset(cyls, c)
    ensures Offset(cyls, c) + |RecordOf(cyls, c)| - Offset(cyls, from) <= |Records(cyls, from)|
    ensures Records(cyls, from)[Offset(cyls, c) - Offset(cyls, from)
      ..Offset(cyls, c) - Offset(cyls, from) + |RecordOf(cyls, c)|]
         == RecordOf(cyls, c)
    decreases c - from
  {
    hide RecordOf;
    var rec, rest := RecordOf(cyls, from), Records(cyls, from + 1);
    if from < c {
      RecordPlace(cyls, from + 1, c);
      assert Offset(cyls, from + 1) == Offset(cyls, from) + |rec|;
      SliceRight(rec, rest, Offset(cyls, c) - Offset(cyls, from + 1), |RecordOf(cyls, c)|);
    } else {
      SliceLeft(rec, rest, 0, |rec|);
    }
  }

  predicate Formatted(cyls: seq<CellTrack>, c: nat) { c < |cyls| && cyls[c] != [] }

  lemma RecordOfFormatted(cyls: seq<CellTrack>, c: nat)
    ensures RecordOf(cyls, c) == if Formatted(cyls, c) then Record(cyls[c], c) else []
    ensures Formatted(cyls, c) <==> RecordOf(cyls, c) != []
  {
  }

  lemma FileParts(cyls: seq<CellTrack>)
    requires Accepted(cyls)
    ensures |File(cyls)| == TLUT_END + |Records(cyls, 0)|
    ensures File(cyls)[TLUT_END..] == Records(cyls, 0)
    ensures File(cyls)[TLUT..TLUT_END] == Slots(cyls, 0, TLUT_END)
  {
    hide Slots, Records, Header, Sum;
  }

  /** The lookup table: each formatted cylinder's even slot points at its
      record, odd slots and those of other cylinders are zero. */
  lemma SlotsPointAtRecords(cyls: seq<CellTrack>, c: nat)
    requires Accepted(cyls) && c < MAX_CYLS
    requires |File(cyls)| < 0x1_0000_0000
    ensures |File(cyls)| >= TLUT_END
    ensures Read32(File(cyls), TLUT + 8 * c + 4) == 0
    ensures Read32(File(cyls), TLUT + 8 * c) == if Formatted(cyls, c) then Offset(cyls, c) else 0
    ensures Formatted(cyls, c) ==>
      && Offset(cyls, c) + |Record(cyls[c], c)| <= |File(cyls)|
      && File(cyls)[Offset(cyls, c)..Offset(cyls, c) + |Record(cyls[c], c)|] == Record(cyls[c], c)
  {
    hide Record, RecordOf, Slots, Records, File, Le32, Read32, Accepted;
    var f := File(cyls);
    FileParts(cyls);
    var slots, records := Slots(cyls, 0, TLUT_END), Records(cyls, 0);
    var at := 8 * c;
    SlotHolds(cyls, 0, c);
    RecordOfFormatted(cyls, c);
    SubSlice(f, TLUT, TLUT_END, at, 4);
    SubSlice(f, TLUT, TLUT_END, at + 4, 4);
    Le32Reads(0, f, TLUT + at + 4);
    if Formatted(cyls, c) {
      RecordPlace(cyls, 0, c);
      var i, n := Offset(cyls, c), |RecordOf(cyls, c)|;
      SubSlice(f, TLUT_END, |f|, i - TLUT_END, n);
      Le32Reads(i, f, TLUT + at);
      assert U32(i) == i;
    } else {
      Le32Reads(0, f, TLUT + at);
    }
  }

  // ----- inside a record

  /** Where the words of revolution r start within the record. */
  function DataOffset(trk: CellTrack, r: nat): (n: nat)
    requires r <= |trk|
  {
    if r == 0 then 4 + 12 * |trk| else DataOffset(trk, r - 1) + 2 * |Words(trk[r - 1])|
  }

  lemma {:induction false} EntriesHold(trk: CellTrack, rest: CellTrack, base: nat, r: nat)
    requires base + |rest| == |trk| && rest == trk[base..] && base <= r < |trk|
    ensures Entries(rest, DataOffset(trk, base))[12 * (r - base)..12 * (r - base) + 12]
      == Entry(trk[r], DataOffset(trk, r))
    decreases |rest|
  {
    hide Words, Entry;
    var off := DataOffset(trk, base);
    if base < r {
      assert rest[1..] == trk[base + 1..];
      EntriesHold(trk, rest[1..], base + 1, r);
      SliceRight(Entry(rest[0], off), Entries(rest[1..], off + 2 * |Words(rest[0])|), 12 * (r - base - 1), 12);
    } else {
      SliceLeft(Entry(rest[0], off), Entries(rest[1..], off + 2 * |Words(rest[0])|), 0, 12);
    }
  }

  lemma {:induction false} DataHolds(trk: CellTrack, rest: CellTrack, base: nat, r: nat)
    requires base + |rest| == |trk| && rest == trk[base..] && base <= r < |trk|
    ensures DataOffset(trk, base) <= DataOffset(trk, r)
    ensures DataOffset(trk, r) + 2 * |Words(trk[r])| - DataOffset(trk, base) <= |Data(rest)|
    ensures Data(rest)[DataOffset(trk, r) - DataOffset(trk, base)
      ..DataOffset(trk, r) - DataOffset(trk, base) + 2 * |Words(trk[r])|]
         == WordBytes(Words(trk[r]))
    decreases |rest|
  {
    hide Words, WordBytes;
    var head, tail := WordBytes(Words(rest[0])), Data(rest[1..]);
    if base < r {
      assert rest[1..] == trk[base + 1..];
      DataHolds(trk, rest[1..], base + 1, r);
      SliceRight(head, tail, DataOffset(trk, r) - DataOffset(trk, base + 1), 2 * |Words(trk[r])|);
    } else {
      SliceLeft(head, tail, 0, |head|);
    }
  }

  /** The record of a track holds, for each revolution, its entry and its words. */
  lemma RecordHolds(trk: CellTrack, cyl: nat, r: nat)
    requires r < |trk|
    ensures 4 + 12 * r + 12 <= DataOffset(trk, r)
    ensures DataOffset(trk, r) + 2 * |Words(trk[r])| <= |Record(trk, cyl)|
    ensures Record(trk, cyl)[4 + 12 * r..4 + 12 * r + 12] == Entry(trk[r], DataOffset(trk, r))
    ensures Record(trk, cyl)[DataOffset(trk, r)..DataOffset(trk, r) + 2 * |Words(trk[r])|] == WordBytes(Words(trk[r]))
  {
    hide Words, WordBytes, Entry, Entries, Data, DataOffset;
    var mark: seq<byte> := [84, 82, 75, cyl * 2 % 256];
    var off := 4 + 12 * |trk|;
    var n := 2 * |Words(trk[r])|;
    DataStart(trk);
    assert trk == trk[0..];
    EntriesHold(trk, trk, 0, r);
    DataHolds(trk, trk, 0, r);
    var entries, data := Entries(trk, off), Data(trk);
    SliceMiddle(mark, entries, data, 12 * r, 12);
    SliceRight(mark + entries, data, DataOffset(trk, r) - off, n);
  }

  lemma DataStart(trk: CellTrack)
    ensures DataOffset(trk, 0) == 4 + 12 * |trk|
  {
  }

  // ----- the container as a whole

  function WordsStart(cyls: seq<CellTrack>, c: nat, r: nat): nat
    requires c < |cyls| && r < |cyls[c]|
  {
    Offset(cyls, c) + DataOffset(cyls[c], r)
  }

  function WordsEnd(cyls: seq<CellTrack>, c: nat, r: nat): nat
    requires c < |cyls| && r < |cyls[c]|
  {
    WordsStart(cyls, c, r) + 2 * |Words(cyls[c][r])|
  }

  /** The entry of each revolution says how long it is, how many words it has
      and where they are; and there they are. */
  lemma RevolutionInFile(cyls: seq<CellTrack>, c: nat, r: nat)
    requires Accepted(cyls) && |File(cyls)| < 0x1_0000_0000
    requires c < |cyls| && r < |cyls[c]|
    ensures WordsEnd(cyls, c, r) <= |File(cyls)|
    ensures Offset(cyls, c) + 4 + 12 * r + 12 <= WordsStart(cyls, c, r)
    ensures var e := Offset(cyls, c) + 4 + 12 * r;
      && Read32(File(cyls), e) == U32(|cyls[c][r]| * TICKS_PER_CELL)
      && Read32(File(cyls), e + 4) == |Words(cyls[c][r])|
      && Read32(File(cyls), e + 8) == WordsStart(cyls, c, r) - Offset(cyls, c)
    ensures File(cyls)[WordsStart(cyls, c, r)..WordsEnd(cyls, c, r)] == WordBytes(Words(cyls[c][r]))
  {
    hide File, Record, Offset, Words, WordBytes, Entry, DataOffset, Read32, Le32;
    var f, trk, off := File(cyls), cyls[c], Offset(cyls, c);
    SlotsPointAtRecords(cyls, c);
    RecordHolds(trk, c, r);
    var len := |Record(trk, c)|;
    SubSlice(f, off, off + len, 4 + 12 * r, 12);
    SubSlice(f, off, off + len, DataOffset(trk, r), 2 * |Words(trk[r])|);
    EntryReads(f, off + 4 + 12 * r, trk[r], DataOffset(trk, r));
  }

  lemma EntryReads(f: seq<byte>, e: nat, c: CellRev, off: nat)
    requires e + 12 <= |f| && f[e..e + 12] == Entry(c, off)
    ensures Read32(f, e) == U32(|c| * TICKS_PER_CELL)
    ensures Read32(f, e + 4) == U32(|Words(c)|)
    ensures Read32(f, e + 8) == U32(off)
  {
    hide Words, Le32, Read32;
    SubSlice(f, e, e + 12, 0, 4);
    SubSlice(f, e, e + 12, 4, 4);
    SubSlice(f, e, e + 12, 8, 4);
    Le32Reads(U32(|c| * TICKS_PER_CELL), f, e);
    Le32Reads(|Words(c)|, f, e + 4);
    Le32Reads(off, f, e + 8);
  }

  lemma {:induction false} OffsetsAscend(cyls: seq<CellTrack>, c: nat, d: nat)
    requires c < d
    ensures Offset(cyls, c) + |RecordOf(cyls, c)| <= Offset(cyls, d)
    decreases d
  {
    hide RecordOf;
    if c < d - 1 { OffsetsAscend(cyls, c, d - 1); }
  }

  lemma {:induction false} DataOffsetsAscend(trk: CellTrack, q: nat, r: nat)
    requires q < r < |trk|
    ensures DataOffset(trk, q) + 2 * |Words(trk[q])| <= DataOffset(trk, r)
    decreases r
  {
    hide Words;
    if q < r - 1 { DataOffsetsAscend(trk, q, r - 1); }
  }

  /** No two revolutions share a byte of flux, and none overlaps a record's
      own header. */
  lemma WordRangesDisjoint(cyls: seq<CellTrack>, c: nat, q: nat, d: nat, r: nat)
    requires c < |cyls| && q < |cyls[c]| && d < |cyls| && r < |cyls[d]|
    requires c < d || (c == d && q < r)
    ensures WordsEnd(cyls, c, q) <= WordsStart(cyls, d, r)
  {
    hide Words;
    if c == d {
      DataOffsetsAscend(cyls[c], q, r);
    } else {
      OffsetsAscend(cyls, c, d);
      RecordHolds(cyls[c], c, q);
      assert RecordOf(cyls, c) == Record(cyls[c], c);
    }
  }

  /** The stored checksum is the sum of every byte behind the header. */
  lemma ChecksumStored(cyls: seq<CellTrack>)
    requires Accepted(cyls)
    ensures |File(cyls)| >= TLUT && Read32(File(cyls), 0x0c) == U32(Sum(File(cyls)[TLUT..]))
  {
    hide Body, Sum, Le32, Read32;
    var f := File(cyls);
    assert f[TLUT..] == Body(cyls);
    assert f[0x0c..0x10] == Le32(U32(Sum(Body(cyls))));
    Le32Reads(U32(Sum(Body(cyls))), f, 0x0c);
  }
}
