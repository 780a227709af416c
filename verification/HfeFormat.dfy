/** The HFE v1 format bit by bit: where an image keeps each cell of each track. */
module HfeFormat {
  import opened Bits
  import opened Bytes
  import opened Wrappers
  import opened Scp
  import opened Hfe
  import opened HfeProofs

  function Word(b: seq<byte>, at: nat): nat
    requires at + 2 <= |b|
  {
    (b[at] as int) + 0x100 * (b[at + 1] as int)
  }

  /** The bytes of side 0 in that many bytes of both sides, 256 of every 512. */
  function SideBytes(len: nat): nat { 256 * (len / 512) + (if len % 512 < 256 then len % 512 else 256) }

  /** Where byte q of side 0 is in a track that starts at `off`. */
  function ByteAt(off: nat, q: nat): nat { off + 512 * (q / 256) + q % 256 }

  lemma ByteSteps(off: nat, q: nat)
    ensures ByteAt(off, q) == off + ByteAt(0, q)
    ensures q < 256 ==> ByteAt(0, q) == q
    ensures q >= 256 ==> ByteAt(0, q) == 512 + ByteAt(0, q - 256)
  {
    if q >= 256 { assert (q - 256) / 256 == q / 256 - 1 && (q - 256) % 256 == q % 256; }
  }

  lemma {:induction false} DeinterleaveAt(track: seq<byte>, q: nat)
    requires q < |Deinterleave(track)|
    ensures ByteAt(0, q) < |track| && Deinterleave(track)[q] == track[ByteAt(0, q)]
    decreases |track|
  {
    hide ByteAt;
    ByteSteps(0, q);
    if |track| > 512 && q >= 256 {
      DeinterleaveAt(track[512..], q - 256);
    }
  }

  /** Cell k of a byte, the least significant bit first. */
  predicate BitOf(b: byte, k: nat) { (b as nat) / Power2(k) % 2 == 1 }

  lemma FlipCellAt(b: byte, k: nat)
    requires k < 8
    ensures FlipCells(b)[k] <==> BitOf(b, k)
  {
    CellIs(b, 7 - k);
  }

  lemma {:induction false} SideCellAt(bytes: seq<byte>, j: nat)
    requires j < 8 * |bytes|
    ensures Side0Cells(bytes)[j] <==> BitOf(bytes[j / 8], j % 8)
    decreases |bytes|
  {
    hide FlipCells, BitOf;
    if j < 8 {
      FlipCellAt(bytes[0], j);
    } else {
      SideCellAt(bytes[1..], j - 8);
      assert (j - 8) / 8 == j / 8 - 1 && (j - 8) % 8 == j % 8;
    }
  }

  /** The lookup entry gives a track's first block of 512 bytes and its length;
      the track is its cells, or absent if the length is 0. */
  ghost predicate TrackHeld(hfe: seq<byte>, entry: nat, trk: CellTrack)
    requires entry + 4 <= |hfe|
  {
    var off, len := 512 * Word(hfe, entry), Word(hfe, entry + 2);
    if len == 0 then trk == []
    else
      && off + len <= |hfe| && |trk| == 1 && |trk[0]| == 8 * SideBytes(len)
      && forall j :: 0 <= j < |trk[0]| ==> CellHeld(hfe, off, j, trk[0][j])
  }

  /** Cell j is bit j % 8 of byte j / 8 of the side. */
  predicate CellHeld(hfe: seq<byte>, off: nat, j: nat, cell: bool) {
    ByteAt(off, j / 8) < |hfe| && (cell <==> BitOf(hfe[ByteAt(off, j / 8)], j % 8))
  }

  lemma TrackReads(hfe: seq<byte>, entry: nat)
    requires entry + 4 <= |hfe|
    ensures var off, len := 512 * Word(hfe, entry), Word(hfe, entry + 2);
      ReadTrack(hfe, entry).Some? <==> len == 0 || off + len <= |hfe|
    ensures ReadTrack(hfe, entry).Some? ==> TrackHeld(hfe, entry, ReadTrack(hfe, entry).value)
  {
    hide Side0Cells, Deinterleave, CellHeld, Word, Read16le, SideBytes;
    WordIs(hfe, entry);
    WordIs(hfe, entry + 2);
    var off, len := 512 * Word(hfe, entry), Word(hfe, entry + 2);
    if len > 0 && off + len <= |hfe| {
      SideLength(hfe[off..off + len]);
      var cells := Side0Cells(Deinterleave(hfe[off..off + len]));
      forall j | 0 <= j < |cells| ensures CellHeld(hfe, off, j, cells[j]) {
        CellRead(hfe, off, len, j);
      }
    }
  }

  lemma WordIs(b: seq<byte>, at: nat)
    requires at + 2 <= |b|
    ensures Word(b, at) == Read16le(b, at)
  {
  }

  lemma SideLength(track: seq<byte>)
    ensures |Deinterleave(track)| == SideBytes(|track|)
  {
    DeinterleaveLength(track);
  }

  lemma CellRead(hfe: seq<byte>, off: nat, len: nat, j: nat)
    requires off + len <= |hfe| && j < 8 * SideBytes(len)
    ensures |Side0Cells(Deinterleave(hfe[off..off + len]))| == 8 * SideBytes(len)
    ensures CellHeld(hfe, off, j, Side0Cells(Deinterleave(hfe[off..off + len]))[j])
  {
    hide Side0Cells, Deinterleave, BitOf, SideBytes, ByteAt;
    var track, q := hfe[off..off + len], j / 8;
    SideLength(track);
    SideCellAt(Deinterleave(track), j);
    DeinterleaveAt(track, q);
    ByteSteps(off, q);
  }

  lemma HeldOnce(hfe: seq<byte>, entry: nat, a: CellTrack, b: CellTrack)
    requires entry + 4 <= |hfe| && TrackHeld(hfe, entry, a) && TrackHeld(hfe, entry, b)
    ensures a == b
  {
    hide BitOf;
    if Word(hfe, entry + 2) > 0 {
      var off := 512 * Word(hfe, entry);
      forall j | 0 <= j < |a[0]| ensures a[0][j] == b[0][j] {
        assert CellHeld(hfe, off, j, a[0][j]) && CellHeld(hfe, off, j, b[0][j]);
      }
      assert a[0] == b[0];
    }
  }

  ghost predicate TracksHeld(hfe: seq<byte>, lut: nat, cyls: seq<CellTrack>)
    requires lut + 4 * |cyls| <= |hfe|
  {
    forall c :: 0 <= c < |cyls| ==> TrackHeld(hfe, lut + 4 * c, cyls[c])
  }

  lemma HeldFront(hfe: seq<byte>, lut: nat, trk: CellTrack, rest: seq<CellTrack>)
    requires lut + 4 * (1 + |rest|) <= |hfe|
    ensures TracksHeld(hfe, lut, [trk] + rest) <==> TrackHeld(hfe, lut, trk) && TracksHeld(hfe, lut + 4, rest)
  {
    hide TrackHeld;
    var all := [trk] + rest;
    if TracksHeld(hfe, lut, all) {
      assert TrackHeld(hfe, lut + 4 * 0, all[0]);
      forall c | 0 <= c < |rest| ensures TrackHeld(hfe, lut + 4 + 4 * c, rest[c]) {
        assert TrackHeld(hfe, lut + 4 * (c + 1), all[c + 1]);
      }
    } else {
      var c :| 0 <= c < |all| && !TrackHeld(hfe, lut + 4 * c, all[c]);
      if c > 0 { assert all[c] == rest[c - 1] && lut + 4 * c == (lut + 4) + 4 * (c - 1); }
    }
  }

  /** The tracks read are those the image holds, and there are no others. */
  lemma {:induction false} TracksRead(hfe: seq<byte>, lut: nat, cyls: seq<CellTrack>)
    requires lut + 4 * |cyls| <= |hfe|
    ensures ReadTracks(hfe, lut, |cyls|) == Some(cyls) <==> TracksHeld(hfe, lut, cyls)
    decreases |cyls|
  {
    hide ReadTrack, TrackHeld, TracksHeld;
    if cyls == [] {
      NoneHeld(hfe, lut);
    } else {
      var trk, rest := cyls[0], cyls[1..];
      assert cyls == [trk] + rest;
      HeldFront(hfe, lut, trk, rest);
      TrackReads(hfe, lut);
      TracksRead(hfe, lut + 4, rest);
      if TrackHeld(hfe, lut, trk) {
        HeldReads(hfe, lut, trk);
      }
    }
  }

  lemma NoneHeld(hfe: seq<byte>, lut: nat)
    requires lut <= |hfe|
    ensures TracksHeld(hfe, lut, [])
  {
  }

  lemma HeldReads(hfe: seq<byte>, entry: nat, trk: CellTrack)
    requires entry + 4 <= |hfe| && TrackHeld(hfe, entry, trk)
    ensures ReadTrack(hfe, entry) == Some(trk)
  {
    hide ReadTrack, CellHeld;
    TrackReads(hfe, entry);
    HeldOnce(hfe, entry, trk, ReadTrack(hfe, entry).value);
  }

  // ----- whole images

  /** HXCPICFE, version 0, up to 84 tracks, a bit rate of 247 to 250, and a
      lookup table inside the file. */
  ghost predicate Announces(hfe: seq<byte>, n: nat, lut: nat) {
    && |hfe| >= 512
    && hfe[..8] == [0x48, 0x58, 0x43, 0x50, 0x49, 0x43, 0x46, 0x45] && hfe[8] == 0
    && hfe[9] == n && 1 <= n <= 84
    && 247 <= Word(hfe, 12) <= 250
    && lut == 512 * Word(hfe, 18) && lut + 4 * n <= |hfe|
  }

  ghost predicate AnyTrack(cyls: seq<CellTrack>) { exists c :: 0 <= c < |cyls| && cyls[c] != [] }

  ghost predicate Single(cyls: seq<CellTrack>) { forall c :: 0 <= c < |cyls| ==> cyls[c] == [] || |cyls[c]| == 1 }

  lemma {:induction false} SingleRevs(cyls: seq<CellTrack>)
    requires Single(cyls)
    ensures Revs(cyls) == if AnyTrack(cyls) then 1 else 0
  {
    if cyls != [] {
      SingleRevs(cyls[1..]);
      if c :| 0 <= c < |cyls| && cyls[c] != [] {
        if c > 0 { assert cyls[1..][c - 1] == cyls[c]; }
      } else {
        assert cyls[0] == [];
      }
    }
  }

  lemma SingleAccepted(cyls: seq<CellTrack>)
    requires Single(cyls) && 1 <= |cyls| <= 84
    ensures File(cyls) != [] <==> AnyTrack(cyls)
  {
    SingleRevs(cyls);
  }

  lemma HeldSingle(hfe: seq<byte>, lut: nat, cyls: seq<CellTrack>)
    requires lut + 4 * |cyls| <= |hfe| && TracksHeld(hfe, lut, cyls)
    ensures Single(cyls)
  {
    hide CellHeld, Word;
    forall c | 0 <= c < |cyls| ensures cyls[c] == [] || |cyls[c]| == 1 {
      assert TrackHeld(hfe, lut + 4 * c, cyls[c]);
    }
  }

  /** An image that holds these tracks becomes their flux container, */
  lemma HeldConverts(hfe: seq<byte>, cyls: seq<CellTrack>, lut: nat)
    requires Announces(hfe, |cyls|, lut) && TracksHeld(hfe, lut, cyls)
    ensures ToScp(hfe) == if AnyTrack(cyls) then Ok(File(cyls)) else Err(Geometry)
  {
    hide ReadTracks, File, TracksHeld, AnyTrack, Single, Read16le, Word, TicksPerCell;
    WordIs(hfe, 12);
    WordIs(hfe, 18);
    AcceptedBitRates(Word(hfe, 12));
    TracksRead(hfe, lut, cyls);
    HeldSingle(hfe, lut, cyls);
    SingleAccepted(cyls);
  }

  /** and nothing else is accepted. */
  lemma ConvertsHeld(hfe: seq<byte>) returns (cyls: seq<CellTrack>, lut: nat)
    requires ToScp(hfe).Ok?
    ensures Announces(hfe, |cyls|, lut) && TracksHeld(hfe, lut, cyls) && AnyTrack(cyls)
  {
    hide ReadTracks, File, TracksHeld, AnyTrack, Single, Read16le, Word, TicksPerCell;
    WordIs(hfe, 12);
    WordIs(hfe, 18);
    AcceptedBitRates(Word(hfe, 12));
    lut := Read16le(hfe, 18) * BLOCK;
    ReadTracksBound(hfe, lut, hfe[9]);
    cyls := ReadTracks(hfe, lut, hfe[9]).value;
    TracksRead(hfe, lut, cyls);
    HeldSingle(hfe, lut, cyls);
    SingleAccepted(cyls);
  }

  // ----- what is written

  lemma HeaderIs(n: byte, rest: seq<byte>)
    ensures var hfe := HeaderBlock(n) + rest;
      && hfe[..20] == [0x48, 0x58, 0x43, 0x50, 0x49, 0x43, 0x46, 0x45, 0, n, 1, 0, 250, 0, 44, 1, 6, 0xFF, 1, 0]
      && forall i :: 20 <= i < 512 ==> hfe[i] == 0xFF
  {
  }

  /** Every written image whose tracks fit: the header byte for byte, and each
      cell of revolution 0 of each cylinder at its place. */
  lemma WrittenImage(cyls: seq<CellTrack>)
    requires 1 <= |cyls| <= MAX_CYLS && AnyPresent(cyls) && AllWhole(cyls) && AllFit(cyls)
    ensures Write(cyls).Ok? && |Write(cyls).bytes| >= 1024
    ensures Write(cyls).bytes[..20]
      == [0x48, 0x58, 0x43, 0x50, 0x49, 0x43, 0x46, 0x45, 0, |cyls|, 1, 0, 250, 0, 44, 1, 6, 0xFF, 1, 0]
    ensures forall i :: 20 <= i < 512 ==> Write(cyls).bytes[i] == 0xFF
    ensures TracksHeld(Write(cyls).bytes, 512, FirstRevs(cyls))
  {
    hide HeaderBlock, PutTracks, ReadTracks, AllStored, FirstRevs, Lut, AllData, AnyPresent, TotalBlocks, TracksHeld,
         LengthFits, WholeBytes;
    TotalBlocksBound(cyls, 0);
    var header := HeaderBlock(|cyls|);
    assert header + Fill(BLOCK, 0) == Layout(header, [], []);
    PutTracksLayout(header, cyls, 0, [], [], 2);
    ReadTracksBack(header, cyls, 0, [], [], 2);
    var lut, data := [] + Lut(cyls, 0, 2), [] + AllData(cyls, 0);
    var hfe := Layout(header, lut, data);
    LayoutLength(header, lut, data);
    assert hfe == header + ((lut + Fill(BLOCK - |lut|, 0)) + data);
    HeaderIs(|cyls|, (lut + Fill(BLOCK - |lut|, 0)) + data);
    AllStoredWhole(cyls);
    assert AllStored(cyls)[0..] == AllStored(cyls);
    TracksRead(hfe, 512, FirstRevs(cyls));
  }

  lemma AllStoredWhole(cyls: seq<CellTrack>)
    requires AllWhole(cyls) && AllFit(cyls)
    ensures AllStored(cyls) == FirstRevs(cyls)
  {
    hide Stored, Present, WholeBytes, LengthFits;
    forall c | 0 <= c < |cyls| ensures AllStored(cyls)[c] == FirstRevs(cyls)[c] {
      assert WholeBytes(cyls[c]) && LengthFits(cyls[c]);
      StoredWhole(cyls[c]);
    }
  }
}
