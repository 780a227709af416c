/** The HFE reader undoes the HFE writer. */
module HfeProofs {
  import opened Bits
  import opened Bytes
  import opened Wrappers
  import opened Flux
  import opened Scp
  import opened Hfe

  /** Whole bytes of cells, the only thing the format can hold. */
  predicate WholeBytes(trk: CellTrack) { Present(trk) ==> |trk[0]| % 8 == 0 }

  predicate AllWhole(cyls: seq<CellTrack>) { forall c :: 0 <= c < |cyls| ==> WholeBytes(cyls[c]) }

  /** Does the length of a track fit its 16-bit field? */
  predicate LengthFits(trk: CellTrack) { Present(trk) ==> |Combined(trk)| <= 65535 }

  predicate AllFit(cyls: seq<CellTrack>) { forall c :: 0 <= c < |cyls| ==> LengthFits(cyls[c]) }

  // ----- the layout of an image

  function LutEntry(trk: CellTrack, next: nat): (r: seq<byte>)
    ensures |r| == 4
  {
    if Present(trk) then Le16(next) + Le16(|Combined(trk)|) else Fill(4, 0)
  }

  function Blocks(trk: CellTrack): nat { if Present(trk) then BlockCount(|Combined(trk)|) else 0 }

  function PadBlocks(bytes: seq<byte>): (r: seq<byte>)
    ensures |r| == BLOCK * BlockCount(|bytes|)
  {
    bytes + Fill(BLOCK * BlockCount(|bytes|) - |bytes|, 0xFF)
  }

  function TrackData(trk: CellTrack): (r: seq<byte>)
    ensures |r| == BLOCK * Blocks(trk)
  {
    if Present(trk) then PadBlocks(Combined(trk)) else []
  }

  function Lut(cyls: seq<CellTrack>, t: nat, next: nat): (r: seq<byte>)
    requires t <= |cyls|
    ensures |r| == 4 * (|cyls| - t)
    decreases |cyls| - t
  {
    if t == |cyls| then [] else LutEntry(cyls[t], next) + Lut(cyls, t + 1, next + Blocks(cyls[t]))
  }

  function TotalBlocks(cyls: seq<CellTrack>, t: nat): nat
    requires t <= |cyls|
    decreases |cyls| - t
  {
    if t == |cyls| then 0 else Blocks(cyls[t]) + TotalBlocks(cyls, t + 1)
  }

  function AllData(cyls: seq<CellTrack>, t: nat): seq<byte>
    requires t <= |cyls|
    decreases |cyls| - t
  {
    if t == |cyls| then [] else TrackData(cyls[t]) + AllData(cyls, t + 1)
  }

  function Layout(header: seq<byte>, lut: seq<byte>, data: seq<byte>): seq<byte>
    requires |lut| <= BLOCK
  {
    header + (lut + Fill(BLOCK - |lut|, 0)) + data
  }

  lemma SpliceEnd(out: seq<byte>, bytes: seq<byte>, n: nat)
    requires |bytes| <= n
    ensures Splice(out + Fill(n, 0xFF), |out|, bytes) == out + (bytes + Fill(n - |bytes|, 0xFF))
  {
  }

  lemma SpliceLut(header: seq<byte>, lut: seq<byte>, data: seq<byte>, entry: seq<byte>)
    requires |header| == BLOCK && |lut| + 4 <= BLOCK && |entry| == 4
    ensures Splice(Layout(header, lut, data), BLOCK + |lut|, entry) == Layout(header, lut + entry, data)
  {
  }

  lemma PutTrackLayout(header: seq<byte>, lut: seq<byte>, data: seq<byte>, trk: CellTrack, next: nat)
    requires |header| == BLOCK && |lut| + 4 <= BLOCK && |lut| % 4 == 0
    requires Present(trk) && |trk[0]| % 8 == 0
    requires next >= 2 && |data| == BLOCK * (next - 2)
    ensures |Layout(header, lut, data)| >= 2 * BLOCK
    ensures PutTrack(Layout(header, lut, data), |lut| / 4, Combined(trk), next)
         == Layout(header, lut + LutEntry(trk, next), data + TrackData(trk))
  {
    hide Combined, Layout, Le16, Splice, Fill;
    var out, combined := Layout(header, lut, data), Combined(trk);
    var n := BLOCK * BlockCount(|combined|);
    LayoutLength(header, lut, data);
    assert |out| == next * BLOCK;
    CombinedNonEmpty(trk);
    assert n > 0 && |combined| <= n;
    SpliceEnd(out, combined, n);
    LayoutAppend(header, lut, data, TrackData(trk));
    SpliceLut(header, lut, data + TrackData(trk), LutEntry(trk, next));
    LayoutLength(header, lut, data + TrackData(trk));
    assert BLOCK + 4 * (|lut| / 4) == BLOCK + |lut|;
  }

  lemma LayoutLength(header: seq<byte>, lut: seq<byte>, data: seq<byte>)
    requires |header| == BLOCK && |lut| <= BLOCK
    ensures |Layout(header, lut, data)| == 2 * BLOCK + |data|
  {
  }

  lemma LayoutAppend(header: seq<byte>, lut: seq<byte>, data: seq<byte>, more: seq<byte>)
    requires |lut| <= BLOCK
    ensures Layout(header, lut, data) + more == Layout(header, lut, data + more)
  {
  }

  lemma CombinedNonEmpty(trk: CellTrack)
    requires Present(trk) && |trk[0]| % 8 == 0
    ensures |Combined(trk)| > 0
  {
  }

  lemma PutTracksStep(header: seq<byte>, cyls: seq<CellTrack>, t: nat, lut: seq<byte>, data: seq<byte>, next: nat)
    requires t < |cyls| <= MAX_CYLS && WholeBytes(cyls[t])
    requires |header| == BLOCK && |lut| == 4 * t
    requires 2 <= next && next + Blocks(cyls[t]) <= 65535 && |data| == BLOCK * (next - 2)
    ensures |Layout(header, lut, data)| >= 2 * BLOCK
    ensures |Layout(header, lut + LutEntry(cyls[t], next), data + TrackData(cyls[t]))| >= 2 * BLOCK
    ensures PutTracks(cyls, t, Layout(header, lut, data), next)
         == PutTracks(cyls, t + 1, Layout(header, lut + LutEntry(cyls[t], next), data + TrackData(cyls[t])),
                      next + Blocks(cyls[t]))
  {
    hide Combined, Layout, LutEntry, TrackData, Splice, Fill, PutTrack;
    var trk := cyls[t];
    LayoutLength(header, lut, data);
    LayoutLength(header, lut + LutEntry(trk, next), data + TrackData(trk));
    if Present(trk) {
      PutTrackLayout(header, lut, data, trk, next);
      assert (next + Blocks(trk)) % 65536 == next + Blocks(trk);
    } else {
      AbsentTrack(trk, next);
      SpliceLut(header, lut, data, Fill(4, 0));
      assert data + TrackData(trk) == data;
    }
  }

  /** Where the writer puts everything. */
  lemma {:induction false} PutTracksLayout(header: seq<byte>, cyls: seq<CellTrack>, t: nat,
                                           lut: seq<byte>, data: seq<byte>, next: nat)
    requires t <= |cyls| <= MAX_CYLS && AllWhole(cyls)
    requires |header| == BLOCK && |lut| == 4 * t
    requires 2 <= next && next + TotalBlocks(cyls, t) <= 65535 && |data| == BLOCK * (next - 2)
    ensures |Layout(header, lut, data)| >= 2 * BLOCK
    ensures PutTracks(cyls, t, Layout(header, lut, data), next)
         == Ok(Layout(header, lut + Lut(cyls, t, next), data + AllData(cyls, t)))
    decreases |cyls| - t
  {
    hide Combined, Layout, LutEntry, TrackData, Blocks, WholeBytes, PutTracks;
    LayoutLength(header, lut, data);
    if t == |cyls| {
      PutTracksDone(cyls, Layout(header, lut, data), next);
      assert lut + [] == lut && data + [] == data;
    } else {
      assert WholeBytes(cyls[t]);
      PutTracksStep(header, cyls, t, lut, data, next);
      var lut', data', next' := lut + LutEntry(cyls[t], next), data + TrackData(cyls[t]), next + Blocks(cyls[t]);
      PutTracksLayout(header, cyls, t + 1, lut', data', next');
      Associate(lut, LutEntry(cyls[t], next), Lut(cyls, t + 1, next'));
      Associate(data, TrackData(cyls[t]), AllData(cyls, t + 1));
    }
  }

  lemma PutTracksDone(cyls: seq<CellTrack>, out: seq<byte>, next: nat)
    requires |cyls| <= MAX_CYLS && |out| >= 2 * BLOCK
    ensures PutTracks(cyls, |cyls|, out, next) == Ok(out)
  {
  }

  lemma AbsentTrack(trk: CellTrack, next: nat)
    requires !Present(trk)
    ensures LutEntry(trk, next) == Fill(4, 0) && TrackData(trk) == [] && Blocks(trk) == 0
  {
  }

  // ----- reading it back

  lemma Read16Back(b: seq<byte>, at: nat, x: nat)
    requires at + 2 <= |b| && b[at..at + 2] == Le16(x) && x < 65536
    ensures Read16le(b, at) == x
  {
  }

  /** What the image holds of a track: all of it, or what remains of its
      length in 16 bits. */
  function Stored(trk: CellTrack): CellTrack {
    if !Present(trk) || |Combined(trk)| % 65536 == 0 then []
    else [Side0Cells(Deinterleave(Combined(trk)[..|Combined(trk)| % 65536]))]
  }

  /** One entry reads back as what is stored. */
  lemma ReadTrackBack(hfe: seq<byte>, entry: nat, trk: CellTrack, next: nat)
    requires next < 65536
    requires entry + 4 <= |hfe| && hfe[entry..entry + 4] == LutEntry(trk, next)
    requires Present(trk) ==> next * BLOCK + |Combined(trk)| <= |hfe|
    requires Present(trk) ==> hfe[next * BLOCK..next * BLOCK + |Combined(trk)|] == Combined(trk)
    ensures ReadTrack(hfe, entry) == Some(Stored(trk))
  {
    hide Combined, Side0Cells, Deinterleave, Read16le, Le16;
    var e := hfe[entry..entry + 4];
    SubSlice(hfe, entry, entry + 4, 0, 2);
    SubSlice(hfe, entry, entry + 4, 2, 2);
    if Present(trk) {
      var n := |Combined(trk)|;
      assert e[0..2] == Le16(next) && e[2..4] == Le16(n);
      Read16Back(hfe, entry, next);
      Read16Truncated(hfe, entry + 2, n);
      SubSlice(hfe, next * BLOCK, next * BLOCK + n, 0, n % 65536);
    } else {
      ZeroEntry();
      assert e[2..4] == Le16(0);
      Read16Back(hfe, entry + 2, 0);
    }
  }

  lemma Read16Truncated(b: seq<byte>, at: nat, x: nat)
    requires at + 2 <= |b| && b[at..at + 2] == Le16(x)
    ensures Read16le(b, at) == x % 65536
  {
    assert b[at] == b[at..at + 2][0] && b[at + 1] == b[at..at + 2][1];
  }

  lemma ZeroEntry()
    ensures Fill(4, 0)[2..4] == Le16(0)
  {
  }

  /** Revolution 0 of each cylinder; cylinders without cells are absent. */
  function FirstRevs(cyls: seq<CellTrack>): (r: seq<CellTrack>)
    ensures |r| == |cyls|
  {
    seq(|cyls|, c requires 0 <= c < |cyls| => if Present(cyls[c]) then [cyls[c][0]] else [])
  }

  function AllStored(cyls: seq<CellTrack>): (r: seq<CellTrack>)
    ensures |r| == |cyls|
  {
    seq(|cyls|, c requires 0 <= c < |cyls| => Stored(cyls[c]))
  }

  lemma {:induction false} ReadTracksBack(header: seq<byte>, cyls: seq<CellTrack>, t: nat,
                                          lut: seq<byte>, data: seq<byte>, next: nat)
    requires t <= |cyls| <= MAX_CYLS && AllWhole(cyls)
    requires |header| == BLOCK && |lut| == 4 * t
    requires 2 <= next && next + TotalBlocks(cyls, t) <= 65535 && |data| == BLOCK * (next - 2)
    ensures var hfe := Layout(header, lut + Lut(cyls, t, next), data + AllData(cyls, t));
      && BLOCK + 4 * t + 4 * (|cyls| - t) <= |hfe|
      && ReadTracks(hfe, BLOCK + 4 * t, |cyls| - t) == Some(AllStored(cyls)[t..])
    decreases |cyls| - t
  {
    hide Combined, Layout, LutEntry, TrackData, Fill, ReadTrack, Stored;
    var all, rest := lut + Lut(cyls, t, next), data + AllData(cyls, t);
    var hfe := Layout(header, all, rest);
    LayoutLength(header, all, rest);
    if t < |cyls| {
      var trk := cyls[t];
      var lut', data', next' := lut + LutEntry(trk, next), data + TrackData(trk), next + Blocks(trk);
      Associate(lut, LutEntry(trk, next), Lut(cyls, t + 1, next'));
      Associate(data, TrackData(trk), AllData(cyls, t + 1));
      ReadTracksBack(header, cyls, t + 1, lut', data', next');
      EntryPlace(header, lut, LutEntry(trk, next), Lut(cyls, t + 1, next'), rest);
      DataPlace(header, all, data, trk, AllData(cyls, t + 1), next);
      ReadTrackBack(hfe, BLOCK + 4 * t, trk, next);
      assert AllStored(cyls)[t..] == [Stored(trk)] + AllStored(cyls)[t + 1..];
    }
  }

  lemma {:induction false} TotalBlocksBound(cyls: seq<CellTrack>, t: nat)
    requires t <= |cyls| && AllFit(cyls)
    ensures TotalBlocks(cyls, t) <= 128 * (|cyls| - t)
    decreases |cyls| - t
  {
    hide Combined;
    if t < |cyls| {
      assert LengthFits(cyls[t]);
      TotalBlocksBound(cyls, t + 1);
    }
  }

  lemma EntryPlace(header: seq<byte>, lut: seq<byte>, entry: seq<byte>, more: seq<byte>, data: seq<byte>)
    requires |header| == BLOCK && |entry| == 4 && |lut| + 4 + |more| <= BLOCK
    ensures Layout(header, lut + (entry + more), data)[BLOCK + |lut|..BLOCK + |lut| + 4] == entry
  {
  }

  lemma DataPlace(header: seq<byte>, lut: seq<byte>, data: seq<byte>, trk: CellTrack, more: seq<byte>, next: nat)
    requires |header| == BLOCK && |lut| <= BLOCK && next >= 2 && |data| == BLOCK * (next - 2)
    ensures var hfe := Layout(header, lut, data + (TrackData(trk) + more));
      Present(trk) ==>
        && next * BLOCK + |Combined(trk)| <= |hfe|
        && hfe[next * BLOCK..next * BLOCK + |Combined(trk)|] == Combined(trk)
  {
  }

  // ----- the theorem

  lemma {:induction false} RevsOfFirst(cyls: seq<CellTrack>, c: nat)
    requires c < |cyls| && cyls[c] != [] && Uniform(cyls, 1)
    ensures Revs(cyls) == 1
  {
    if cyls[0] == [] {
      RevsOfFirst(cyls[1..], c - 1);
    }
  }

  lemma FirstRevsAccepted(cyls: seq<CellTrack>)
    requires 1 <= |cyls| <= MAX_CYLS && AnyPresent(cyls)
    ensures Accepted(FirstRevs(cyls)) && File(FirstRevs(cyls)) != []
  {
    var c :| 0 <= c < |cyls| && Present(cyls[c]);
    assert FirstRevs(cyls)[c] != [];
    RevsOfFirst(FirstRevs(cyls), c);
  }

  lemma HeaderReads(n: byte, rest: seq<byte>)
    ensures var hfe := HeaderBlock(n) + rest;
      && hfe[..8] == SIGNATURE && hfe[8] == 0 && hfe[9] == n
      && Read16le(hfe, 0x0C) == CPC_BIT_RATE && Read16le(hfe, 0x12) == 1
  {
  }

  /** What a written image reads back as, for any track lengths whose blocks
      can be numbered: the flux container of what the image holds. */
  lemma HfeReadsStored(cyls: seq<CellTrack>)
    requires 1 <= |cyls| <= MAX_CYLS && AnyPresent(cyls) && AllWhole(cyls)
    requires TotalBlocks(cyls, 0) <= 65533
    ensures Write(cyls).Ok?
    ensures ToScp(Write(cyls).bytes) == if File(AllStored(cyls)) == [] then Err(Geometry) else Ok(File(AllStored(cyls)))
  {
    hide HeaderBlock, PutTracks, ReadTracks, File, AllStored, Lut, AllData, Read16le, AnyPresent, TotalBlocks;
    var header := HeaderBlock(|cyls|);
    assert header + Fill(BLOCK, 0) == Layout(header, [], []);
    PutTracksLayout(header, cyls, 0, [], [], 2);
    ReadTracksBack(header, cyls, 0, [], [], 2);
    var lut, data := [] + Lut(cyls, 0, 2), [] + AllData(cyls, 0);
    var hfe := Layout(header, lut, data);
    LayoutLength(header, lut, data);
    assert hfe == header + ((lut + Fill(BLOCK - |lut|, 0)) + data);
    HeaderReads(|cyls|, (lut + Fill(BLOCK - |lut|, 0)) + data);
    AcceptedBitRates(CPC_BIT_RATE);
    assert AllStored(cyls)[0..] == AllStored(cyls);
  }

  lemma StoredWhole(trk: CellTrack)
    requires WholeBytes(trk) && LengthFits(trk)
    ensures Stored(trk) == if Present(trk) then [trk[0]] else []
  {
    hide Side0Bytes, Side0Cells, Interleave, Deinterleave;
    if Present(trk) {
      CombinedNonEmpty(trk);
      var c := Combined(trk);
      assert c[..|c|] == c;
      InterleaveRoundTrip(Side0Bytes(trk[0]));
      Side0RoundTrip(trk[0]);
    }
  }

  /** Writing an HFE image and reading it gives exactly the flux container that
      revolution 0 of the tracks would give directly. */
  lemma HfeRoundTrip(cyls: seq<CellTrack>)
    requires 1 <= |cyls| <= MAX_CYLS && AnyPresent(cyls) && AllWhole(cyls) && AllFit(cyls)
    ensures Write(cyls).Ok?
    ensures ToScp(Write(cyls).bytes) == Ok(File(FirstRevs(cyls)))
  {
    hide Write, ToScp, File, Stored, Present, TotalBlocks;
    TotalBlocksBound(cyls, 0);
    HfeReadsStored(cyls);
    FirstRevsAccepted(cyls);
    forall c | 0 <= c < |cyls| ensures AllStored(cyls)[c] == FirstRevs(cyls)[c] {
      assert WholeBytes(cyls[c]) && LengthFits(cyls[c]);
      StoredWhole(cyls[c]);
    }
    assert AllStored(cyls) == FirstRevs(cyls);
  }

  // ----- and only then

  lemma {:induction false} DeinterleaveLength(track: seq<byte>)
    ensures |Deinterleave(track)|
      == SIDE_CHUNK * (|track| / BLOCK) + (if |track| % BLOCK < SIDE_CHUNK then |track| % BLOCK else SIDE_CHUNK)
    decreases |track|
  {
    if |track| > BLOCK { DeinterleaveLength(track[BLOCK..]); }
  }

  lemma {:induction false} InterleaveLength(side0: seq<byte>)
    ensures |Interleave(side0)| == |side0| + (if side0 == [] then 0 else SIDE_CHUNK * ((|side0| - 1) / SIDE_CHUNK))
    decreases |side0|
  {
    if |side0| > SIDE_CHUNK { InterleaveLength(side0[SIDE_CHUNK..]); }
  }

  const MAX_SIDE0 := 32768

  /** A track fits its length field exactly up to 32768 bytes of side 0. */
  lemma FitsExactly(trk: CellTrack)
    requires Present(trk)
    ensures LengthFits(trk) <==> |trk[0]| / 8 <= MAX_SIDE0
  {
    hide Side0Bytes, Interleave;
    InterleaveLength(Side0Bytes(trk[0]));
  }

  /** No lookup-table entry of any image yields more than that. */
  lemma ReadTrackBound(hfe: seq<byte>, entry: nat)
    requires entry + 4 <= |hfe|
    ensures var trk := ReadTrack(hfe, entry);
      trk.Some? && trk.value != [] ==> |trk.value| == 1 && |trk.value[0]| <= 8 * MAX_SIDE0
  {
    hide Side0Cells, Deinterleave;
    var off, len := Read16le(hfe, entry) * BLOCK, Read16le(hfe, entry + 2);
    if off + len <= |hfe| { DeinterleaveLength(hfe[off..off + len]); }
  }

  ghost predicate Bounded(cyls: seq<CellTrack>) {
    forall c :: 0 <= c < |cyls| && cyls[c] != [] ==> |cyls[c]| == 1 && |cyls[c][0]| <= 8 * MAX_SIDE0
  }

  lemma {:induction false} ReadTracksBound(hfe: seq<byte>, lut: nat, n: nat)
    requires lut + 4 * n <= |hfe|
    ensures ReadTracks(hfe, lut, n).Some? ==>
      |ReadTracks(hfe, lut, n).value| == n && Bounded(ReadTracks(hfe, lut, n).value)
    decreases n
  {
    hide ReadTrack;
    if n > 0 {
      ReadTrackBound(hfe, lut);
      ReadTracksBound(hfe, lut + 4, n - 1);
    }
  }

  /** So no image at all, however it was made, reads as a longer track. */
  lemma TooLong(hfe: seq<byte>, cyls: seq<CellTrack>, c: nat)
    requires Accepted(cyls) && |File(cyls)| < 0x1_0000_0000
    requires c < |cyls| && cyls[c] != [] && 8 * MAX_SIDE0 < |cyls[c][0]| && |cyls[c][0]| * 80 < 0x1_0000_0000
    ensures ToScp(hfe) != Ok(File(cyls))
  {
    hide File, ReadTracks, Read16le, RecordedTicks, TicksPerCell, Revs, Uniform;
    TicksRecorded(cyls, c);
    if ToScp(hfe).Ok? {
      var lut := Read16le(hfe, 0x12) * BLOCK;
      ReadTracksBound(hfe, lut, hfe[9]);
      var read := ReadTracks(hfe, lut, hfe[9]).value;
      AcceptedFile(read);
      if |File(read)| < 0x1_0000_0000 { TicksRecorded(read, c); }
    }
  }

  lemma AcceptedFile(cyls: seq<CellTrack>)
    requires File(cyls) != []
    ensures Accepted(cyls)
  {
  }

  lemma {:induction false} PutTracksOk(cyls: seq<CellTrack>, t: nat, out: seq<byte>, next: nat)
    requires t <= |cyls| <= MAX_CYLS && |out| >= 2 * BLOCK && AllWhole(cyls)
    ensures PutTracks(cyls, t, out, next).Ok?
    decreases |cyls| - t
  {
    hide PutTrack, Combined, Splice, Fill;
    if t < |cyls| {
      assert WholeBytes(cyls[t]);
      if Present(cyls[t]) {
        var combined := Combined(cyls[t]);
        PutTracksOk(cyls, t + 1, PutTrack(out, t, combined, next), (next + BlockCount(|combined|)) % 65536);
      } else {
        PutTracksOk(cyls, t + 1, Splice(out, BLOCK + 4 * t, Fill(4, 0)), next);
      }
    }
  }

  /** Exactly when an image reproduces the flux of its tracks, block numbers
      that pass 16 bits included. */
  lemma HfeRoundTripExactly(cyls: seq<CellTrack>)
    requires 1 <= |cyls| <= MAX_CYLS && AnyPresent(cyls) && AllWhole(cyls)
    requires forall c :: 0 <= c < |cyls| && Present(cyls[c]) ==> |cyls[c][0]| * 80 < 0x1_0000_0000
    requires |File(FirstRevs(cyls))| < 0x1_0000_0000
    ensures Write(cyls).Ok?
    ensures ToScp(Write(cyls).bytes) == Ok(File(FirstRevs(cyls))) <==> AllFit(cyls)
  {
    hide PutTracks, ToScp, File, LengthFits, Accepted, AnyPresent, HeaderBlock;
    PutTracksOk(cyls, 0, HeaderBlock(|cyls|) + Fill(BLOCK, 0), 2);
    if AllFit(cyls) {
      HfeRoundTrip(cyls);
    } else {
      var c :| 0 <= c < |cyls| && !LengthFits(cyls[c]);
      Oversize(cyls[c]);
      FirstRevsAccepted(cyls);
      TooLong(Write(cyls).bytes, FirstRevs(cyls), c);
    }
  }

  lemma Oversize(trk: CellTrack)
    requires !LengthFits(trk)
    ensures Present(trk) && 8 * MAX_SIDE0 < |trk[0]|
  {
    hide Combined;
    FitsExactly(trk);
  }

  /** For example a single track of 262152 cells without a transition. */
  lemma OversizeExample(cyls: seq<CellTrack>)
    requires cyls == [[Zeros(8 * MAX_SIDE0 + 8)]]
    ensures Write(cyls).Ok? && ToScp(Write(cyls).bytes) != Ok(File(FirstRevs(cyls)))
  {
    hide Write, ToScp, File, LengthFits;
    assert Present(cyls[0]);
    FitsExactly(cyls[0]);
    QuietFile(cyls);
    HfeRoundTripExactly(cyls);
  }

  lemma QuietFile(cyls: seq<CellTrack>)
    requires |cyls| == 1 && |cyls[0]| == 1 && cyls[0][0] == Zeros(|cyls[0][0]|) && cyls[0][0] != []
    ensures |File(FirstRevs(cyls))| < 0x1_0000_0000
  {
    hide Sum, Le32;
    var f := FirstRevs(cyls);
    assert cyls[0] == [cyls[0][0]];
    assert f == cyls;
    QuietWords(|cyls[0][0]|, 0);
    assert f[0][1..] == [];
    assert Data(f[0]) == WordBytes(Words(f[0][0])) + [] && WordBytes([]) == [];
    assert Records(f, 1) == [];
    assert Records(f, 0) == RecordOf(f, 0) + [];
  }

  lemma {:induction false} QuietWords(n: nat, gap: nat)
    ensures FluxWords(Zeros(n), gap) == []
  {
    if n > 0 {
      QuietWords(n - 1, gap + 1);
      assert Zeros(n)[1..] == Zeros(n - 1);
    }
  }

  /** The ticks a file records for a cylinder, found through its slot. */
  function RecordedTicks(f: seq<byte>, c: nat): nat {
    if TLUT + 8 * c + 4 > |f| || Read32(f, TLUT + 8 * c) == 0 || Read32(f, TLUT + 8 * c) + 8 > |f| then 0
    else Read32(f, Read32(f, TLUT + 8 * c) + 4)
  }

  lemma TicksRecorded(cyls: seq<CellTrack>, c: nat)
    requires Accepted(cyls) && |File(cyls)| < 0x1_0000_0000 && c < MAX_CYLS
    requires Formatted(cyls, c) ==> |cyls[c][0]| * 80 < 0x1_0000_0000
    ensures RecordedTicks(File(cyls), c) == if Formatted(cyls, c) then 80 * |cyls[c][0]| else 0
  {
    hide File, Read32, Record, DataOffset, Words, WordBytes;
    SlotsPointAtRecords(cyls, c);
    if Formatted(cyls, c) { RevolutionInFile(cyls, c, 0); }
  }
}
