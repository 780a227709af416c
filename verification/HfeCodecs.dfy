/** The HFE writer and reader as the program runs them, on packed bytes
    (src/hfe_write.cpp, src/hfe.cpp). */
module HfeCodecs {
  import opened Bits
  import opened Bytes
  import opened Wrappers
  import opened Bitcells
  import opened Scp
  import opened Hfe
  import opened FluxCodecs

  // ----- bit order

  lemma OneCell(s: nat)
    requires s < 8
    ensures forall k :: 0 <= k < 8 ==> Cell(Shl(1, s), k) == (k == 7 - s)
  {
    assert forall k :: 0 <= k < 8 ==> Cell(1, k) == (k == 7);
  }

  lemma FlipPackIs(v: byte, cells: seq<bool>)
    requires |cells| == 8
    requires forall k :: 0 <= k < 8 ==> Cell(v, k) == cells[7 - k]
    ensures v == FlipPack(cells)
  {
    CellsPack(Reversed(cells));
    SameCells(v, FlipPack(cells));
  }

  /** Cells 8i .. 8i+7 as one HFE byte. */
  method Side0Byte(rev: Rev, i: nat) returns (value: byte)
    requires ValidRev(rev) && 8 * i + 8 <= rev.nbits
    ensures value == FlipPack(Cells(rev)[8 * i..8 * i + 8])
  {
    hide Pack, CellsOf, FlipPack;
    value := 0;
    NoCells();
    var bit := 0;
    while bit < 8
      invariant 0 <= bit <= 8
      invariant forall k :: 0 <= k < 8 ==> Cell(value, k) == (7 - k < bit && CellAt(rev.bits, 8 * i + (7 - k)))
    {
      if CellAt(rev.bits, 8 * i + bit) {
        OneCell(bit);
        value := Or(value, Shl(1, bit));
      }
      bit := bit + 1;
    }
    FlipPackIs(value, Cells(rev)[8 * i..8 * i + 8]);
  }

  lemma Side0BytesStep(cells: seq<bool>, i: nat)
    requires 8 * i + 8 <= |cells|
    ensures Side0Bytes(cells[8 * i..]) == [FlipPack(cells[8 * i..8 * i + 8])] + Side0Bytes(cells[8 * (i + 1)..])
  {
    hide FlipPack;
    assert cells[8 * i..][..8] == cells[8 * i..8 * i + 8];
    assert cells[8 * i..][8..] == cells[8 * (i + 1)..];
  }

  /** side0_bytes. */
  method PackSide0(rev: Rev) returns (bytes: seq<byte>)
    requires ValidRev(rev)
    ensures bytes == Side0Bytes(Cells(rev))
  {
    hide FlipPack, Cells;
    ghost var cells := Cells(rev);
    bytes := [];
    var i := 0;
    assert cells[0..] == cells;
    while i < rev.nbits / 8
      invariant 0 <= i <= rev.nbits / 8
      invariant bytes + Side0Bytes(cells[8 * i..]) == Side0Bytes(cells)
    {
      Side0BytesStep(cells, i);
      var b := Side0Byte(rev, i);
      bytes := bytes + [b];
      i := i + 1;
    }
  }

  /** Repack HFE bytes most significant cell first. */
  method RepackSide0(bytes: seq<byte>) returns (rev: Rev)
    ensures ValidRev(rev) && Cells(rev) == Side0Cells(bytes)
  {
    hide CellAt, CellsOf, SetCell;
    var bits := Fill(|bytes|, 0);
    AllClear(bits);
    var i := 0;
    while i < |bytes|
      invariant 0 <= i <= |bytes| && |bits| == |bytes|
      invariant forall j :: 0 <= j < 8 * |bytes| ==> CellAt(bits, j) == (j < 8 * i && FlipCells(bytes[j / 8])[j % 8])
    {
      var b := 0;
      while b < 8
        invariant 0 <= b <= 8 && |bits| == |bytes|
        invariant forall j :: 0 <= j < 8 * |bytes| ==>
          CellAt(bits, j) == (j < 8 * i + b && FlipCells(bytes[j / 8])[j % 8])
      {
        assert (8 * i + b) / 8 == i && (8 * i + b) % 8 == b;
        if Cell(bytes[i], 7 - b) {
          bits := SetCell(bits, 8 * i + b);
        }
        b := b + 1;
      }
      i := i + 1;
    }
    rev := Rev(bits, 8 * |bytes|);
    forall j | 0 <= j < 8 * |bytes| ensures Cells(rev)[j] == Side0Cells(bytes)[j] {
      Side0CellAt(bytes, j);
    }
  }

  lemma {:induction false} Side0CellAt(bytes: seq<byte>, j: nat)
    requires j < 8 * |bytes|
    ensures Side0Cells(bytes)[j] == FlipCells(bytes[j / 8])[j % 8]
    decreases |bytes|
  {
    hide CellsOf;
    if j >= 8 {
      Side0CellAt(bytes[1..], j - 8);
      assert bytes[1..][(j - 8) / 8] == bytes[j / 8];
    }
  }

  // ----- the two sides

  lemma InterleaveStep(side0: seq<byte>, pos: nat)
    requires pos < |side0|
    ensures var next := if |side0| - pos < SIDE_CHUNK then |side0| else pos + SIDE_CHUNK;
      Interleave(side0[pos..])
      == (side0[pos..next] + (if next < |side0| then Fill(SIDE_CHUNK, 0xFF) else [])) + Interleave(side0[next..])
  {
  }

  /** interleave. */
  method InterleaveSides(side0: seq<byte>) returns (combined: seq<byte>)
    ensures combined == Interleave(side0)
  {
    hide Interleave;
    combined := [];
    var pos := 0;
    assert side0[0..] == side0;
    while pos < |side0|
      invariant 0 <= pos <= |side0|
      invariant combined + Interleave(side0[pos..]) == Interleave(side0)
    {
      InterleaveStep(side0, pos);
      var chunk := if |side0| - pos < SIDE_CHUNK then |side0| - pos else SIDE_CHUNK;
      ghost var start, before := pos, combined;
      combined := combined + side0[pos..pos + chunk];
      pos := pos + chunk;
      if pos < |side0| {
        combined := combined + Fill(SIDE_CHUNK, 0xFF);
        Associate(before, side0[start..pos], Fill(SIDE_CHUNK, 0xFF));
      }
    }
    InterleaveNone();
    assert side0[pos..] == [];
  }

  lemma InterleaveNone()
    ensures Interleave([]) == []
  {
  }

  lemma DeinterleaveStep(track: seq<byte>, pos: nat)
    requires pos < |track|
    ensures var next := if |track| - pos < SIDE_CHUNK then |track| else pos + SIDE_CHUNK;
      var skip := if |track| - next < SIDE_CHUNK then |track| else next + SIDE_CHUNK;
      Deinterleave(track[pos..]) == track[pos..next] + Deinterleave(track[skip..])
  {
  }

  lemma ExtractStep(hfe: seq<byte>, off: nat, len: nat, pos: nat, side0: seq<byte>)
    requires off + len <= |hfe| && pos < len
    ensures var track := hfe[off..off + len];
      var next := if len - pos < SIDE_CHUNK then len else pos + SIDE_CHUNK;
      var skip := if len - next < SIDE_CHUNK then len else next + SIDE_CHUNK;
      side0 + Deinterleave(track[pos..]) == (side0 + hfe[off + pos..off + next]) + Deinterleave(track[skip..])
  {
    hide Deinterleave;
    var track := hfe[off..off + len];
    var next := if len - pos < SIDE_CHUNK then len else pos + SIDE_CHUNK;
    var skip := if len - next < SIDE_CHUNK then len else next + SIDE_CHUNK;
    DeinterleaveStep(track, pos);
    SubSlice(hfe, off, off + len, pos, next - pos);
    Associate(side0, track[pos..next], Deinterleave(track[skip..]));
  }

  /** The side-0 bytes of a track of `len` bytes at `off`. */
  method ExtractSide0(hfe: seq<byte>, off: nat, len: nat) returns (side0: seq<byte>)
    requires off + len <= |hfe|
    ensures side0 == Deinterleave(hfe[off..off + len])
  {
    hide Deinterleave;
    ghost var track := hfe[off..off + len];
    side0 := [];
    var pos := 0;
    assert track[0..] == track;
    DeinterleaveNone();
    while pos < len
      invariant 0 <= pos <= len
      invariant side0 + Deinterleave(track[pos..]) == Deinterleave(track)
    {
      ExtractStep(hfe, off, len, pos, side0);
      var chunk := if len - pos < SIDE_CHUNK then len - pos else SIDE_CHUNK;
      side0 := side0 + hfe[off + pos..off + pos + chunk];
      pos := pos + chunk;
      if pos >= len {
        break;
      }
      pos := pos + if len - pos < SIDE_CHUNK then len - pos else SIDE_CHUNK;
    }
    assert track[pos..] == [];
  }

  lemma DeinterleaveNone()
    ensures Deinterleave([]) == []
  {
  }

  // ----- whole images

  method AnyTrackPresent(cyls: seq<Track>) returns (any: bool)
    requires ValidTracks(cyls)
    ensures any == AnyPresent(AllCells(cyls))
  {
    ghost var cells := AllCells(cyls);
    any := false;
    for c := 0 to |cyls|
      invariant any == exists k :: 0 <= k < c && Present(cells[k])
    {
      assert cells[c] == TrackCells(cyls[c]);
      if cyls[c] != [] && cyls[c][0].nbits != 0 {
        assert Present(cells[c]);
        any := true;
      }
    }
  }

  /** hfe_from_mfm_tracks. */
  method HfeFromMfmTracks(cyls: seq<Track>) returns (image: Image)
    requires ValidTracks(cyls)
    ensures image == Write(AllCells(cyls))
  {
    hide HeaderBlock, AnyPresent, PutTrack, Interleave, Side0Bytes, Splice, Fill, Cells;
    if cyls == [] {
      return Err(Geometry);
    }
    if |cyls| > MAX_CYLS {
      return Err(Unsupported);
    }
    var any := AnyTrackPresent(cyls);
    if !any {
      return Err(Geometry);
    }
    var out := HeaderBlock(|cyls|) + Fill(BLOCK, 0);
    var next: nat := 2;
    ghost var cells := AllCells(cyls);
    var track := 0;
    while track < |cyls|
      invariant 0 <= track <= |cyls| && |out| >= 2 * BLOCK
      invariant PutTracks(cells, track, out, next) == Write(cells)
    {
      assert cells[track] == TrackCells(cyls[track]);
      if cyls[track] == [] || cyls[track][0].nbits == 0 {
        out := Splice(out, BLOCK + 4 * track, Fill(4, 0));
      } else {
        if cyls[track][0].nbits % 8 != 0 {
          return Err(Geometry);
        }
        var side0 := PackSide0(cyls[track][0]);
        var combined := InterleaveSides(side0);
        assert combined == Combined(cells[track]);
        out := PutTrack(out, track, combined, next);
        next := (next + BlockCount(|combined|)) % 65536;
      }
      track := track + 1;
    }
    image := Ok(out);
  }

  /** One lookup-table entry; no value if it runs past the end. */
  method LoadTrack(hfe: seq<byte>, entry: nat) returns (trk: Option<Track>)
    requires entry + 4 <= |hfe|
    ensures trk.None? <==> ReadTrack(hfe, entry).None?
    ensures trk.Some? ==> ValidTrack(trk.value) && ReadTrack(hfe, entry) == Some(TrackCells(trk.value))
  {
    hide Deinterleave, Side0Cells, Read16le;
    var off := Read16le(hfe, entry) * BLOCK;
    var len := Read16le(hfe, entry + 2);
    if len == 0 {
      return Some([]);
    }
    if off + len > |hfe| {
      return None;
    }
    var side0 := ExtractSide0(hfe, off, len);
    var rev := RepackSide0(side0);
    trk := Some([rev]);
    assert TrackCells([rev]) == [Cells(rev)];
  }

  /** The tracks loaded so far, followed by what the table still holds. */
  ghost function Joined(done: seq<CellTrack>, rest: Option<seq<CellTrack>>): Option<seq<CellTrack>> {
    match rest
    case None => None
    case Some(more) => Some(done + more)
  }

  lemma JoinedEmpty(rest: Option<seq<CellTrack>>, done: seq<CellTrack>)
    ensures Joined([], rest) == rest
    ensures Joined(done, Some([])) == Some(done)
  {
    if rest.Some? { assert [] + rest.value == rest.value; }
    assert done + [] == done;
  }

  lemma TracksStep(hfe: seq<byte>, lut: nat, n: nat, done: seq<CellTrack>)
    requires n > 0 && lut + 4 * n <= |hfe|
    ensures Joined(done, ReadTracks(hfe, lut, n))
      == match ReadTrack(hfe, lut)
         case None => None
         case Some(trk) => Joined(done + [trk], ReadTracks(hfe, lut + 4, n - 1))
  {
    hide ReadTrack;
    match ReadTrack(hfe, lut)
    case None =>
    case Some(trk) =>
      match ReadTracks(hfe, lut + 4, n - 1)
      case None =>
      case Some(rest) => assert done + ([trk] + rest) == (done + [trk]) + rest;
  }

  method LoadTracks(hfe: seq<byte>, lut: nat, n: nat) returns (cyls: Option<seq<Track>>)
    requires lut + 4 * n <= |hfe|
    ensures cyls.None? <==> ReadTracks(hfe, lut, n).None?
    ensures cyls.Some? ==> ValidTracks(cyls.value) && ReadTracks(hfe, lut, n) == Some(AllCells(cyls.value))
  {
    hide ReadTrack, TrackCells;
    var done: seq<Track> := [];
    var t := 0;
    ghost var all := ReadTracks(hfe, lut, n);
    assert AllCells([]) == [];
    JoinedEmpty(all, []);
    while t < n
      invariant 0 <= t <= n && ValidTracks(done)
      invariant Joined(AllCells(done), ReadTracks(hfe, lut + 4 * t, n - t)) == all
    {
      TracksStep(hfe, lut + 4 * t, n - t, AllCells(done));
      var trk := LoadTrack(hfe, lut + 4 * t);
      if trk.None? {
        return None;
      }
      assert AllCells(done + [trk.value]) == AllCells(done) + [TrackCells(trk.value)];
      done := done + [trk.value];
      t := t + 1;
    }
    JoinedEmpty(None, AllCells(done));
    cyls := Some(done);
  }

  /** hfe_to_scp. */
  method HfeToScp(hfe: seq<byte>) returns (image: Image)
    ensures image == ToScp(hfe)
  {
    hide Read16le, ReadTracks, File, TicksPerCell;
    if |hfe| < BLOCK {
      return Err(Truncated);
    }
    if hfe[..8] != SIGNATURE {
      return if hfe[..8] == SIGNATURE_V3 then Err(Unsupported) else Err(NotHfe);
    }
    if hfe[8] != 0 {
      return Err(Unsupported);
    }
    if hfe[9] == 0 {
      return Err(Geometry);
    }
    if hfe[9] > MAX_CYLS || TicksPerCell(Read16le(hfe, 0x0C)) != 80 {
      return Err(Unsupported);
    }
    var lut := Read16le(hfe, 0x12) * BLOCK;
    if lut + 4 * (hfe[9] as int) > |hfe| {
      return Err(Truncated);
    }
    var cyls := LoadTracks(hfe, lut, hfe[9]);
    if cyls.None? {
      return Err(Truncated);
    }
    var out := ScpFromMfmTracks(cyls.value);
    image := if out == [] then Err(Geometry) else Ok(out);
  }
}
