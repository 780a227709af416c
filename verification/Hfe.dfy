/** HFE v1 images: the writer (src/hfe_write.cpp) and the reader (src/hfe.cpp),
    as functions of the tracks' cells. */
module Hfe {
  import opened Bits
  import opened Bytes
  import opened Wrappers
  import opened Scp

  const BLOCK := 512
  const SIDE_CHUNK := 256
  const CPC_BIT_RATE := 250

  datatype Error = NotHfe | Unsupported | Truncated | Geometry
  datatype Image = Ok(bytes: seq<byte>) | Err(error: Error)

  // ----- bit order

  function Reversed<T>(s: seq<T>): (r: seq<T>)
    ensures |r| == |s| && forall i :: 0 <= i < |s| ==> r[i] == s[|s| - 1 - i]
  {
    seq(|s|, i requires 0 <= i < |s| => s[|s| - 1 - i])
  }

  /** Eight cells as an HFE byte: the first cell is the least significant bit. */
  function FlipPack(cells: seq<bool>): byte
    requires |cells| == 8
  {
    Pack(Reversed(cells))
  }

  function FlipCells(b: byte): (r: seq<bool>)
    ensures |r| == 8
  {
    Reversed(CellsOf(b))
  }

  lemma FlipRoundTrip(cells: seq<bool>)
    requires |cells| == 8
    ensures FlipCells(FlipPack(cells)) == cells
  {
    CellsPack(Reversed(cells));
  }

  function Side0Bytes(cells: seq<bool>): (r: seq<byte>)
    ensures |r| == |cells| / 8
  {
    if |cells| < 8 then [] else [FlipPack(cells[..8])] + Side0Bytes(cells[8..])
  }

  function Side0Cells(bytes: seq<byte>): (r: seq<bool>)
    ensures |r| == 8 * |bytes|
  {
    if bytes == [] then [] else FlipCells(bytes[0]) + Side0Cells(bytes[1..])
  }

  lemma {:induction false} Side0RoundTrip(cells: seq<bool>)
    requires |cells| % 8 == 0
    ensures Side0Cells(Side0Bytes(cells)) == cells
    decreases |cells|
  {
    if cells != [] {
      FlipRoundTrip(cells[..8]);
      Side0RoundTrip(cells[8..]);
      var b := Side0Bytes(cells);
      assert b[1..] == Side0Bytes(cells[8..]);
      assert cells[..8] + cells[8..] == cells;
    }
  }

  // ----- interleaving with side 1

  /** 256 bytes of side 0, then 256 of side-1 filler, but no filler at the end. */
  function Interleave(side0: seq<byte>): (r: seq<byte>)
    ensures |side0| > 0 ==> |r| > 0
    decreases |side0|
  {
    if |side0| <= SIDE_CHUNK then side0
    else side0[..SIDE_CHUNK] + Fill(SIDE_CHUNK, 0xFF) + Interleave(side0[SIDE_CHUNK..])
  }

  /** The first up to 256 bytes of every 512. */
  function Deinterleave(track: seq<byte>): seq<byte>
    decreases |track|
  {
    if |track| <= SIDE_CHUNK then track
    else if |track| <= 2 * SIDE_CHUNK then track[..SIDE_CHUNK]
    else track[..SIDE_CHUNK] + Deinterleave(track[2 * SIDE_CHUNK..])
  }

  lemma {:induction false} InterleaveRoundTrip(side0: seq<byte>)
    ensures Deinterleave(Interleave(side0)) == side0
    decreases |side0|
  {
    if |side0| > SIDE_CHUNK {
      var head, rest := side0[..SIDE_CHUNK], side0[SIDE_CHUNK..];
      var t := Interleave(side0);
      InterleaveRoundTrip(rest);
      assert |Interleave(rest)| > 0;
      assert t[..SIDE_CHUNK] == head;
      assert t[2 * SIDE_CHUNK..] == Interleave(rest);
      assert head + rest == side0;
    }
  }

  // ----- the writer

  predicate Present(trk: CellTrack) { trk != [] && trk[0] != [] }

  predicate AnyPresent(cyls: seq<CellTrack>) { exists c :: 0 <= c < |cyls| && Present(cyls[c]) }

  const SIGNATURE: seq<byte> := [72, 88, 67, 80, 73, 67, 70, 69]
  const SIGNATURE_V3: seq<byte> := [72, 88, 67, 72, 70, 69, 86, 51]

  function HeaderBlock(tracks: byte): (r: seq<byte>)
    ensures |r| == BLOCK
  {
    SIGNATURE + [0, tracks, 1, 0] + Le16(CPC_BIT_RATE) + Le16(300) + [0x06, 0xFF] + Le16(1) + Fill(492, 0xFF)
  }

  function Combined(trk: CellTrack): seq<byte>
    requires Present(trk)
  {
    Interleave(Side0Bytes(trk[0]))
  }

  function BlockCount(bytes: nat): nat { (bytes + BLOCK - 1) / BLOCK }

  /** Grow the image for a track's blocks, copy the track in and note it in the
      lookup table. Block numbers and lengths are 16 bits wide. */
  function PutTrack(out: seq<byte>, track: nat, combined: seq<byte>, next: nat): (r: seq<byte>)
    requires BLOCK + 4 * track + 4 <= 2 * BLOCK <= |out|
    ensures |r| >= |out|
  {
    var off := next * BLOCK;
    var end := off + BlockCount(|combined|) * BLOCK;
    var grown := if |out| < end then out + Fill(end - |out|, 0xFF) else out;
    Splice(Splice(grown, off, combined), BLOCK + 4 * track, Le16(next) + Le16(|combined|))
  }

  function PutTracks(cyls: seq<CellTrack>, t: nat, out: seq<byte>, next: nat): Image
    requires t <= |cyls| <= MAX_CYLS && |out| >= 2 * BLOCK
    decreases |cyls| - t
  {
    if t == |cyls| then Ok(out)
    else if !Present(cyls[t]) then PutTracks(cyls, t + 1, Splice(out, BLOCK + 4 * t, Fill(4, 0)), next)
    else if |cyls[t][0]| % 8 != 0 then Err(Geometry)
    else
      var combined := Combined(cyls[t]);
      PutTracks(cyls, t + 1, PutTrack(out, t, combined, next), (next + BlockCount(|combined|)) % 65536)
  }

  /** hfe_from_mfm_tracks. */
  function Write(cyls: seq<CellTrack>): Image {
    if cyls == [] then Err(Geometry)
    else if |cyls| > MAX_CYLS then Err(Unsupported)
    else if !AnyPresent(cyls) then Err(Geometry)
    else PutTracks(cyls, 0, HeaderBlock(|cyls|) + Fill(BLOCK, 0), 2)
  }

  // ----- the reader

  function TicksPerCell(bitRate: nat): nat { if bitRate == 0 then 0 else 20000 / bitRate }

  /** The side-0 cells of one lookup-table entry; None if it runs past the end. */
  function ReadTrack(hfe: seq<byte>, entry: nat): Option<CellTrack>
    requires entry + 4 <= |hfe|
  {
    var off := Read16le(hfe, entry) * BLOCK;
    var len := Read16le(hfe, entry + 2);
    if len == 0 then Some([])
    else if off + len > |hfe| then None
    else Some([Side0Cells(Deinterleave(hfe[off..off + len]))])
  }

  function ReadTracks(hfe: seq<byte>, lut: nat, n: nat): Option<seq<CellTrack>>
    requires lut + 4 * n <= |hfe|
    decreases n
  {
    if n == 0 then Some([])
    else
      match ReadTrack(hfe, lut)
      case None => None
      case Some(trk) =>
        match ReadTracks(hfe, lut + 4, n - 1)
        case None => None
        case Some(rest) => Some([trk] + rest)
  }

  /** hfe_to_scp. */
  function ToScp(hfe: seq<byte>): Image {
    if |hfe| < BLOCK then Err(Truncated)
    else if hfe[..8] != SIGNATURE then Err(if hfe[..8] == SIGNATURE_V3 then Unsupported else NotHfe)
    else if hfe[8] != 0 then Err(Unsupported)
    else if hfe[9] == 0 then Err(Geometry)
    else if hfe[9] > MAX_CYLS then Err(Unsupported)
    else if TicksPerCell(Read16le(hfe, 0x0C)) != 80 then Err(Unsupported)
    else
      var lut := Read16le(hfe, 0x12) * BLOCK;
      if lut + 4 * (hfe[9] as int) > |hfe| then Err(Truncated)
      else
        match ReadTracks(hfe, lut, hfe[9])
        case None => Err(Truncated)
        case Some(cyls) => if File(cyls) == [] then Err(Geometry) else Ok(File(cyls))
  }

  /** The reader's bit-rate test is coarser than one exact rate. */
  lemma AcceptedBitRates(bitRate: nat)
    ensures TicksPerCell(bitRate) == 80 <==> 247 <= bitRate <= CPC_BIT_RATE
  {
  }
}
