/** An open IPF image: decoding passes that draw weak bits, and the side-0
    mirror handed to the flux writer (src/ipf_decode.cpp). */
module IpfImage {
  import opened Bits
  import opened Bytes
  import opened Wrappers
  import opened Bitcells
  import opened Mfm
  import opened IpfGap
  import opened IpfTrack
  import opened IpfCodecs
  import Scp
  import FluxCodecs

  /** A pass accepted, against what decoding must give. */
  ghost predicate Passed(out: Rev, drawn: nat, pass: Pass) {
    && ValidRev(out) && |out.bits| == (out.nbits + 7) / 8
    && Cells(out) == pass.cells && drawn == pass.drawn
  }

  class Image {
    const open: bool
    const maxCyl: nat
    const side0: map<nat, TrackDesc>
    const rng: Rng
    var drawn: nat

    constructor (open: bool, maxCyl: nat, side0: map<nat, TrackDesc>, rng: Rng)
      ensures drawn == 0
      ensures this.open == open && this.maxCyl == maxCyl && this.side0 == side0 && this.rng == rng
    {
      this.open, this.maxCyl, this.side0, this.rng, drawn := open, maxCyl, side0, rng, 0;
    }

    ghost function State(mb: MfmBuilder): Build
      requires mb.Valid()
      reads this, mb
    {
      Build(mb.Stream(), mb.lastData, drawn)
    }

    method DrawBits(n: nat) returns (bits: seq<bool>)
      modifies this`drawn
      ensures bits == Draw(rng, old(drawn), n) && drawn == old(drawn) + n
    {
      bits := [];
      var k := 0;
      while k < n
        invariant 0 <= k <= n && bits == Draw(rng, old(drawn), k) && drawn == old(drawn) + k
      {
        bits := bits + [rng(drawn)];
        drawn := drawn + 1;
        k := k + 1;
      }
    }

    method EmitElement(mb: MfmBuilder, e: DataElem, inBit: bool)
      requires mb.Valid()
      modifies this`drawn, mb
      ensures mb.Valid() && State(mb) == AddElement(old(State(mb)), e, inBit, rng)
    {
      hide Encode, SampleBits, U32;
      var n := BitCount(e, inBit);
      match e.kind
      case Sync | Raw =>
        var raw := ExpandSample(e.sample, n);
        mb.EmitVerbatim(raw);
      case Data | IntraGap =>
        var bits := ExpandSample(e.sample, n);
        mb.EmitDecoded(bits);
      case Fuzzy =>
        var bits := DrawBits(n);
        mb.EmitDecoded(bits);
      case Unknown =>
    }

    method EmitElements(mb: MfmBuilder, es: seq<DataElem>, inBit: bool)
      requires mb.Valid()
      modifies this`drawn, mb
      ensures mb.Valid() && State(mb) == AddElements(old(State(mb)), es, inBit, rng)
    {
      hide AddElement;
      var k := 0;
      assert es[0..] == es;
      while k < |es|
        invariant 0 <= k <= |es| && mb.Valid()
        invariant AddElements(State(mb), es[k..], inBit, rng) == AddElements(old(State(mb)), es, inBit, rng)
      {
        assert es[k..][1..] == es[k + 1..];
        EmitElement(mb, es[k], inBit);
        k := k + 1;
      }
    }

    /** The gap's bits, then 0 cells until the declared count is reached. */
    method EmitGap(mb: MfmBuilder, block: Block)
      requires mb.Valid()
      modifies mb
      ensures mb.Valid() && State(mb) == AddGap(old(State(mb)), block)
    {
      hide Encode, Gap, Tight, Cells;
      if block.gapBits == 0 {
        NoGap(State(mb), block);
        return;
      }
      var start := mb.nbits;
      var bits := BuildGapDecoded(block, block.gapBits / 2);
      mb.EmitDecoded(bits);
      ghost var coded := mb.Stream();
      assert coded + Zeros(0) == coded;
      while mb.nbits - start < block.gapBits
        invariant mb.Valid() && mb.lastData == LastOf(bits, old(mb.lastData))
        invariant start + 2 * |bits| <= mb.nbits <= start + block.gapBits
        invariant mb.Stream() == coded + Zeros(mb.nbits - start - 2 * |bits|)
      {
        ghost var n := mb.nbits - start - 2 * |bits|;
        assert Zeros(n + 1) == Zeros(n) + [false];
        mb.PushRaw(false);
      }
    }

    /** One block; false if its data do not come to the declared length. */
    method EmitBlock(mb: MfmBuilder, block: Block) returns (ok: bool)
      requires mb.Valid()
      modifies this`drawn, mb
      ensures mb.Valid()
      ensures var data := AddData(old(State(mb)), block, rng);
        && ok == (|data.cells| == |old(State(mb)).cells| + block.dataBits)
        && (ok ==> State(mb) == AddGap(data, block))
    {
      hide AddElements, AddGap, Tight;
      var start := mb.nbits;
      EmitElements(mb, block.data, block.DataInBit());
      GrownBy(old(State(mb)), block, rng);
      if mb.nbits - start != block.dataBits {
        return false;
      }
      EmitGap(mb, block);
      ok := true;
    }

    method EmitBlocks(mb: MfmBuilder, blocks: seq<Block>) returns (ok: bool)
      requires mb.Valid()
      modifies this`drawn, mb
      ensures mb.Valid()
      ensures ok == AddBlocks(old(State(mb)), blocks, rng).Some?
      ensures ok ==> AddBlocks(old(State(mb)), blocks, rng) == Some(State(mb))
    {
      hide AddData, AddGap;
      var i := 0;
      assert blocks[0..] == blocks;
      while i < |blocks|
        invariant 0 <= i <= |blocks| && mb.Valid()
        invariant AddBlocks(State(mb), blocks[i..], rng) == AddBlocks(old(State(mb)), blocks, rng)
      {
        assert blocks[i..][1..] == blocks[i + 1..];
        var done := EmitBlock(mb, blocks[i]);
        if !done {
          return false;
        }
        i := i + 1;
      }
      ok := true;
    }

    /** The sums a track record declares. */
    method CheckDeclared(t: TrackDesc) returns (ok: bool)
      ensures ok == Declared(t)
    {
      var n := t.dataBits + t.gapBits;
      if n > MAX_TRACK_BITS || (t.trackBits != 0 && t.trackBits != n) || t.blocks.None? {
        return false;
      }
      var blocks := t.blocks.value;
      var data, gap := 0, 0;
      var i := 0;
      assert blocks[0..] == blocks;
      while i < |blocks|
        invariant 0 <= i <= |blocks|
        invariant data + SumData(blocks[i..]) == SumData(blocks)
        invariant gap + SumGap(blocks[i..]) == SumGap(blocks)
      {
        assert blocks[i..][1..] == blocks[i + 1..];
        data, gap := data + blocks[i].dataBits, gap + blocks[i].gapBits;
        i := i + 1;
      }
      ok := data == t.dataBits && gap == t.gapBits;
    }

    /** Image::decode_track. */
    method DecodeTrack(t: TrackDesc) returns (ok: bool, out: Rev)
      modifies this`drawn
      ensures ok == Decode(t, rng, old(drawn)).Some?
      ensures ok ==> Passed(out, drawn, Decode(t, rng, old(drawn)).value)
    {
      hide AddBlocks, Rotate, Declared;
      ok, out := true, EMPTY;
      if Unformatted(t) {
        return;
      }
      var declared := CheckDeclared(t);
      if !declared {
        return false, EMPTY;
      }
      var mb := new MfmBuilder();
      DeclaredBlocks(t);
      var built := EmitBlocks(mb, t.blocks.value);
      if !built || mb.nbits != t.Length() {
        return false, EMPTY;
      }
      out := TurnToIndex(Rev(mb.bits, mb.nbits), t.startBitPos % t.Length());
    }

    /** Image::lock_track on side 0: an absent track is an empty one. */
    method LockTrack(cyl: nat) returns (ok: bool, out: Rev)
      modifies this`drawn
      ensures ok == (open && (cyl in side0 ==> Acceptable(side0[cyl])))
      ensures ok ==> ValidRev(out) && |out.bits| == (out.nbits + 7) / 8 && out.nbits == CellCountOf(side0, cyl)
      ensures ok && cyl in side0 ==> IsPass(out, side0[cyl], rng)
    {
      hide Decode, Acceptable, Unformatted;
      ok, out := open, EMPTY;
      if !open || cyl !in side0 {
        return;
      }
      DecodeAccepts(side0[cyl], rng, drawn);
      ok, out := DecodeTrack(side0[cyl]);
    }

    /** The passes over one formatted cylinder. */
    method MirrorTrack(cyl: nat, first: Rev, flakey: bool, revs: nat) returns (track: Track)
      requires open && revs > 0 && cyl in side0 && Acceptable(side0[cyl]) && flakey == side0[cyl].flakey
      requires CellCountOf(side0, cyl) > 0 && IsPass(first, side0[cyl], rng) && first.nbits == CellCountOf(side0, cyl)
      modifies this`drawn
      ensures |track| == revs && track[0] == first
      ensures forall r :: 0 <= r < revs ==>
        IsPass(track[r], side0[cyl], rng) && track[r].nbits == CellCountOf(side0, cyl)
      ensures !flakey ==> forall r :: 0 <= r < revs ==> track[r] == first
    {
      hide IsPass, Acceptable, CellCountOf;
      track := [first];
      var rv := 1;
      while rv < revs
        invariant 1 <= rv <= revs && |track| == rv && track[0] == first
        invariant forall r :: 0 <= r < rv ==>
          IsPass(track[r], side0[cyl], rng) && track[r].nbits == CellCountOf(side0, cyl)
        invariant !flakey ==> forall r :: 0 <= r < rv ==> track[r] == first
      {
        if flakey {
          var ok, pass := LockTrack(cyl);
          // Whether a pass succeeds does not depend on the weak bits, so the
          // decoder never has to repeat the revolution before.
          assert ok && pass.nbits > 0;
          track := track + [pass];
        } else {
          track := track + [track[0]];
        }
        rv := rv + 1;
      }
    }

    /** Image::mirror_side0. */
    method MirrorSide0(revs: int) returns (cyls: seq<Track>)
      modifies this`drawn
      ensures open && revs > 0 && AllAcceptable(side0, maxCyl) ==> Mirrored(cyls, side0, maxCyl, revs, rng)
      ensures !(open && revs > 0 && AllAcceptable(side0, maxCyl)) ==> cyls == []
    {
      hide IsPass, Acceptable, CellCountOf;
      cyls := [];
      if !open || revs <= 0 {
        return;
      }
      var cyl := 0;
      while cyl <= maxCyl
        invariant 0 <= cyl <= maxCyl + 1 && |cyls| == cyl
        invariant forall c :: 0 <= c < cyl ==> (c in side0 ==> Acceptable(side0[c]))
        invariant forall c :: 0 <= c < cyl ==> MirroredTrack(cyls[c], side0, c, revs, rng)
      {
        var ok, first := LockTrack(cyl);
        if !ok {
          assert !AllAcceptable(side0, maxCyl);
          return [];
        }
        if first.nbits == 0 {
          cyls := cyls + [[]];
        } else {
          Formatted(side0, cyl);
          var track := MirrorTrack(cyl, first, side0[cyl].flakey, revs);
          cyls := cyls + [track];
        }
        cyl := cyl + 1;
      }
    }
  }

  lemma NoGap(b: Build, block: Block)
    requires block.gapBits == 0
    ensures AddGap(b, block) == b
  {
    assert block.GapFill() == [];
    EncodeNone(b.last);
    assert b.cells + [] == b.cells;
  }

  lemma GrownBy(b: Build, block: Block, rng: Rng)
    ensures |AddData(b, block, rng).cells| >= |b.cells|
  {
    DataExtends(b, block, rng);
  }

  lemma DeclaredBlocks(t: TrackDesc)
    requires Declared(t)
    ensures t.blocks.Some?
  {
  }

  /** The length of every pass over a cylinder. */
  function CellCountOf(side0: map<nat, TrackDesc>, cyl: nat): nat {
    if cyl !in side0 || Unformatted(side0[cyl]) then 0 else side0[cyl].Length()
  }

  lemma Formatted(side0: map<nat, TrackDesc>, cyl: nat)
    requires CellCountOf(side0, cyl) > 0
    ensures cyl in side0
  {
  }

  /** `rev` is what some pass over the track gives. */
  ghost predicate IsPass(rev: Rev, t: TrackDesc, rng: Rng) {
    exists drawn: nat :: Decode(t, rng, drawn).Some?
      && ValidRev(rev) && |rev.bits| == (rev.nbits + 7) / 8 && Cells(rev) == Decode(t, rng, drawn).value.cells
  }

  predicate AllAcceptable(side0: map<nat, TrackDesc>, maxCyl: nat) {
    forall c :: 0 <= c <= maxCyl && c in side0 ==> Acceptable(side0[c])
  }

  /** An unformatted cylinder has no revolutions; any other has `revs` of one
      length, each a pass of its own, and all alike unless it is flakey. */
  ghost predicate MirroredTrack(track: Track, side0: map<nat, TrackDesc>, cyl: nat, revs: nat, rng: Rng) {
    var n := CellCountOf(side0, cyl);
    if n == 0 then track == []
    else
      && cyl in side0 && |track| == revs
      && (forall r :: 0 <= r < revs ==> IsPass(track[r], side0[cyl], rng) && track[r].nbits == n)
      && (!side0[cyl].flakey ==> forall r :: 0 <= r < revs ==> track[r] == track[0])
  }

  ghost predicate Mirrored(cyls: seq<Track>, side0: map<nat, TrackDesc>, maxCyl: nat, revs: nat, rng: Rng) {
    |cyls| == maxCyl + 1 && forall c :: 0 <= c <= maxCyl ==> MirroredTrack(cyls[c], side0, c, revs, rng)
  }

  // ----- the mirror and the flux writer

  lemma MirrorValid(cyls: seq<Track>, side0: map<nat, TrackDesc>, maxCyl: nat, revs: nat, rng: Rng)
    requires Mirrored(cyls, side0, maxCyl, revs, rng)
    ensures FluxCodecs.ValidTracks(cyls)
  {
    hide CellCountOf, Decode;
    forall c | 0 <= c < |cyls| ensures FluxCodecs.ValidTrack(cyls[c]) {
      assert MirroredTrack(cyls[c], side0, c, revs, rng);
      forall r | 0 <= r < |cyls[c]| ensures ValidRev(cyls[c][r]) { assert IsPass(cyls[c][r], side0[c], rng); }
    }
  }

  lemma {:induction false} RevsOf(cells: seq<Scp.CellTrack>, revs: nat)
    requires forall c :: 0 <= c < |cells| ==> cells[c] == [] || |cells[c]| == revs
    ensures Scp.Revs(cells) == if exists c :: 0 <= c < |cells| && cells[c] != [] then revs else 0
  {
    if cells != [] {
      RevsOf(cells[1..], revs);
      if exists c :: 0 <= c < |cells| && cells[c] != [] {
        var c :| 0 <= c < |cells| && cells[c] != [];
        if c > 0 { assert cells[1..][c - 1] == cells[c]; }
      } else {
        assert cells[0] == [];
      }
    }
  }

  /** The flux writer takes the mirror exactly when there are no more cylinders
      and revolutions than the container has room for, and a formatted track. */
  lemma MirrorAccepted(cyls: seq<Track>, side0: map<nat, TrackDesc>, maxCyl: nat, revs: nat, rng: Rng)
    requires Mirrored(cyls, side0, maxCyl, revs, rng) && revs > 0
    ensures FluxCodecs.ValidTracks(cyls)
    ensures Scp.Accepted(FluxCodecs.AllCells(cyls)) <==>
      maxCyl < Scp.MAX_CYLS && revs <= 255 && exists c :: 0 <= c <= maxCyl && CellCountOf(side0, c) > 0
  {
    hide CellCountOf, IsPass;
    MirrorValid(cyls, side0, maxCyl, revs, rng);
    var cells := FluxCodecs.AllCells(cyls);
    forall c | 0 <= c < |cells|
      ensures (cells[c] != [] <==> CellCountOf(side0, c) > 0) && (cells[c] == [] || |cells[c]| == revs)
    {
      assert MirroredTrack(cyls[c], side0, c, revs, rng) && cells[c] == FluxCodecs.TrackCells(cyls[c]);
    }
    RevsOf(cells, revs);
    if exists c :: 0 <= c <= maxCyl && CellCountOf(side0, c) > 0 {
      var c :| 0 <= c <= maxCyl && CellCountOf(side0, c) > 0;
      assert cells[c] != [];
    }
  }
}
