/** Assembling one track of an IPF image from its parsed blocks
    (Image::decode_track in src/ipf_decode.cpp), as a function of the cells. */
module IpfTrack {
  import opened Bits
  import opened Bytes
  import opened Wrappers
  import opened Mfm
  import opened IpfGap
  import opened Cyclic

  const MAX_TRACK_BITS := 4000000

  datatype DataKind = Sync | Data | IntraGap | Raw | Fuzzy | Unknown
  datatype DataElem = DataElem(kind: DataKind, size: nat, sample: seq<byte>)

  /** A block descriptor with its streams. */
  datatype Block = Block(dataBits: nat, gapBits: nat, flags: nat, gapDefault: nat,
                         data: seq<DataElem>, fwd: seq<GapElem>, bwd: seq<GapElem>)
  {
    function GapMode(): nat { flags % 4 }

    predicate DataInBit() { flags / 4 % 2 == 1 }

    /** The decoded bits of the gap behind the block. */
    function GapFill(): (r: seq<bool>)
      ensures |r| == gapBits / 2
    {
      Gap(GapMode(), gapDefault, fwd, bwd, gapBits / 2)
    }
  }

  /** A track record. `blocks` is absent when the streams could not be parsed. */
  datatype TrackDesc = TrackDesc(flakey: bool, density: nat, blockCount: nat, extraLen: nat,
                                 dataBits: nat, gapBits: nat, trackBits: nat, startBitPos: nat,
                                 blocks: Option<seq<Block>>)
  {
    predicate Valid() { blocks.Some? ==> |blocks.value| == blockCount }

    function Length(): nat { dataBits + gapBits }
  }

  /** The weak-bit generator: any bits at all. `drawn` counts those taken. */
  type Rng = nat -> bool

  function Draw(rng: Rng, drawn: nat, n: nat): (r: seq<bool>)
    ensures |r| == n && forall i :: 0 <= i < n ==> r[i] == rng(drawn + i)
  {
    seq(n, i requires 0 <= i < n => rng(drawn + i))
  }

  /** A stream under construction: its cells and the carried data bit. */
  datatype Build = Build(cells: seq<bool>, last: bool, drawn: nat)

  const START := Build([], false, 0)

  function Verbatim(b: Build, raw: seq<bool>): Build { Build(b.cells + raw, LastOf(raw, b.last), b.drawn) }

  function Coded(b: Build, bits: seq<bool>): Build {
    Build(b.cells + Encode(bits, b.last), LastOf(bits, b.last), b.drawn)
  }

  function Pad(b: Build, n: nat): Build { Build(b.cells + Zeros(n), b.last, b.drawn) }

  /** How many bits an element stands for; sizes in bytes are scaled in 32 bits. */
  function BitCount(e: DataElem, inBit: bool): nat { if inBit then e.size else U32(e.size * 8) }

  function AddElement(b: Build, e: DataElem, inBit: bool, rng: Rng): Build {
    var n := BitCount(e, inBit);
    match e.kind
    case Sync | Raw => Verbatim(b, SampleBits(e.sample, n))
    case Data | IntraGap => Coded(b, SampleBits(e.sample, n))
    case Fuzzy => Coded(b.(drawn := b.drawn + n), Draw(rng, b.drawn, n))
    case Unknown => b
  }

  function AddElements(b: Build, es: seq<DataElem>, inBit: bool, rng: Rng): Build
    decreases |es|
  {
    if es == [] then b else AddElements(AddElement(b, es[0], inBit, rng), es[1..], inBit, rng)
  }

  /** The gap's bits, and for an odd count one more 0 cell. */
  function AddGap(b: Build, block: Block): Build {
    Pad(Coded(b, block.GapFill()), block.gapBits % 2)
  }

  function AddData(b: Build, block: Block, rng: Rng): Build { AddElements(b, block.data, block.DataInBit(), rng) }

  /** A block whose data do not come to the length it declares is refused. */
  function AddBlocks(b: Build, blocks: seq<Block>, rng: Rng): Option<Build>
    decreases |blocks|
  {
    if blocks == [] then Some(b)
    else
      var data := AddData(b, blocks[0], rng);
      if |data.cells| != |b.cells| + blocks[0].dataBits then None
      else AddBlocks(AddGap(data, blocks[0]), blocks[1..], rng)
  }

  function SumData(blocks: seq<Block>): nat { if blocks == [] then 0 else blocks[0].dataBits + SumData(blocks[1..]) }

  function SumGap(blocks: seq<Block>): nat { if blocks == [] then 0 else blocks[0].gapBits + SumGap(blocks[1..]) }

  /** Cell i goes to cell (i + start) mod n. */
  function Rotate(cells: seq<bool>, start: nat): (r: seq<bool>)
    ensures |r| == |cells|
  {
    var n := |cells|;
    seq(n, j requires 0 <= j < n => cells[(j - start) % n])
  }

  lemma RotateAt(cells: seq<bool>, start: nat, i: nat)
    requires i < |cells|
    ensures Rotate(cells, start)[(i + start) % |cells|] == cells[i]
  {
    var n := |cells|;
    TurnBack(i, start, n);
  }

  // ----- the decoder

  predicate Unformatted(t: TrackDesc) {
    t.density == 1 || t.blockCount == 0 || t.extraLen == 0 || t.Length() == 0
  }

  predicate Declared(t: TrackDesc) {
    && t.Length() <= MAX_TRACK_BITS
    && (t.trackBits == 0 || t.trackBits == t.Length())
    && t.blocks.Some?
    && SumData(t.blocks.value) == t.dataBits
    && SumGap(t.blocks.value) == t.gapBits
  }

  datatype Pass = Pass(cells: seq<bool>, drawn: nat)

  /** One decoding pass: no value is a refusal, no cells an empty track. */
  function Decode(t: TrackDesc, rng: Rng, drawn: nat): Option<Pass> {
    if Unformatted(t) then Some(Pass([], drawn))
    else if !Declared(t) then None
    else
      match AddBlocks(START.(drawn := drawn), t.blocks.value, rng)
      case None => None
      case Some(b) =>
        if |b.cells| != t.Length() then None
        else Some(Pass(Rotate(b.cells, t.startBitPos % t.Length()), b.drawn))
  }

  // ----- accounting

  /** The cells an element comes to, from its size alone. */
  function ElementLength(e: DataElem, inBit: bool): nat {
    match e.kind
    case Sync | Raw => BitCount(e, inBit)
    case Data | IntraGap | Fuzzy => 2 * BitCount(e, inBit)
    case Unknown => 0
  }

  function ElementsLength(es: seq<DataElem>, inBit: bool): nat {
    if es == [] then 0 else ElementLength(es[0], inBit) + ElementsLength(es[1..], inBit)
  }

  predicate Accounted(block: Block) { ElementsLength(block.data, block.DataInBit()) == block.dataBits }

  predicate AllAccounted(blocks: seq<Block>) { forall i :: 0 <= i < |blocks| ==> Accounted(blocks[i]) }

  /** What a track must satisfy, none of it about the bits themselves. */
  predicate Acceptable(t: TrackDesc) {
    Unformatted(t) || (Declared(t) && AllAccounted(t.blocks.value))
  }

  /** Growing a stream keeps what it holds. */
  ghost predicate Extends(b: Build, a: Build, n: nat) { |b.cells| == |a.cells| + n && a.cells <= b.cells }

  lemma ElementExtends(b: Build, e: DataElem, inBit: bool, rng: Rng)
    ensures Extends(AddElement(b, e, inBit, rng), b, ElementLength(e, inBit))
  {
    hide Encode;
  }

  lemma {:induction false} ElementsExtend(b: Build, es: seq<DataElem>, inBit: bool, rng: Rng)
    ensures Extends(AddElements(b, es, inBit, rng), b, ElementsLength(es, inBit))
    decreases |es|
  {
    hide AddElement, ElementLength;
    if es != [] {
      ElementExtends(b, es[0], inBit, rng);
      ElementsExtend(AddElement(b, es[0], inBit, rng), es[1..], inBit, rng);
    }
  }

  lemma GapExtends(b: Build, block: Block)
    ensures Extends(AddGap(b, block), b, block.gapBits)
  {
  }

  /** A run of blocks is accepted exactly when every block accounts for its
      data; it then comes to exactly the declared data and gap cells. */
  lemma {:induction false} BlocksExtend(b: Build, blocks: seq<Block>, rng: Rng)
    ensures AddBlocks(b, blocks, rng).Some? <==> AllAccounted(blocks)
    ensures AllAccounted(blocks) ==> Extends(AddBlocks(b, blocks, rng).value, b, SumData(blocks) + SumGap(blocks))
    decreases |blocks|
  {
    hide AddData, AddGap, Accounted;
    if blocks != [] {
      var data := AddData(b, blocks[0], rng);
      DataExtends(b, blocks[0], rng);
      assert AllAccounted(blocks) <==> Accounted(blocks[0]) && AllAccounted(blocks[1..]) by {
        AccountedParts(blocks);
      }
      if Accounted(blocks[0]) {
        GapExtends(data, blocks[0]);
        BlocksExtend(AddGap(data, blocks[0]), blocks[1..], rng);
      }
    }
  }

  lemma DataExtends(b: Build, block: Block, rng: Rng)
    ensures Extends(AddData(b, block, rng), b, ElementsLength(block.data, block.DataInBit()))
    ensures Accounted(block) <==> |AddData(b, block, rng).cells| == |b.cells| + block.dataBits
  {
    ElementsExtend(b, block.data, block.DataInBit(), rng);
  }

  lemma AccountedParts(blocks: seq<Block>)
    requires blocks != []
    ensures AllAccounted(blocks) <==> Accounted(blocks[0]) && AllAccounted(blocks[1..])
  {
    hide Accounted;
    if Accounted(blocks[0]) && AllAccounted(blocks[1..]) {
      forall i | 0 <= i < |blocks| ensures Accounted(blocks[i]) {
        if i > 0 { assert blocks[i] == blocks[1..][i - 1]; }
      }
    }
  }

  /** Acceptance and length are settled by the declared sizes, whatever the weak
      bits turn out to be; an accepted track has exactly its declared cells. */
  lemma DecodeAccepts(t: TrackDesc, rng: Rng, drawn: nat)
    ensures Decode(t, rng, drawn).Some? <==> Acceptable(t)
    ensures Acceptable(t) ==>
      |Decode(t, rng, drawn).value.cells| == (if Unformatted(t) then 0 else t.Length()) <= MAX_TRACK_BITS
  {
    hide AddBlocks, Rotate, AllAccounted, SumData, SumGap;
    if !Unformatted(t) && Declared(t) {
      BlocksExtend(START.(drawn := drawn), t.blocks.value, rng);
    }
  }

  // ----- where each block lies

  /** The first cell of block i in the assembled stream. */
  function Offset(blocks: seq<Block>, i: nat): nat
    requires i <= |blocks|
  {
    SumData(blocks[..i]) + SumGap(blocks[..i])
  }

  /** The stream after the first i blocks. */
  function After(b: Build, blocks: seq<Block>, i: nat, rng: Rng): Option<Build>
    requires i <= |blocks|
  {
    AddBlocks(b, blocks[..i], rng)
  }

  lemma {:induction false} AddBlocksConcat(b: Build, p: seq<Block>, q: seq<Block>, rng: Rng)
    requires AllAccounted(p)
    ensures AddBlocks(b, p, rng).Some? && AddBlocks(b, p + q, rng) == AddBlocks(AddBlocks(b, p, rng).value, q, rng)
    decreases |p|
  {
    hide AddData, AddGap, Accounted;
    BlocksExtend(b, p, rng);
    if p == [] {
      assert p + q == q;
    } else {
      AccountedParts(p);
      assert (p + q)[1..] == p[1..] + q;
      DataExtends(b, p[0], rng);
      AddBlocksConcat(AddGap(AddData(b, p[0], rng), p[0]), p[1..], q, rng);
    }
  }

  /** The assembled stream of an accepted track. */
  function Assembled(t: TrackDesc, rng: Rng, drawn: nat): Build
    requires Acceptable(t) && !Unformatted(t)
  {
    BlocksExtend(START.(drawn := drawn), t.blocks.value, rng);
    AddBlocks(START.(drawn := drawn), t.blocks.value, rng).value
  }

  /** Block i starts at the sum of what the blocks before it declare; from
      there come its data cells, then its gap cells. */
  lemma BlockPlaced(t: TrackDesc, rng: Rng, drawn: nat, i: nat)
    requires t.Valid() && Acceptable(t) && !Unformatted(t) && i < t.blockCount
    ensures var blocks := t.blocks.value;
      AllAccounted(blocks[..i]) && After(START.(drawn := drawn), blocks, i, rng).Some?
    ensures var blocks, all := t.blocks.value, Assembled(t, rng, drawn).cells;
      var before := After(START.(drawn := drawn), blocks, i, rng).value;
      var data := AddData(before, blocks[i], rng);
      && |before.cells| == Offset(blocks, i)
      && |data.cells| == Offset(blocks, i) + blocks[i].dataBits
      && |AddGap(data, blocks[i]).cells| == |data.cells| + blocks[i].gapBits
      && before.cells <= data.cells <= AddGap(data, blocks[i]).cells <= all
  {
    hide AddData, AddGap, Accounted;
    var blocks, start := t.blocks.value, START.(drawn := drawn);
    assert blocks == blocks[..i] + ([blocks[i]] + blocks[i + 1..]);
    BlocksExtend(start, blocks[..i], rng);
    AddBlocksConcat(start, blocks[..i], [blocks[i]] + blocks[i + 1..], rng);
    var before := After(start, blocks, i, rng).value;
    BlockStep(before, blocks[i], blocks[i + 1..], rng);
  }

  lemma BlockStep(b: Build, block: Block, rest: seq<Block>, rng: Rng)
    requires Accounted(block) && AllAccounted(rest)
    ensures var data := AddData(b, block, rng);
      var all := AddBlocks(b, [block] + rest, rng);
      && |data.cells| == |b.cells| + block.dataBits
      && |AddGap(data, block).cells| == |data.cells| + block.gapBits
      && all.Some? && b.cells <= data.cells <= AddGap(data, block).cells <= all.value.cells
  {
    hide AddData, AddGap, Accounted;
    var data := AddData(b, block, rng);
    DataExtends(b, block, rng);
    GapExtends(data, block);
    BlocksExtend(AddGap(data, block), rest, rng);
    assert ([block] + rest)[1..] == rest;
  }

  /** The finished track is the assembled stream turned to the index position. */
  lemma TrackRotated(t: TrackDesc, rng: Rng, drawn: nat, i: nat)
    requires Acceptable(t) && !Unformatted(t) && i < t.Length()
    ensures Decode(t, rng, drawn).Some? && |Assembled(t, rng, drawn).cells| == t.Length()
    ensures |Decode(t, rng, drawn).value.cells| == t.Length()
    ensures Decode(t, rng, drawn).value.cells[(i + t.startBitPos) % t.Length()] == Assembled(t, rng, drawn).cells[i]
  {
    hide AddBlocks, Rotate, AllAccounted, SumData, SumGap;
    BlocksExtend(START.(drawn := drawn), t.blocks.value, rng);
    var n, b := t.Length(), Assembled(t, rng, drawn);
    RotateAt(b.cells, t.startBitPos % n, i);
    ModSum(i, t.startBitPos, n);
  }
}
