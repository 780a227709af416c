/** The MFM law over a whole IPF track: elements, blocks, gaps and pads. */
module IpfLaw {
  import opened Bits
  import opened Bytes
  import opened Wrappers
  import opened Mfm
  import opened MfmLaws
  import opened MfmPieces
  import opened IpfGap
  import opened IpfTrack

  // ----- a track as pieces

  /** The cells or the bits an element stands for. */
  function ElementPiece(e: DataElem, inBit: bool, rng: Rng, drawn: nat): Piece {
    var n := BitCount(e, inBit);
    match e.kind
    case Sync | Raw => RawPiece(SampleBits(e.sample, n))
    case Data | IntraGap => CodedPiece(SampleBits(e.sample, n), false)
    case Fuzzy => CodedPiece(Draw(rng, drawn, n), false)
    case Unknown => CodedPiece([], false)
  }

  function Drawn(e: DataElem, inBit: bool): nat { if e.kind == Fuzzy then BitCount(e, inBit) else 0 }

  function AllDrawn(es: seq<DataElem>, inBit: bool): nat {
    if es == [] then 0 else Drawn(es[0], inBit) + AllDrawn(es[1..], inBit)
  }

  function ElementPieces(es: seq<DataElem>, inBit: bool, rng: Rng, drawn: nat): (r: seq<Piece>)
    ensures |r| == |es|
    decreases |es|
  {
    if es == [] then []
    else [ElementPiece(es[0], inBit, rng, drawn)] + ElementPieces(es[1..], inBit, rng, drawn + Drawn(es[0], inBit))
  }

  /** The gap behind a block, with its pad if the count is odd. */
  function GapPiece(block: Block): Piece { CodedPiece(block.GapFill(), block.gapBits % 2 == 1) }

  function TrackPieces(blocks: seq<Block>, rng: Rng, drawn: nat): seq<Piece>
    decreases |blocks|
  {
    if blocks == [] then []
    else
      var inBit := blocks[0].DataInBit();
      ElementPieces(blocks[0].data, inBit, rng, drawn) + [GapPiece(blocks[0])]
        + TrackPieces(blocks[1..], rng, drawn + AllDrawn(blocks[0].data, inBit))
  }

  /** What a stream becomes when pieces are added. */
  ghost predicate Added(b: Build, ps: seq<Piece>, after: Build) {
    && after.cells == b.cells + StreamCells(ps, b.last)
    && after.last == StreamCarry(ps, b.last)
  }

  lemma AddedTwice(a: Build, p: seq<Piece>, b: Build, q: seq<Piece>, c: Build)
    requires Added(a, p, b) && Added(b, q, c)
    ensures Added(a, p + q, c)
  {
    StreamConcat(p, q, a.last);
    Associate(a.cells, StreamCells(p, a.last), StreamCells(q, b.last));
  }

  lemma ElementAdded(b: Build, e: DataElem, inBit: bool, rng: Rng)
    ensures Added(b, [ElementPiece(e, inBit, rng, b.drawn)], AddElement(b, e, inBit, rng))
    ensures AddElement(b, e, inBit, rng).drawn == b.drawn + Drawn(e, inBit)
  {
    hide Encode;
    var p := ElementPiece(e, inBit, rng, b.drawn);
    StreamOne(p, b.last);
    if p.CodedPiece? { assert Encode(p.bits, b.last) + [] == Encode(p.bits, b.last); }
    assert b.cells + [] == b.cells;
  }

  lemma {:induction false} ElementsAdded(b: Build, es: seq<DataElem>, inBit: bool, rng: Rng)
    ensures Added(b, ElementPieces(es, inBit, rng, b.drawn), AddElements(b, es, inBit, rng))
    ensures AddElements(b, es, inBit, rng).drawn == b.drawn + AllDrawn(es, inBit)
    decreases |es|
  {
    hide Added, ElementPiece, AddElement, Drawn;
    if es == [] {
      NothingAdded(b);
    } else {
      var next := AddElement(b, es[0], inBit, rng);
      ElementAdded(b, es[0], inBit, rng);
      ElementsAdded(next, es[1..], inBit, rng);
      AddedTwice(b, [ElementPiece(es[0], inBit, rng, b.drawn)], next,
                 ElementPieces(es[1..], inBit, rng, next.drawn), AddElements(b, es, inBit, rng));
    }
  }

  lemma NothingAdded(b: Build)
    ensures Added(b, [], b)
  {
    assert b.cells + [] == b.cells;
  }

  lemma GapAdded(b: Build, block: Block)
    ensures Added(b, [GapPiece(block)], AddGap(b, block)) && AddGap(b, block).drawn == b.drawn
  {
    hide Encode;
    var p := GapPiece(block);
    StreamOne(p, b.last);
    assert Zeros(block.gapBits % 2) == if p.pad then [false] else [];
    Associate(b.cells, Encode(p.bits, b.last), Zeros(block.gapBits % 2));
  }

  lemma {:induction false} BlocksAdded(b: Build, blocks: seq<Block>, rng: Rng)
    requires AllAccounted(blocks)
    ensures AddBlocks(b, blocks, rng).Some?
    ensures Added(b, TrackPieces(blocks, rng, b.drawn), AddBlocks(b, blocks, rng).value)
    decreases |blocks|
  {
    hide Added, Accounted, AddElements, AddGap, ElementPieces, AllDrawn, GapPiece;
    if blocks == [] {
      NothingAdded(b);
    } else {
      var block := blocks[0];
      var data := AddData(b, block, rng);
      var done := AddGap(data, block);
      AccountedParts(blocks);
      DataExtends(b, block, rng);
      ElementsAdded(b, block.data, block.DataInBit(), rng);
      GapAdded(data, block);
      var ps := ElementPieces(block.data, block.DataInBit(), rng, b.drawn);
      AddedTwice(b, ps, data, [GapPiece(block)], done);
      BlocksAdded(done, blocks[1..], rng);
      AddedTwice(b, ps + [GapPiece(block)], done, TrackPieces(blocks[1..], rng, done.drawn),
                 AddBlocks(b, blocks, rng).value);
    }
  }

  /** The pieces of an accepted track. */
  function PiecesOf(t: TrackDesc, rng: Rng, drawn: nat): seq<Piece>
    requires Acceptable(t) && !Unformatted(t)
  {
    TrackPieces(t.blocks.value, rng, drawn)
  }

  lemma AssembledPieces(t: TrackDesc, rng: Rng, drawn: nat)
    requires Acceptable(t) && !Unformatted(t)
    ensures Assembled(t, rng, drawn).cells == StreamCells(PiecesOf(t, rng, drawn), false)
  {
    hide AddBlocks, TrackPieces, StreamCells;
    BlocksAdded(START.(drawn := drawn), t.blocks.value, rng);
    assert [] + StreamCells(PiecesOf(t, rng, drawn), false) == StreamCells(PiecesOf(t, rng, drawn), false);
  }

  // ----- the law, for every accepted track

  /** Never more than three 0 cells in a row, if and only if the raw samples keep
      to that and the 0 cells at every seam between pieces are at most three. */
  lemma TrackGapsExactly(t: TrackDesc, rng: Rng, drawn: nat)
    requires Acceptable(t) && !Unformatted(t)
    ensures var ps := PiecesOf(t, rng, drawn);
      NoLongGap(Assembled(t, rng, drawn).cells) <==> forall i :: 0 <= i < |ps| ==> PieceFits(ps, i, false)
  {
    hide Assembled, PiecesOf, PieceFits, NoLongGap;
    AssembledPieces(t, rng, drawn);
    GapsExactly(PiecesOf(t, rng, drawn), false);
  }

  /** No two adjacent 1 cells, if and only if the raw samples have none and none
      of them starts with a 1 cell behind another. */
  lemma TrackOnesExactly(t: TrackDesc, rng: Rng, drawn: nat)
    requires Acceptable(t) && !Unformatted(t)
    ensures var ps := PiecesOf(t, rng, drawn);
      NoAdjacentOnes(Assembled(t, rng, drawn).cells) <==> forall i :: 0 <= i < |ps| ==> OnesFit(ps, i, false)
  {
    hide Assembled, PiecesOf, OnesFit, NoAdjacentOnes;
    AssembledPieces(t, rng, drawn);
    OnesExactly(PiecesOf(t, rng, drawn), false);
  }

  // ----- tracks without raw elements

  /** No raw cells: everything passes through the encoder. */
  predicate CodedOnly(es: seq<DataElem>) {
    forall i :: 0 <= i < |es| ==> es[i].kind != Sync && es[i].kind != Raw
  }

  predicate CodedBlocks(blocks: seq<Block>) { forall i :: 0 <= i < |blocks| ==> CodedOnly(blocks[i].data) }

  predicate EvenGaps(blocks: seq<Block>) { forall i :: 0 <= i < |blocks| ==> blocks[i].gapBits % 2 == 0 }

  lemma {:induction false} ElementPiecesCoded(es: seq<DataElem>, inBit: bool, rng: Rng, drawn: nat)
    requires CodedOnly(es)
    ensures NoPads(ElementPieces(es, inBit, rng, drawn))
    decreases |es|
  {
    if es != [] {
      ElementPiecesCoded(es[1..], inBit, rng, drawn + Drawn(es[0], inBit));
    }
  }

  lemma {:induction false} PiecesCoded(blocks: seq<Block>, rng: Rng, drawn: nat)
    requires CodedBlocks(blocks)
    ensures AllCoded(TrackPieces(blocks, rng, drawn))
    ensures EvenGaps(blocks) ==> NoPads(TrackPieces(blocks, rng, drawn))
    decreases |blocks|
  {
    hide CodedOnly, ElementPieces, AllDrawn, AllCoded, NoPads, CodedBlocks, EvenGaps, GapPiece;
    if blocks == [] {
      CodedConcat([], []);
    } else {
      var inBit, rest := blocks[0].DataInBit(), blocks[1..];
      var drawn' := drawn + AllDrawn(blocks[0].data, inBit);
      var data, gap := ElementPieces(blocks[0].data, inBit, rng, drawn), [GapPiece(blocks[0])];
      BlocksTail(blocks);
      ElementPiecesCoded(blocks[0].data, inBit, rng, drawn);
      GapCoded(blocks[0]);
      PiecesCoded(rest, rng, drawn');
      CodedConcat(data, gap);
      CodedConcat(data + gap, TrackPieces(rest, rng, drawn'));
    }
  }

  lemma BlocksTail(blocks: seq<Block>)
    requires blocks != []
    ensures CodedBlocks(blocks) ==> CodedOnly(blocks[0].data) && CodedBlocks(blocks[1..])
    ensures EvenGaps(blocks) ==> blocks[0].gapBits % 2 == 0 && EvenGaps(blocks[1..])
  {
    hide CodedOnly;
  }

  lemma GapCoded(block: Block)
    ensures AllCoded([GapPiece(block)])
    ensures block.gapBits % 2 == 0 ==> NoPads([GapPiece(block)])
  {
  }

  lemma CodedConcat(a: seq<Piece>, b: seq<Piece>)
    ensures AllCoded([]) && NoPads([])
    ensures NoPads(a) ==> AllCoded(a)
    ensures AllCoded(a) && AllCoded(b) ==> AllCoded(a + b)
    ensures NoPads(a) && NoPads(b) ==> NoPads(a + b)
  {
  }

  /** With any number of odd gaps: exactly when the data bits and the pads among
      them are well spaced. */
  lemma CodedTrackGapsExactly(t: TrackDesc, rng: Rng, drawn: nat)
    requires Acceptable(t) && !Unformatted(t) && CodedBlocks(t.blocks.value)
    ensures AllCoded(PiecesOf(t, rng, drawn))
    ensures var ps := PiecesOf(t, rng, drawn);
      NoLongGap(Assembled(t, rng, drawn).cells) <==> WellSpaced(StreamBits(ps), StreamPads(ps), false)
  {
    hide Assembled, TrackPieces, NoLongGap, WellSpaced;
    AssembledPieces(t, rng, drawn);
    PiecesCoded(t.blocks.value, rng, drawn);
    CodedGapsExactly(PiecesOf(t, rng, drawn), false);
  }

  /** The 1 cells of such a track always stay apart, */
  lemma TrackOnesApart(t: TrackDesc, rng: Rng, drawn: nat)
    requires Acceptable(t) && !Unformatted(t) && CodedBlocks(t.blocks.value)
    ensures NoAdjacentOnes(Assembled(t, rng, drawn).cells)
  {
    hide Assembled, TrackPieces, NoAdjacentOnes;
    TrackOnesExactly(t, rng, drawn);
    PiecesCoded(t.blocks.value, rng, drawn);
  }

  /** and with even gaps it keeps the whole law across every seam. */
  lemma TrackLaw(t: TrackDesc, rng: Rng, drawn: nat)
    requires Acceptable(t) && !Unformatted(t)
    requires CodedBlocks(t.blocks.value) && EvenGaps(t.blocks.value)
    ensures NoAdjacentOnes(Assembled(t, rng, drawn).cells) && NoLongGap(Assembled(t, rng, drawn).cells)
  {
    hide Assembled, TrackPieces, NoAdjacentOnes, NoLongGap, WellSpaced;
    TrackOnesApart(t, rng, drawn);
    CodedTrackGapsExactly(t, rng, drawn);
    var ps := PiecesOf(t, rng, drawn);
    PiecesCoded(t.blocks.value, rng, drawn);
    NoStreamPads(ps);
    NoPadsFit(StreamBits(ps), StreamPads(ps), false);
  }

  // ----- odd gaps that break the bound

  lemma EvenGap(b: Build, block: Block)
    requires block.gapBits % 2 == 0
    ensures AddGap(b, block) == Coded(b, block.GapFill())
  {
  }

  lemma TwoBlocks(b: Build, x: Block, y: Block, rng: Rng)
    requires Accounted(x) && Accounted(y)
    ensures AddBlocks(b, [x, y], rng) == Some(AddGap(AddData(AddGap(AddData(b, x, rng), x), y, rng), y))
  {
    hide AddData, AddGap, Accounted;
    assert [x, y][1..] == [y];
    DataExtends(b, x, rng);
    var mid := AddGap(AddData(b, x, rng), x);
    DataExtends(mid, y, rng);
    assert AddBlocks(mid, [y], rng) == AddBlocks(AddGap(AddData(mid, y, rng), y), [y][1..], rng);
  }

  const ONE := Block(2, 1, 4, 0, [DataElem(Data, 1, [0x80])], [], [])
  const ZERO_ONE := Block(4, 0, 4, 0, [DataElem(Data, 2, [0x40])], [], [])
  const ODD_TRACK := TrackDesc(false, 2, 2, 64, 6, 1, 7, 0, Some([ONE, ZERO_ONE]))

  /** The family is not empty: a 1, an odd gap, then 01 leaves four 0 cells. */
  lemma OddGapExample(rng: Rng)
    ensures ODD_TRACK.Valid() && Acceptable(ODD_TRACK) && !Unformatted(ODD_TRACK) && CodedBlocks(ODD_TRACK.blocks.value)
    ensures !NoLongGap(Assembled(ODD_TRACK, rng, 0).cells)
  {
    hide AddBlocks, AddData, AddGap, Accounted;
    ExampleAccounts();
    AccountedPair();
    TwoBlocks(START, ONE, ZERO_ONE, rng);
    ExampleFront(rng);
    var mid := AddGap(AddData(START, ONE, rng), ONE);
    ExampleBack(mid, rng);
    var c := Assembled(ODD_TRACK, rng, 0).cells;
    assert c == [false, true, false] + [false, false, false, true];
    assert Blank(c, 2);
  }

  lemma ExampleFront(rng: Rng)
    ensures var b := AddGap(AddData(START, ONE, rng), ONE); b.cells == [false, true, false] && b.last
  {
    hide CellsOf, AddElements, AddData, AddGap, Encode, Coded;
    OneElement(START, ONE, rng);
    ExampleBits();
    CodedOne(START, true);
    var b := AddData(START, ONE, rng);
    assert b == Coded(START, [true]);
    OddGapOnly(b, ONE);
  }

  lemma CodedOne(b: Build, d: bool)
    ensures Coded(b, [d]) == Build(b.cells + [!b.last && !d, d], d, b.drawn)
  {
  }

  lemma OddGapOnly(b: Build, block: Block)
    requires block.gapBits == 1
    ensures AddGap(b, block) == Build(b.cells + [false], b.last, b.drawn)
  {
  }

  lemma ExampleBack(mid: Build, rng: Rng)
    requires mid.last
    ensures AddGap(AddData(mid, ZERO_ONE, rng), ZERO_ONE).cells == mid.cells + [false, false, false, true]
  {
    hide CellsOf, AddElements;
    OneElement(mid, ZERO_ONE, rng);
    ExampleBits();
    ExampleCode();
    var b := AddData(mid, ZERO_ONE, rng);
    assert b == Coded(mid, [false, true]);
    assert ZERO_ONE.GapFill() == [];
    EvenGap(b, ZERO_ONE);
    assert Encode([], b.last) == [];
  }

  lemma ExampleCode()
    ensures Encode([false, true], true) == [false, false, false, true]
  {
  }

  lemma ExampleBits()
    ensures SampleBits([0x80], 1) == [true] && SampleBits([0x40], 2) == [false, true]
  {
    assert CellsOf(0x80)[0] && !CellsOf(0x40)[0] && CellsOf(0x40)[1];
  }

  lemma ExampleAccounts()
    ensures Accounted(ONE) && Accounted(ZERO_ONE)
    ensures SumData([ONE, ZERO_ONE]) == 6 && SumGap([ONE, ZERO_ONE]) == 1
  {
    assert ONE.data[1..] == [] && ZERO_ONE.data[1..] == [];
    assert ElementsLength(ONE.data, true) == 2 && ElementsLength(ZERO_ONE.data, true) == 4;
    assert [ONE, ZERO_ONE][1..] == [ZERO_ONE] && [ZERO_ONE][1..] == [];
    assert SumData([ZERO_ONE]) == 4 && SumGap([ZERO_ONE]) == 0;
  }

  lemma AccountedPair()
    requires Accounted(ONE) && Accounted(ZERO_ONE)
    ensures AllAccounted([ONE, ZERO_ONE])
  {
  }

  lemma OneElement(b: Build, block: Block, rng: Rng)
    requires |block.data| == 1
    ensures AddData(b, block, rng) == AddElement(b, block.data[0], block.DataInBit(), rng)
  {
    hide AddElement;
    var inBit := block.DataInBit();
    var next := AddElement(b, block.data[0], inBit, rng);
    assert block.data[1..] == [];
    assert AddElements(b, block.data, inBit, rng) == AddElements(next, [], inBit, rng);
  }
}
