/** The bytes of a decoded IPF track under the reader. */
module IpfProofs {
  import opened Bits
  import opened Bytes
  import opened Wrappers
  import opened Mfm
  import opened IpfGap
  import opened IpfTrack
  import opened IpfScanner
  import opened Cyclic

  // ----- the bytes of a data element come back

  /** The stream just before element k of block i. */
  ghost function BeforeElement(t: TrackDesc, rng: Rng, drawn: nat, i: nat, k: nat): Build
    requires t.Valid() && Acceptable(t) && !Unformatted(t) && i < t.blockCount
    requires k <= |t.blocks.value[i].data|
  {
    BlockPlaced(t, rng, drawn, i);
    var block := t.blocks.value[i];
    AddElements(After(START.(drawn := drawn), t.blocks.value, i, rng).value, block.data[..k], block.DataInBit(), rng)
  }

  lemma {:induction false} ElementsConcat(b: Build, p: seq<DataElem>, q: seq<DataElem>, inBit: bool, rng: Rng)
    ensures AddElements(b, p + q, inBit, rng) == AddElements(AddElements(b, p, inBit, rng), q, inBit, rng)
    decreases |p|
  {
    hide AddElement;
    if p == [] {
      assert p + q == q;
    } else {
      assert (p + q)[1..] == p[1..] + q;
      ElementsConcat(AddElement(b, p[0], inBit, rng), p[1..], q, inBit, rng);
    }
  }

  /** Element k's cells follow directly on those before it. */
  lemma ElementInBlock(b: Build, block: Block, k: nat, rng: Rng)
    requires k < |block.data|
    ensures var at := AddElements(b, block.data[..k], block.DataInBit(), rng);
      AddElement(at, block.data[k], block.DataInBit(), rng).cells <= AddData(b, block, rng).cells
  {
    hide AddElement;
    var inBit, at := block.DataInBit(), AddElements(b, block.data[..k], block.DataInBit(), rng);
    var rest := block.data[k..];
    assert block.data == block.data[..k] + rest;
    ElementsConcat(b, block.data[..k], rest, inBit, rng);
    assert AddData(b, block, rng) == AddElements(AddElement(at, rest[0], inBit, rng), rest[1..], inBit, rng);
    ElementsExtend(AddElement(at, rest[0], inBit, rng), rest[1..], inBit, rng);
  }

  /** The bits of a whole-byte sample are its bytes' cells. */
  lemma {:induction false} SampleOfBytes(bytes: seq<byte>)
    ensures SampleBits(bytes, 8 * |bytes|) == BitsOf(bytes)
  {
    hide CellsOf;
    if bytes != [] {
      SampleOfBytes(bytes[1..]);
      var s, r := SampleBits(bytes, 8 * |bytes|), SampleBits(bytes[1..], 8 * |bytes[1..]|);
      forall i | 0 <= i < 8 * |bytes| ensures s[i] == (CellsOf(bytes[0]) + r)[i] {
        if i >= 8 { assert bytes[i / 8] == bytes[1..][(i - 8) / 8] && (i - 8) % 8 == i % 8; }
      }
    }
  }

  /** A stretch of the assembly, seen in the turned track. */
  lemma WindowOfTrack(t: TrackDesc, rng: Rng, drawn: nat, off: nat, piece: seq<bool>)
    requires Acceptable(t) && !Unformatted(t)
    requires off + |piece| <= |Assembled(t, rng, drawn).cells|
    requires Assembled(t, rng, drawn).cells[off..off + |piece|] == piece
    ensures Decode(t, rng, drawn).Some? && Decode(t, rng, drawn).value.cells != [] && t.Length() > 0
    ensures Window(Decode(t, rng, drawn).value.cells, (off + t.startBitPos) % t.Length(), |piece|) == piece
  {
    hide Decode, Assembled, Acceptable, Unformatted;
    TrackRotated0(t, rng, drawn);
    var cells := Decode(t, rng, drawn).value.cells;
    var w := Window(cells, (off + t.startBitPos) % t.Length(), |piece|);
    forall k | 0 <= k < |piece| ensures w[k] == piece[k] {
      CellOfTrack(t, rng, drawn, off, k);
      assert piece[k] == Assembled(t, rng, drawn).cells[off + k];
    }
  }

  lemma CellOfTrack(t: TrackDesc, rng: Rng, drawn: nat, off: nat, k: nat)
    requires Acceptable(t) && !Unformatted(t)
    requires off + k < |Assembled(t, rng, drawn).cells|
    ensures t.Length() > 0 && Decode(t, rng, drawn).Some? && |Decode(t, rng, drawn).value.cells| == t.Length()
    ensures Decode(t, rng, drawn).value.cells[((off + t.startBitPos) % t.Length() + k) % t.Length()]
      == Assembled(t, rng, drawn).cells[off + k]
  {
    hide Decode, Assembled, Acceptable, Unformatted;
    TrackRotated0(t, rng, drawn);
    TrackRotated(t, rng, drawn, off + k);
    ModSum(k, off + t.startBitPos, t.Length());
  }

  lemma TrackRotated0(t: TrackDesc, rng: Rng, drawn: nat)
    requires Acceptable(t) && !Unformatted(t)
    ensures t.Length() > 0
    ensures Decode(t, rng, drawn).Some? && |Decode(t, rng, drawn).value.cells| == t.Length()
    ensures |Assembled(t, rng, drawn).cells| == t.Length()
  {
    hide Decode, Assembled;
    TrackRotated(t, rng, drawn, 0);
  }

  /** Reading where a data element was laid down, with the carried bit known,
      gives back exactly its bytes, each with every clock right. */
  lemma ElementReadsBack(t: TrackDesc, rng: Rng, drawn: nat, i: nat, k: nat, last: byte)
    requires t.Valid() && Acceptable(t) && !Unformatted(t) && i < t.blockCount
    requires k < |t.blocks.value[i].data|
    requires var e := t.blocks.value[i].data[k];
      (e.kind == Data || e.kind == IntraGap) && BitCount(e, t.blocks.value[i].DataInBit()) == 8 * |e.sample|
    requires Cell(last, 7) == BeforeElement(t, rng, drawn, i, k).last
    ensures Decode(t, rng, drawn).Some? && Decode(t, rng, drawn).value.cells != []
    ensures var bytes := t.blocks.value[i].data[k].sample;
      var pos := (|BeforeElement(t, rng, drawn, i, k).cells| + t.startBitPos) % t.Length();
      forall j :: 0 <= j < |bytes| ==>
        ReadRun(Decode(t, rng, drawn).value.cells, pos, last, |bytes|)[j] == Word(0, bytes[j])
  {
    hide Decode, Assembled, Acceptable, Encode, BitCount, BeforeElement, ReadRun, BitsOf;
    ElementPlaced(t, rng, drawn, i, k);
    PieceReads(t, rng, drawn, |BeforeElement(t, rng, drawn, i, k).cells|, last, BlocksOf(t)[i].data[k].sample);
  }

  ghost function BlocksOf(t: TrackDesc): (r: seq<Block>)
    requires Acceptable(t) && !Unformatted(t)
    ensures t.blocks == Some(r)
  {
    t.blocks.value
  }

  /** Bytes whose code stands somewhere in the assembly are read back there. */
  lemma PieceReads(t: TrackDesc, rng: Rng, drawn: nat, off: nat, last: byte, bytes: seq<byte>)
    requires Acceptable(t) && !Unformatted(t)
    requires var all, n := Assembled(t, rng, drawn).cells, 16 * |bytes|;
      off + n <= |all| && all[off..off + n] == Encode(BitsOf(bytes), Cell(last, 7))
    ensures Decode(t, rng, drawn).Some? && Decode(t, rng, drawn).value.cells != [] && t.Length() > 0
    ensures forall j :: 0 <= j < |bytes| ==>
      ReadRun(Decode(t, rng, drawn).value.cells, (off + t.startBitPos) % t.Length(), last, |bytes|)[j]
        == Word(0, bytes[j])
  {
    hide Decode, Assembled, Acceptable, Unformatted, Encode, CellsOf, Window, ReadRun, BitsOf;
    WindowOfTrack(t, rng, drawn, off, Encode(BitsOf(bytes), Cell(last, 7)));
    RunReads(Decode(t, rng, drawn).value.cells, (off + t.startBitPos) % t.Length(), last, bytes);
  }

  /** A whole-byte data element is laid down as the code of its bytes. */
  lemma ElementPlaced(t: TrackDesc, rng: Rng, drawn: nat, i: nat, k: nat)
    requires t.Valid() && Acceptable(t) && !Unformatted(t) && i < t.blockCount
    requires k < |t.blocks.value[i].data|
    requires var e := t.blocks.value[i].data[k];
      (e.kind == Data || e.kind == IntraGap) && BitCount(e, t.blocks.value[i].DataInBit()) == 8 * |e.sample|
    ensures var b := BeforeElement(t, rng, drawn, i, k);
      var piece, all := Encode(BitsOf(t.blocks.value[i].data[k].sample), b.last), Assembled(t, rng, drawn).cells;
      |b.cells| + |piece| <= |all| && all[|b.cells|..|b.cells| + |piece|] == piece
  {
    hide Assembled, AddGap, AddData, Encode, CellsOf, BitCount, AddElements;
    var block := t.blocks.value[i];
    var bytes, b := block.data[k].sample, BeforeElement(t, rng, drawn, i, k);
    BlockPlaced(t, rng, drawn, i);
    ElementInBlock(After(START.(drawn := drawn), t.blocks.value, i, rng).value, block, k, rng);
    SampleOfBytes(bytes);
    PrefixPiece(b.cells, Encode(BitsOf(bytes), b.last), Assembled(t, rng, drawn).cells);
  }

  lemma PrefixPiece(a: seq<bool>, b: seq<bool>, all: seq<bool>)
    requires a + b <= all
    ensures |a| + |b| <= |all| && all[|a|..|a| + |b|] == b
  {
  }

  // ----- every element and every gap where it belongs

  /** The cells of an element after the carried bit: raw samples as they are,
      samples and weak bits encoded, nothing for an unknown kind. */
  function ElementCells(e: DataElem, n: nat, last: bool, drawn: nat, rng: Rng): seq<bool> {
    match e.kind
    case Sync | Raw => SampleBits(e.sample, n)
    case Data | IntraGap => Encode(SampleBits(e.sample, n), last)
    case Fuzzy => Encode(Draw(rng, drawn, n), last)
    case Unknown => []
  }

  /** In every accepted track the cells of element k of block i stand in the
      returned track where the stream had got to, turned with it. */
  lemma ElementStands(t: TrackDesc, rng: Rng, drawn: nat, i: nat, k: nat)
    requires t.Valid() && Acceptable(t) && !Unformatted(t) && i < t.blockCount && k < |t.blocks.value[i].data|
    ensures Decode(t, rng, drawn).Some? && Decode(t, rng, drawn).value.cells != [] && t.Length() > 0
    ensures var e, b := t.blocks.value[i].data[k], BeforeElement(t, rng, drawn, i, k);
      var n := if t.blocks.value[i].flags / 4 % 2 == 1 then e.size else U32(e.size * 8);
      var piece := ElementCells(e, n, b.last, b.drawn, rng);
      Window(Decode(t, rng, drawn).value.cells, (|b.cells| + t.startBitPos) % t.Length(), |piece|) == piece
  {
    hide Assembled, AddGap, AddData, Encode, CellsOf, AddElements, Decode, Window;
    var block := t.blocks.value[i];
    var e, b := block.data[k], BeforeElement(t, rng, drawn, i, k);
    BlockPlaced(t, rng, drawn, i);
    ElementInBlock(After(START.(drawn := drawn), t.blocks.value, i, rng).value, block, k, rng);
    var piece := ElementCells(e, BitCount(e, block.DataInBit()), b.last, b.drawn, rng);
    ElementAdds(b, e, block.DataInBit(), rng);
    PrefixPiece(b.cells, piece, Assembled(t, rng, drawn).cells);
    WindowOfTrack(t, rng, drawn, |b.cells|, piece);
  }

  lemma ElementAdds(b: Build, e: DataElem, inBit: bool, rng: Rng)
    ensures AddElement(b, e, inBit, rng).cells == b.cells + ElementCells(e, BitCount(e, inBit), b.last, b.drawn, rng)
  {
    hide Encode;
  }

  /** And behind the data of block i stands its gap: the fill encoded after the
      last data bit, then one 0 cell if the count is odd. */
  lemma GapStands(t: TrackDesc, rng: Rng, drawn: nat, i: nat)
    requires t.Valid() && Acceptable(t) && !Unformatted(t) && i < t.blockCount
    ensures Decode(t, rng, drawn).Some? && Decode(t, rng, drawn).value.cells != [] && t.Length() > 0
    ensures var block := t.blocks.value[i];
      var last := BeforeElement(t, rng, drawn, i, |block.data|).last;
      var piece := GapCells(block, last);
      Window(Decode(t, rng, drawn).value.cells,
             (Offset(t.blocks.value, i) + block.dataBits + t.startBitPos) % t.Length(), |piece|) == piece
  {
    hide Assembled, Encode, AddElements, AddGap, Decode, Window;
    var block := t.blocks.value[i];
    BlockPlaced(t, rng, drawn, i);
    var before := After(START.(drawn := drawn), t.blocks.value, i, rng).value;
    var data := AddData(before, block, rng);
    assert block.data[..|block.data|] == block.data;
    var piece := GapCells(block, data.last);
    GapAdds(data, block);
    PrefixPiece(data.cells, piece, Assembled(t, rng, drawn).cells);
    WindowOfTrack(t, rng, drawn, |data.cells|, piece);
  }

  function GapCells(block: Block, last: bool): seq<bool> { Encode(block.GapFill(), last) + Zeros(block.gapBits % 2) }

  lemma GapAdds(b: Build, block: Block)
    ensures AddGap(b, block).cells == b.cells + GapCells(block, b.last)
  {
    hide Encode;
  }

  // ----- the bit the next clock looks at

  function Final(cells: seq<bool>, back: nat): bool
    requires back < |cells|
  {
    cells[|cells| - 1 - back]
  }

  lemma CodeFinal(bits: seq<bool>, last: bool)
    requires bits != []
    ensures Final(Encode(bits, last), 0) == LastOf(bits, last)
  {
    EncodeAt(bits, last, |bits| - 1);
  }

  /** Behind an element the carried bit is the very last cell, raw or coded; an
      element without cells leaves it alone. */
  lemma ElementCarries(b: Build, e: DataElem, inBit: bool, rng: Rng)
    ensures var r := AddElement(b, e, inBit, rng);
      b.cells <= r.cells && r.last == if |r.cells| == |b.cells| then b.last else Final(r.cells, 0)
  {
    hide Encode, SampleBits, BitCount;
    var n := BitCount(e, inBit);
    if n > 0 {
      CodeFinal(SampleBits(e.sample, n), b.last);
      CodeFinal(Draw(rng, b.drawn, n), b.last);
    }
  }

  /** Behind a gap it is the last coded cell: the odd 0 cell is passed over. */
  lemma GapCarries(b: Build, block: Block)
    ensures var r := AddGap(b, block);
      && b.cells <= r.cells
      && r.last == if block.gapBits < 2 then b.last else Final(r.cells, block.gapBits % 2)
  {
    hide Encode, Gap;
    if block.gapBits >= 2 { CodeFinal(block.GapFill(), b.last); }
  }

  // ----- which tracks decode, and which decode to nothing

  lemma TracksDecode(t: TrackDesc, rng: Rng, drawn: nat)
    ensures var n := t.dataBits + t.gapBits;
      var empty := t.density == 1 || t.blockCount == 0 || t.extraLen == 0 || n == 0;
      && (Decode(t, rng, drawn).Some? <==>
           || empty
           || (n <= 4000000 && (t.trackBits == 0 || t.trackBits == n) && t.blocks.Some?
               && SumData(t.blocks.value) == t.dataBits && SumGap(t.blocks.value) == t.gapBits
               && AllAccounted(t.blocks.value)))
      && (Decode(t, rng, drawn).Some? ==> (Decode(t, rng, drawn).value.cells == [] <==> empty))
  {
    hide Decode, SumData, SumGap, AllAccounted;
    DecodeAccepts(t, rng, drawn);
  }
}
