/** The cyclic reader as the program runs it, by shifts and masks on packed
    bytes (Scanner in src/ipf_decode.cpp). */
module IpfReader {
  import opened Bits
  import opened Bitcells
  import opened Mfm
  import opened IpfScanner
  import Cyclic

  // ----- single bits

  /** The byte 0x80 >> j. */
  function Mask(j: nat): byte
    requires j < 8
  {
    Shr(0x80, j)
  }

  /** The byte 0xc0 >> (j - 1), for bit j and the one before it. */
  function PairMask(j: nat): byte
    requires 1 <= j < 8
  {
    Or(Mask(j - 1), Mask(j))
  }

  /** The byte ~((1 << w) - 1). */
  function HighMask(w: nat): byte
    requires w < 8
  {
    Shl(0xff, w)
  }

  lemma AllBits()
    ensures forall k :: 0 <= k < 8 ==> Cell(0xff, k)
  {
  }

  lemma MasksAre(j: nat)
    requires j < 8
    ensures forall k :: 0 <= k < 8 ==> Cell(Mask(j), k) == (k == j)
    ensures j >= 1 ==> forall k :: 0 <= k < 8 ==> Cell(PairMask(j), k) == (k == j || k == j - 1)
    ensures forall k :: 0 <= k < 8 ==> Cell(HighMask(j), k) == (k < 8 - j)
  {
    hide CellsOf, Shl, Shr, Or;
    MaskCells(j);
    if j >= 1 { MaskCells(j - 1); }
    AllBits();
  }

  lemma AndZero(a: byte, b: byte)
    ensures And(a, b) == 0 <==> forall k :: 0 <= k < 8 ==> !(Cell(a, k) && Cell(b, k))
  {
    hide CellsOf;
    NoCells();
    if forall k :: 0 <= k < 8 ==> !(Cell(a, k) && Cell(b, k)) {
      SameCells(And(a, b), 0);
    }
  }

  /** Only bit j may be set, and it is v. */
  ghost predicate OneBit(b: byte, j: nat, v: bool) { forall k :: 0 <= k < 8 ==> Cell(b, k) == (k == j && v) }

  function LeftBit(b: byte, s: nat, j: nat): byte
    requires j + s < 8
  {
    And(Shl(b, s), Mask(j))
  }

  function RightBit(b: byte, s: nat, j: nat): byte
    requires s <= j < 8
  {
    And(Shr(b, s), Mask(j))
  }

  /** The mask of bit j if that bit and the one before it are both zero. */
  function GoodBit(dat: byte, j: nat): byte
    requires 1 <= j < 8
  {
    if And(dat, PairMask(j)) == 0 then Mask(j) else 0
  }

  function FirstGoodBit(dat: byte, last: byte): byte {
    if And(dat, Mask(0)) == 0 && And(last, Mask(7)) == 0 then Mask(0) else 0
  }

  lemma LeftBitIs(b: byte, s: nat, j: nat)
    requires j + s < 8
    ensures OneBit(LeftBit(b, s, j), j, Cell(b, j + s))
  {
    hide CellsOf, And, Shl, Mask;
    MasksAre(j);
  }

  lemma RightBitIs(b: byte, s: nat, j: nat)
    requires s <= j < 8
    ensures OneBit(RightBit(b, s, j), j, Cell(b, j - s))
  {
    hide CellsOf, And, Shr, Mask;
    MasksAre(j);
  }

  lemma GoodBitIs(dat: byte, j: nat)
    requires 1 <= j < 8
    ensures OneBit(GoodBit(dat, j), j, !Cell(dat, j - 1) && !Cell(dat, j))
  {
    hide CellsOf, And, Mask, PairMask;
    NoCells();
    MasksAre(j);
    AndZero(dat, PairMask(j));
  }

  lemma FirstGoodBitIs(dat: byte, last: byte)
    ensures OneBit(FirstGoodBit(dat, last), 0, !Cell(last, 7) && !Cell(dat, 0))
  {
    hide CellsOf, And, Mask;
    NoCells();
    MasksAre(0);
    MasksAre(7);
    AndZero(dat, Mask(0));
    AndZero(last, Mask(7));
  }

  // ----- eight bits together

  function OrAll(x: seq<byte>): byte { if x == [] then 0 else Or(OrAll(x[..|x| - 1]), x[|x| - 1]) }

  /** Bits laid side by side make up the byte. */
  lemma {:induction false} OrBits(x: seq<byte>, v: seq<bool>)
    requires |x| == |v| <= 8
    requires forall i :: 0 <= i < |x| ==> OneBit(x[i], i, v[i])
    ensures forall k :: 0 <= k < 8 ==> Cell(OrAll(x), k) == (k < |v| && v[k])
  {
    hide CellsOf, Or;
    NoCells();
    if x != [] {
      var n := |x| - 1;
      OrBits(x[..n], v[..n]);
      assert OneBit(x[n], n, v[n]);
    }
  }

  lemma EightBits(x: seq<byte>, v: seq<bool>)
    requires |x| == |v| == 8
    requires forall i :: 0 <= i < 8 ==> OneBit(x[i], i, v[i])
    ensures CellsOf(OrAll(x)) == v
  {
    hide CellsOf, OrAll;
    OrBits(x, v);
    forall k | 0 <= k < 8 ensures CellsOf(OrAll(x))[k] == v[k] { assert Cell(OrAll(x), k) == v[k]; }
  }

  /** The even cells of two bytes: their clocks. */
  function Clocks(b1: byte, b2: byte): byte {
    OrAll([LeftBit(b1, 0, 0), LeftBit(b1, 1, 1), LeftBit(b1, 2, 2), LeftBit(b1, 3, 3),
           RightBit(b2, 4, 4), RightBit(b2, 3, 5), RightBit(b2, 2, 6), RightBit(b2, 1, 7)])
  }

  /** The odd cells: their data. */
  function Datas(b1: byte, b2: byte): byte {
    OrAll([LeftBit(b1, 1, 0), LeftBit(b1, 2, 1), LeftBit(b1, 3, 2), LeftBit(b1, 4, 3),
           RightBit(b2, 3, 4), RightBit(b2, 2, 5), RightBit(b2, 1, 6), RightBit(b2, 0, 7)])
  }

  /** The clocks the data call for. */
  function Goods(dat: byte, last: byte): byte {
    OrAll([FirstGoodBit(dat, last), GoodBit(dat, 1), GoodBit(dat, 2), GoodBit(dat, 3),
           GoodBit(dat, 4), GoodBit(dat, 5), GoodBit(dat, 6), GoodBit(dat, 7)])
  }

  lemma ClocksAre(b1: byte, b2: byte)
    ensures CellsOf(Clocks(b1, b2)) == ClockOf(CellsOf(b1) + CellsOf(b2))
  {
    hide CellsOf, OrAll, LeftBit, RightBit, OneBit;
    var v := ClockOf(CellsOf(b1) + CellsOf(b2));
    LeftBitIs(b1, 0, 0); LeftBitIs(b1, 1, 1); LeftBitIs(b1, 2, 2); LeftBitIs(b1, 3, 3);
    RightBitIs(b2, 4, 4); RightBitIs(b2, 3, 5); RightBitIs(b2, 2, 6); RightBitIs(b2, 1, 7);
    EightBits([LeftBit(b1, 0, 0), LeftBit(b1, 1, 1), LeftBit(b1, 2, 2), LeftBit(b1, 3, 3),
               RightBit(b2, 4, 4), RightBit(b2, 3, 5), RightBit(b2, 2, 6), RightBit(b2, 1, 7)], v);
  }

  lemma DatasAre(b1: byte, b2: byte)
    ensures CellsOf(Datas(b1, b2)) == DataOf(CellsOf(b1) + CellsOf(b2))
  {
    hide CellsOf, OrAll, LeftBit, RightBit, OneBit;
    var v := DataOf(CellsOf(b1) + CellsOf(b2));
    LeftBitIs(b1, 1, 0); LeftBitIs(b1, 2, 1); LeftBitIs(b1, 3, 2); LeftBitIs(b1, 4, 3);
    RightBitIs(b2, 3, 4); RightBitIs(b2, 2, 5); RightBitIs(b2, 1, 6); RightBitIs(b2, 0, 7);
    EightBits([LeftBit(b1, 1, 0), LeftBit(b1, 2, 1), LeftBit(b1, 3, 2), LeftBit(b1, 4, 3),
               RightBit(b2, 3, 4), RightBit(b2, 2, 5), RightBit(b2, 1, 6), RightBit(b2, 0, 7)], v);
  }

  lemma GoodsAre(dat: byte, last: byte)
    ensures CellsOf(Goods(dat, last)) == GoodClocks(CellsOf(dat), Cell(last, 7))
  {
    hide CellsOf, OrAll, FirstGoodBit, GoodBit, OneBit;
    var v := GoodClocks(CellsOf(dat), Cell(last, 7));
    FirstGoodBitIs(dat, last);
    GoodBitIs(dat, 1); GoodBitIs(dat, 2); GoodBitIs(dat, 3); GoodBitIs(dat, 4);
    GoodBitIs(dat, 5); GoodBitIs(dat, 6); GoodBitIs(dat, 7);
    EightBits([FirstGoodBit(dat, last), GoodBit(dat, 1), GoodBit(dat, 2), GoodBit(dat, 3),
               GoodBit(dat, 4), GoodBit(dat, 5), GoodBit(dat, 6), GoodBit(dat, 7)], v);
  }

  // ----- one byte

  lemma UnalignedCell(buf: seq<byte>, pos: nat, k: nat)
    requires pos + 16 <= 8 * |buf| && k < 8
    ensures var shift := pos % 8;
      CellAt(buf, pos + k)
        == if k + shift < 8 then Cell(buf[pos / 8], k + shift) else Cell(buf[pos / 8 + 1], k + shift - 8)
  {
  }

  /** The byte at bit position pos, running on into the next one. */
  function Unaligned(buf: seq<byte>, pos: nat): byte
    requires pos + 16 <= 8 * |buf|
  {
    var off, shift := pos / 8, pos % 8;
    if shift == 0 then buf[off] else Or(Shl(buf[off], shift), Shr(buf[off + 1], 8 - shift))
  }

  lemma UnalignedCells(buf: seq<byte>, pos: nat, k: nat)
    requires pos + 16 <= 8 * |buf| && k < 8
    ensures Cell(Unaligned(buf, pos), k) == CellAt(buf, pos + k)
  {
    hide CellsOf, Or, Shl, Shr, CellAt;
    UnalignedCell(buf, pos, k);
  }

  /** The byte with its w last bits taken from the front of another. */
  function Wrapped(b: byte, first: byte, w: nat): byte
    requires w < 8
  {
    Or(And(b, HighMask(w)), Shr(first, 8 - w))
  }

  lemma WrappedCells(b: byte, first: byte, w: nat, k: nat)
    requires w < 8 && k < 8
    ensures Cell(Wrapped(b, first, w), k) == if k < 8 - w then Cell(b, k) else Cell(first, k - (8 - w))
  {
    hide CellsOf, And, Or, Shr, HighMask;
    MasksAre(w);
  }

  // ----- the reader

  class Scanner {
    const buf: seq<byte>
    const nbits: nat
    var pos: nat
    var lastPos: nat
    var wrapped: bool
    var lastData: byte
    var decoded: seq<byte>

    /** The buffer is the packed track with two spare bytes behind it. */
    ghost predicate Valid() reads this { nbits >= 8 && |buf| == (nbits + 7) / 8 + 2 && pos < nbits }

    ghost function Track(): (c: seq<bool>)
      requires Valid()
      reads this
      ensures |c| == nbits
    {
      Cells(Rev(buf, nbits))
    }

    constructor (track: Rev)
      requires track.nbits >= 8 && |track.bits| == (track.nbits + 7) / 8
      ensures Valid() && Track() == Cells(track)
      ensures pos == 0 && !wrapped && lastData == 0 && decoded == []
    {
      buf, nbits := track.bits + [0, 0], track.nbits;
      pos, lastPos, wrapped, lastData, decoded := 0, 0, false, 0, [];
    }

    method ReadByte() returns (b: byte)
      requires Valid()
      modifies this`pos, this`wrapped
      ensures Valid()
      ensures CellsOf(b) == Window(Track(), old(pos), 8)
      ensures pos == (old(pos) + 8) % nbits
      ensures wrapped == (old(wrapped) || old(pos) + 8 >= nbits)
    {
      hide CellsOf, Wrapped, Unaligned, Cells, CellAt, Window;
      var start := pos;
      b := Unaligned(buf, pos);
      pos := pos + 8;
      if pos >= nbits {
        var wrapbits := pos - nbits;
        // The position is inside the track, so fewer than eight cells wrap.
        b := Wrapped(b, buf[0], wrapbits);
        pos := pos - nbits;
        wrapped := true;
      }
      ByteIsWindow(buf, nbits, start, b);
      NextBytePos(start, nbits);
    }

    /** The clock-error byte and the data byte of the next sixteen cells. */
    method ReadWord() returns (w: Word)
      requires Valid()
      modifies this
      ensures Valid()
      ensures w == WordAt(Track(), old(pos), old(lastData))
      ensures pos == (old(pos) + 16) % nbits && lastPos == old(pos)
      ensures wrapped == (old(wrapped) || old(pos) + 16 >= nbits)
      ensures lastData == w.data && decoded == old(decoded) + [w.data]
    {
      hide CellsOf, Clocks, Datas, Goods, Xor, Cells, Window, WordAt, ClockOf, DataOf, GoodClocks;
      lastPos := pos;
      var b1 := ReadByte();
      var b2 := ReadByte();
      ghost var track := Track();
      var clock, dat := Clocks(b1, b2), Datas(b1, b2);
      var good := Goods(dat, lastData);
      TwoBytes(track, lastPos, b1, b2);
      ClocksAre(b1, b2);
      DatasAre(b1, b2);
      GoodsAre(dat, lastData);
      WordIs(track, lastPos, lastData, clock, dat, good);
      NextWordPos(lastPos, nbits);
      w := Word(Xor(clock, good), dat);
      decoded := decoded + [dat];
      lastData := dat;
    }

    /** A sector's worth of words, one after the other. */
    method ReadWords(n: nat) returns (words: seq<Word>)
      requires Valid()
      modifies this
      ensures Valid()
      ensures words == ReadRun(Track(), old(pos), old(lastData), n)
      ensures pos == (old(pos) + 16 * n) % nbits
      ensures wrapped == (old(wrapped) || old(pos) + 16 * n >= nbits)
      ensures decoded == old(decoded) + seq(n, i requires 0 <= i < n => words[i].data)
    {
      hide WordAt, Cells, Window;
      words := [];
      ghost var track, start, all := Track(), pos, ReadRun(Track(), pos, lastData, n);
      NoStep(start, nbits);
      for i := 0 to n
        invariant Valid() && |words| == i
        invariant words + ReadRun(track, pos, lastData, n - i) == all
        invariant pos == (start + 16 * i) % nbits
        invariant wrapped == (old(wrapped) || start + 16 * i >= nbits)
        invariant decoded == old(decoded) + seq(i, j requires 0 <= j < i => words[j].data)
      {
        ghost var at, last, taken := pos, lastData, words;
        var w := ReadWord();
        RunStep(track, at, last, n - i);
        words := words + [w];
        assert words + ReadRun(track, pos, lastData, n - i - 1) == taken + ReadRun(track, at, last, n - i);
        StepPos(start, i, at, nbits);
      }
    }
  }

  lemma NoStep(pos: nat, n: nat)
    requires pos < n
    ensures pos == (pos + 16 * 0) % n
  {
  }

  lemma RunStep(track: seq<bool>, pos: nat, last: byte, n: nat)
    requires track != [] && n > 0
    ensures var w := WordAt(track, pos, last);
      ReadRun(track, pos, last, n) == [w] + ReadRun(track, (pos + 16) % |track|, w.data, n - 1)
  {
  }

  lemma StepPos(start: nat, i: nat, at: nat, n: nat)
    requires start < n && at == (start + 16 * i) % n
    ensures (at + 16) % n == (start + 16 * (i + 1)) % n
    ensures start + 16 * i >= n || at + 16 >= n <==> start + 16 * (i + 1) >= n
  {
    Cyclic.ModSum(16, start + 16 * i, n);
    if start + 16 * i < n { Cyclic.ModIs(start + 16 * i, n, 0, start + 16 * i); }
  }

  lemma WindowCell(buf: seq<byte>, nbits: nat, pos: nat, k: nat)
    requires 8 <= nbits && pos < nbits && k < 8 && nbits <= 8 * |buf|
    ensures Window(Cells(Rev(buf, nbits)), pos, 8)[k]
      == CellAt(buf, if pos + k < nbits then pos + k else pos + k - nbits)
  {
    hide CellAt, Cells, Window;
    if pos + k < nbits { Cyclic.ModIs(pos + k, nbits, 0, pos + k); }
    if pos + k >= nbits { Cyclic.ModIs(pos + k, nbits, 1, pos + k - nbits); }
  }

  lemma ByteIsWindow(buf: seq<byte>, nbits: nat, pos: nat, b: byte)
    requires nbits >= 8 && |buf| == (nbits + 7) / 8 + 2 && pos < nbits
    requires b == if pos + 8 >= nbits then Wrapped(Unaligned(buf, pos), buf[0], pos + 8 - nbits)
                  else Unaligned(buf, pos)
    ensures CellsOf(b) == Window(Cells(Rev(buf, nbits)), pos, 8)
  {
    hide CellsOf, CellAt, Cells, Window, Wrapped, Unaligned;
    forall k | 0 <= k < 8 ensures CellsOf(b)[k] == Window(Cells(Rev(buf, nbits)), pos, 8)[k] {
      WindowCell(buf, nbits, pos, k);
      UnalignedCells(buf, pos, k);
      if pos + 8 >= nbits { WrappedCells(Unaligned(buf, pos), buf[0], pos + 8 - nbits, k); }
      if pos + k >= nbits { FirstByte(buf, pos + k - nbits); }
      assert CellsOf(b)[k] == Cell(b, k);
    }
  }

  lemma FirstByte(buf: seq<byte>, k: nat)
    requires k < 8 && buf != []
    ensures CellAt(buf, k) == Cell(buf[0], k)
  {
  }

  lemma NextBytePos(pos: nat, n: nat)
    requires n >= 8 && pos < n
    ensures (pos + 8) % n == if pos + 8 >= n then pos + 8 - n else pos + 8
  {
  }

  lemma TwoBytes(track: seq<bool>, pos: nat, b1: byte, b2: byte)
    requires track != []
    requires CellsOf(b1) == Window(track, pos, 8) && CellsOf(b2) == Window(track, (pos + 8) % |track|, 8)
    ensures Window(track, pos, 16) == CellsOf(b1) + CellsOf(b2)
  {
    hide CellsOf, Window;
    WindowSplit(track, pos, 8, 8);
  }

  lemma WordIs(track: seq<bool>, pos: nat, last: byte, clock: byte, dat: byte, good: byte)
    requires track != []
    requires CellsOf(clock) == ClockOf(Window(track, pos, 16)) && CellsOf(dat) == DataOf(Window(track, pos, 16))
    requires CellsOf(good) == GoodClocks(CellsOf(dat), Cell(last, 7))
    ensures WordAt(track, pos, last) == Word(Xor(clock, good), dat)
  {
    hide CellsOf, Window, ClockOf, DataOf, GoodClocks, Xor;
    PackCells(clock);
    PackCells(dat);
    PackCells(good);
  }

  lemma NextWordPos(pos: nat, n: nat)
    requires n >= 8 && pos < n
    ensures ((pos + 8) % n + 8) % n == (pos + 16) % n
    ensures pos + 8 >= n || (pos + 8) % n + 8 >= n <==> pos + 16 >= n
  {
    Cyclic.ModSum(8, pos + 8, n);
    NextBytePos(pos, n);
  }
}
