/** Reading bytes back from a circular stream of MFM cells
    (Scanner in src/ipf_decode.cpp). */
module IpfScanner {
  import opened Bits
  import opened Mfm
  import opened Cyclic

  /** n cells from pos on, around the end of the track. */
  function Window(cells: seq<bool>, pos: nat, n: nat): (r: seq<bool>)
    requires cells != []
    ensures |r| == n && forall k :: 0 <= k < n ==> r[k] == cells[(pos + k) % |cells|]
  {
    seq(n, k requires 0 <= k < n => cells[(pos + k) % |cells|])
  }

  datatype Word = Word(clockError: byte, data: byte)

  /** The data byte under sixteen cells, and which of its clocks are wrong after
      the byte `last`. */
  function WordAt(cells: seq<bool>, pos: nat, last: byte): Word
    requires cells != []
  {
    var w := Window(cells, pos, 16);
    var good := Pack(GoodClocks(DataOf(w), Cell(last, 7)));
    Word(Xor(Pack(ClockOf(w)), good), Pack(DataOf(w)))
  }

  /** n words one after the other. */
  function ReadRun(cells: seq<bool>, pos: nat, last: byte, n: nat): (r: seq<Word>)
    requires cells != []
    ensures |r| == n
    decreases n
  {
    if n == 0 then []
    else
      var w := WordAt(cells, pos, last);
      [w] + ReadRun(cells, (pos + 16) % |cells|, w.data, n - 1)
  }

  // ----- the reader inverts the code

  function BitsOf(bytes: seq<byte>): (r: seq<bool>)
    ensures |r| == 8 * |bytes|
  {
    if bytes == [] then [] else CellsOf(bytes[0]) + BitsOf(bytes[1..])
  }

  /** No clock is wrong exactly when the sixteen cells are the code of the byte read. */
  lemma WordExact(cells: seq<bool>, pos: nat, last: byte)
    requires cells != []
    ensures var w := WordAt(cells, pos, last);
      w.clockError == 0 <==> Window(cells, pos, 16) == Encode(CellsOf(w.data), Cell(last, 7))
  {
    hide Pack, CellsOf, Encode, DataOf, ClockOf, GoodClocks, Window;
    var w := Window(cells, pos, 16);
    var data, clock, good := DataOf(w), ClockOf(w), GoodClocks(DataOf(w), Cell(last, 7));
    CellsPack(data);
    CodeOfByte(w, Cell(last, 7));
    XorZero(clock, good);
  }

  lemma XorZero(a: seq<bool>, b: seq<bool>)
    requires |a| == |b| == 8
    ensures Xor(Pack(a), Pack(b)) == 0 <==> a == b
  {
    hide Pack;
    CellsPack(a);
    CellsPack(b);
    NoCells();
    if a == b {
      SameCells(Xor(Pack(a), Pack(b)), 0);
    } else {
      var k :| 0 <= k < 8 && a[k] != b[k];
      assert Cell(Xor(Pack(a), Pack(b)), k);
    }
  }

  lemma WordReads(cells: seq<bool>, pos: nat, last: byte, b: byte)
    requires cells != [] && Window(cells, pos, 16) == Encode(CellsOf(b), Cell(last, 7))
    ensures WordAt(cells, pos, last) == Word(0, b)
  {
    hide Pack, CellsOf, Encode, DataOf, ClockOf, GoodClocks, Window;
    CodeOfByte(Window(cells, pos, 16), Cell(last, 7));
    PackCells(b);
    WordExact(cells, pos, last);
  }

  lemma ShiftIndex(pos: nat, m: nat, k: nat, n: nat)
    requires n > 0
    ensures ((pos + m) % n + k) % n == (pos + (m + k)) % n
  {
    var a := (pos + m) % n;
    ModSum(k, pos + m, n);
    assert k + a == a + k && k + (pos + m) == pos + (m + k);
  }

  lemma WindowSplit(cells: seq<bool>, pos: nat, m: nat, n: nat)
    requires cells != []
    ensures Window(cells, pos, m + n) == Window(cells, pos, m) + Window(cells, (pos + m) % |cells|, n)
  {
    var a, b, c := Window(cells, pos, m + n), Window(cells, pos, m), Window(cells, (pos + m) % |cells|, n);
    forall i | 0 <= i < m + n ensures a[i] == (b + c)[i] {
      if i < m {
        assert (b + c)[i] == b[i];
      } else {
        ShiftIndex(pos, m, i - m, |cells|);
        assert (b + c)[i] == c[i - m] == cells[((pos + m) % |cells| + (i - m)) % |cells|];
      }
    }
  }

  /** Where the stream holds the code of some bytes, reading gives back those
      bytes, every clock right. */
  lemma {:induction false} RunReads(cells: seq<bool>, pos: nat, last: byte, bytes: seq<byte>)
    requires cells != [] && Window(cells, pos, 16 * |bytes|) == Encode(BitsOf(bytes), Cell(last, 7))
    ensures forall i :: 0 <= i < |bytes| ==> ReadRun(cells, pos, last, |bytes|)[i] == Word(0, bytes[i])
    decreases |bytes|
  {
    hide CellsOf, Encode, WordAt, Window;
    if bytes != [] {
      var head, rest, n := CellsOf(bytes[0]), bytes[1..], 16 * |bytes[1..]|;
      EncodeConcat(head, BitsOf(rest), Cell(last, 7));
      WindowSplit(cells, pos, 16, n);
      var w, v := Window(cells, pos, 16), Window(cells, (pos + 16) % |cells|, n);
      SplitEqual(w, v, Encode(head, Cell(last, 7)), Encode(BitsOf(rest), Cell(bytes[0], 7)));
      WordReads(cells, pos, last, bytes[0]);
      RunReads(cells, (pos + 16) % |cells|, bytes[0], rest);
    }
  }

  lemma SplitEqual(a: seq<bool>, b: seq<bool>, c: seq<bool>, d: seq<bool>)
    requires |a| == |c| && a + b == c + d
    ensures a == c && b == d
  {
    assert (a + b)[..|a|] == a && (c + d)[..|a|] == c;
    assert (a + b)[|a|..] == b && (c + d)[|a|..] == d;
  }

  // ----- the positions

  /** Where the reader stands after a byte. */
  function NextPos(nbits: nat, pos: nat): nat { if pos + 8 >= nbits then pos + 8 - nbits else pos + 8 }

  /** Eight cells are the least track on which the reader keeps its place. */
  lemma ShortestTrack(nbits: nat)
    requires nbits > 0
    ensures (forall pos :: 0 <= pos < nbits ==> NextPos(nbits, pos) == (pos + 8) % nbits) <==> nbits >= 8
  {
    if nbits < 8 {
      assert NextPos(nbits, nbits - 1) != (nbits - 1 + 8) % nbits;
    }
  }
}
