/** The law of the code around a whole IPF track. A track is a ring: the decoder
    turns the assembled stream to the index, so that the end of the assembly
    meets its start inside the track it returns. */
module IpfRing {
  import opened Bits
  import opened Wrappers
  import opened Mfm
  import opened MfmLaws
  import opened MfmPieces
  import opened IpfGap
  import opened IpfTrack
  import opened IpfScanner
  import opened IpfLaw
  import opened Cyclic

  /** No two neighbours around the ring are 1. */
  predicate OnesApartAround(c: seq<bool>)
    requires c != []
  {
    forall i :: 0 <= i < |c| ==> Window(c, i, 2) != [true, true]
  }

  /** Never more than three 0 cells in a row around the ring. */
  predicate GapsShortAround(c: seq<bool>)
    requires c != []
  {
    forall i :: 0 <= i < |c| ==> Window(c, i, 4) != Zeros(4)
  }

  // ----- a ring from its cells in line

  lemma PairAt(c: seq<bool>, i: nat)
    requires i < |c|
    ensures Window(c, i, 2) == [c[i], if i == |c| - 1 then c[0] else c[i + 1]]
  {
    var n, w := |c|, Window(c, i, 2);
    ModIs(i, n, 0, i);
    ModIs(i + 1, n, if i == n - 1 then 1 else 0, if i == n - 1 then 0 else i + 1);
    assert w[0] == c[i + 0] && w[1] == c[(i + 1) % n];
  }

  lemma OnesAround(c: seq<bool>)
    requires c != []
    ensures OnesApartAround(c) <==> NoAdjacentOnes(c) && !(c[0] && c[|c| - 1])
  {
    hide Window;
    if OnesApartAround(c) {
      forall i | 0 <= i < |c| - 1 ensures !(c[i] && c[i + 1]) { PairAt(c, i); }
      PairAt(c, |c| - 1);
    }
    if NoAdjacentOnes(c) && !(c[0] && c[|c| - 1]) {
      forall i | 0 <= i < |c| ensures Window(c, i, 2) != [true, true] { PairAt(c, i); }
    }
  }

  /** The ring laid out twice in line. */
  lemma TwiceAt(c: seq<bool>, i: nat, k: nat)
    requires c != [] && i + k < 2 * |c|
    ensures (c + c)[i + k] == c[(i % |c| + k) % |c|]
  {
    var n := |c|;
    ModSum(k, i, n);
    ModIs(i + k, n, if i + k < n then 0 else 1, if i + k < n then i + k else i + k - n);
  }

  lemma BlankTwice(c: seq<bool>, i: nat)
    requires c != [] && i + 4 <= 2 * |c|
    ensures Blank(c + c, i) <==> Window(c, i % |c|, 4) == Zeros(4)
  {
    var w := Window(c, i % |c|, 4);
    forall k | 0 <= k < 4 ensures (c + c)[i + k] == w[k] { TwiceAt(c, i, k); }
    assert (c + c)[i] == w[0] && (c + c)[i + 1] == w[1] && (c + c)[i + 2] == w[2] && (c + c)[i + 3] == w[3];
    assert w == Zeros(4) <==> !w[0] && !w[1] && !w[2] && !w[3];
  }

  /** The whole of a ring of at most four cells is in view from every cell. */
  lemma AllInView(c: seq<bool>, i: nat)
    requires c != [] && |c| <= 4 && i < |c| && true in c
    ensures Window(c, i, 4) != Zeros(4)
  {
    var x :| 0 <= x < |c| && c[x];
    var k := if x >= i then x - i else x + |c| - i;
    ModIs(i + k, |c|, if x >= i then 0 else 1, x);
    assert Window(c, i, 4)[k];
  }

  lemma ShortTwice(c: seq<bool>)
    requires c != [] && true in c
    ensures GapsShortAround(c) <==> NoLongGap(c + c)
  {
    hide Window, Blank, Zeros;
    var n := |c|;
    if GapsShortAround(c) {
      forall i | 0 <= i < |c + c| - 3 ensures !Blank(c + c, i) {
        BlankTwice(c, i);
        assert 0 <= i % n < n;
      }
    }
    if NoLongGap(c + c) {
      forall i | 0 <= i < n ensures Window(c, i, 4) != Zeros(4) {
        if n <= 4 {
          AllInView(c, i);
        } else {
          BlankTwice(c, i);
          ModIs(i, n, 0, i);
        }
      }
    }
  }

  /** A ring keeps the bound exactly when its cells in line do, there is a 1
      among them, and the 0 cells at both ends are at most three. */
  lemma GapsAround(c: seq<bool>)
    requires c != []
    ensures GapsShortAround(c) <==> true in c && NoLongGap(c) && Trailing(c) + Leading(c) <= 3
  {
    hide Trailing, Leading, NoLongGap;
    if true in c {
      ShortTwice(c);
      SeamLaw(c, c);
    } else {
      assert Window(c, 0, 4) == Zeros(4);
    }
  }

  // ----- turning

  /** A ring with cell i moved on by s. */
  ghost predicate Turned(all: seq<bool>, cells: seq<bool>, s: nat) {
    |cells| == |all| > 0 && forall i :: 0 <= i < |all| ==> cells[(i + s) % |all|] == all[i]
  }

  lemma RotateTurns(all: seq<bool>, s: nat)
    requires all != []
    ensures Turned(all, Rotate(all, s % |all|), s)
  {
    hide Rotate;
    forall i | 0 <= i < |all| ensures Rotate(all, s % |all|)[(i + s) % |all|] == all[i] {
      RotateAt(all, s % |all|, i);
      ModSum(i, s, |all|);
    }
  }

  lemma TrackTurned(t: TrackDesc, rng: Rng, drawn: nat)
    requires Acceptable(t) && !Unformatted(t)
    ensures Decode(t, rng, drawn).Some?
    ensures Turned(Assembled(t, rng, drawn).cells, Decode(t, rng, drawn).value.cells, t.startBitPos)
  {
    hide AddBlocks, Rotate, AllAccounted, SumData, SumGap, Turned;
    BlocksExtend(START.(drawn := drawn), t.blocks.value, rng);
    RotateTurns(Assembled(t, rng, drawn).cells, t.startBitPos);
  }

  lemma TurnOn(i: nat, s: nat, k: nat, n: nat)
    requires n > 0
    ensures ((i + s) % n + k) % n == ((i + k) % n + s) % n
  {
    ShiftIndex(i, s, k, n);
    ShiftIndex(i, k, s, n);
    assert i + (s + k) == i + (k + s);
  }

  lemma WindowTurned(all: seq<bool>, cells: seq<bool>, s: nat, i: nat, m: nat)
    requires Turned(all, cells, s) && i < |all|
    ensures Window(cells, (i + s) % |all|, m) == Window(all, i, m)
  {
    var n := |all|;
    var v, w := Window(cells, (i + s) % n, m), Window(all, i, m);
    forall k | 0 <= k < m ensures v[k] == w[k] {
      TurnOn(i, s, k, n);
      assert cells[((i + k) % n + s) % n] == all[(i + k) % n];
    }
  }

  /** Every cell of the turned track comes from one of the assembly. */
  lemma TurnedFrom(j: nat, s: nat, n: nat) returns (i: nat)
    requires j < n
    ensures i < n && (i + s) % n == j
  {
    i := (j - s) % n;
    var q := (j - s) / n;
    assert n * (-q) == -(n * q);
    ModIs(i + s, n, -q, j);
  }

  /** What one of the two never shows the other does not either. */
  lemma NeverSeen(all: seq<bool>, cells: seq<bool>, s: nat, w: seq<bool>)
    requires |cells| == |all| > 0 && Turned(all, cells, s)
    ensures (forall j :: 0 <= j < |all| ==> Window(cells, j, |w|) != w)
      <==> (forall i :: 0 <= i < |all| ==> Window(all, i, |w|) != w)
  {
    hide Window, Turned;
    if forall j :: 0 <= j < |all| ==> Window(cells, j, |w|) != w {
      forall i | 0 <= i < |all| ensures Window(all, i, |w|) != w { WindowTurned(all, cells, s, i, |w|); }
    }
    if forall i :: 0 <= i < |all| ==> Window(all, i, |w|) != w {
      forall j | 0 <= j < |all| ensures Window(cells, j, |w|) != w {
        var i := TurnedFrom(j, s, |all|);
        WindowTurned(all, cells, s, i, |w|);
      }
    }
  }

  lemma AroundTurned(t: TrackDesc, rng: Rng, drawn: nat)
    requires Acceptable(t) && !Unformatted(t)
    ensures Decode(t, rng, drawn).Some? && Decode(t, rng, drawn).value.cells != []
    ensures Assembled(t, rng, drawn).cells != []
    ensures OnesApartAround(Decode(t, rng, drawn).value.cells) <==> OnesApartAround(Assembled(t, rng, drawn).cells)
    ensures GapsShortAround(Decode(t, rng, drawn).value.cells) <==> GapsShortAround(Assembled(t, rng, drawn).cells)
  {
    hide Decode, Assembled, Acceptable, Unformatted, Window;
    TrackTurned(t, rng, drawn);
    var all, cells := Assembled(t, rng, drawn).cells, Decode(t, rng, drawn).value.cells;
    NeverSeen(all, cells, t.startBitPos, [true, true]);
    NeverSeen(all, cells, t.startBitPos, Zeros(4));
  }

  // ----- the law around every accepted track

  /** Around the returned track no more than three 0 cells in a row, if and only
      if every piece fits its seam, there is a 1 cell at all, and the 0 cells
      before the end and behind the start of the assembly are at most three. */
  lemma TrackGapsAround(t: TrackDesc, rng: Rng, drawn: nat)
    requires Acceptable(t) && !Unformatted(t)
    ensures Decode(t, rng, drawn).Some? && Decode(t, rng, drawn).value.cells != []
    ensures var ps := PiecesOf(t, rng, drawn);
      var all := StreamCells(ps, false);
      GapsShortAround(Decode(t, rng, drawn).value.cells) <==>
        && (forall i :: 0 <= i < |ps| ==> PieceFits(ps, i, false))
        && true in all && Trailing(all) + Leading(all) <= 3
  {
    hide Decode, Assembled, PiecesOf, PieceFits, GapsShortAround, OnesApartAround, NoLongGap, Trailing, Leading;
    AroundTurned(t, rng, drawn);
    AssembledPieces(t, rng, drawn);
    TrackGapsExactly(t, rng, drawn);
    GapsAround(Assembled(t, rng, drawn).cells);
  }

  /** No two neighbours around the returned track are 1, if and only if the raw
      pieces fit and the assembly does not both start and end with a 1 cell. */
  lemma TrackOnesAround(t: TrackDesc, rng: Rng, drawn: nat)
    requires Acceptable(t) && !Unformatted(t)
    ensures Decode(t, rng, drawn).Some? && Decode(t, rng, drawn).value.cells != []
    ensures StreamCells(PiecesOf(t, rng, drawn), false) != []
    ensures var ps := PiecesOf(t, rng, drawn);
      var all := StreamCells(ps, false);
      OnesApartAround(Decode(t, rng, drawn).value.cells) <==>
        (forall i :: 0 <= i < |ps| ==> OnesFit(ps, i, false)) && !(all[0] && all[|all| - 1])
  {
    hide Decode, Assembled, PiecesOf, OnesFit, GapsShortAround, OnesApartAround, NoAdjacentOnes;
    AroundTurned(t, rng, drawn);
    AssembledPieces(t, rng, drawn);
    TrackOnesExactly(t, rng, drawn);
    OnesAround(Assembled(t, rng, drawn).cells);
  }

  // ----- the ends of code with pads

  lemma {:induction false} LeadingZeros(n: nat, rest: seq<bool>)
    ensures Leading(Zeros(n) + rest) == n + Leading(rest)
  {
    var s := Zeros(n) + rest;
    if n == 0 {
      assert s == rest;
    } else {
      assert !s[0];
      LeadingZeros(n - 1, rest);
      assert s[1..] == Zeros(n - 1) + rest;
    }
  }

  lemma LastCell(s: seq<bool>, front: seq<bool>, d: bool)
    requires s == front + [d]
    ensures Trailing(s) == if d then 0 else 1 + Trailing(front)
  {
    assert s[..|s| - 1] == front;
  }

  lemma {:induction false} TrailingZeros(front: seq<bool>, n: nat)
    ensures Trailing(front + Zeros(n)) == n + Trailing(front)
  {
    hide Trailing;
    if n == 0 {
      assert front + Zeros(0) == front;
    } else {
      TrailingZeros(front, n - 1);
      assert Zeros(n) == Zeros(n - 1) + [false];
      LastCell(front + Zeros(n), front + Zeros(n - 1), false);
    }
  }

  lemma TrailingPair(front: seq<bool>, c: bool, d: bool)
    ensures Trailing(front + [c, d]) == if d then 0 else if c then 1 else 2 + Trailing(front)
  {
    hide Trailing;
    LastCell(front + [c, d], front + [c], d);
    LastCell(front + [c], front, c);
  }

  /** The first data bit gives a 1 cell: its clock or itself. */
  lemma PadCodeLeading(bits: seq<bool>, pads: seq<nat>)
    requires |pads| == |bits| + 1 && bits != []
    ensures Leading(PadCode(bits, pads, false)) == pads[0] + (if bits[0] then 1 else 0)
    ensures true in PadCode(bits, pads, false)
  {
    var rest := PadCode(bits[1..], pads[1..], bits[0]);
    var code := [!bits[0], bits[0]] + rest;
    LeadingZeros(pads[0], code);
    assert code[1..] == [bits[0]] + rest;
    assert code[if bits[0] then 1 else 0];
    assert true in Zeros(pads[0]) + code;
  }

  lemma {:induction false} PadCodeTrailing(bits: seq<bool>, pads: seq<nat>, last: bool)
    requires |pads| == |bits| + 1
    ensures Trailing(PadCode(bits, pads, last)) == Lead(bits, pads, last, |bits|) + pads[|bits|]
    decreases |bits|
  {
    if bits == [] {
      TrailingZeros([], pads[0]);
      assert [] + Zeros(pads[0]) == Zeros(pads[0]);
    } else {
      var k := |bits| - 1;
      var a, p, x, z := bits[..k], pads[..k + 1], bits[k], pads[k + 1];
      PadCodeTrailing(a, p, last);
      LastBitOff(bits, pads, last);
      var clock := !LastOf(a, last) && !x;
      TrailingZeros(PadCode(a, p, last) + [clock, x], z);
      TrailingPair(PadCode(a, p, last), clock, x);
    }
  }

  lemma LastBitOff(bits: seq<bool>, pads: seq<nat>, last: bool)
    requires |pads| == |bits| + 1 && bits != []
    ensures var k := |bits| - 1;
      var a := bits[..k];
      PadCode(bits, pads, last)
        == (PadCode(a, pads[..k + 1], last) + [!LastOf(a, last) && !bits[k], bits[k]]) + Zeros(pads[k + 1])
  {
    var k := |bits| - 1;
    var a, p, b, q := bits[..k], pads[..k + 1], [bits[k]], [0, pads[k + 1]];
    PadCodeJoin(a, p, b, q, last);
    assert a + b == bits && JoinPads(p, q) == pads;
    var carry := LastOf(a, last);
    assert b[1..] == [] && q[1..] == [pads[k + 1]];
    assert PadCode([], [pads[k + 1]], bits[k]) == Zeros(pads[k + 1]);
    assert PadCode(b, q, carry) == [!carry && !bits[k], bits[k]] + Zeros(pads[k + 1]);
  }

  lemma EndCells(c: seq<bool>)
    requires c != []
    ensures c[0] <==> Leading(c) == 0
    ensures c[|c| - 1] <==> Trailing(c) == 0
  {
  }

  // ----- the law around tracks without raw elements

  /** The 0 cells before the end, the pads at both ends and the clock of a first
      1 are at most three. */
  predicate EndsFit(bits: seq<bool>, pads: seq<nat>)
    requires |pads| == |bits| + 1
  {
    bits != [] && Lead(bits, pads, false, |bits|) + pads[|bits|] + pads[0] + (if bits[0] then 1 else 0) <= 3
  }

  /** A last 1 meets the clock of a first 0, no pad between them. */
  predicate OnesMeet(bits: seq<bool>, pads: seq<nat>)
    requires |pads| == |bits| + 1
  {
    bits != [] && bits[|bits| - 1] && !bits[0] && pads[0] == 0 == pads[|bits|]
  }

  lemma PadCodeAround(bits: seq<bool>, pads: seq<nat>)
    requires |pads| == |bits| + 1 && PadCode(bits, pads, false) != []
    ensures GapsShortAround(PadCode(bits, pads, false)) <==> WellSpaced(bits, pads, false) && EndsFit(bits, pads)
    ensures var c := PadCode(bits, pads, false); c[0] && c[|c| - 1] <==> OnesMeet(bits, pads)
  {
    hide NoLongGap, WellSpaced, GapsShortAround;
    var c := PadCode(bits, pads, false);
    GapsAround(c);
    PadCodeLaw(bits, pads, false);
    PadCodeTrailing(bits, pads, false);
    if bits == [] {
      assert c == Zeros(pads[0]);
    } else {
      PadCodeLeading(bits, pads);
      EndCells(c);
    }
  }

  /** Both halves of the law around a coded track, from its data bits and pads. */
  lemma CodedTrackAround(t: TrackDesc, rng: Rng, drawn: nat)
    requires Acceptable(t) && !Unformatted(t) && CodedBlocks(t.blocks.value)
    ensures AllCoded(PiecesOf(t, rng, drawn))
    ensures Decode(t, rng, drawn).Some? && Decode(t, rng, drawn).value.cells != []
    ensures var ps, cells := PiecesOf(t, rng, drawn), Decode(t, rng, drawn).value.cells;
      var bits, pads := StreamBits(ps), StreamPads(ps);
      && (GapsShortAround(cells) <==> WellSpaced(bits, pads, false) && EndsFit(bits, pads))
      && (OnesApartAround(cells) <==> !OnesMeet(bits, pads))
  {
    hide Decode, Assembled, TrackPieces, GapsShortAround, OnesApartAround, NoAdjacentOnes, WellSpaced,
         EndsFit, OnesMeet;
    AroundTurned(t, rng, drawn);
    AssembledPieces(t, rng, drawn);
    PiecesCoded(t.blocks.value, rng, drawn);
    TrackOnesApart(t, rng, drawn);
    OnesAround(Assembled(t, rng, drawn).cells);
    var ps := PiecesOf(t, rng, drawn);
    StreamIsPadCode(ps, false);
    PadCodeAround(StreamBits(ps), StreamPads(ps));
  }

  /** With even gaps the bound on 0 cells holds all around, and the 1 cells stay
      apart exactly unless the first data bit is 0 and the last is 1. */
  lemma TrackLawAround(t: TrackDesc, rng: Rng, drawn: nat)
    requires Acceptable(t) && !Unformatted(t)
    requires CodedBlocks(t.blocks.value) && EvenGaps(t.blocks.value)
    ensures AllCoded(PiecesOf(t, rng, drawn)) && StreamBits(PiecesOf(t, rng, drawn)) != []
    ensures Decode(t, rng, drawn).Some? && Decode(t, rng, drawn).value.cells != []
    ensures var cells, bits := Decode(t, rng, drawn).value.cells, StreamBits(PiecesOf(t, rng, drawn));
      && GapsShortAround(cells)
      && (OnesApartAround(cells) <==> bits[0] || !bits[|bits| - 1])
  {
    hide Decode, Assembled, TrackPieces, GapsShortAround, OnesApartAround, WellSpaced, PadCode;
    CodedTrackAround(t, rng, drawn);
    var ps := PiecesOf(t, rng, drawn);
    PiecesCoded(t.blocks.value, rng, drawn);
    NoStreamPads(ps);
    NoPadsFit(StreamBits(ps), StreamPads(ps), false);
    AroundTurned(t, rng, drawn);
    AssembledPieces(t, rng, drawn);
    StreamIsPadCode(ps, false);
    NoBitsNoCells(StreamBits(ps), StreamPads(ps));
  }

  lemma NoBitsNoCells(bits: seq<bool>, pads: seq<nat>)
    requires |pads| == |bits| + 1 && pads[0] == 0
    ensures bits == [] ==> PadCode(bits, pads, false) == []
  {
  }

  // ----- tracks that fail only where the assembly was joined

  const ZERO_ONE_TRACK := TrackDesc(false, 2, 1, 32, 4, 0, 4, 1, Some([ZERO_ONE]))
  const ONE_ZERO := Block(4, 1, 4, 0, [DataElem(Data, 2, [0x80])], [], [])
  const ONE_ZERO_TRACK := TrackDesc(false, 2, 1, 32, 4, 1, 5, 3, Some([ONE_ZERO]))

  lemma OneBlock(b: Build, x: Block, rng: Rng)
    requires Accounted(x)
    ensures AddBlocks(b, [x], rng) == Some(AddGap(AddData(b, x, rng), x))
  {
    hide AddData, AddGap, Accounted;
    assert [x][1..] == [];
    DataExtends(b, x, rng);
    var done := AddGap(AddData(b, x, rng), x);
    assert AddBlocks(done, [], rng) == Some(done);
  }

  lemma OneBlockAccounts()
    ensures Accounted(ZERO_ONE) && AllAccounted([ZERO_ONE]) && SumData([ZERO_ONE]) == 4 && SumGap([ZERO_ONE]) == 0
    ensures Accounted(ONE_ZERO) && AllAccounted([ONE_ZERO]) && SumData([ONE_ZERO]) == 4 && SumGap([ONE_ZERO]) == 1
  {
    ExampleAccounts();
    assert ONE_ZERO.data[1..] == [];
    assert ElementsLength(ONE_ZERO.data, true) == 4;
    assert [ZERO_ONE][1..] == [] && [ONE_ZERO][1..] == [];
  }

  lemma ZeroOneCells(rng: Rng)
    ensures AddGap(AddData(START, ZERO_ONE, rng), ZERO_ONE).cells == [true, false, false, true]
  {
    hide CellsOf, AddElements, AddData, AddGap, Encode;
    OneElement(START, ZERO_ONE, rng);
    ExampleBits();
    ZeroOneCode();
    var b := AddData(START, ZERO_ONE, rng);
    assert b == Coded(START, [false, true]);
    EvenGap(b, ZERO_ONE);
    assert ZERO_ONE.GapFill() == [];
  }

  lemma ZeroOneCode()
    ensures Encode([false, true], false) == [true, false, false, true]
  {
  }

  lemma OneZeroBits()
    ensures SampleBits([0x80], 2) == [true, false]
    ensures Encode([true, false], false) == [false, true, false, false]
  {
    assert CellsOf(0x80)[0] && !CellsOf(0x80)[1];
  }

  lemma OneZeroCells(rng: Rng)
    ensures AddGap(AddData(START, ONE_ZERO, rng), ONE_ZERO).cells == [false, true, false, false, false]
  {
    hide CellsOf, AddElements, AddData, AddGap, Encode;
    OneElement(START, ONE_ZERO, rng);
    OneZeroBits();
    var b := AddData(START, ONE_ZERO, rng);
    assert b == Coded(START, [true, false]);
    OddGapOnly(b, ONE_ZERO);
  }

  /** The bits 0 1 keep the law in line; turned by one cell, the last 1 stands
      before the clock of the first 0. */
  lemma OnesMeetExample(rng: Rng)
    ensures Acceptable(ZERO_ONE_TRACK) && !Unformatted(ZERO_ONE_TRACK)
    ensures CodedBlocks(ZERO_ONE_TRACK.blocks.value) && EvenGaps(ZERO_ONE_TRACK.blocks.value)
    ensures NoAdjacentOnes(Assembled(ZERO_ONE_TRACK, rng, 0).cells)
    ensures Decode(ZERO_ONE_TRACK, rng, 0).Some? && !NoAdjacentOnes(Decode(ZERO_ONE_TRACK, rng, 0).value.cells)
  {
    hide AddBlocks, AddData, AddGap, Accounted, Decode;
    var t := ZERO_ONE_TRACK;
    OneBlockAccounts();
    OneBlock(START, ZERO_ONE, rng);
    ZeroOneCells(rng);
    TrackRotated(t, rng, 0, 0);
    TrackRotated(t, rng, 0, 3);
    var c := Decode(t, rng, 0).value.cells;
    assert c[0] && c[0 + 1];
  }

  /** The bits 1 0 and a pad keep the bound in line; turned by three cells, the
      track starts with four 0 cells. */
  lemma EndsMeetExample(rng: Rng)
    ensures Acceptable(ONE_ZERO_TRACK) && !Unformatted(ONE_ZERO_TRACK) && CodedBlocks(ONE_ZERO_TRACK.blocks.value)
    ensures NoLongGap(Assembled(ONE_ZERO_TRACK, rng, 0).cells)
    ensures Decode(ONE_ZERO_TRACK, rng, 0).Some? && !NoLongGap(Decode(ONE_ZERO_TRACK, rng, 0).value.cells)
  {
    hide AddBlocks, AddData, AddGap, Accounted, Decode;
    var t := ONE_ZERO_TRACK;
    OneBlockAccounts();
    OneBlock(START, ONE_ZERO, rng);
    OneZeroCells(rng);
    TrackRotated(t, rng, 0, 0);
    TrackRotated(t, rng, 0, 2);
    TrackRotated(t, rng, 0, 3);
    TrackRotated(t, rng, 0, 4);
    assert Blank(Decode(t, rng, 0).value.cells, 0);
  }
}
