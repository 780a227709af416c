/** A track as pieces, raw or coded, and the exact conditions for the law of the
    code over the whole of it. */
module MfmPieces {
  import opened Bits
  import opened Bytes
  import opened Mfm
  import opened MfmLaws

  /** Cells taken over as they are, or bits to encode, with a pad cell behind
      them or not. */
  datatype Piece = RawPiece(cells: seq<bool>) | CodedPiece(bits: seq<bool>, pad: bool)

  function PieceCells(p: Piece, last: bool): seq<bool> {
    match p
    case RawPiece(cells) => cells
    case CodedPiece(bits, pad) => Encode(bits, last) + (if pad then [false] else [])
  }

  /** The data bit carried on: of raw cells the last one; a pad carries nothing. */
  function PieceCarry(p: Piece, last: bool): bool { LastOf(if p.RawPiece? then p.cells else p.bits, last) }

  function StreamCells(ps: seq<Piece>, last: bool): seq<bool>
    decreases |ps|
  {
    if ps == [] then [] else PieceCells(ps[0], last) + StreamCells(ps[1..], PieceCarry(ps[0], last))
  }

  function StreamCarry(ps: seq<Piece>, last: bool): bool
    decreases |ps|
  {
    if ps == [] then last else StreamCarry(ps[1..], PieceCarry(ps[0], last))
  }

  lemma {:induction false} StreamConcat(a: seq<Piece>, b: seq<Piece>, last: bool)
    ensures StreamCells(a + b, last) == StreamCells(a, last) + StreamCells(b, StreamCarry(a, last))
    ensures StreamCarry(a + b, last) == StreamCarry(b, StreamCarry(a, last))
    decreases |a|
  {
    hide PieceCells, PieceCarry;
    if a == [] {
      assert a + b == b;
    } else {
      StreamConcat(a[1..], b, PieceCarry(a[0], last));
      assert (a + b)[1..] == a[1..] + b;
      Associate(PieceCells(a[0], last), StreamCells(a[1..], PieceCarry(a[0], last)),
                StreamCells(b, StreamCarry(a, last)));
    }
  }

  lemma StreamOne(p: Piece, last: bool)
    ensures StreamCells([p], last) == PieceCells(p, last) && StreamCarry([p], last) == PieceCarry(p, last)
  {
    assert [p][1..] == [];
    assert StreamCells([], PieceCarry(p, last)) == [];
  }

  lemma StreamStep(ps: seq<Piece>, n: nat, last: bool)
    requires n < |ps|
    ensures StreamCells(ps[..n + 1], last) == StreamCells(ps[..n], last) + PieceCells(ps[n], StreamCarry(ps[..n], last))
    ensures StreamCarry(ps[..n + 1], last) == PieceCarry(ps[n], StreamCarry(ps[..n], last))
  {
    assert ps[..n + 1] == ps[..n] + [ps[n]];
    StreamConcat(ps[..n], [ps[n]], last);
    StreamOne(ps[n], StreamCarry(ps[..n], last));
  }

  // ----- a coded piece as code with pads

  function PiecePads(p: Piece): (r: seq<nat>)
    requires p.CodedPiece?
    ensures |r| == |p.bits| + 1
  {
    seq(|p.bits|, _ => 0) + [if p.pad then 1 else 0]
  }

  lemma {:induction false} UnpaddedCode(bits: seq<bool>, pads: seq<nat>, last: bool)
    requires |pads| == |bits| + 1 && forall k :: 0 <= k < |bits| ==> pads[k] == 0
    ensures PadCode(bits, pads, last) == Encode(bits, last) + Zeros(pads[|bits|])
    decreases |bits|
  {
    if bits != [] {
      UnpaddedCode(bits[1..], pads[1..], bits[0]);
      assert Zeros(0) + PadCode(bits, pads, last) == PadCode(bits, pads, last);
    }
  }

  lemma PieceIsPadCode(p: Piece, last: bool)
    requires p.CodedPiece?
    ensures PieceCells(p, last) == PadCode(p.bits, PiecePads(p), last)
  {
    UnpaddedCode(p.bits, PiecePads(p), last);
    assert Zeros(1) == [false];
  }

  /** A coded stretch keeps the bound after any carried bit, pad or not. */
  lemma CodedPieceLaw(p: Piece, last: bool)
    requires p.CodedPiece?
    ensures NoLongGap(PieceCells(p, last))
  {
    hide PieceCells, NoLongGap, PadCode;
    PieceIsPadCode(p, last);
    PadCodeLaw(p.bits, PiecePads(p), last);
  }

  // ----- the bound on 0 cells, raw pieces included

  /** Raw cells keep the bound, and the 0 cells on both sides of the piece's
      front are at most three. */
  predicate PieceFits(ps: seq<Piece>, i: nat, last: bool)
    requires i < |ps|
  {
    && (ps[i].RawPiece? ==> NoLongGap(ps[i].cells))
    && Trailing(StreamCells(ps[..i], last)) + Leading(PieceCells(ps[i], StreamCarry(ps[..i], last))) <= 3
  }

  /** A stream of any pieces keeps the bound exactly when every piece fits. */
  lemma {:induction false} GapsUpTo(ps: seq<Piece>, n: nat, last: bool)
    requires n <= |ps|
    ensures NoLongGap(StreamCells(ps[..n], last)) <==> forall i :: 0 <= i < n ==> PieceFits(ps, i, last)
  {
    hide NoLongGap, StreamCells, PieceCells, Trailing, Leading, StreamCarry;
    if n == 0 {
      NoCellsNoGap(last);
      assert ps[..0] == [];
    } else {
      GapsUpTo(ps, n - 1, last);
      StreamStep(ps, n - 1, last);
      var before, carry := StreamCells(ps[..n - 1], last), StreamCarry(ps[..n - 1], last);
      SeamLaw(before, PieceCells(ps[n - 1], carry));
      if ps[n - 1].CodedPiece? { CodedPieceLaw(ps[n - 1], carry); } else { RawCells(ps[n - 1], carry); }
      assert NoLongGap(StreamCells(ps[..n], last)) <==> NoLongGap(before) && PieceFits(ps, n - 1, last);
    }
  }

  lemma RawCells(p: Piece, last: bool)
    requires p.RawPiece?
    ensures PieceCells(p, last) == p.cells
  {
  }

  lemma NoCellsNoGap(last: bool)
    ensures NoLongGap(StreamCells([], last))
  {
  }

  lemma GapsExactly(ps: seq<Piece>, last: bool)
    ensures NoLongGap(StreamCells(ps, last)) <==> forall i :: 0 <= i < |ps| ==> PieceFits(ps, i, last)
  {
    GapsUpTo(ps, |ps|, last);
    assert ps[..|ps|] == ps;
  }

  // ----- the bound on 0 cells over coded pieces alone

  predicate AllCoded(ps: seq<Piece>) { forall i :: 0 <= i < |ps| ==> ps[i].CodedPiece? }

  function StreamBits(ps: seq<Piece>): seq<bool>
    requires AllCoded(ps)
  {
    if ps == [] then [] else ps[0].bits + StreamBits(ps[1..])
  }

  /** How many pads stand in front of each bit, and behind the last. */
  function StreamPads(ps: seq<Piece>): (r: seq<nat>)
    requires AllCoded(ps)
    ensures |r| == |StreamBits(ps)| + 1
  {
    if ps == [] then [0] else JoinPads(PiecePads(ps[0]), StreamPads(ps[1..]))
  }

  lemma {:induction false} StreamIsPadCode(ps: seq<Piece>, last: bool)
    requires AllCoded(ps)
    ensures StreamCells(ps, last) == PadCode(StreamBits(ps), StreamPads(ps), last)
    decreases |ps|
  {
    hide PieceCells, PiecePads, JoinPads;
    if ps == [] {
      NoPadCode(last);
    } else {
      StreamIsPadCode(ps[1..], PieceCarry(ps[0], last));
      PieceIsPadCode(ps[0], last);
      PadCodeJoin(ps[0].bits, PiecePads(ps[0]), StreamBits(ps[1..]), StreamPads(ps[1..]), last);
    }
  }

  lemma NoPadCode(last: bool)
    ensures PadCode([], [0], last) == []
  {
  }

  /** Exactly when coded pieces keep the bound, from their bits and pads. */
  lemma CodedGapsExactly(ps: seq<Piece>, last: bool)
    requires AllCoded(ps)
    ensures NoLongGap(StreamCells(ps, last)) <==> WellSpaced(StreamBits(ps), StreamPads(ps), last)
  {
    hide NoLongGap, WellSpaced, PadCode;
    StreamIsPadCode(ps, last);
    PadCodeLaw(StreamBits(ps), StreamPads(ps), last);
  }

  predicate NoPads(ps: seq<Piece>) { forall i :: 0 <= i < |ps| ==> ps[i].CodedPiece? && !ps[i].pad }

  lemma {:induction false} NoStreamPads(ps: seq<Piece>)
    requires NoPads(ps)
    ensures forall k :: 0 <= k < |StreamPads(ps)| ==> StreamPads(ps)[k] == 0
  {
    if ps != [] {
      NoStreamPads(ps[1..]);
    }
  }

  // ----- adjacent 1 cells

  predicate EndsInOne(c: seq<bool>) { c != [] && c[|c| - 1] }

  /** Raw cells keep their 1 cells apart, and do not start with one behind another. */
  predicate OnesFit(ps: seq<Piece>, i: nat, last: bool)
    requires i < |ps|
  {
    ps[i].RawPiece? ==>
      && NoAdjacentOnes(ps[i].cells)
      && (ps[i].cells != [] && ps[i].cells[0] ==> !EndsInOne(StreamCells(ps[..i], last)))
  }

  lemma OnesSeam(a: seq<bool>, b: seq<bool>)
    ensures NoAdjacentOnes(a + b) <==>
      NoAdjacentOnes(a) && NoAdjacentOnes(b) && (b != [] && b[0] ==> !EndsInOne(a))
  {
    var c := a + b;
    if NoAdjacentOnes(c) {
      forall i | 0 <= i < |a| - 1 ensures !(a[i] && a[i + 1]) { assert c[i] == a[i] && c[i + 1] == a[i + 1]; }
      forall i | 0 <= i < |b| - 1 ensures !(b[i] && b[i + 1]) {
        assert c[|a| + i] == b[i] && c[|a| + i + 1] == b[i + 1];
      }
      assert a != [] && b != [] ==> c[|a| - 1] == a[|a| - 1] && c[|a|] == b[0];
    }
  }

  /** A 1 cell at the end is a data bit that is carried. */
  lemma {:induction false} EndCarried(ps: seq<Piece>, n: nat, last: bool)
    requires n <= |ps|
    ensures EndsInOne(StreamCells(ps[..n], last)) ==> StreamCarry(ps[..n], last)
  {
    hide StreamCells, StreamCarry, Encode;
    if n == 0 {
      assert ps[..0] == [];
      NothingEnds(last);
    } else {
      EndCarried(ps, n - 1, last);
      StreamStep(ps, n - 1, last);
      var p, carry := ps[n - 1], StreamCarry(ps[..n - 1], last);
      var before := StreamCells(ps[..n - 1], last);
      if p.CodedPiece? && p.bits != [] { EncodeAt(p.bits, carry, |p.bits| - 1); }
      if PieceCells(p, carry) == [] { assert before + PieceCells(p, carry) == before; }
    }
  }

  lemma NothingEnds(last: bool)
    ensures !EndsInOne(StreamCells([], last))
  {
  }

  /** Behind a carried 1 a coded piece starts with a 0 cell. */
  lemma CodedStart(p: Piece, last: bool)
    requires p.CodedPiece?
    ensures NoAdjacentOnes(PieceCells(p, last))
    ensures PieceCells(p, last) != [] && PieceCells(p, last)[0] ==> !last
  {
    hide Encode, NoAdjacentOnes;
    MfmLaw(p.bits, last);
    OnesSeam(Encode(p.bits, last), if p.pad then [false] else []);
    NoOnes(p.pad);
    if p.bits != [] { EncodeAt(p.bits, last, 0); }
  }

  lemma NoOnes(pad: bool)
    ensures NoAdjacentOnes(if pad then [false] else [])
  {
  }

  lemma {:induction false} OnesUpTo(ps: seq<Piece>, n: nat, last: bool)
    requires n <= |ps|
    ensures NoAdjacentOnes(StreamCells(ps[..n], last)) <==> forall i :: 0 <= i < n ==> OnesFit(ps, i, last)
  {
    hide StreamCells, StreamCarry, Encode, NoAdjacentOnes, EndsInOne;
    if n == 0 {
      assert ps[..0] == [];
      NothingAdjacent(last);
    } else {
      OnesUpTo(ps, n - 1, last);
      StreamStep(ps, n - 1, last);
      EndCarried(ps, n - 1, last);
      var p, carry, before := ps[n - 1], StreamCarry(ps[..n - 1], last), StreamCells(ps[..n - 1], last);
      OnesSeam(before, PieceCells(p, carry));
      if p.CodedPiece? { CodedStart(p, carry); }
      assert NoAdjacentOnes(StreamCells(ps[..n], last)) <==> NoAdjacentOnes(before) && OnesFit(ps, n - 1, last);
    }
  }

  lemma NothingAdjacent(last: bool)
    ensures NoAdjacentOnes(StreamCells([], last))
  {
  }

  /** A stream of any pieces has no two adjacent 1 cells exactly when its raw
      pieces fit: coded ones always do, pads or not. */
  lemma OnesExactly(ps: seq<Piece>, last: bool)
    ensures NoAdjacentOnes(StreamCells(ps, last)) <==> forall i :: 0 <= i < |ps| ==> OnesFit(ps, i, last)
  {
    OnesUpTo(ps, |ps|, last);
    assert ps[..|ps|] == ps;
  }
}
