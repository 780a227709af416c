/** Bitcell streams packed into bytes, most significant cell first: the
    t_mfm_rev of src/ipf.h. */
module Bitcells {
  import opened Bits

  datatype Rev = Rev(bits: seq<byte>, nbits: nat)
  type Track = seq<Rev>

  predicate CellAt(bits: seq<byte>, i: nat)
    requires i < 8 * |bits|
  {
    Cell(bits[i / 8], i % 8)
  }

  /** The buffer is long enough for the cells it claims to hold. */
  predicate ValidRev(r: Rev) { r.nbits <= 8 * |r.bits| }

  function Cells(r: Rev): (c: seq<bool>)
    requires ValidRev(r)
    ensures |c| == r.nbits
    ensures forall i :: 0 <= i < r.nbits ==> c[i] == CellAt(r.bits, i)
  {
    seq(r.nbits, i requires 0 <= i < r.nbits => CellAt(r.bits, i))
  }

  lemma MaskCells(s: nat)
    requires s < 8
    ensures forall k :: 0 <= k < 8 ==> Cell(Shr(0x80, s), k) == (k == s)
  {
    hide CellsOf, Shr;
    TopBit();
  }

  lemma TopBit()
    ensures forall k :: 0 <= k < 8 ==> Cell(0x80, k) == (k == 0)
  {
  }

  lemma SetCells(bits: seq<byte>, i: nat)
    requires i < 8 * |bits|
    ensures var r := bits[i / 8 := Or(bits[i / 8], Shr(0x80, i % 8))];
      forall j :: 0 <= j < 8 * |bits| ==> CellAt(r, j) == (j == i || CellAt(bits, j))
  {
    hide CellsOf, Or, Shr;
    MaskCells(i % 8);
    var r := bits[i / 8 := Or(bits[i / 8], Shr(0x80, i % 8))];
    forall j | 0 <= j < 8 * |bits| ensures CellAt(r, j) == (j == i || CellAt(bits, j)) {
      if j / 8 == i / 8 && j % 8 == i % 8 { assert j == i; }
    }
  }

  /** bits[i >> 3] |= 0x80 >> (i & 7) */
  function SetCell(bits: seq<byte>, i: nat): (r: seq<byte>)
    requires i < 8 * |bits|
    ensures |r| == |bits|
    ensures forall j :: 0 <= j < 8 * |bits| ==> CellAt(r, j) == (j == i || CellAt(bits, j))
  {
    SetCells(bits, i);
    bits[i / 8 := Or(bits[i / 8], Shr(0x80, i % 8))]
  }

  lemma AllClear(bits: seq<byte>)
    requires forall i :: 0 <= i < |bits| ==> bits[i] == 0
    ensures forall j :: 0 <= j < 8 * |bits| ==> !CellAt(bits, j)
  {
    NoCells();
    forall j | 0 <= j < 8 * |bits| ensures !CellAt(bits, j) { assert bits[j / 8] == 0; }
  }

  // ----- growing a stream cell by cell

  /** As many bytes as the cells need, and nothing set behind the last cell. */
  ghost predicate Tight(r: Rev) {
    && |r.bits| == (r.nbits + 7) / 8
    && forall i :: r.nbits <= i < 8 * |r.bits| ==> !CellAt(r.bits, i)
  }

  const EMPTY := Rev([], 0)

  /** Make room for one more cell. */
  function Grow(r: Rev): seq<byte> {
    if r.nbits / 8 >= |r.bits| then r.bits + [0] else r.bits
  }

  lemma GrowTight(r: Rev)
    requires Tight(r)
    ensures r.nbits < 8 * |Grow(r)|
    ensures forall i :: 0 <= i < r.nbits ==> CellAt(Grow(r), i) == CellAt(r.bits, i)
    ensures forall i :: r.nbits <= i < 8 * |Grow(r)| ==> !CellAt(Grow(r), i)
    ensures |Grow(r)| == (r.nbits + 8) / 8
  {
    var g := Grow(r);
    assert forall k :: 0 <= k < 8 ==> !Cell(0, k);
    forall i | r.nbits <= i < 8 * |g| ensures !CellAt(g, i) {
      if i >= 8 * |r.bits| { assert g[i / 8] == 0; }
    }
  }

  function Append(r: Rev, c: bool): Rev
    requires r.nbits < 8 * |Grow(r)|
  {
    Rev(if c then SetCell(Grow(r), r.nbits) else Grow(r), r.nbits + 1)
  }

  /** Appending adds the cell at the end and keeps the stream tight. */
  lemma AppendCell(r: Rev, c: bool)
    requires Tight(r)
    ensures r.nbits < 8 * |Grow(r)|
    ensures ValidRev(r) && Tight(Append(r, c)) && ValidRev(Append(r, c))
    ensures Cells(Append(r, c)) == Cells(r) + [c]
  {
    GrowTight(r);
    var a := Append(r, c);
    forall i | 0 <= i < r.nbits + 1 ensures Cells(a)[i] == (Cells(r) + [c])[i] { }
  }
}
