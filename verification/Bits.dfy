/** Bytes, and the bitwise operators on them, seen as eight bitcells.
    Cell 0 of a byte is its most significant bit, the order in which every
    bitcell stream of the program is packed. */
module Bits {

  type byte = x: int | 0 <= x < 256

  function Power2(n: nat): (p: nat)
    ensures p >= 1
  {
    if n == 0 then 1 else 2 * Power2(n - 1)
  }

  /** The n low cells of b, most significant first. */
  function Digits(b: nat, n: nat): (c: seq<bool>)
    ensures |c| == n
  {
    if n == 0 then [] else Digits(b / 2, n - 1) + [b % 2 == 1]
  }

  function Number(c: seq<bool>): (b: nat)
    ensures b < Power2(|c|)
  {
    if c == [] then 0 else 2 * Number(c[..|c| - 1]) + (if c[|c| - 1] then 1 else 0)
  }

  lemma {:induction false} NumberDigits(b: nat, n: nat)
    requires b < Power2(n)
    ensures Number(Digits(b, n)) == b
  {
    if n > 0 {
      NumberDigits(b / 2, n - 1);
      assert Digits(b, n)[..n - 1] == Digits(b / 2, n - 1);
    }
  }

  lemma {:induction false} DigitsNumber(c: seq<bool>)
    ensures Digits(Number(c), |c|) == c
  {
    if c != [] {
      DigitsNumber(c[..|c| - 1]);
    }
  }

  lemma Power2Of8()
    ensures Power2(8) == 256
  {
    assert Power2(4) == 16;
  }

  function Zeros(n: nat): (r: seq<bool>)
    ensures |r| == n && forall i :: 0 <= i < n ==> !r[i]
  {
    seq(n, _ => false)
  }

  function CellsOf(b: byte): (c: seq<bool>)
    ensures |c| == 8
  {
    Digits(b, 8)
  }

  /** (b >> (7 - k)) & 1 */
  predicate Cell(b: byte, k: nat)
    requires k < 8
  {
    CellsOf(b)[k]
  }

  lemma MultipleFar(p: int, d: int)
    requires p > 0
    ensures d >= 1 ==> p * d >= p
    ensures d <= -1 ==> p * d <= -p
  {
  }

  lemma HalfDiv(b: nat, p: nat)
    requires p > 0
    ensures b / 2 / p == b / (2 * p)
  {
    var q, r := b / (2 * p), b % (2 * p);
    assert b == 2 * (p * q) + r;
    var h, d := b / 2, b / 2 / p - q;
    assert h == p * q + r / 2 && r / 2 < p;
    assert p * d == r / 2 - h % p by { assert p * d == p * (h / p) - p * q; }
    MultipleFar(p, d);
  }

  lemma {:induction false} DigitAt(b: nat, n: nat, k: nat)
    requires k < n
    ensures Digits(b, n)[k] <==> b / Power2(n - 1 - k) % 2 == 1
  {
    if k < n - 1 {
      DigitAt(b / 2, n - 1, k);
      HalfDiv(b, Power2(n - 2 - k));
    }
  }

  /** Cell k is bit 7 - k of the byte. */
  lemma CellIs(b: byte, k: nat)
    requires k < 8
    ensures Cell(b, k) <==> (b as nat) / Power2(7 - k) % 2 == 1
  {
    DigitAt(b, 8, k);
  }

  function Pack(c: seq<bool>): byte
    requires |c| == 8
  {
    Power2Of8();
    Number(c)
  }

  /** A byte is determined by its cells, */
  lemma PackCells(b: byte)
    ensures Pack(CellsOf(b)) == b
  {
    Power2Of8();
    NumberDigits(b, 8);
  }

  /** and packing loses none of them. */
  lemma CellsPack(c: seq<bool>)
    requires |c| == 8
    ensures CellsOf(Pack(c)) == c
  {
    DigitsNumber(c);
  }

  lemma SameCells(a: byte, b: byte)
    requires forall k :: 0 <= k < 8 ==> Cell(a, k) == Cell(b, k)
    ensures a == b
  {
    forall k | 0 <= k < 8 ensures CellsOf(a)[k] == CellsOf(b)[k] { assert Cell(a, k) == Cell(b, k); }
    assert CellsOf(a) == CellsOf(b);
    PackCells(a);
    PackCells(b);
  }

  lemma NoCells()
    ensures forall k :: 0 <= k < 8 ==> !Cell(0, k)
  {
  }

  function Or(a: byte, b: byte): (r: byte)
    ensures forall k :: 0 <= k < 8 ==> Cell(r, k) == (Cell(a, k) || Cell(b, k))
  {
    var c := seq(8, k requires 0 <= k < 8 => Cell(a, k) || Cell(b, k));
    CellsPack(c);
    var r := Pack(c);
    r
  }

  function And(a: byte, b: byte): (r: byte)
    ensures forall k :: 0 <= k < 8 ==> Cell(r, k) == (Cell(a, k) && Cell(b, k))
  {
    var c := seq(8, k requires 0 <= k < 8 => Cell(a, k) && Cell(b, k));
    CellsPack(c);
    var r := Pack(c);
    r
  }

  function Xor(a: byte, b: byte): (r: byte)
    ensures forall k :: 0 <= k < 8 ==> Cell(r, k) == (Cell(a, k) != Cell(b, k))
  {
    var c := seq(8, k requires 0 <= k < 8 => Cell(a, k) != Cell(b, k));
    CellsPack(c);
    var r := Pack(c);
    r
  }

  /** The low byte of a << s. */
  function Shl(a: byte, s: nat): (r: byte)
    requires s <= 8
    ensures forall k :: 0 <= k < 8 ==> Cell(r, k) == (k + s < 8 && Cell(a, k + s))
  {
    var c := seq(8, k requires 0 <= k < 8 => k + s < 8 && Cell(a, k + s));
    CellsPack(c);
    var r := Pack(c);
    r
  }

  function Shr(a: byte, s: nat): (r: byte)
    requires s <= 8
    ensures forall k :: 0 <= k < 8 ==> Cell(r, k) == (s <= k && Cell(a, k - s))
  {
    var c := seq(8, k requires 0 <= k < 8 => s <= k && Cell(a, k - s));
    CellsPack(c);
    var r := Pack(c);
    r
  }
}
