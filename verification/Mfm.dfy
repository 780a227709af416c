/** The MFM code of src/ipf_decode.cpp: each data bit becomes a clock cell and a
    data cell, the clock set only between two zero bits. */
module Mfm {

  function Encode(bits: seq<bool>, last: bool): (r: seq<bool>)
    ensures |r| == 2 * |bits|
  {
    if bits == [] then [] else [!last && !bits[0], bits[0]] + Encode(bits[1..], bits[0])
  }

  /** The data bit before position k. */
  function Before(bits: seq<bool>, last: bool, k: nat): bool
    requires k <= |bits|
  {
    if k == 0 then last else bits[k - 1]
  }

  function LastOf(bits: seq<bool>, last: bool): bool { Before(bits, last, |bits|) }

  lemma {:induction false} EncodeAt(bits: seq<bool>, last: bool, k: nat)
    requires k < |bits|
    ensures Encode(bits, last)[2 * k] == (!Before(bits, last, k) && !bits[k])
    ensures Encode(bits, last)[2 * k + 1] == bits[k]
    decreases k
  {
    if k > 0 {
      EncodeAt(bits[1..], bits[0], k - 1);
    }
  }

  lemma EncodeStep(bits: seq<bool>, last: bool, rest: seq<bool>)
    requires bits != []
    ensures Encode(bits, last) + rest == [!last && !bits[0], bits[0]] + (Encode(bits[1..], bits[0]) + rest)
    ensures LastOf(bits, last) == LastOf(bits[1..], bits[0])
  {
  }

  /** A seam leaves no trace: encoding piecewise is encoding at once. */
  lemma {:induction false} EncodeConcat(a: seq<bool>, b: seq<bool>, last: bool)
    ensures Encode(a + b, last) == Encode(a, last) + Encode(b, LastOf(a, last))
    ensures LastOf(a + b, last) == LastOf(b, LastOf(a, last))
    decreases |a|
  {
    if a == [] {
      assert a + b == b;
    } else {
      assert (a + b)[1..] == a[1..] + b;
      EncodeStep(a, last, Encode(b, LastOf(a, last)));
      EncodeConcat(a[1..], b, a[0]);
    }
  }

  // ----- the code's law

  predicate NoAdjacentOnes(c: seq<bool>) { forall i :: 0 <= i < |c| - 1 ==> !(c[i] && c[i + 1]) }

  /** Never more than three 0 cells in a row. */
  predicate NoLongGap(c: seq<bool>) { forall i :: 0 <= i < |c| - 3 ==> !Blank(c, i) }

  predicate Blank(c: seq<bool>, i: nat)
    requires i + 4 <= |c|
  {
    !c[i] && !c[i + 1] && !c[i + 2] && !c[i + 3]
  }

  /** Neither inside the code nor against the data cell in front of it. */
  lemma OnesApart(bits: seq<bool>, last: bool)
    ensures NoAdjacentOnes([last] + Encode(bits, last))
  {
    var c := [last] + Encode(bits, last);
    forall i | 0 <= i < |c| - 1 ensures !(c[i] && c[i + 1]) {
      EncodeAt(bits, last, i / 2);
      if i % 2 == 0 {
        if i > 0 { EncodeAt(bits, last, i / 2 - 1); }
        assert c[i] == Before(bits, last, i / 2) && c[i + 1] == Encode(bits, last)[2 * (i / 2)];
      } else {
        assert c[i] == Encode(bits, last)[2 * (i / 2)] && c[i + 1] == Encode(bits, last)[2 * (i / 2) + 1];
      }
    }
  }

  lemma GapsShort(bits: seq<bool>, last: bool)
    ensures NoLongGap(Encode(bits, last))
  {
    var c := Encode(bits, last);
    forall i | 0 <= i < |c| - 3 ensures !Blank(c, i) {
      EncodeAt(bits, last, i / 2);
      EncodeAt(bits, last, i / 2 + 1);
      assert i == 2 * (i / 2) || i == 2 * (i / 2) + 1;
    }
  }

  /** The law of the code, for any data and any carried bit. */
  lemma MfmLaw(bits: seq<bool>, last: bool)
    ensures NoAdjacentOnes(Encode(bits, last)) && NoLongGap(Encode(bits, last))
  {
    OnesApart(bits, last);
    GapsShort(bits, last);
    var c := [last] + Encode(bits, last);
    assert c[1..] == Encode(bits, last);
    forall i | 0 <= i < |c[1..]| - 1 ensures !(c[1..][i] && c[1..][i + 1]) {
      assert c[1..][i] == c[i + 1] && c[1..][i + 1] == c[i + 2];
    }
  }

  // ----- taking the code apart

  function DataOf(c: seq<bool>): (r: seq<bool>)
    requires |c| == 16
    ensures |r| == 8
  {
    seq(8, k requires 0 <= k < 8 => c[2 * k + 1])
  }

  function ClockOf(c: seq<bool>): (r: seq<bool>)
    requires |c| == 16
    ensures |r| == 8
  {
    seq(8, k requires 0 <= k < 8 => c[2 * k])
  }

  /** The clocks these data call for. */
  function GoodClocks(data: seq<bool>, last: bool): (r: seq<bool>)
    ensures |r| == |data|
  {
    seq(|data|, k requires 0 <= k < |data| => !Before(data, last, k) && !data[k])
  }

  /** Sixteen cells are some byte's code exactly when their clocks are the ones
      their data call for; the byte is then their data. */
  lemma CodeOfByte(c: seq<bool>, last: bool)
    requires |c| == 16
    ensures ClockOf(c) == GoodClocks(DataOf(c), last) <==> c == Encode(DataOf(c), last)
    ensures forall d :: |d| == 8 && c == Encode(d, last) ==> DataOf(c) == d
  {
    hide Encode;
    var d := DataOf(c);
    forall k | 0 <= k < 8
      ensures Encode(d, last)[2 * k] == GoodClocks(d, last)[k] && Encode(d, last)[2 * k + 1] == d[k]
    {
      EncodeAt(d, last, k);
    }
    if ClockOf(c) == GoodClocks(d, last) {
      forall i | 0 <= i < 16 ensures c[i] == Encode(d, last)[i] {
        assert ClockOf(c)[i / 2] == GoodClocks(d, last)[i / 2] && DataOf(c)[i / 2] == d[i / 2];
      }
    }
    forall e | |e| == 8 && c == Encode(e, last) ensures DataOf(c) == e {
      forall k | 0 <= k < 8 ensures c[2 * k + 1] == e[k] { EncodeAt(e, last, k); }
    }
  }
}
