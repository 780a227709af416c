/** When a stream of MFM code, raw cells and pad cells keeps the code's law: no
    two adjacent 1 cells, never more than three 0 cells in a row. */
module MfmLaws {
  import opened Bits
  import opened Mfm

  // ----- runs of 0 cells

  /** No run of more than three, `z` 0 cells standing in front. */
  predicate Short(cells: seq<bool>, z: nat)
    decreases |cells|
  {
    if cells == [] then z <= 3
    else if cells[0] then z <= 3 && Short(cells[1..], 0)
    else Short(cells[1..], z + 1)
  }

  lemma {:induction false} ShortIs(cells: seq<bool>, z: nat)
    ensures Short(cells, z) <==> NoLongGap(Zeros(z) + cells)
    decreases |cells|
  {
    hide NoLongGap, Zeros;
    var c := Zeros(z) + cells;
    if cells == [] {
      AllZeros(z);
      assert c == Zeros(z);
    } else if cells[0] {
      ShortIs(cells[1..], 0);
      assert Zeros(0) + cells[1..] == cells[1..];
      AfterOne(z, cells[1..]);
      assert c == Zeros(z) + [true] + cells[1..];
    } else {
      ShortIs(cells[1..], z + 1);
      assert c == Zeros(z + 1) + cells[1..];
    }
  }

  lemma AllZeros(z: nat)
    ensures NoLongGap(Zeros(z)) <==> z <= 3
  {
    if z > 3 { assert Blank(Zeros(z), 0); }
  }

  lemma AfterOne(z: nat, rest: seq<bool>)
    ensures NoLongGap(Zeros(z) + [true] + rest) <==> z <= 3 && NoLongGap(rest)
  {
    var c := Zeros(z) + [true] + rest;
    if z > 3 { assert Blank(c, 0); }
    if NoLongGap(c) {
      forall i | 0 <= i < |rest| - 3 ensures !Blank(rest, i) {
        assert !Blank(c, z + 1 + i);
        assert forall k :: i <= k < i + 4 ==> c[z + 1 + k] == rest[k];
      }
    }
    if z <= 3 && NoLongGap(rest) {
      forall i | 0 <= i < |c| - 3 ensures !Blank(c, i) {
        if i > z {
          assert !Blank(rest, i - z - 1);
          assert forall k :: i <= k < i + 4 ==> c[k] == rest[k - z - 1];
        } else {
          assert c[z] && i <= z < i + 4;
        }
      }
    }
  }

  lemma {:induction false} ShortZeros(n: nat, rest: seq<bool>, z: nat)
    ensures Short(Zeros(n) + rest, z) <==> Short(rest, z + n)
  {
    if n == 0 {
      assert Zeros(0) + rest == rest;
    } else {
      ShortZeros(n - 1, rest, z + 1);
      assert (Zeros(n) + rest)[1..] == Zeros(n - 1) + rest;
    }
  }

  function Leading(cells: seq<bool>): (n: nat)
    ensures n <= |cells|
  {
    if cells == [] || cells[0] then 0 else 1 + Leading(cells[1..])
  }

  function Trailing(cells: seq<bool>): (n: nat)
    ensures n <= |cells|
  {
    if cells == [] || cells[|cells| - 1] then 0 else 1 + Trailing(cells[..|cells| - 1])
  }

  lemma {:induction false} ShortSplit(cells: seq<bool>, z: nat)
    ensures Short(cells, z) <==> Short(cells, 0) && z + Leading(cells) <= 3
    decreases |cells|
  {
    if cells != [] && !cells[0] {
      ShortSplit(cells[1..], z + 1);
      ShortSplit(cells[1..], 1);
    }
  }

  lemma {:induction false} ShortConcat(a: seq<bool>, b: seq<bool>, z: nat)
    ensures Short(a + b, z) <==> Short(a, z) && Short(b, if Trailing(a) == |a| then z + |a| else Trailing(a))
    decreases |a|
  {
    if a == [] {
      assert a + b == b;
      if z > 3 { ShortSplit(b, z); }
    } else {
      assert (a + b)[1..] == a[1..] + b;
      TrailingStep(a);
      ShortConcat(a[1..], b, if a[0] then 0 else z + 1);
    }
  }

  lemma {:induction false} TrailingStep(a: seq<bool>)
    requires a != []
    ensures Trailing(a) == if Trailing(a[1..]) == |a| - 1 && !a[0] then |a| else Trailing(a[1..])
  {
    if |a| > 1 && !a[|a| - 1] {
      var b := a[..|a| - 1];
      TrailingStep(b);
      assert a[1..][..|a| - 2] == b[1..];
    }
  }

  /** Two pieces keep the bound together exactly when each does and the 0 cells
      on both sides of the seam are at most three. */
  lemma SeamLaw(a: seq<bool>, b: seq<bool>)
    ensures NoLongGap(a + b) <==> NoLongGap(a) && NoLongGap(b) && Trailing(a) + Leading(b) <= 3
  {
    hide Short, Trailing, Leading, NoLongGap;
    assert Zeros(0) + (a + b) == a + b && Zeros(0) + a == a && Zeros(0) + b == b;
    ShortIs(a + b, 0);
    ShortIs(a, 0);
    ShortIs(b, 0);
    ShortConcat(a, b, 0);
    ShortSplit(b, Trailing(a));
  }

  // ----- code with pad cells in it

  /** The code of `bits` with pads[k] lone 0 cells in front of bit k, and
      pads[|bits|] behind the last. Pads do not change the carried bit. */
  function PadCode(bits: seq<bool>, pads: seq<nat>, last: bool): seq<bool>
    requires |pads| == |bits| + 1
    decreases |bits|
  {
    if bits == [] then Zeros(pads[0])
    else Zeros(pads[0]) + ([!last && !bits[0], bits[0]] + PadCode(bits[1..], pads[1..], bits[0]))
  }

  /** Bit k is a 0 behind a 1: both its cells are 0. */
  predicate Open(bits: seq<bool>, last: bool, k: nat)
    requires k <= |bits|
  {
    k < |bits| && !bits[k] && Before(bits, last, k)
  }

  /** The 0 cells that stand directly before the pads of seam k. */
  function Lead(bits: seq<bool>, pads: seq<nat>, last: bool, k: nat): nat
    requires |pads| == |bits| + 1 && k <= |bits|
  {
    if k == 0 || bits[k - 1] then 0
    else if Before(bits, last, k - 1) then pads[k - 1] + 2
    else 1
  }

  /** Around every seam: what stands before the pads, the pads, and the clock
      of a 1 behind them. An open bit leaves the count to the next seam. */
  predicate SeamFits(bits: seq<bool>, pads: seq<nat>, last: bool, k: nat)
    requires |pads| == |bits| + 1 && k <= |bits|
  {
    || Open(bits, last, k)
    || Lead(bits, pads, last, k) + pads[k] + (if k < |bits| && bits[k] then 1 else 0) <= 3
  }

  predicate WellSpaced(bits: seq<bool>, pads: seq<nat>, last: bool)
    requires |pads| == |bits| + 1
  {
    forall k :: 0 <= k <= |bits| ==> SeamFits(bits, pads, last, k)
  }

  lemma ShortPair(c: bool, d: bool, rest: seq<bool>, z: nat)
    ensures Short([c, d] + rest, z) <==>
      if c then z <= 3 && (if d then Short(rest, 0) else Short(rest, 1))
      else if d then z + 1 <= 3 && Short(rest, 0)
      else Short(rest, z + 2)
  {
    var s := [c, d] + rest;
    assert s[1..] == [d] + rest && ([d] + rest)[1..] == rest;
  }

  lemma {:induction false} SeamsFrom(bits: seq<bool>, pads: seq<nat>, last: bool, k: nat)
    requires |pads| == |bits| + 1 && k <= |bits|
    ensures Short(PadCode(bits[k..], pads[k..], Before(bits, last, k)), Lead(bits, pads, last, k))
      <==> forall j :: k <= j <= |bits| ==> SeamFits(bits, pads, last, j)
    decreases |bits| - k
  {
    hide Short;
    var z, prev := Lead(bits, pads, last, k), Before(bits, last, k);
    if k == |bits| {
      ShortZeros(pads[k], [], z);
      assert Zeros(pads[k]) + [] == Zeros(pads[k]);
      ShortNothing(z + pads[k]);
      assert PadCode(bits[k..], pads[k..], prev) == Zeros(pads[k]);
      assert Short(Zeros(pads[k]), z) <==> SeamFits(bits, pads, last, k);
    } else {
      var rest := PadCode(bits[k + 1..], pads[k + 1..], bits[k]);
      assert bits[k..][1..] == bits[k + 1..] && pads[k..][1..] == pads[k + 1..];
      SeamsFrom(bits, pads, last, k + 1);
      ShortZeros(pads[k], [!prev && !bits[k], bits[k]] + rest, z);
      ShortPair(!prev && !bits[k], bits[k], rest, z + pads[k]);
      assert PadCode(bits[k..], pads[k..], prev) == Zeros(pads[k]) + ([!prev && !bits[k], bits[k]] + rest);
      assert Short(PadCode(bits[k..], pads[k..], prev), z)
        <==> SeamFits(bits, pads, last, k) && Short(rest, Lead(bits, pads, last, k + 1));
    }
  }

  lemma ShortNothing(z: nat)
    ensures Short([], z) <==> z <= 3
  {
  }

  /** The bound on 0 cells, for any data and any pads. */
  lemma PadCodeLaw(bits: seq<bool>, pads: seq<nat>, last: bool)
    requires |pads| == |bits| + 1
    ensures NoLongGap(PadCode(bits, pads, last)) <==> WellSpaced(bits, pads, last)
  {
    hide Short, NoLongGap, PadCode, SeamFits;
    var c := PadCode(bits, pads, last);
    SeamsFrom(bits, pads, last, 0);
    assert bits[0..] == bits && pads[0..] == pads && Zeros(0) + c == c;
    ShortIs(c, 0);
  }

  /** Without pads every seam fits. */
  lemma NoPadsFit(bits: seq<bool>, pads: seq<nat>, last: bool)
    requires |pads| == |bits| + 1 && forall k :: 0 <= k <= |bits| ==> pads[k] == 0
    ensures WellSpaced(bits, pads, last)
  {
  }

  // ----- pads of joined stretches

  function JoinPads(p: seq<nat>, q: seq<nat>): (r: seq<nat>)
    requires p != [] && q != []
    ensures |r| == |p| + |q| - 1
  {
    p[..|p| - 1] + [p[|p| - 1] + q[0]] + q[1..]
  }

  lemma ZerosJoin(m: nat, n: nat, rest: seq<bool>)
    ensures Zeros(m + n) + rest == Zeros(m) + (Zeros(n) + rest)
  {
  }

  lemma {:induction false} PadCodeJoin(a: seq<bool>, p: seq<nat>, b: seq<bool>, q: seq<nat>, last: bool)
    requires |p| == |a| + 1 && |q| == |b| + 1
    ensures PadCode(a + b, JoinPads(p, q), last) == PadCode(a, p, last) + PadCode(b, q, LastOf(a, last))
    decreases |a|
  {
    hide Zeros;
    var r := JoinPads(p, q);
    if a == [] {
      assert a + b == b && r[0] == p[0] + q[0] && r[1..] == q[1..];
      if b == [] {
        ZerosJoin(p[0], q[0], []);
        assert Zeros(p[0] + q[0]) + [] == Zeros(p[0] + q[0]) && Zeros(q[0]) + [] == Zeros(q[0]);
      } else {
        ZerosJoin(p[0], q[0], [!last && !b[0], b[0]] + PadCode(b[1..], q[1..], b[0]));
      }
    } else {
      PadCodeJoin(a[1..], p[1..], b, q, a[0]);
      assert (a + b)[1..] == a[1..] + b && r[0] == p[0];
      assert r[1..] == JoinPads(p[1..], q);
      Regroup(Zeros(p[0]), [!last && !a[0], a[0]], PadCode(a[1..], p[1..], a[0]), PadCode(b, q, LastOf(a, last)));
    }
  }

  lemma Regroup(a: seq<bool>, b: seq<bool>, c: seq<bool>, d: seq<bool>)
    ensures a + (b + (c + d)) == (a + (b + c)) + d
  {
  }
}
