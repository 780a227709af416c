/** Filling the gap between two blocks of an IPF track
    (build_gap_decoded in src/ipf_decode.cpp). */
module IpfGap {
  import opened Bits

  datatype GapKind = GapLength | SampleLength | OtherKind
  datatype GapElem = GapElem(kind: GapKind, size: nat, sample: seq<byte>)

  /** Bit i of a sample, most significant first; missing bytes read as zero. */
  predicate SampleBit(bytes: seq<byte>, i: nat) { i / 8 < |bytes| && Cell(bytes[i / 8], i % 8) }

  function SampleBits(bytes: seq<byte>, n: nat): (r: seq<bool>)
    ensures |r| == n && forall i :: 0 <= i < n ==> r[i] == SampleBit(bytes, i)
  {
    seq(n, i requires 0 <= i < n => SampleBit(bytes, i))
  }

  /** `n` bits of `s` over and over, from bit `from` on; zeros if s is empty. */
  function Loop(s: seq<bool>, from: nat, n: nat): (r: seq<bool>)
    ensures |r| == n
    ensures forall i :: 0 <= i < n ==> r[i] == (s != [] && s[(from + i) % |s|])
  {
    seq(n, i requires 0 <= i < n => s != [] && s[(from + i) % |s|])
  }

  datatype Filled = Filled(bits: seq<bool>, last: seq<bool>)

  /** The bits a list specifies, and its last sample. A lone sample fills up to `cap`. */
  function DecodeList(list: seq<GapElem>, cap: nat, f: Filled): Filled
    decreases |list|
  {
    if list == [] then f
    else if list[0].kind == GapLength then
      if |list| > 1 && list[1].kind == SampleLength then
        DecodeList(list[2..], cap, Repeat(f, SampleBits(list[1].sample, list[1].size), list[0].size))
      else DecodeList(list[1..], cap, f)
    else DecodeList(list[1..], cap, FillTo(f, SampleBits(list[0].sample, list[0].size), cap))
  }

  function Repeat(f: Filled, s: seq<bool>, n: nat): Filled {
    if s == [] then f else Filled(f.bits + Loop(s, 0, n), s)
  }

  function FillTo(f: Filled, s: seq<bool>, cap: nat): Filled {
    if s == [] || |f.bits| >= cap then Filled(f.bits, s)
    else Filled(f.bits + Loop(s, |f.bits|, cap - |f.bits|), s)
  }

  function Listed(list: seq<GapElem>, cap: nat): Filled { DecodeList(list, cap, Filled([], [])) }

  function First(s: seq<bool>, n: nat): (r: seq<bool>)
    ensures |r| == if |s| > n then n else |s|
  {
    if |s| > n then s[..n] else s
  }

  function Last(s: seq<bool>, n: nat): (r: seq<bool>)
    ensures |r| == if |s| > n then n else |s|
  {
    if |s| > n then s[|s| - n..] else s
  }

  // ----- the four modes

  function DefaultGap(default: nat, need: nat): seq<bool> { Loop(CellsOf(default % 256), 0, need) }

  function ForwardGap(fwd: seq<GapElem>, need: nat): seq<bool> {
    var f := Listed(fwd, need);
    var bits := First(f.bits, need);
    bits + Loop(f.last, |bits|, need - |bits|)
  }

  function BackwardGap(bwd: seq<GapElem>, need: nat): seq<bool> {
    var b := Listed(bwd, need);
    var bits := First(b.bits, need);
    Loop(b.last, 0, need - |bits|) + bits
  }

  function BothGap(fwd: seq<GapElem>, bwd: seq<GapElem>, need: nat): seq<bool> {
    var f, b := Listed(fwd, need), Listed(bwd, need);
    var front := First(f.bits, need);
    var back := Last(b.bits, need - |front|);
    front + Loop(f.last, 0, need - |front| - |back|) + back
  }

  function Gap(mode: nat, default: nat, fwd: seq<GapElem>, bwd: seq<GapElem>, need: nat): (r: seq<bool>)
    ensures |r| == need
  {
    if mode == 0 then DefaultGap(default, need)
    else if mode == 1 then ForwardGap(fwd, need)
    else if mode == 2 then BackwardGap(bwd, need)
    else BothGap(fwd, bwd, need)
  }

  // ----- what the fill modes promise

  /** Mode 3 keeps a forward list that fits in front and, if both fit, the
      backward list behind; in between the forward list's last sample loops. */
  lemma BothGapShape(fwd: seq<GapElem>, bwd: seq<GapElem>, need: nat)
    ensures var f, b, r := Listed(fwd, need), Listed(bwd, need), BothGap(fwd, bwd, need);
      && |r| == need
      && (f.bits <= r <==> |f.bits| <= need)
      && (|f.bits| <= need ==>
            var room := if |f.bits| + |b.bits| > need then need else |f.bits| + |b.bits|;
            var back := room - |f.bits|;
            && r[need - back..] == b.bits[|b.bits| - back..]
            && (forall i :: |f.bits| <= i < need - back ==>
                  r[i] == (f.last != [] && f.last[(i - |f.bits|) % |f.last|])))
      && (|f.bits| > need ==> r == f.bits[..need])
  {
    var f, b, r := Listed(fwd, need), Listed(bwd, need), BothGap(fwd, bwd, need);
    var front := First(f.bits, need);
    var back := Last(b.bits, need - |front|);
    var mid := Loop(f.last, 0, need - |front| - |back|);
    assert r == front + mid + back;
    if |f.bits| <= need {
      assert r[..|front|] == front;
      assert r[need - |back|..] == back;
      forall i | |front| <= i < need - |back| ensures r[i] == mid[i - |front|] { }
    }
  }

  /** Some sample stands without a length of its own. */
  predicate HasLoneSample(list: seq<GapElem>)
    decreases |list|
  {
    list != [] &&
    if list[0].kind == GapLength then
      HasLoneSample(if |list| > 1 && list[1].kind == SampleLength then list[2..] else list[1..])
    else list[0].size > 0 || HasLoneSample(list[1..])
  }

  /** The lengths that come with a sample, added up. */
  function PairedLength(list: seq<GapElem>): nat
    decreases |list|
  {
    if list == [] then 0
    else if list[0].kind == GapLength && |list| > 1 && list[1].kind == SampleLength then
      (if list[1].size > 0 then list[0].size else 0) + PairedLength(list[2..])
    else PairedLength(list[1..])
  }

  /** A list specifies as many bits as its lengths say, unless a lone sample
      fills the whole gap. */
  lemma {:induction false} ListedLength(list: seq<GapElem>, cap: nat, f: Filled)
    ensures var n := |DecodeList(list, cap, f).bits|;
      && n >= |f.bits|
      && (HasLoneSample(list) ==> n >= cap)
      && (!HasLoneSample(list) ==> n == |f.bits| + PairedLength(list))
    decreases |list|
  {
    if list != [] {
      if list[0].kind == GapLength && |list| > 1 && list[1].kind == SampleLength {
        ListedLength(list[2..], cap, Repeat(f, SampleBits(list[1].sample, list[1].size), list[0].size));
      } else if list[0].kind == GapLength {
        ListedLength(list[1..], cap, f);
      } else {
        ListedLength(list[1..], cap, FillTo(f, SampleBits(list[0].sample, list[0].size), cap));
      }
    }
  }

  /** So a lone forward sample leaves the backward list no room at all, */
  lemma LoneForwardHidesBackward(fwd: seq<GapElem>, bwd: seq<GapElem>, need: nat)
    requires HasLoneSample(fwd)
    ensures BothGap(fwd, bwd, need) == ForwardGap(fwd, need)
  {
    ListedLength(fwd, need, Filled([], []));
  }

  /** and otherwise both lists are kept whole exactly when their lengths fit. */
  lemma BothListsKept(fwd: seq<GapElem>, bwd: seq<GapElem>, need: nat)
    requires !HasLoneSample(fwd) && !HasLoneSample(bwd)
    ensures PairedLength(fwd) + PairedLength(bwd) <= need <==>
      exists mid :: BothGap(fwd, bwd, need) == Listed(fwd, need).bits + mid + Listed(bwd, need).bits
  {
    ListedLength(fwd, need, Filled([], []));
    ListedLength(bwd, need, Filled([], []));
    var f, b, r := Listed(fwd, need), Listed(bwd, need), BothGap(fwd, bwd, need);
    if PairedLength(fwd) + PairedLength(bwd) <= need {
      assert r == f.bits + Loop(f.last, 0, need - |f.bits| - |b.bits|) + b.bits;
    }
  }

  /** Loops of one sample join without a jump when the second goes on at the
      phase the first left off. */
  lemma LoopsJoin(s: seq<bool>, from: nat, n: nat, m: nat)
    ensures Loop(s, from, n) + Loop(s, from + n, m) == Loop(s, from, n + m)
  {
  }

  /** A forward gap of one length and sample is that sample over and over,
      across the end of the specified length too. */
  lemma ForwardSeamless(n: nat, sample: GapElem, need: nat)
    requires sample.kind == SampleLength && sample.size > 0
    ensures ForwardGap([GapElem(GapLength, n, []), sample], need)
      == Loop(SampleBits(sample.sample, sample.size), 0, need)
  {
    var list, s := [GapElem(GapLength, n, []), sample], SampleBits(sample.sample, sample.size);
    var f := Listed(list, need);
    var none: Filled := Filled([], []);
    assert list[2..] == [];
    assert DecodeList(list, need, none) == DecodeList(list[2..], need, Repeat(none, s, n));
    assert [] + Loop(s, 0, n) == Loop(s, 0, n);
    assert f == Filled(Loop(s, 0, n), s);
    if n <= need {
      LoopsJoin(s, 0, n, need - n);
    }
  }
}
