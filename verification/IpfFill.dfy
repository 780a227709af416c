/** The bits of a gap, one by one, from the flags and lists of its block. */
module IpfFill {
  import opened Bits
  import opened Wrappers
  import opened Mfm
  import opened IpfGap
  import opened IpfTrack

  // ----- what a list specifies, element by element

  /** The sample belongs to the length directly before it. */
  predicate Paired(list: seq<GapElem>, i: nat)
    requires i < |list|
  {
    i > 0 && list[i - 1].kind == GapLength && list[i].kind == SampleLength
  }

  /** How many bits stand before element i: a paired sample brings as many as
      its length says, a lone one all that are missing to the cap. */
  function Start(list: seq<GapElem>, i: nat, cap: nat): nat
    requires i <= |list|
  {
    if i == 0 then 0
    else
      var e, before := list[i - 1], Start(list, i - 1, cap);
      if e.kind == GapLength || e.size == 0 then before
      else if Paired(list, i - 1) then before + list[i - 2].size
      else if before < cap then cap
      else before
  }

  /** Bit j of the list is one of element i's. */
  predicate Brings(list: seq<GapElem>, i: nat, j: nat, cap: nat) {
    i < |list| && Start(list, i, cap) <= j < Start(list, i + 1, cap)
  }

  /** Bit j of the list, if it is one of element i's: a paired sample starts
      over, a lone one goes on in phase with the gap. */
  predicate BitOf(list: seq<GapElem>, i: nat, j: nat, cap: nat)
    requires i < |list|
  {
    && list[i].size > 0 && Start(list, i, cap) <= j
    && SampleBit(list[i].sample, (if Paired(list, i) then j - Start(list, i, cap) else j) % list[i].size)
  }

  /** The sample that loops over what the first i elements leave open. */
  function LastSample(list: seq<GapElem>, i: nat): seq<bool>
    requires i <= |list|
  {
    if i == 0 then []
    else if list[i - 1].kind == GapLength || (Paired(list, i - 1) && list[i - 1].size == 0) then LastSample(list, i - 1)
    else SampleBits(list[i - 1].sample, list[i - 1].size)
  }

  /** f holds exactly the bits and the sample of the first i elements. */
  ghost predicate Describes(list: seq<GapElem>, cap: nat, i: nat, f: Filled)
    requires i <= |list|
  {
    && |f.bits| == Start(list, i, cap) && f.last == LastSample(list, i)
    && forall e: nat, j: nat :: 0 <= e < i && Brings(list, e, j, cap) ==>
         j < |f.bits| && f.bits[j] == BitOf(list, e, j, cap)
  }

  lemma {:induction false} StartGrows(list: seq<GapElem>, i: nat, k: nat, cap: nat)
    requires i <= k <= |list|
    ensures Start(list, i, cap) <= Start(list, k, cap)
  {
    if i < k { StartGrows(list, i, k - 1, cap); }
  }

  /** One element more. */
  lemma Step(list: seq<GapElem>, cap: nat, i: nat, f: Filled, g: Filled)
    requires i < |list| && Describes(list, cap, i, f)
    requires f.bits <= g.bits && |g.bits| == Start(list, i + 1, cap) && g.last == LastSample(list, i + 1)
    requires forall j :: |f.bits| <= j < |g.bits| ==> g.bits[j] == BitOf(list, i, j, cap)
    ensures Describes(list, cap, i + 1, g)
  {
    hide BitOf, Start, LastSample;
    forall e: nat, j: nat | 0 <= e < i + 1 && Brings(list, e, j, cap)
      ensures j < |g.bits| && g.bits[j] == BitOf(list, e, j, cap)
    {
      if e < i { StartGrows(list, e + 1, i, cap); }
    }
  }

  lemma LengthStep(list: seq<GapElem>, cap: nat, i: nat, f: Filled)
    requires i < |list| && Describes(list, cap, i, f) && list[i].kind == GapLength
    ensures Describes(list, cap, i + 1, f)
  {
    Step(list, cap, i, f, f);
  }

  lemma PairStep(list: seq<GapElem>, cap: nat, i: nat, f: Filled)
    requires i < |list| && Describes(list, cap, i, f) && Paired(list, i)
    ensures Describes(list, cap, i + 1, Repeat(f, SampleBits(list[i].sample, list[i].size), list[i - 1].size))
  {
    var s, n := SampleBits(list[i].sample, list[i].size), list[i - 1].size;
    var g := Repeat(f, s, n);
    if s != [] {
      forall j | |f.bits| <= j < |g.bits| ensures g.bits[j] == BitOf(list, i, j, cap) {
        assert g.bits[j] == Loop(s, 0, n)[j - |f.bits|];
      }
    }
    Step(list, cap, i, f, g);
  }

  lemma LoneStep(list: seq<GapElem>, cap: nat, i: nat, f: Filled)
    requires i < |list| && Describes(list, cap, i, f) && list[i].kind != GapLength && !Paired(list, i)
    ensures Describes(list, cap, i + 1, FillTo(f, SampleBits(list[i].sample, list[i].size), cap))
  {
    var s := SampleBits(list[i].sample, list[i].size);
    var g := FillTo(f, s, cap);
    if s != [] && |f.bits| < cap {
      var more := Loop(s, |f.bits|, cap - |f.bits|);
      forall j | |f.bits| <= j < |g.bits| ensures g.bits[j] == BitOf(list, i, j, cap) {
        assert g.bits[j] == more[j - |f.bits|] == s[j % |s|];
      }
    }
    Step(list, cap, i, f, g);
  }

  lemma {:induction false} DecodesFrom(list: seq<GapElem>, cap: nat, i: nat, f: Filled)
    requires i <= |list| && Describes(list, cap, i, f) && (i < |list| ==> !Paired(list, i))
    ensures Describes(list, cap, |list|, DecodeList(list[i..], cap, f))
    decreases |list| - i
  {
    hide Describes, Repeat, FillTo, SampleBits;
    if i < |list| {
      assert list[i..][1..] == list[i + 1..];
      if list[i].kind == GapLength {
        LengthStep(list, cap, i, f);
        if i + 1 < |list| && list[i + 1].kind == SampleLength {
          PairStep(list, cap, i + 1, f);
          assert list[i..][2..] == list[i + 2..] && list[i..][1] == list[i + 1];
          DecodesFrom(list, cap, i + 2, Repeat(f, SampleBits(list[i + 1].sample, list[i + 1].size), list[i].size));
        } else {
          DecodesFrom(list, cap, i + 1, f);
        }
      } else {
        LoneStep(list, cap, i, f);
        DecodesFrom(list, cap, i + 1, FillTo(f, SampleBits(list[i].sample, list[i].size), cap));
      }
    }
  }

  /** Any list at all: each element's bits stand where the elements before it
      end. */
  lemma ListedBits(list: seq<GapElem>, cap: nat)
    ensures Describes(list, cap, |list|, Listed(list, cap))
  {
    assert list[0..] == list;
    DecodesFrom(list, cap, 0, Filled([], []));
  }

  // ----- the gap behind a block

  /** The looping sample at position j, or a 0. */
  predicate LoopBit(list: seq<GapElem>, j: nat) {
    var s := LastSample(list, |list|);
    s != [] && s[j % |s|]
  }

  function Least(a: nat, b: nat): nat { if a < b then a else b }

  /** Mode 0: the default byte over and over, most significant bit first. */
  lemma DefaultFill(block: Block, i: nat)
    requires block.flags % 4 == 0 && i < block.gapBits / 2
    ensures block.GapFill()[i] <==> block.gapDefault % 256 / Power2(7 - i % 8) % 2 == 1
  {
    hide CellsOf, Power2;
    CellIs(block.gapDefault % 256, i % 8);
  }

  /** Mode 1: the forward list in front, its last sample going on behind it. */
  lemma ForwardFill(block: Block)
    requires block.flags % 4 == 1
    ensures var need, list := block.gapBits / 2, block.fwd;
      && (forall e: nat, j: nat :: Brings(list, e, j, need) && j < need ==>
            block.GapFill()[j] == BitOf(list, e, j, need))
      && (forall j :: Start(list, |list|, need) <= j < need ==> block.GapFill()[j] == LoopBit(list, j))
  {
    hide Start, BitOf, LastSample, Listed;
    ListedBits(block.fwd, block.gapBits / 2);
  }

  /** Mode 2: the backward list at the end, its last sample in front of it. */
  lemma BackwardFill(block: Block)
    requires block.flags % 4 == 2
    ensures var need, list := block.gapBits / 2, block.bwd;
      var free := need - Least(Start(list, |list|, need), need);
      && (forall e: nat, j: nat :: Brings(list, e, j, need) && j < need - free ==>
            block.GapFill()[free + j] == BitOf(list, e, j, need))
      && (forall j :: 0 <= j < free ==> block.GapFill()[j] == LoopBit(list, j))
  {
    hide Start, BitOf, LastSample, Listed;
    ListedBits(block.bwd, block.gapBits / 2);
  }

  /** Mode 3: the forward list in front; the end of the backward list, as much
      as there is room for, at the end; between them the forward list's last
      sample. */
  lemma BothFill(block: Block)
    requires block.flags % 4 == 3
    ensures var need, fwd, bwd := block.gapBits / 2, block.fwd, block.bwd;
      var front := Least(Start(fwd, |fwd|, need), need);
      var all := Start(bwd, |bwd|, need);
      var back := Least(all, need - front);
      && (forall e: nat, j: nat :: Brings(fwd, e, j, need) && j < front ==>
            block.GapFill()[j] == BitOf(fwd, e, j, need))
      && (forall e: nat, j: nat :: Brings(bwd, e, j, need) && all - back <= j ==>
            j < all && block.GapFill()[need - all + j] == BitOf(bwd, e, j, need))
      && (forall j :: front <= j < need - back ==> block.GapFill()[j] == LoopBit(fwd, j - front))
  {
    hide Start, BitOf, LastSample, Listed;
    ListedBits(block.fwd, block.gapBits / 2);
    ListedBits(block.bwd, block.gapBits / 2);
  }
}
