/** The IPF decoder as the program runs it: gap building, the MFM builder and
    the image's decoding passes (src/ipf_decode.cpp). */
module IpfCodecs {
  import opened Bits
  import opened Bitcells
  import opened Mfm
  import opened IpfGap
  import opened IpfTrack
  import Cyclic

  // ----- gap building

  /** sample_bits. */
  method ExpandSample(bytes: seq<byte>, n: nat) returns (out: seq<bool>)
    ensures out == SampleBits(bytes, n)
  {
    out := [];
    var i := 0;
    while i < n
      invariant 0 <= i <= n && out == SampleBits(bytes, i)
    {
      out := out + [i / 8 < |bytes| && Cell(bytes[i / 8], i % 8)];
      i := i + 1;
    }
  }

  /** Push bits of `s`, starting at its bit `from`, until n have been pushed. */
  method PushLoop(bits: seq<bool>, s: seq<bool>, from: nat, n: nat) returns (out: seq<bool>)
    requires s != []
    ensures out == bits + Loop(s, from, n)
  {
    out := bits;
    var k := 0;
    while k < n
      invariant 0 <= k <= n && out == bits + Loop(s, from, k)
    {
      assert Loop(s, from, k + 1) == Loop(s, from, k) + [s[(from + k) % |s|]];
      out := out + [s[(from + k) % |s|]];
      k := k + 1;
    }
  }

  /** The list walk shared by the three explicit modes. */
  method DecodeGapList(list: seq<GapElem>, cap: nat) returns (bits: seq<bool>, last: seq<bool>)
    ensures Filled(bits, last) == Listed(list, cap)
  {
    hide SampleBits;
    bits, last := [], [];
    var i := 0;
    assert list[0..] == list;
    while i < |list|
      invariant 0 <= i <= |list|
      invariant DecodeList(list[i..], cap, Filled(bits, last)) == Listed(list, cap)
    {
      ListStep(list, i, cap, Filled(bits, last));
      if list[i].kind == GapLength {
        if i + 1 < |list| && list[i + 1].kind == SampleLength {
          var s := ExpandSample(list[i + 1].sample, list[i + 1].size);
          if s != [] {
            bits := PushLoop(bits, s, 0, list[i].size);
            last := s;
          }
          i := i + 2;
        } else {
          i := i + 1;
        }
      } else {
        var s := ExpandSample(list[i].sample, list[i].size);
        last := s;
        if s != [] && |bits| < cap {
          bits := PushLoop(bits, s, |bits|, cap - |bits|);
        }
        i := i + 1;
      }
    }
  }

  lemma ListStep(list: seq<GapElem>, i: nat, cap: nat, f: Filled)
    requires i < |list|
    ensures DecodeList(list[i..], cap, f)
      == if list[i].kind == GapLength then
           if i + 1 < |list| && list[i + 1].kind == SampleLength then
             DecodeList(list[i + 2..], cap, Repeat(f, SampleBits(list[i + 1].sample, list[i + 1].size), list[i].size))
           else DecodeList(list[i + 1..], cap, f)
         else DecodeList(list[i + 1..], cap, FillTo(f, SampleBits(list[i].sample, list[i].size), cap))
  {
  }

  /** Write `src` into `out` from position `at` on. */
  method CopyAt(out: seq<bool>, at: nat, src: seq<bool>) returns (r: seq<bool>)
    requires at + |src| <= |out|
    ensures r == out[..at] + src + out[at + |src|..]
  {
    r := out;
    var i := 0;
    while i < |src|
      invariant 0 <= i <= |src| && |r| == |out|
      invariant forall k :: 0 <= k < |out| ==> r[k] == if at <= k < at + i then src[k - at] else out[k]
    {
      r := r[at + i := src[i]];
      i := i + 1;
    }
  }

  /** Write n looped bits of `s`, or zeros, from position `at` on. */
  method LoopAt(out: seq<bool>, at: nat, s: seq<bool>, n: nat) returns (r: seq<bool>)
    requires at + n <= |out|
    ensures r == out[..at] + Loop(s, 0, n) + out[at + n..]
  {
    r := out;
    var i := 0;
    while i < n
      invariant 0 <= i <= n && |r| == |out|
      invariant forall k :: 0 <= k < |out| ==> r[k] == if at <= k < at + i then Loop(s, 0, n)[k - at] else out[k]
    {
      r := r[at + i := if s == [] then false else s[i % |s|]];
      i := i + 1;
    }
  }

  method BuildForward(fwd: seq<GapElem>, need: nat) returns (out: seq<bool>)
    ensures out == ForwardGap(fwd, need)
  {
    hide Listed;
    var bits, last := DecodeGapList(fwd, need);
    out := if |bits| > need then bits[..need] else bits;
    ghost var kept := out;
    if last != [] {
      out := PushLoop(out, last, |out|, need - |out|);
    } else {
      while |out| < need
        invariant |kept| <= |out| <= need && out == kept + Loop([], |kept|, |out| - |kept|)
      {
        out := out + [false];
      }
    }
  }

  method BuildBackward(bwd: seq<GapElem>, need: nat) returns (out: seq<bool>)
    ensures out == BackwardGap(bwd, need)
  {
    hide Listed;
    var bits, last := DecodeGapList(bwd, need);
    bits := if |bits| > need then bits[..need] else bits;
    var front := need - |bits|;
    out := Zeros(need);
    out := LoopAt(out, 0, last, front);
    out := CopyAt(out, front, bits);
  }

  /** Three writes side by side fill the whole. */
  lemma SideBySide(z: seq<bool>, a: seq<bool>, b: seq<bool>, c: seq<bool>,
                   o1: seq<bool>, o2: seq<bool>, o3: seq<bool>)
    requires |z| == |a| + |b| + |c|
    requires o1 == z[..0] + a + z[|a|..]
    requires o2 == o1[..|a|] + b + o1[|a| + |b|..]
    requires o3 == o2[..|a| + |b|] + c + o2[|z|..]
    ensures o3 == a + b + c
  {
    assert o1[..|a|] == a;
    assert o2[..|a| + |b|] == a + b;
    assert o2[|z|..] == [];
  }

  method BuildBoth(fwd: seq<GapElem>, bwd: seq<GapElem>, need: nat) returns (out: seq<bool>)
    ensures out == BothGap(fwd, bwd, need)
  {
    hide Listed, Loop;
    var front, flast := DecodeGapList(fwd, need);
    var back, blast := DecodeGapList(bwd, need);
    front := if |front| > need then front[..need] else front;
    if |back| + |front| > need {
      var room := need - |front|;
      if |back| > room {
        back := back[|back| - room..];
      }
    }
    var mid := need - |front| - |back|;
    out := Zeros(need);
    ghost var z := out;
    out := CopyAt(out, 0, front);
    ghost var o1 := out;
    out := LoopAt(out, |front|, flast, mid);
    ghost var o2 := out;
    out := CopyAt(out, |front| + mid, back);
    SideBySide(z, front, Loop(flast, 0, mid), back, o1, o2, out);
  }

  /** build_gap_decoded: exactly `need` bits in every mode. */
  method BuildGapDecoded(block: Block, need: nat) returns (out: seq<bool>)
    ensures out == Gap(block.GapMode(), block.gapDefault, block.fwd, block.bwd, need)
  {
    hide Listed, CellsOf;
    out := [];
    if need == 0 {
      return;
    }
    var mode := block.GapMode();
    if mode == 0 {
      out := PushLoop([], CellsOf(block.gapDefault % 256), 0, need);
    } else if mode == 1 {
      out := BuildForward(block.fwd, need);
    } else if mode == 2 {
      out := BuildBackward(block.bwd, need);
    } else {
      out := BuildBoth(block.fwd, block.bwd, need);
    }
  }

  // ----- the builder

  class MfmBuilder {
    var bits: seq<byte>
    var nbits: nat
    var lastData: bool

    ghost predicate Valid() reads this { Tight(Rev(bits, nbits)) && ValidRev(Rev(bits, nbits)) }

    ghost function Stream(): seq<bool>
      requires Valid()
      reads this
    {
      Cells(Rev(bits, nbits))
    }

    constructor ()
      ensures Valid() && Stream() == [] && !lastData
    {
      bits, nbits, lastData := [], 0, false;
    }

    method PushRaw(b: bool)
      requires Valid()
      modifies this`bits, this`nbits
      ensures Valid() && Stream() == old(Stream()) + [b]
    {
      hide Tight, CellAt, Cells, Append, Grow;
      var now := Rev(bits, nbits);
      AppendCell(now, b);
      var next := Append(now, b);
      bits, nbits := next.bits, next.nbits;
    }

    method EmitVerbatim(raw: seq<bool>)
      requires Valid()
      modifies this
      ensures Valid() && Stream() == old(Stream()) + raw && lastData == LastOf(raw, old(lastData))
    {
      hide Tight, CellAt, Cells;
      var i := 0;
      while i < |raw|
        invariant 0 <= i <= |raw| && Valid()
        invariant Stream() == old(Stream()) + raw[..i] && lastData == old(lastData)
      {
        PushRaw(raw[i]);
        assert raw[..i + 1] == raw[..i] + [raw[i]];
        i := i + 1;
      }
      assert raw[..i] == raw;
      if raw != [] {
        lastData := raw[|raw| - 1];
      }
    }

    method EmitDecodedBit(d: bool)
      requires Valid()
      modifies this
      ensures Valid() && Stream() == old(Stream()) + [!old(lastData) && !d, d] && lastData == d
    {
      hide Tight, CellAt, Cells;
      PushRaw(!lastData && !d);
      PushRaw(d);
      lastData := d;
    }

    /** A run of decoded bits. */
    method EmitDecoded(data: seq<bool>)
      requires Valid()
      modifies this
      ensures Valid() && Stream() == old(Stream()) + Encode(data, old(lastData))
      ensures lastData == LastOf(data, old(lastData))
    {
      hide Tight, CellAt, Cells, Encode;
      var i := 0;
      EncodeNone(lastData);
      while i < |data|
        invariant 0 <= i <= |data| && Valid()
        invariant Stream() == old(Stream()) + Encode(data[..i], old(lastData))
        invariant lastData == LastOf(data[..i], old(lastData))
      {
        EncodeSnoc(data[..i], data[i], old(lastData));
        assert data[..i + 1] == data[..i] + [data[i]];
        EmitDecodedBit(data[i]);
        i := i + 1;
      }
      assert data[..i] == data;
    }
  }

  lemma EncodeNone(last: bool)
    ensures Encode([], last) == []
  {
  }

  lemma EncodeSnoc(data: seq<bool>, d: bool, last: bool)
    ensures Encode(data + [d], last) == Encode(data, last) + [!LastOf(data, last) && !d, d]
  {
    EncodeConcat(data, [d], last);
    assert [d][1..] == [];
    EncodeNone(d);
  }

  // ----- turning to the index

  /** Where cell j of the turned track comes from. */
  function Source(j: nat, start: nat, n: nat): nat
    requires j < n && start < n
  {
    if j >= start then j - start else j + n - start
  }

  lemma RotateIs(cells: seq<bool>, start: nat, j: nat)
    requires j < |cells| && start < |cells|
    ensures Rotate(cells, start)[j] == cells[Source(j, start, |cells|)]
  {
    if j >= start {
      assert (j - start) % |cells| == j - start;
    } else {
      Cyclic.ModIs(j - start, |cells|, -1, j + |cells| - start);
    }
  }

  method TurnToIndex(built: Rev, start: nat) returns (out: Rev)
    requires ValidRev(built) && start < built.nbits
    ensures ValidRev(out) && |out.bits| == (out.nbits + 7) / 8
    ensures Cells(out) == Rotate(Cells(built), start)
  {
    hide CellAt, SetCell, Rotate;
    var n := built.nbits;
    var bits: seq<byte> := seq((n + 7) / 8, _ => 0 as byte);
    AllClear(bits);
    var i := 0;
    while i < n
      invariant 0 <= i <= n && |bits| == (n + 7) / 8
      invariant forall j :: 0 <= j < n ==>
        CellAt(bits, j) == (Source(j, start, n) < i && CellAt(built.bits, Source(j, start, n)))
    {
      if CellAt(built.bits, i) {
        var j := i + start;
        if j >= n {
          j := j - n;
        }
        bits := SetCell(bits, j);
      }
      i := i + 1;
    }
    out := Rev(bits, n);
    forall j | 0 <= j < n ensures Cells(out)[j] == Rotate(Cells(built), start)[j] {
      RotateIs(Cells(built), start, j);
    }
  }

}
