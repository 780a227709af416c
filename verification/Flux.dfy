/** Flux timing: bitcells as intervals of 25 ns ticks, in 16-bit words, and
    back (push_flux_rev in src/ipf.cpp, reconstruct_rev in src/hfe_write.cpp). */
module Flux {
  import opened Bits
  import opened Bytes

  const TICKS_PER_CELL := 80
  const CARRY := 0x10000

  // ----- emitting

  /** An interval of t ticks: a zero word for each carried 65536. A remainder of
      exactly 65536 has no such form and is shaved by one tick. */
  function IntervalWords(t: nat): (r: seq<nat>)
    ensures forall i :: 0 <= i < |r| ==> r[i] < CARRY
    decreases t
  {
    if t < CARRY then [t] else if t == CARRY then [CARRY - 1] else [0] + IntervalWords(t - CARRY)
  }

  /** A transition on every 1 cell; `gap` cells have passed since the last. The
      cells after the last 1 are dropped. */
  function FluxWords(cells: seq<bool>, gap: nat): (r: seq<nat>)
    ensures forall i :: 0 <= i < |r| ==> r[i] < CARRY
    decreases |cells|
  {
    if cells == [] then []
    else if cells[0] then IntervalWords(U32((gap + 1) * TICKS_PER_CELL)) + FluxWords(cells[1..], 0)
    else FluxWords(cells[1..], gap + 1)
  }

  // ----- reading back

  /** The interval rounded to whole cells, at least one. */
  function CellCount(interval: nat): (n: nat)
    ensures n >= 1
  {
    var n := U32(interval + TICKS_PER_CELL / 2) / TICKS_PER_CELL;
    if n == 0 then 1 else n
  }

  function CellsOfWords(words: seq<nat>, carry: nat): seq<bool>
    decreases |words|
  {
    if words == [] then []
    else if words[0] == 0 then CellsOfWords(words[1..], U32(carry + CARRY))
    else Zeros(CellCount(U32(carry + words[0])) - 1) + [true] + CellsOfWords(words[1..], 0)
  }

  // ----- the round trip

  predicate AnySet(cells: seq<bool>) { exists i :: 0 <= i < |cells| && cells[i] }

  /** The cells up to and including the last 1. */
  function Trim(cells: seq<bool>): seq<bool> {
    if cells == [] then [] else if cells[|cells| - 1] then cells else Trim(cells[..|cells| - 1])
  }

  lemma {:induction false} TrimShape(cells: seq<bool>)
    ensures Trim(cells) <= cells
    ensures Trim(cells) == [] <==> !AnySet(cells)
    ensures forall i :: |Trim(cells)| <= i < |cells| ==> !cells[i]
  {
    if cells != [] && !cells[|cells| - 1] {
      TrimShape(cells[..|cells| - 1]);
    }
  }

  lemma {:induction false} TrimPrefix(a: seq<bool>, cells: seq<bool>)
    ensures Trim(a + cells) == if AnySet(cells) then a + Trim(cells) else Trim(a)
    decreases |cells|
  {
    var all := a + cells;
    if cells == [] {
      assert all == a;
    } else if cells[|cells| - 1] {
      assert all[|all| - 1];
    } else {
      var shorter := cells[..|cells| - 1];
      assert all[..|all| - 1] == a + shorter;
      TrimPrefix(a, shorter);
      TrimShape(cells);
      TrimShape(shorter);
    }
  }

  /** Rounding to the nearest cell absorbs the shaved tick. */
  lemma Rounding(n: nat, shave: nat)
    requires n >= 1 && shave <= 1
    requires TICKS_PER_CELL * n + TICKS_PER_CELL / 2 < 0x1_0000_0000
    ensures CellCount(TICKS_PER_CELL * n - shave) == n
  {
    var m := TICKS_PER_CELL * n + TICKS_PER_CELL / 2 - shave;
    assert m / TICKS_PER_CELL == n;
  }

  lemma WordsStep(word: nat, rest: seq<nat>, carry: nat)
    ensures CellsOfWords([word] + rest, carry)
      == if word == 0 then CellsOfWords(rest, U32(carry + CARRY))
         else (Zeros(CellCount(U32(carry + word)) - 1) + [true]) + CellsOfWords(rest, 0)
  {
    assert ([word] + rest)[1..] == rest;
  }

  /** The words of one interval read back as that many cells. */
  lemma {:induction false} IntervalReadsBack(t: nat, carry: nat, n: nat, rest: seq<nat>)
    requires t >= 1 && n >= 1 && carry + t == TICKS_PER_CELL * n
    requires carry + t + TICKS_PER_CELL / 2 < 0x1_0000_0000
    ensures CellsOfWords(IntervalWords(t) + rest, carry) == Zeros(n - 1) + [true] + CellsOfWords(rest, 0)
    decreases t
  {
    hide CellCount, CellsOfWords, Zeros;
    if t <= CARRY {
      var shave := if t == CARRY then 1 else 0;
      assert IntervalWords(t) == [t - shave];
      WordsStep(t - shave, rest, carry);
      Rounding(n, shave);
    } else {
      assert IntervalWords(t) + rest == [0] + (IntervalWords(t - CARRY) + rest);
      WordsStep(0, IntervalWords(t - CARRY) + rest, carry);
      IntervalReadsBack(t - CARRY, carry + CARRY, n, rest);
    }
  }

  /** Every interval, rounded up by half a cell, fits 32 bits. */
  predicate GapsFit(cells: seq<bool>, gap: nat)
    decreases |cells|
  {
    cells != [] ==>
      if cells[0] then (gap + 1) * TICKS_PER_CELL + TICKS_PER_CELL / 2 < 0x1_0000_0000 && GapsFit(cells[1..], 0)
      else GapsFit(cells[1..], gap + 1)
  }

  lemma NoneSet(gap: nat)
    ensures Trim(Zeros(gap) + []) == []
  {
    TrimShape(Zeros(gap) + []);
  }

  lemma TrimStep(gap: nat, cells: seq<bool>)
    requires cells != [] && cells[0]
    ensures Trim(Zeros(gap) + cells) == Zeros(gap) + [true] + Trim(Zeros(0) + cells[1..])
  {
    var first := Zeros(gap) + [true];
    assert Zeros(gap) + cells == first + cells[1..];
    assert Zeros(0) + cells[1..] == cells[1..];
    TrimPrefix(first, cells[1..]);
    TrimShape(cells[1..]);
    assert Trim(first) == first;
  }

  lemma {:induction false} FluxReadsBack(cells: seq<bool>, gap: nat)
    requires GapsFit(cells, gap)
    ensures CellsOfWords(FluxWords(cells, gap), 0) == Trim(Zeros(gap) + cells)
    decreases |cells|
  {
    hide Trim, CellsOfWords, IntervalWords;
    if cells == [] {
      NoneSet(gap);
      assert CellsOfWords([], 0) == [] by { EmptyWords(); }
    } else if cells[0] {
      var t := (gap + 1) * TICKS_PER_CELL;
      FluxReadsBack(cells[1..], 0);
      IntervalReadsBack(t, 0, gap + 1, FluxWords(cells[1..], 0));
      assert U32(t) == t;
      TrimStep(gap, cells);
    } else {
      FluxReadsBack(cells[1..], gap + 1);
      assert Zeros(gap + 1) + cells[1..] == Zeros(gap) + cells;
    }
  }

  lemma EmptyWords()
    ensures CellsOfWords([], 0) == []
  {
  }

  // ----- exactly when

  /** The greatest length whose ticks fit 32 bits. */
  const MAX_CELLS := 53687091

  /** One transition only, in the last cell of the longest revolution. */
  predicate LoneLast(cells: seq<bool>) {
    |cells| == MAX_CELLS && cells[MAX_CELLS - 1] && forall i :: 0 <= i < MAX_CELLS - 1 ==> !cells[i]
  }

  lemma {:induction false} ShortGapsFit(cells: seq<bool>, gap: nat)
    requires gap + |cells| < MAX_CELLS
    ensures GapsFit(cells, gap)
    decreases |cells|
  {
    if cells != [] {
      ShortGapsFit(cells[1..], if cells[0] then 0 else gap + 1);
    }
  }

  lemma {:induction false} LongGapsFit(cells: seq<bool>, gap: nat, i: nat)
    requires gap + |cells| <= MAX_CELLS
    requires i < |cells| - 1 && cells[i]
    ensures GapsFit(cells, gap)
    decreases |cells|
  {
    if cells[0] {
      ShortGapsFit(cells[1..], 0);
    } else {
      LongGapsFit(cells[1..], gap + 1, i - 1);
    }
  }

  lemma {:induction false} QuietGapsFit(cells: seq<bool>, gap: nat)
    requires forall i :: 0 <= i < |cells| ==> !cells[i]
    ensures GapsFit(cells, gap) && FluxWords(cells, gap) == []
    decreases |cells|
  {
    if cells != [] { QuietGapsFit(cells[1..], gap + 1); }
  }

  lemma {:induction false} LoneWords(cells: seq<bool>, gap: nat)
    requires cells != [] && cells[|cells| - 1] && forall i :: 0 <= i < |cells| - 1 ==> !cells[i]
    ensures FluxWords(cells, gap) == IntervalWords(U32((gap + |cells|) * TICKS_PER_CELL))
    decreases |cells|
  {
    if |cells| == 1 {
      assert cells[1..] == [];
    } else {
      LoneWords(cells[1..], gap + 1);
    }
  }

  /** Carried words only add up; the count comes from the total. */
  lemma {:induction false} IntervalTotal(t: nat, carry: nat)
    requires t >= 1 && t % CARRY != 0 && carry + t < 0x1_0000_0000
    ensures CellsOfWords(IntervalWords(t), carry) == Zeros(CellCount(carry + t) - 1) + [true]
    decreases t
  {
    hide CellCount;
    var words := IntervalWords(t);
    if t < CARRY {
      assert words[1..] == [];
      assert U32(carry + t) == carry + t;
    } else {
      assert words[1..] == IntervalWords(t - CARRY);
      IntervalTotal(t - CARRY, carry + CARRY);
    }
  }

  lemma LoneLastLost(cells: seq<bool>, t: nat)
    requires LoneLast(cells) && t == |cells| * TICKS_PER_CELL
    ensures |CellsOfWords(FluxWords(cells, 0), 0)| == 1
    ensures Trim(cells) == cells
  {
    hide IntervalWords, CellsOfWords, FluxWords;
    assert t == 4294967280;
    LoneWords(cells, 0);
    assert U32((0 + |cells|) * TICKS_PER_CELL) == t;
    IntervalTotal(t, 0);
    assert CellCount(0 + t) == 1;
  }

  /** For every revolution whose ticks fit 32 bits, the flux words read back as
      the cells up to the last transition, with one exception: a revolution of
      the greatest length with a single transition, in its last cell, whose
      interval overflows when half a cell is added to round it. */
  lemma FluxRoundTrip(cells: seq<bool>)
    requires |cells| * TICKS_PER_CELL < 0x1_0000_0000
    ensures CellsOfWords(FluxWords(cells, 0), 0) == Trim(cells) <==> !LoneLast(cells)
  {
    hide IntervalWords, CellsOfWords, FluxWords, GapsFit, Trim;
    assert |cells| <= MAX_CELLS;
    assert Zeros(0) + cells == cells;
    if LoneLast(cells) {
      LoneLastLost(cells, |cells| * TICKS_PER_CELL);
    } else {
      if i :| 0 <= i < |cells| - 1 && cells[i] {
        LongGapsFit(cells, 0, i);
      } else if |cells| < MAX_CELLS {
        ShortGapsFit(cells, 0);
      } else {
        QuietGapsFit(cells, 0);
      }
      FluxReadsBack(cells, 0);
    }
  }

  // ----- one transition per 1 cell

  function CountSet(cells: seq<bool>): nat {
    if cells == [] then 0 else (if cells[0] then 1 else 0) + CountSet(cells[1..])
  }

  function CountNonZero(words: seq<nat>): nat {
    if words == [] then 0 else (if words[0] != 0 then 1 else 0) + CountNonZero(words[1..])
  }

  lemma {:induction false} CountConcat(a: seq<nat>, b: seq<nat>)
    ensures CountNonZero(a + b) == CountNonZero(a) + CountNonZero(b)
  {
    if a == [] {
      assert a + b == b;
    } else {
      CountConcat(a[1..], b);
      assert (a + b)[1..] == a[1..] + b;
    }
  }

  lemma {:induction false} IntervalNonZero(t: nat)
    requires t >= 1
    ensures CountNonZero(IntervalWords(t)) == 1
    ensures IntervalWords(t)[|IntervalWords(t)| - 1] != 0
    decreases t
  {
    var w := IntervalWords(t);
    if t <= CARRY {
      assert w[1..] == [];
    } else {
      IntervalNonZero(t - CARRY);
      assert w[1..] == IntervalWords(t - CARRY);
    }
  }

  lemma CountNothing()
    ensures CountNonZero([]) == 0
  {
  }

  /** The non-zero words are exactly the transitions. */
  lemma {:induction false} OneWordPerTransition(cells: seq<bool>, gap: nat)
    requires (gap + |cells|) * TICKS_PER_CELL < 0x1_0000_0000
    ensures CountNonZero(FluxWords(cells, gap)) == CountSet(cells)
    decreases |cells|
  {
    hide IntervalWords, CountNonZero;
    if cells == [] {
      assert CountNonZero([]) == 0 by { CountNothing(); }
    } else {
      if cells[0] {
        var t := (gap + 1) * TICKS_PER_CELL;
        OneWordPerTransition(cells[1..], 0);
        IntervalNonZero(t);
        CountConcat(IntervalWords(t), FluxWords(cells[1..], 0));
        assert U32(t) == t;
      } else {
        OneWordPerTransition(cells[1..], gap + 1);
      }
    }
  }

  // ----- the timing itself

  /** An interval is zero words of 65536 ticks and one other word; together
      they are the ticks asked for, one less where the other would be zero. */
  lemma {:induction false} IntervalTicks(t: nat)
    requires t >= 1
    ensures var w := IntervalWords(t);
      && |w| >= 1 && (forall i :: 0 <= i < |w| - 1 ==> w[i] == 0)
      && 65536 * (|w| - 1) + w[|w| - 1] == if t % 65536 == 0 then t - 1 else t
    decreases t
  {
    if t > CARRY {
      IntervalTicks(t - CARRY);
      var w, rest := IntervalWords(t), IntervalWords(t - CARRY);
      assert w == [0] + rest && (t - CARRY) % 65536 == t % 65536;
    }
  }

  lemma {:induction false} QuietFront(n: nat, cells: seq<bool>, gap: nat)
    ensures FluxWords(Zeros(n) + cells, gap) == FluxWords(cells, gap + n)
    decreases n
  {
    var all := Zeros(n) + cells;
    if n == 0 {
      assert all == cells;
    } else {
      assert all[1..] == Zeros(n - 1) + cells;
      QuietFront(n - 1, cells, gap + 1);
    }
  }

  /** A transition n cells after the last takes 80 ticks for each of them. */
  lemma TransitionTicks(n: nat, rest: seq<bool>)
    requires 80 * (n + 1) < 0x1_0000_0000
    ensures FluxWords(Zeros(n) + ([true] + rest), 0) == IntervalWords(80 * (n + 1)) + FluxWords(rest, 0)
    ensures FluxWords(Zeros(n), 0) == []
  {
    hide IntervalWords;
    QuietFront(n, [true] + rest, 0);
    assert ([true] + rest)[1..] == rest;
    assert U32((n + 1) * TICKS_PER_CELL) == 80 * (n + 1);
    QuietGapsFit(Zeros(n), 0);
  }

  /** Reading rounds to the nearest number of cells, halves up, and never to none. */
  lemma NearestCell(interval: nat)
    requires interval + 40 < 0x1_0000_0000
    ensures if interval < 40 then CellCount(interval) == 1
            else 80 * CellCount(interval) - 40 <= interval < 80 * CellCount(interval) + 40
  {
  }

  /** Any words at all: m zero words and another are one interval. */
  lemma {:induction false} IntervalRead(zeros: seq<nat>, w: nat, rest: seq<nat>, carry: nat)
    requires w > 0 && carry + 65536 * |zeros| + w < 0x1_0000_0000
    requires forall i :: 0 <= i < |zeros| ==> zeros[i] == 0
    ensures CellsOfWords(zeros + ([w] + rest), carry)
      == Zeros(CellCount(carry + 65536 * |zeros| + w) - 1) + [true] + CellsOfWords(rest, 0)
    decreases |zeros|
  {
    hide CellCount, CellsOfWords, Zeros;
    var words := zeros + ([w] + rest);
    if zeros == [] {
      assert words == [w] + rest;
      WordsStep(w, rest, carry);
    } else {
      assert words == [0] + (zeros[1..] + ([w] + rest));
      WordsStep(0, zeros[1..] + ([w] + rest), carry);
      IntervalRead(zeros[1..], w, rest, carry + 65536);
    }
  }
}
