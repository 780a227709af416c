/** The data areas of the disassembler, indexed by start address
    (src/data_areas.cpp). */
module DataAreas {
  import opened Wrappers

  datatype AreaType = Bytes | Words | Text
  datatype Area = Area(start: nat, end: nat, kind: AreaType, text: string)
  type Areas = map<nat, Area>

  predicate Covers(a: Area, addr: nat) { a.start <= addr <= a.end }

  predicate Keyed(m: Areas) { forall k :: k in m ==> m[k].start == k }

  /** Every area ends before the next one starts. */
  predicate Apart(m: Areas) { forall j, k :: j in m && k in m && j < k ==> m[j].end < k }

  /** Keyed by start, none empty, no two sharing an address. */
  predicate Good(m: Areas) { Keyed(m) && Apart(m) && forall k :: k in m ==> k <= m[k].end }

  /** The greatest key not above addr. */
  function Floor(m: Areas, addr: nat): (r: Option<nat>)
    ensures r.Some? ==> r.value in m && r.value <= addr && forall k :: k in m && k <= addr ==> k <= r.value
    ensures r.None? ==> forall k :: k in m ==> k > addr
  {
    if addr in m then Some(addr) else if addr == 0 then None else Floor(m, addr - 1)
  }

  /** find: look only at the predecessor. */
  function Find(m: Areas, addr: nat): Option<Area> {
    match Floor(m, addr)
    case None => None
    case Some(k) => if Covers(m[k], addr) then Some(m[k]) else None
  }

  /** A linear search would find an area exactly when the predecessor does, and the same one. */
  ghost predicate FindExact(m: Areas) {
    forall addr: nat ::
      && (Find(m, addr).Some? <==> exists k :: k in m && Covers(m[k], addr))
      && (forall k :: k in m && Covers(m[k], addr) ==> Find(m, addr) == Some(m[k]))
  }

  /** The areas that mark leaves alone. */
  function Kept(m: Areas, start: nat, end: nat): Areas {
    map k | k in m && !(m[k].start <= end && m[k].end >= start) :: m[k]
  }

  function Mark(m: Areas, a: Area): Areas { Kept(m, a.start, a.end)[a.start := a] }

  function Clear(m: Areas, start: nat): Areas { map k | k in m && k != start :: m[k] }

  // ----- the index

  /** Exactly when looking at the predecessor is enough, for any map keyed by
      start, areas that end before they start included. */
  lemma FindExactly(m: Areas)
    requires Keyed(m)
    ensures FindExact(m) <==> Apart(m)
  {
    if Apart(m) {
      forall addr: nat, k | k in m && Covers(m[k], addr) ensures Find(m, addr) == Some(m[k]) { }
    } else {
      var j, k :| j in m && k in m && j < k && m[j].end >= k;
      assert Covers(m[j], k) && Floor(m, k) == Some(k);
      assert Find(m, k) != Some(m[j]);
    }
  }

  /** Marking a proper interval removes what it overlaps, and nothing else, and
      keeps the index good. */
  lemma MarkGood(m: Areas, a: Area)
    requires Good(m) && a.start <= a.end
    ensures Good(Mark(m, a))
    ensures forall addr: nat ::
      Find(Mark(m, a), addr) ==
        if Covers(a, addr) then Some(a)
        else if Find(m, addr).Some? && (exists x :: Covers(a, x) && Covers(Find(m, addr).value, x)) then None
        else Find(m, addr)
  {
    var n := Mark(m, a);
    assert Good(n) by { MarkKeepsGood(m, a); }
    FindExactly(m);
    FindExactly(n);
    forall addr: nat
      ensures Find(n, addr) ==
        if Covers(a, addr) then Some(a)
        else if Find(m, addr).Some? && (exists x :: Covers(a, x) && Covers(Find(m, addr).value, x)) then None
        else Find(m, addr)
    {
      MarkFinds(m, a, addr);
    }
  }

  lemma MarkKeepsGood(m: Areas, a: Area)
    requires Good(m) && a.start <= a.end
    ensures Good(Mark(m, a))
  {
    var n := Mark(m, a);
    forall j, k | j in n && k in n && j < k ensures n[j].end < k {
      assert n[j].end >= j;
    }
  }

  lemma Overlap(a: Area, b: Area)
    requires a.start <= a.end && b.start <= b.end
    ensures (b.start <= a.end && b.end >= a.start) <==> exists x :: Covers(a, x) && Covers(b, x)
  {
    if b.start <= a.end && b.end >= a.start {
      var x := if a.start < b.start then b.start else a.start;
      assert Covers(a, x) && Covers(b, x);
    }
  }

  lemma MarkFinds(m: Areas, a: Area, addr: nat)
    requires Good(m) && a.start <= a.end && Good(Mark(m, a))
    ensures Find(Mark(m, a), addr) ==
      if Covers(a, addr) then Some(a)
      else if Find(m, addr).Some? && (exists x :: Covers(a, x) && Covers(Find(m, addr).value, x)) then None
      else Find(m, addr)
  {
    hide Find, Kept, Apart;
    var n := Mark(m, a);
    FindExactly(m);
    FindExactly(n);
    if Covers(a, addr) {
      assert n[a.start] == a;
    } else if k :| k in m && Covers(m[k], addr) {
      Overlap(a, m[k]);
      MarkFrame(m, a, addr, k);
    } else {
      MarkFrame(m, a, addr, a.start);
    }
  }

  /** Off the marked interval an area is found after the mark if it was kept. */
  lemma MarkFrame(m: Areas, a: Area, addr: nat, k: nat)
    requires Good(m) && a.start <= a.end && !Covers(a, addr)
    requires (k in m && Covers(m[k], addr)) || !exists j :: j in m && Covers(m[j], addr)
    ensures var n := Mark(m, a);
      if k in m && Covers(m[k], addr) && !(k <= a.end && m[k].end >= a.start) then k in n && n[k] == m[k]
      else forall j :: j in n ==> !Covers(n[j], addr)
  {
    forall j | j in Mark(m, a) && Covers(Mark(m, a)[j], addr) ensures j == k {
      assert j in m && Covers(m[j], addr);
    }
  }

  lemma ClearGood(m: Areas, start: nat)
    requires Good(m)
    ensures Good(Clear(m, start))
  {
  }

  // ----- marks whose end lies before their start

  /** An area that begins behind the end of the mark and runs across its start. */
  predicate Straddled(m: Areas, a: Area) { exists k :: k in m && a.end < k < a.start <= m[k].end }

  /** An area inside the mark that ended before it started, and so is not erased. */
  predicate Buried(m: Areas, a: Area) { exists k :: k in m && a.start < k <= a.end && m[k].end < a.start }

  /** What a mark must not meet. Nothing in the program looks for it. */
  predicate Safe(m: Areas, a: Area) { !Straddled(m, a) && !Buried(m, a) }

  /** After any mark the lookup is exact if and only if it is exact for the
      areas kept, and the mark is safe. */
  lemma MarkExactly(m: Areas, a: Area)
    requires Keyed(m)
    ensures Keyed(Mark(m, a))
    ensures FindExact(Mark(m, a)) <==> Apart(Clear(Kept(m, a.start, a.end), a.start)) && Safe(m, a)
  {
    hide FindExact;
    var kept, n := Clear(Kept(m, a.start, a.end), a.start), Mark(m, a);
    FindExactly(n);
    assert n[a.start] == a && forall k :: k in n && k != a.start <==> k in kept;
    assert forall k :: k in kept ==> n[k] == kept[k];
    if Apart(n) {
      assert Apart(kept);
      forall k | k in m
        ensures !(a.end < k < a.start <= m[k].end) && !(a.start < k <= a.end && m[k].end < a.start)
      {
        assert k in kept <==> k != a.start && !(k <= a.end && m[k].end >= a.start);
      }
    } else if Apart(kept) {
      var j, k :| j in n && k in n && j < k && n[j].end >= k;
      assert j == a.start || k == a.start;
    }
  }

  /** Over an exact index, therefore, exactly when the mark is safe. */
  lemma MarkKeepsExact(m: Areas, a: Area)
    requires Keyed(m) && FindExact(m)
    ensures FindExact(Mark(m, a)) <==> Safe(m, a)
  {
    hide FindExact, Straddled, Buried;
    FindExactly(m);
    MarkExactly(m, a);
  }

  /** Without areas that end before they start, a mark is safe if it does not
      end before it starts. */
  lemma ProperSafe(m: Areas, a: Area)
    requires Good(m) && a.start <= a.end
    ensures Safe(m, a)
  {
  }

  lemma ClearKeepsExact(m: Areas, start: nat)
    requires Keyed(m) && FindExact(m)
    ensures Keyed(Clear(m, start)) && FindExact(Clear(m, start))
  {
    hide FindExact;
    FindExactly(m);
    FindExactly(Clear(m, start));
  }

  const EMPTY_AREA := Area(20, 5, Bytes, "")
  const WIDE_AREA := Area(10, 50, Bytes, "")

  /** A mark from 20 back to 5 loses address 30 of an area 10..50, whether it
      comes after that area or before it. */
  lemma LostAddress(m: Areas)
    requires m == Mark(Mark(map[], WIDE_AREA), EMPTY_AREA) || m == Mark(Mark(map[], EMPTY_AREA), WIDE_AREA)
    ensures 10 in m && Covers(m[10], 30) && Find(m, 30) == None
  {
    assert m[20] == EMPTY_AREA && m[10] == WIDE_AREA;
    assert m.Keys == {10, 20};
    var f := Floor(m, 30);
    assert f == Some(20);
  }

  // ----- runs

  datatype Call = DoMark(area: Area) | DoClear(start: nat)

  function Step(m: Areas, c: Call): Areas {
    match c
    case DoMark(a) => Mark(m, a)
    case DoClear(start) => Clear(m, start)
  }

  function Run(m: Areas, calls: seq<Call>): Areas
    decreases |calls|
  {
    if calls == [] then m else Run(Step(m, calls[0]), calls[1..])
  }

  /** The lookup is exact all along. */
  ghost predicate AlwaysExact(m: Areas, calls: seq<Call>)
    decreases |calls|
  {
    FindExact(m) && (calls == [] || AlwaysExact(Step(m, calls[0]), calls[1..]))
  }

  /** Every mark is safe on the areas it meets. */
  predicate AllSafe(m: Areas, calls: seq<Call>)
    decreases |calls|
  {
    calls == [] ||
    ((calls[0].DoMark? ==> Safe(m, calls[0].area)) && AllSafe(Step(m, calls[0]), calls[1..]))
  }

  /** Over every run of marks and clears, backward marks included, the lookup is
      a linear search all along exactly when every mark is safe. */
  lemma {:induction false} RunExactly(m: Areas, calls: seq<Call>)
    requires Keyed(m) && FindExact(m)
    ensures Keyed(Run(m, calls))
    ensures FindExact(Run(m, calls)) <==> Apart(Run(m, calls))
    ensures AlwaysExact(m, calls) <==> AllSafe(m, calls)
    decreases |calls|
  {
    hide FindExact, Safe, Apart;
    RunKeyed(m, calls);
    FindExactly(Run(m, calls));
    if calls != [] {
      var c, n := calls[0], Step(m, calls[0]);
      match c {
        case DoMark(a) => MarkKeepsExact(m, a); MarkExactly(m, a);
        case DoClear(start) => ClearKeepsExact(m, start);
      }
      if FindExact(n) { RunExactly(n, calls[1..]); }
    }
  }

  lemma {:induction false} RunKeyed(m: Areas, calls: seq<Call>)
    requires Keyed(m)
    ensures Keyed(Run(m, calls))
    decreases |calls|
  {
    if calls != [] {
      RunKeyed(Step(m, calls[0]), calls[1..]);
    }
  }

  /** After any marks of proper intervals and any clears the predecessor lookup
      is a linear search. */
  lemma {:induction false} RunFindExact(m: Areas, calls: seq<Call>)
    requires Good(m)
    requires forall i :: 0 <= i < |calls| && calls[i].DoMark? ==> calls[i].area.start <= calls[i].area.end
    ensures Good(Run(m, calls)) && FindExact(Run(m, calls))
    decreases |calls|
  {
    hide FindExact, Apart;
    if calls == [] {
      FindExactly(m);
    } else {
      match calls[0] {
        case DoMark(a) => MarkKeepsGood(m, a);
        case DoClear(start) => ClearGood(m, start);
      }
      RunFindExact(Step(m, calls[0]), calls[1..]);
    }
  }

  // ----- the object

  class DataAreaManager {
    var areas: Areas

    constructor ()
      ensures Good(areas) && areas == map[]
    {
      areas := map[];
    }

    /** Erase the overlapping areas one by one, */
    method EraseOverlaps(start: nat, end: nat)
      modifies this
      ensures areas == Kept(old(areas), start, end)
    {
      var before, ahead := areas, areas.Keys;
      var left: Areas := areas;
      while ahead != {}
        invariant ahead <= before.Keys
        invariant left == map k | k in before && (k in ahead || k in Kept(before, start, end)) :: before[k]
        decreases |ahead|
      {
        var k :| k in ahead;
        ahead := ahead - {k};
        if left[k].start <= end && left[k].end >= start {
          left := left - {k};
        }
      }
      areas := left;
      assert areas == Kept(before, start, end);
    }

    /** then enter the new one. */
    method MarkArea(start: nat, end: nat, kind: AreaType, text: string)
      modifies this
      ensures areas == Mark(old(areas), Area(start, end, kind, text))
      ensures old(Good(areas)) && start <= end ==> Good(areas)
    {
      hide Kept;
      ghost var before := areas;
      EraseOverlaps(start, end);
      areas := areas[start := Area(start, end, kind, text)];
      if Good(before) && start <= end { MarkKeepsGood(before, Area(start, end, kind, text)); }
    }

    method ClearArea(start: nat)
      modifies this
      ensures areas == Clear(old(areas), start)
      ensures old(Good(areas)) ==> Good(areas)
    {
      areas := areas - {start};
      assert areas == Clear(old(areas), start);
    }

    /** The area that contains an address, if there is one. */
    method FindArea(addr: nat) returns (r: Option<Area>)
      ensures r == Find(areas, addr)
      ensures r.Some? ==> r.value in areas.Values && Covers(r.value, addr)
      ensures Keyed(areas) && Apart(areas) && r.None? ==> forall k :: k in areas ==> !Covers(areas[k], addr)
    {
      if Keyed(areas) && Apart(areas) { FindExactly(areas); }
      var k := Floor(areas, addr);
      if k.None? {
        return None;
      }
      r := if addr >= areas[k.value].start && addr <= areas[k.value].end then Some(areas[k.value]) else None;
    }
  }
}
