/** The 2K directory of a DATA-format disc: 64 entries of 32 bytes
    (src/disk_file_editor.cpp). */
module Directory {
  import opened Bits
  import opened DiscBlocks

  const DIR_ENTRIES := 64
  const ENTRY_SIZE := 32
  const DELETED := 0xE5
  const EXTENT_SIZE := 16384
  const RECORD_SIZE := 128
  const RECORDS_PER_EXTENT := 128
  const BLOCKS_PER_EXTENT := 16
  const FIRST_DATA_BLOCK := 2

  type Entry = e: seq<byte> | |e| == ENTRY_SIZE witness seq(32, _ => 0)
  const BLANK: Entry := seq(32, _ => 0)
  type Dir = d: seq<Entry> | |d| == DIR_ENTRIES witness seq<Entry>(64, _ => BLANK)

  /** An 11-byte file name: eight bytes of name, three of type, space padded. */
  type Name = n: seq<byte> | |n| == 11 witness seq(11, _ => 32)

  // ----- the directory as bytes

  function Flat(es: seq<Entry>): (r: seq<byte>)
    ensures |r| == ENTRY_SIZE * |es|
  {
    if es == [] then [] else es[0] + Flat(es[1..])
  }

  function Split(bytes: seq<byte>, n: nat): (r: seq<Entry>)
    requires |bytes| == ENTRY_SIZE * n
    ensures |r| == n
  {
    if n == 0 then [] else [bytes[..ENTRY_SIZE]] + Split(bytes[ENTRY_SIZE..], n - 1)
  }

  lemma {:induction false} SplitFlat(es: seq<Entry>)
    ensures Split(Flat(es), |es|) == es
  {
    if es != [] {
      SplitFlat(es[1..]);
      assert Flat(es)[..ENTRY_SIZE] == es[0];
      assert Flat(es)[ENTRY_SIZE..] == Flat(es[1..]);
    }
  }

  // ----- one entry

  /** User numbers above 15 are reserved; a deleted entry carries 0xE5 there. */
  predicate Live(e: Entry) { e[0] <= 15 }

  /** Names are compared with the attribute bits of the entry masked off. */
  predicate Matches(e: Entry, name: Name) {
    forall j :: 0 <= j < 11 ==> e[1 + j] % 128 == name[j]
  }

  predicate SameFile(a: Entry, b: Entry) {
    a[0] == b[0] && forall j :: 1 <= j <= 11 ==> a[j] % 128 == b[j] % 128
  }

  function ExtentNumber(e: Entry): nat { (e[12] as int) + 32 * (e[14] as int) }

  function Records(e: Entry): byte { e[15] }

  function NonZero(s: seq<byte>): (r: seq<byte>)
    ensures forall b :: b in r ==> b in s && b != 0
  {
    if s == [] then [] else if s[0] != 0 then [s[0]] + NonZero(s[1..]) else NonZero(s[1..])
  }

  /** The block pointers of an entry, in order. */
  function Pointers(e: Entry): seq<byte> { NonZero(e[16..32]) }

  // ----- finding entries

  /** The first live entry of that name, or |es|. */
  function FirstMatch(es: seq<Entry>, name: Name): (i: nat)
    ensures i <= |es|
    ensures i < |es| ==> Live(es[i]) && Matches(es[i], name)
    ensures forall k :: 0 <= k < i ==> !(Live(es[k]) && Matches(es[k], name))
  {
    if es == [] then 0
    else if Live(es[0]) && Matches(es[0], name) then 0
    else 1 + FirstMatch(es[1..], name)
  }

  /** The first deleted entry, or |es|. */
  function FirstDeleted(es: seq<Entry>): (i: nat)
    ensures i <= |es|
    ensures i < |es| ==> es[i][0] == DELETED
    ensures forall k :: 0 <= k < i ==> es[k][0] != DELETED
  {
    if es == [] then 0 else if es[0][0] == DELETED then 0 else 1 + FirstDeleted(es[1..])
  }

  function CountDeleted(es: seq<Entry>): (n: nat)
    ensures n <= |es|
    ensures n == 0 <==> FirstDeleted(es) == |es|
  {
    if es == [] then 0 else (if es[0][0] == DELETED then 1 else 0) + CountDeleted(es[1..])
  }

  lemma {:induction false} CountDeletedUpdate(es: seq<Entry>, i: nat, e: Entry)
    requires i < |es| && es[i][0] == DELETED && e[0] != DELETED
    ensures CountDeleted(es[i := e]) == CountDeleted(es) - 1
  {
    if i == 0 {
      assert es[0 := e][1..] == es[1..];
    } else {
      CountDeletedUpdate(es[1..], i - 1, e);
      assert es[i := e][1..] == es[1..][i - 1 := e];
    }
  }

  /** The entries of the file `first` belongs to, in directory order. */
  function Extents(es: seq<Entry>, first: Entry): (r: seq<Entry>)
  {
    if es == [] then []
    else if es[0][0] != DELETED && SameFile(es[0], first) then [es[0]] + Extents(es[1..], first)
    else Extents(es[1..], first)
  }

  // ----- ordering the extents of a file

  function InsertExtent(e: Entry, s: seq<Entry>): seq<Entry> {
    if s == [] || ExtentNumber(e) <= ExtentNumber(s[0]) then [e] + s
    else [s[0]] + InsertExtent(e, s[1..])
  }

  /** Entries by ascending extent number; ties keep their directory order. */
  function SortExtents(s: seq<Entry>): seq<Entry> {
    if s == [] then [] else InsertExtent(s[0], SortExtents(s[1..]))
  }

  predicate Ascending(s: seq<Entry>) {
    |s| >= 2 ==> ExtentNumber(s[0]) <= ExtentNumber(s[1]) && Ascending(s[1..])
  }

  lemma {:induction false} InsertExtentSorts(e: Entry, s: seq<Entry>)
    requires Ascending(s)
    ensures Ascending(InsertExtent(e, s))
    ensures multiset(InsertExtent(e, s)) == multiset{e} + multiset(s)
  {
    hide ExtentNumber;
    if s == [] || ExtentNumber(e) <= ExtentNumber(s[0]) {
      assert ([e] + s)[1..] == s;
    } else {
      InsertExtentSorts(e, s[1..]);
      var t := InsertExtent(e, s[1..]);
      assert t[0] == e || t[0] == s[1];
      assert ([s[0]] + t)[1..] == t;
      InFront(s[0], t, e, s);
    }
  }

  lemma InFront(x: Entry, t: seq<Entry>, e: Entry, s: seq<Entry>)
    requires s != [] && s[0] == x && multiset(t) == multiset{e} + multiset(s[1..])
    ensures multiset([x] + t) == multiset{e} + multiset(s)
  {
    assert s == [x] + s[1..];
  }

  /** SortExtents orders the entries and neither loses nor invents one, */
  lemma {:induction false} SortExtentsSorts(s: seq<Entry>)
    ensures Ascending(SortExtents(s))
    ensures multiset(SortExtents(s)) == multiset(s)
  {
    if s != [] {
      SortExtentsSorts(s[1..]);
      InsertExtentSorts(s[0], SortExtents(s[1..]));
      assert s == [s[0]] + s[1..];
    }
  }

  /** and leaves a list in order alone. */
  lemma {:induction false} SortExtentsFixed(s: seq<Entry>)
    requires Ascending(s)
    ensures SortExtents(s) == s
  {
    if s != [] {
      SortExtentsFixed(s[1..]);
    }
  }

  // ----- sizes and blocks of a file

  /** All extents but the last are 16K; the last counts its records. */
  function FileSize(extents: seq<Entry>): nat {
    if extents == [] then 0
    else EXTENT_SIZE * (|extents| - 1) + RECORD_SIZE * Records(extents[|extents| - 1])
  }

  function FileBlocks(extents: seq<Entry>): seq<byte> {
    if extents == [] then [] else Pointers(extents[0]) + FileBlocks(extents[1..])
  }

  // ----- block references

  function EntryRefs(e: Entry): multiset<byte> {
    if Live(e) then multiset(Pointers(e)) else multiset{}
  }

  /** How often each block is referenced by live entries. */
  function Refs(es: seq<Entry>): multiset<byte> {
    if es == [] then multiset{} else EntryRefs(es[0]) + Refs(es[1..])
  }

  /** The references held by the live entries of one name. */
  function RefsOf(es: seq<Entry>, name: Name): multiset<byte> {
    if es == [] then multiset{}
    else (if Matches(es[0], name) then EntryRefs(es[0]) else multiset{}) + RefsOf(es[1..], name)
  }

  lemma SumSwap(a: multiset<byte>, r: multiset<byte>, x: multiset<byte>, s: multiset<byte>, y: multiset<byte>)
    requires r + x == s + y
    ensures (a + r) + x == (a + s) + y
  {
    assert (a + r) + x == a + (r + x);
  }

  lemma {:induction false} RefsUpdate(es: seq<Entry>, i: nat, e: Entry)
    requires i < |es|
    ensures Refs(es[i := e]) + EntryRefs(es[i]) == Refs(es) + EntryRefs(e)
  {
    if i == 0 {
      assert es[0 := e][1..] == es[1..];
    } else {
      RefsUpdate(es[1..], i - 1, e);
      assert es[i := e][1..] == es[1..][i - 1 := e];
      SumSwap(EntryRefs(es[0]), Refs(es[i := e][1..]), EntryRefs(es[i]), Refs(es[1..]), EntryRefs(e));
    }
  }

  lemma {:induction false} RefsMember(es: seq<Entry>, i: nat, b: byte)
    requires i < |es| && Live(es[i]) && b in Pointers(es[i])
    ensures b in Refs(es)
  {
    hide Pointers, Live;
    if i > 0 {
      RefsMember(es[1..], i - 1, b);
    } else {
      EntryRefsMember(es[0], b);
    }
  }

  lemma EntryRefsMember(e: Entry, b: byte)
    requires Live(e) && b in Pointers(e)
    ensures b in EntryRefs(e)
  {
  }

  /** No live entry points outside the data blocks, and no block is
      referenced twice. */
  ghost predicate WellFormed(es: seq<Entry>) {
    forall b :: b in Refs(es) ==> FIRST_DATA_BLOCK <= b < TOTAL_BLOCKS && Refs(es)[b] == 1
  }

  /** The blocks from b up that are not referenced, ascending. */
  function FreeFrom(refs: multiset<byte>, b: nat): seq<byte>
    requires FIRST_DATA_BLOCK <= b <= TOTAL_BLOCKS
    decreases TOTAL_BLOCKS - b
  {
    if b == TOTAL_BLOCKS then []
    else if b in refs then FreeFrom(refs, b + 1)
    else [b] + FreeFrom(refs, b + 1)
  }

  /** They are all there, and none twice. */
  lemma {:induction false} FreeFromSpec(refs: multiset<byte>, b: nat)
    requires FIRST_DATA_BLOCK <= b <= TOTAL_BLOCKS
    ensures forall x :: x in FreeFrom(refs, b) <==> b <= x < TOTAL_BLOCKS && x !in refs
    ensures forall i, j :: 0 <= i < j < |FreeFrom(refs, b)| ==> FreeFrom(refs, b)[i] < FreeFrom(refs, b)[j]
    ensures |FreeFrom(refs, b)| <= TOTAL_BLOCKS - b
    decreases TOTAL_BLOCKS - b
  {
    if b < TOTAL_BLOCKS {
      FreeFromSpec(refs, b + 1);
      var rest := FreeFrom(refs, b + 1);
      assert forall j :: 0 <= j < |rest| ==> rest[j] in rest;
    }
  }

  function FreeBlocks(es: seq<Entry>): seq<byte> { FreeFrom(Refs(es), FIRST_DATA_BLOCK) }
}
