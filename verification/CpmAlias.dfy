/** What a write does to a file that already bears the masked name: its new
    entries are taken for more extents of that file. */
module CpmAlias {
  import opened Bits
  import opened Bytes
  import opened Wrappers
  import opened DiscBlocks
  import opened Directory
  import opened CpmFiles
  import opened CpmProofs
  import opened CpmRuns

  // ----- entries that join a file

  /** An entry put into a free slot joins the extents it is like. */
  lemma {:induction false} ExtentsJoin(es: seq<Entry>, i: nat, e: Entry, first: Entry)
    requires i < |es| && es[i][0] == DELETED && e[0] != DELETED && SameFile(e, first)
    ensures multiset(Extents(es[i := e], first)) == multiset(Extents(es, first)) + multiset{e}
    ensures |FileBlocks(Extents(es[i := e], first))| == |FileBlocks(Extents(es, first))| + |Pointers(e)|
  {
    hide SameFile, Pointers;
    if i == 0 {
      assert es[0 := e][1..] == es[1..];
      assert Extents(es[0 := e], first) == [e] + Extents(es[1..], first);
    } else {
      ExtentsJoin(es[1..], i - 1, e, first);
      assert es[i := e][1..] == es[1..][i - 1 := e];
      var a, b := Extents(es[1..], first), Extents(es[1..][i - 1 := e], first);
      if es[0][0] != DELETED && SameFile(es[0], first) {
        assert Extents(es, first) == [es[0]] + a && Extents(es[i := e], first) == [es[0]] + b;
      }
    }
  }

  lemma NamedSame(e: Entry, first: Entry, name: Name)
    requires e[0] == first[0] && e[1..12] == name && Matches(first, Masked(name))
    ensures SameFile(e, first)
  {
    forall j | 1 <= j <= 11 ensures e[j] % 128 == first[j] % 128 {
      assert e[j] == e[1..12][j - 1] && first[1 + (j - 1)] % 128 == Masked(name)[j - 1];
    }
  }

  /** The new entries all join the file of user 0 under the masked name. */
  lemma {:induction false} EntriesJoin(dir: Dir, es: seq<Entry>, name: Name, first: Entry)
    requires PutEntries(dir, es).Some? && AllNamed(es, name)
    requires first[0] == 0 && Matches(first, Masked(name))
    ensures var dir' := PutEntries(dir, es).value;
      && multiset(Extents(dir', first)) == multiset(Extents(dir, first)) + multiset(es)
      && |FileBlocks(Extents(dir', first))| == |FileBlocks(Extents(dir, first))| + |FileBlocks(es)|
    decreases |es|
  {
    hide Matches, SameFile, Pointers, Extents;
    if es != [] {
      var i := FirstDeleted(dir);
      NamedSame(es[0], first, name);
      ExtentsJoin(dir, i, es[0], first);
      EntriesJoin(dir[i := es[0]], es[1..], name, first);
      assert es == [es[0]] + es[1..];
    }
  }

  lemma {:induction false} ExtentsLike(es: seq<Entry>, a: Entry, b: Entry)
    requires SameFile(a, b)
    ensures Extents(es, a) == Extents(es, b)
  {
    if es != [] {
      ExtentsLike(es[1..], a, b);
    }
  }

  /** Behind the write, the name finds a file of user 0. */
  lemma FoundUser0(dir: Dir, dir': Dir, name: Name)
    requires Extends(dir, dir', name)
    requires FirstDeleted(dir) < DIR_ENTRIES && dir'[FirstDeleted(dir)][0] == 0
    requires var i := FirstMatch(dir, Masked(name)); FirstDeleted(dir) <= i || dir[i][0] == 0
    ensures var i' := FirstMatch(dir', Masked(name)); i' < DIR_ENTRIES && dir'[i'][0] == 0
  {
    var n, at := Masked(name), FirstDeleted(dir);
    MatchesMasked(dir'[at], name, n);
    if FirstMatch(dir, n) < at {
      SameBefore(dir, dir', n);
    } else {
      assert forall k :: 0 <= k < at ==> dir'[k] == dir[k];
    }
  }

  /** For every write that touches a name: the name now reads a file of user 0
      whose extents are those it had, with all the new entries among them. */
  lemma TouchedFile(d: Disc, filename: seq<byte>, data: seq<byte>, other: seq<byte>)
    requires Sound(d) && Touches(d, filename, data, other)
    ensures ReadDirectory(WriteFile(d, filename, data).disc).Some? && ParseName(filename).Some?
    ensures Ceil(|data|, BLOCK_SIZE) <= |FreeBlocks(ReadDirectory(d).value)|
    ensures var d', dir := WriteFile(d, filename, data).disc, ReadDirectory(d).value;
      var dir', n := ReadDirectory(d').value, ParseName(other).value;
      var es := NewEntries(ParseName(filename).value, 0, Allocated(dir, data), |data|);
      var i := FirstMatch(dir', n);
      && i < DIR_ENTRIES && dir'[i][0] == 0
      && ReadFile(d', other) == ReadExtents(d', SortExtents(Extents(dir', dir'[i])))
      && multiset(Extents(dir', dir'[i])) == multiset(Extents(dir, dir'[i])) + multiset(es)
      && |FileBlocks(Extents(dir', dir'[i]))| == |FileBlocks(Extents(dir, dir'[i]))| + |Allocated(dir, data)|
  {
    hide CanWrite, Store, Extents, ReadExtents, Allocated, Matches;
    WriteSucceedsExactly(d, filename, data);
    var dir, name := ReadDirectory(d).value, ParseName(filename).value;
    var d' := WriteFile(d, filename, data).disc;
    StoreFacts(d, dir, name, data);
    var blocks, dir' := Allocated(dir, data), ReadDirectory(d').value;
    FoundUser0(dir, dir', name);
    NewEntriesNamed(name, 0, blocks, |data|);
    NewEntriesBlocks(name, 0, blocks, |data|);
    EntriesJoin(dir, NewEntries(name, 0, blocks, |data|), name, dir'[FirstMatch(dir', Masked(name))]);
  }

  // ----- the file grows

  predicate ValidRecords(es: seq<Entry>) {
    forall k :: 0 <= k < |es| ==> 1 <= Records(es[k]) <= RECORDS_PER_EXTENT
  }

  lemma {:induction false} NewEntriesRecords(name: Name, ext: nat, blocks: seq<byte>, bytes: nat)
    requires |blocks| == Ceil(bytes, BLOCK_SIZE) && forall i :: 0 <= i < |blocks| ==> blocks[i] != 0
    ensures ValidRecords(NewEntries(name, ext, blocks, bytes))
    decreases |blocks|
  {
    hide MakeEntry, Pointers, ExtentNumber, NewEntries, Records;
    if blocks == [] {
      NoNewEntries(name, ext, bytes);
    } else {
      var n := Min(BLOCKS_PER_EXTENT, |blocks|);
      var here := Min(n * BLOCK_SIZE, bytes);
      NewEntriesSplit(name, ext, blocks, bytes);
      MakeEntryFields(name, ext, blocks[..n], here);
      NewEntriesRecords(name, ext + 1, blocks[n..], bytes - here);
      var es, rest := NewEntries(name, ext, blocks, bytes), NewEntries(name, ext + 1, blocks[n..], bytes - here);
      forall k | 0 <= k < |es| ensures 1 <= Records(es[k]) <= RECORDS_PER_EXTENT {
        if k > 0 { assert es[k] == rest[k - 1]; }
      }
    }
  }

  lemma {:induction false} InsertedBlocks(e: Entry, s: seq<Entry>)
    ensures |FileBlocks(InsertExtent(e, s))| == |Pointers(e)| + |FileBlocks(s)|
  {
    hide Pointers, ExtentNumber;
    if s != [] && ExtentNumber(e) > ExtentNumber(s[0]) {
      InsertedBlocks(e, s[1..]);
      assert InsertExtent(e, s)[1..] == InsertExtent(e, s[1..]);
    } else {
      assert InsertExtent(e, s)[1..] == s;
    }
  }

  lemma {:induction false} SortedBlocks(s: seq<Entry>)
    ensures |FileBlocks(SortExtents(s))| == |FileBlocks(s)|
  {
    if s != [] {
      SortedBlocks(s[1..]);
      InsertedBlocks(s[0], SortExtents(s[1..]));
    }
  }

  /** More extents, the new ones and the old ones with sound record counts,
      make a greater size. */
  lemma SizeGrows(before: seq<Entry>, all: seq<Entry>, es: seq<Entry>)
    requires multiset(all) == multiset(before) + multiset(es) && es != []
    requires ValidRecords(before) && ValidRecords(es)
    ensures FileSize(SortExtents(all)) > FileSize(SortExtents(before))
  {
    hide Records, SortExtents;
    var s, t := SortExtents(before), SortExtents(all);
    SortExtentsSorts(before);
    SortExtentsSorts(all);
    assert |t| == |multiset(all)| == |s| + |es|;
    var last := t[|t| - 1];
    assert last in multiset(all);
    assert 1 <= Records(last);
    if s != [] {
      assert s[|s| - 1] in multiset(before);
      assert Records(s[|s| - 1]) <= RECORDS_PER_EXTENT;
    }
  }

  lemma {:induction false} ReadLength(d: Disc, blocks: seq<byte>, size: nat)
    ensures ReadBlocks(d, blocks, size).Data? ==>
      |ReadBlocks(d, blocks, size).bytes| == Min(size, BLOCK_SIZE * |blocks|)
    decreases |blocks|
  {
    hide HasBlock, Block;
    if blocks != [] && size > BLOCK_SIZE {
      ReadLength(d, blocks[1..], size - BLOCK_SIZE);
    }
  }

  /** The extents of the file that bears the name. */
  ghost function OldExtents(d: Disc, other: seq<byte>): seq<Entry>
    requires ReadDirectory(d).Some? && ParseName(other).Some?
  {
    var dir := ReadDirectory(d).value;
    var i := FirstMatch(dir, ParseName(other).value);
    if i < DIR_ENTRIES then Extents(dir, dir[i]) else []
  }

  /** The name belongs to a file of user 0 with sound record counts. */
  ghost predicate Ordinary(d: Disc, other: seq<byte>) {
    && ReadDirectory(d).Some? && ParseName(other).Some?
    && var dir := ReadDirectory(d).value;
       var i := FirstMatch(dir, ParseName(other).value);
       i < DIR_ENTRIES && dir[i][0] == 0 && ValidRecords(Extents(dir, dir[i]))
  }

  /** Such a file has the new entries for extents now. */
  lemma TouchedExtents(d: Disc, filename: seq<byte>, data: seq<byte>, other: seq<byte>)
    returns (all: seq<Entry>, es: seq<Entry>)
    requires Sound(d) && Touches(d, filename, data, other) && Ordinary(d, other)
    ensures ReadFile(d, other) == ReadExtents(d, SortExtents(OldExtents(d, other)))
    ensures ReadFile(WriteFile(d, filename, data).disc, other)
      == ReadExtents(WriteFile(d, filename, data).disc, SortExtents(all))
    ensures multiset(all) == multiset(OldExtents(d, other)) + multiset(es)
    ensures |FileBlocks(all)| > |FileBlocks(OldExtents(d, other))|
    ensures Ceil(|data|, BLOCK_SIZE) <= |FreeBlocks(ReadDirectory(d).value)|
    ensures FileBlocks(es) == Allocated(ReadDirectory(d).value, data)
    ensures es != [] && ValidRecords(es)
  {
    hide WriteFile, ReadExtents, FileBlocks, SortExtents, Extents, ValidRecords, Allocated, Matches, NewEntries;
    TouchedFile(d, filename, data, other);
    var dir, n, d' := ReadDirectory(d).value, ParseName(other).value, WriteFile(d, filename, data).disc;
    var dir', blocks := ReadDirectory(d').value, Allocated(dir, data);
    var first, first' := dir[FirstMatch(dir, n)], dir'[FirstMatch(dir', n)];
    LikeNamed(first', first, n);
    ExtentsLike(dir, first', first);
    all, es := Extents(dir', first'), NewEntries(ParseName(filename).value, 0, blocks, |data|);
    NewEntriesRecords(ParseName(filename).value, 0, blocks, |data|);
    NewEntriesNamed(ParseName(filename).value, 0, blocks, |data|);
    NewEntriesBlocks(ParseName(filename).value, 0, blocks, |data|);
    NamedReads(d, other);
  }

  lemma NamedReads(d: Disc, other: seq<byte>)
    requires d.tracks != 0 && ReadDirectory(d).Some? && ParseName(other).Some?
    requires FirstMatch(ReadDirectory(d).value, ParseName(other).value) < DIR_ENTRIES
    ensures ReadFile(d, other) == ReadExtents(d, SortExtents(OldExtents(d, other)))
  {
  }

  /** A file of user 0 that a write touches does not read as before: it has
      become longer, or a block of it that was never reached is missing. */
  lemma TouchedFileGrows(d: Disc, filename: seq<byte>, data: seq<byte>, other: seq<byte>)
    requires Sound(d) && Touches(d, filename, data, other) && Ordinary(d, other)
    requires ReadFile(d, other).Data?
    ensures var r := ReadFile(WriteFile(d, filename, data).disc, other);
      r.Data? ==> |r.bytes| > |ReadFile(d, other).bytes|
  {
    hide Touches, WriteFile, ReadFile, ReadBlocks, FileSize, FileBlocks, SortExtents, ValidRecords,
         OldExtents, Allocated;
    var all, es := TouchedExtents(d, filename, data, other);
    var before, d' := OldExtents(d, other), WriteFile(d, filename, data).disc;
    OrdinaryRecords(d, other);
    SizeGrows(before, all, es);
    SortedBlocks(before);
    SortedBlocks(all);
    ReadLength(d, FileBlocks(SortExtents(before)), FileSize(SortExtents(before)));
    ReadLength(d', FileBlocks(SortExtents(all)), FileSize(SortExtents(all)));
  }

  lemma OrdinaryRecords(d: Disc, other: seq<byte>)
    requires Ordinary(d, other)
    ensures ValidRecords(OldExtents(d, other))
  {
  }

  // ----- and stays readable if all its blocks are there

  ghost predicate AllThere(d: Disc, blocks: seq<byte>) { forall p :: 0 <= p < |blocks| ==> HasBlock(d, blocks[p]) }

  lemma {:induction false} ThereReads(d: Disc, blocks: seq<byte>, size: nat)
    requires AllThere(d, blocks)
    ensures ReadBlocks(d, blocks, size).Data?
    decreases |blocks|
  {
    hide HasBlock, Block;
    if blocks != [] && size > BLOCK_SIZE {
      ThereReads(d, blocks[1..], size - BLOCK_SIZE);
    }
  }

  lemma {:induction false} HoldsThere(d: Disc, blocks: seq<byte>, data: seq<byte>)
    requires Holds(d, blocks, data)
    ensures AllThere(d, blocks)
    decreases |blocks|
  {
    hide HasBlock;
    if blocks != [] {
      HoldsThere(d, blocks[1..], data[Min(BLOCK_SIZE, |data|)..]);
      forall p | 0 <= p < |blocks| ensures HasBlock(d, blocks[p]) {
        if p > 0 { assert blocks[p] == blocks[1..][p - 1]; }
      }
    }
  }

  lemma {:induction false} PointerListed(es: seq<Entry>, k: nat, b: byte) returns (p: nat)
    requires k < |es| && b in Pointers(es[k])
    ensures p < |FileBlocks(es)| && FileBlocks(es)[p] == b
  {
    hide Pointers;
    if k == 0 {
      p :| 0 <= p < |Pointers(es[0])| && Pointers(es[0])[p] == b;
    } else {
      p := PointerListed(es[1..], k - 1, b);
      p := |Pointers(es[0])| + p;
    }
  }

  lemma JoinedThere(d: Disc, a: seq<Entry>, b: seq<Entry>, s: seq<Entry>)
    requires multiset(s) == multiset(a) + multiset(b)
    requires AllThere(d, FileBlocks(a)) && AllThere(d, FileBlocks(b))
    ensures AllThere(d, FileBlocks(s))
  {
    hide HasBlock, Pointers, FileBlocks;
    forall p | 0 <= p < |FileBlocks(s)| ensures HasBlock(d, FileBlocks(s)[p]) {
      var k := FileBlocksSource(s, p);
      assert s[k] in multiset(s);
      if s[k] in multiset(a) {
        var j :| 0 <= j < |a| && a[j] == s[k];
        var q := PointerListed(a, j, FileBlocks(s)[p]);
      } else {
        assert s[k] in multiset(b);
        var j :| 0 <= j < |b| && b[j] == s[k];
        var q := PointerListed(b, j, FileBlocks(s)[p]);
      }
    }
  }

  lemma TouchedFileReads(d: Disc, filename: seq<byte>, data: seq<byte>, other: seq<byte>)
    requires Sound(d) && Touches(d, filename, data, other) && Ordinary(d, other)
    requires AllThere(d, FileBlocks(OldExtents(d, other)))
    ensures ReadFile(WriteFile(d, filename, data).disc, other).Data?
  {
    hide Touches, WriteFile, ReadFile, ReadBlocks, FileSize, FileBlocks, SortExtents, OldExtents,
         Allocated, HasBlock, Holds, ValidRecords;
    var all, es := TouchedExtents(d, filename, data, other);
    var d' := WriteFile(d, filename, data).disc;
    TouchedStores(d, filename, data, other);
    assert AllThere(d', FileBlocks(OldExtents(d, other)));
    HoldsThere(d', FileBlocks(es), data);
    SortExtentsSorts(all);
    JoinedThere(d', OldExtents(d, other), es, SortExtents(all));
    ThereReads(d', FileBlocks(SortExtents(all)), FileSize(SortExtents(all)));
  }

  lemma TouchedStores(d: Disc, filename: seq<byte>, data: seq<byte>, other: seq<byte>)
    requires Touches(d, filename, data, other)
    ensures Ceil(|data|, BLOCK_SIZE) <= |FreeBlocks(ReadDirectory(d).value)|
    ensures var d' := WriteFile(d, filename, data).disc;
      && Holds(d', Allocated(ReadDirectory(d).value, data), data)
      && forall b: nat :: HasBlock(d, b) == HasBlock(d', b)
  {
    hide CanWrite, Store, Holds, HasBlock, Allocated;
    WriteSucceedsExactly(d, filename, data);
    StoreFacts(d, ReadDirectory(d).value, ParseName(filename).value, data);
  }

  // ----- exactly when a write keeps a file

  /** For every name that is free or belongs to a readable file of user 0 with
      sound record counts: it reads as before if and only if the write does not
      touch it. */
  lemma WriteKeepsExactly(d: Disc, filename: seq<byte>, data: seq<byte>, other: seq<byte>)
    requires Sound(d)
    requires ReadFile(d, other) == Failed(FileNotFound) || (ReadFile(d, other).Data? && Ordinary(d, other))
    ensures ReadFile(WriteFile(d, filename, data).disc, other) == ReadFile(d, other)
      <==> !Touches(d, filename, data, other)
  {
    hide Ordinary, Touches;
    if !Touches(d, filename, data, other) {
      WriteKeepsOthers(d, filename, data, other);
    } else if ReadFile(d, other).Data? {
      TouchedFileGrows(d, filename, data, other);
    } else {
      FreeNameTaken(d, filename, data, other);
    }
  }

  lemma FreeNameTaken(d: Disc, filename: seq<byte>, data: seq<byte>, other: seq<byte>)
    requires Touches(d, filename, data, other) && ReadFile(d, other) == Failed(FileNotFound)
    ensures ReadFile(WriteFile(d, filename, data).disc, other) == Data(Padded(data))
  {
    hide CanWrite, Store, Padded;
    WriteSucceedsExactly(d, filename, data);
    ReadNamedMissing(d, ReadDirectory(d).value, ParseName(other).value);
    AliasedName(d, filename, data, other);
  }

  lemma LikeNamed(a: Entry, b: Entry, n: Name)
    requires a[0] == b[0] && Matches(a, n) && Matches(b, n)
    ensures SameFile(a, b)
  {
    forall j | 1 <= j <= 11 ensures a[j] % 128 == b[j] % 128 {
      assert a[1 + (j - 1)] % 128 == n[j - 1] && b[1 + (j - 1)] % 128 == n[j - 1];
    }
  }

  /** Every file the program writes under an ASCII name is of that kind. */
  lemma WrittenOrdinary(d: Disc, filename: seq<byte>, data: seq<byte>)
    requires WriteFile(d, filename, data).error.None? && data != [] && Ascii(ParseName(filename).value)
    ensures Ordinary(WriteFile(d, filename, data).disc, filename)
  {
    hide Store, Matches, Allocated, NewEntries, Extents;
    var dir, name := ReadDirectory(d).value, ParseName(filename).value;
    var d' := WriteFile(d, filename, data).disc;
    StoreFacts(d, dir, name, data);
    MaskedAscii(name);
    var blocks, dir' := Allocated(dir, data), ReadDirectory(d').value;
    NewEntriesRecords(name, 0, blocks, |data|);
    NewEntriesNamed(name, 0, blocks, |data|);
    assert NameFree(dir, name) by { NoneNamed(dir, name); }
    NewFileExtents(dir, dir', name, NewEntries(name, 0, blocks, |data|));
    FoundUser0(dir, dir', name);
  }

  // ----- a file that is damaged

  /** Room for one block and one entry is enough for a short file. */
  lemma ShortFileFits(d: Disc, filename: seq<byte>, data: seq<byte>, b: byte)
    requires d.tracks != 0 && ParseName(filename).Some? && ReadDirectory(d).Some?
    requires forall c: nat :: c < TOTAL_BLOCKS ==> HasBlock(d, c)
    requires var dir := ReadDirectory(d).value;
      && FirstMatch(dir, ParseName(filename).value) == DIR_ENTRIES
      && FirstDeleted(dir) < DIR_ENTRIES
      && FIRST_DATA_BLOCK <= b < TOTAL_BLOCKS && b !in Refs(dir)
    requires 1 <= |data| <= BLOCK_SIZE
    ensures WriteFile(d, filename, data).error.None?
  {
    hide HasBlock, Refs, FirstDeleted, FirstMatch, PutBlock, Chunk;
    var dir, name := ReadDirectory(d).value, ParseName(filename).value;
    FreeFromSpec(Refs(dir), FIRST_DATA_BLOCK);
    assert b in FreeBlocks(dir);
    var free := FreeBlocks(dir);
    assert free[0] in free;
    assert Ceil(|data|, BLOCK_SIZE) == 1 && Ceil(1, BLOCKS_PER_EXTENT) == 1;
    assert Allocated(dir, data) == [free[0]];
    WritesOne(d, free[0], data);
    DirectoryReady(d, dir, name, data);
  }

  lemma WritesOne(d: Disc, b: byte, data: seq<byte>)
    requires HasBlock(d, b)
    ensures WriteBlocks(d, [b], data).failed.None?
  {
    hide HasBlock, PutBlock, Chunk;
    assert [b][1..] == [];
  }

  function SectorKeys(): set<SectorKey> { set n | 0 <= n < 2 * TOTAL_BLOCKS :: Key(n) }

  /** Forty tracks with every byte 0xE5. */
  function FormattedDisc(): Disc { Disc(40, map k | k in SectorKeys() :: Fill(SECTOR_SIZE, FILL)) }

  lemma {:induction false} SplitFilled(bytes: seq<byte>, n: nat)
    requires |bytes| == ENTRY_SIZE * n && forall i :: 0 <= i < |bytes| ==> bytes[i] == FILL
    ensures forall k :: 0 <= k < n ==> Split(bytes, n)[k][0] == DELETED
  {
    if n > 0 {
      SplitFilled(bytes[ENTRY_SIZE..], n - 1);
    }
  }

  lemma {:induction false} DeletedNoRefs(es: seq<Entry>)
    requires forall k :: 0 <= k < |es| ==> es[k][0] == DELETED
    ensures Refs(es) == multiset{}
  {
    if es != [] {
      DeletedNoRefs(es[1..]);
    }
  }

  lemma Formatted()
    ensures forall b: nat :: b < TOTAL_BLOCKS ==> HasBlock(FormattedDisc(), b)
    ensures ReadDirectory(FormattedDisc()).Some?
    ensures forall k :: 0 <= k < DIR_ENTRIES ==> ReadDirectory(FormattedDisc()).value[k][0] == DELETED
  {
    hide Split;
    var f := FormattedDisc();
    forall n: nat | n < 360 ensures Present(f, n) && SectorBytes(f, n) == Fill(SECTOR_SIZE, FILL) { }
    forall b: nat | b < TOTAL_BLOCKS ensures HasBlock(f, b) { }
    SplitFilled(Block(f, 0) + Block(f, 1), DIR_ENTRIES);
  }

  const NAME: seq<byte> := [65]
  const ALIAS: seq<byte> := [193]

  lemma AliasNames()
    ensures ParseName(NAME).Some? && Ascii(ParseName(NAME).value)
    ensures ParseName(ALIAS).Some? && ParseName(NAME) == Some(Masked(ParseName(ALIAS).value))
    ensures !Ascii(ParseName(ALIAS).value)
  {
    assert Upper(NAME) == NAME && Upper(ALIAS) == ALIAS;
    assert FindDot(NAME) == 1 && FindDot(ALIAS) == 1;
    var n, a := ParseName(NAME).value, ParseName(ALIAS).value;
    assert n == [65] + Fill(7, SPACE) + [] + Fill(3, SPACE) && a == [193] + Fill(7, SPACE) + [] + Fill(3, SPACE);
    assert a[0] == 193;
    assert Masked(a) == n;
  }

  /** On a freshly formatted disc, a file and then one under a name that differs
      only in a bit the directory masks: the second write succeeds, and the
      first file is no longer what it was. */
  lemma AliasDamages()
    ensures var d := WriteFile(FormattedDisc(), NAME, [1]).disc;
      && WriteFile(FormattedDisc(), NAME, [1]).error.None?
      && ReadFile(d, NAME) == Data(Padded([1]))
      && WriteFile(d, ALIAS, [2]).error.None?
      && ReadFile(WriteFile(d, ALIAS, [2]).disc, NAME) != ReadFile(d, NAME)
  {
    hide FormattedDisc, WriteFile, Padded, Touches, Ordinary, Masked, Sound, HasBlock;
    var f := FormattedDisc();
    var d := WriteFile(f, NAME, [1]).disc;
    AliasNames();
    FirstWrite(f);
    SecondWrite(f, d);
    WriteReadRoundTrip(f, NAME, [1]);
    WriteSound(f, NAME, [1]);
    WrittenOrdinary(f, NAME, [1]);
    assert Touches(d, ALIAS, [2], NAME) by { AliasTouches(d); }
    WriteKeepsExactly(d, ALIAS, [2], NAME);
  }

  lemma FirstWrite(f: Disc)
    requires f == FormattedDisc()
    ensures Sound(f) && WriteFile(f, NAME, [1]).error.None?
    ensures ReadDirectory(f).Some? && Refs(ReadDirectory(f).value) == multiset{}
  {
    hide HasBlock, WriteFile;
    Formatted();
    AliasNames();
    var dir := ReadDirectory(f).value;
    DeletedNoRefs(dir);
    ShortFileFits(f, NAME, [1], FIRST_DATA_BLOCK);
  }

  lemma SecondWrite(f: Disc, d: Disc)
    requires f == FormattedDisc() && d == WriteFile(f, NAME, [1]).disc
    requires WriteFile(f, NAME, [1]).error.None?
    requires ReadDirectory(f).Some? && Refs(ReadDirectory(f).value) == multiset{}
    ensures WriteFile(d, ALIAS, [2]).error.None?
  {
    hide HasBlock, WriteFile, Store, Refs, FormattedDisc, Matches;
    Formatted();
    AliasNames();
    var dir := ReadDirectory(f).value;
    WriteAllocates(f, NAME, [1]);
    var dir', used := ReadDirectory(d).value, Allocated(dir, [1])[0];
    assert Allocated(dir, [1]) == [used];
    OneEntry(f, d);
    UnmatchedAlias(dir');
    ShortFileFits(d, ALIAS, [2], if used == 2 then 3 else 2);
  }

  lemma UnmatchedAlias(dir: Dir)
    ensures ParseName(ALIAS).Some? && FirstMatch(dir, ParseName(ALIAS).value) == DIR_ENTRIES
  {
    AliasNames();
    NeverFound(dir, ParseName(ALIAS).value);
  }

  lemma OneEntry(f: Disc, d: Disc)
    requires d == WriteFile(f, NAME, [1]).disc && WriteFile(f, NAME, [1]).error.None?
    requires ReadDirectory(f).Some? && forall k :: 0 <= k < DIR_ENTRIES ==> ReadDirectory(f).value[k][0] == DELETED
    ensures d.tracks == f.tracks && ReadDirectory(d).Some? && FirstDeleted(ReadDirectory(d).value) < DIR_ENTRIES
    ensures forall b: nat :: HasBlock(d, b) == HasBlock(f, b)
  {
    hide HasBlock, Store, MakeEntry;
    var dir, name := ReadDirectory(f).value, ParseName(NAME).value;
    StoreFacts(f, dir, name, [1]);
    var blocks := Allocated(dir, [1]);
    NewEntriesNamed(name, 0, blocks, 1);
    var es := NewEntries(name, 0, blocks, 1);
    assert es == [es[0]] && es[1..] == [];
    assert FirstDeleted(dir) == 0;
    assert ReadDirectory(d) == Some(dir[0 := es[0]]);
    assert dir[0 := es[0]][1][0] == DELETED;
  }

  lemma AliasTouches(d: Disc)
    requires WriteFile(d, ALIAS, [2]).error.None? && Ordinary(d, NAME)
    ensures Touches(d, ALIAS, [2], NAME)
  {
    hide CanWrite;
    WriteSucceedsExactly(d, ALIAS, [2]);
    AliasNames();
  }
}
