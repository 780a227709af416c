/** The file system over whole runs of writes and deletes. */
module CpmRuns {
  import opened Bits
  import opened Wrappers
  import opened DiscBlocks
  import opened Directory
  import opened CpmFiles
  import opened CpmProofs

  // ----- block references

  lemma SumPairs(a: multiset<byte>, m: multiset<byte>, r: multiset<byte>, o: multiset<byte>)
    ensures (a + r) + (m + o) == (a + m) + (r + o)
  {
  }

  lemma FillSlotRefs(dir: Dir, i: nat, e: Entry)
    requires i < DIR_ENTRIES && dir[i][0] == DELETED
    ensures Refs(dir[i := e]) == Refs(dir) + EntryRefs(e)
  {
    RefsUpdate(dir, i, e);
    assert EntryRefs(dir[i]) == multiset{};
  }

  /** Adding entries adds exactly their references. */
  lemma {:induction false} PutEntriesRefs(dir: Dir, es: seq<Entry>)
    requires PutEntries(dir, es).Some?
    ensures Refs(PutEntries(dir, es).value) == Refs(dir) + Refs(es)
    decreases |es|
  {
    if es != [] {
      FillSlotRefs(dir, FirstDeleted(dir), es[0]);
      PutEntriesRefs(dir[FirstDeleted(dir) := es[0]], es[1..]);
    }
  }

  lemma {:induction false} NewEntriesRefs(name: Name, ext: nat, blocks: seq<byte>, bytes: nat)
    requires forall i :: 0 <= i < |blocks| ==> blocks[i] != 0
    ensures Refs(NewEntries(name, ext, blocks, bytes)) == multiset(blocks)
    decreases |blocks|
  {
    hide MakeEntry, Pointers, Records, ExtentNumber, NewEntries;
    if blocks != [] {
      var n := Min(BLOCKS_PER_EXTENT, |blocks|);
      var here := Min(n * BLOCK_SIZE, bytes);
      NewEntriesSplit(name, ext, blocks, bytes);
      MakeEntryFields(name, ext, blocks[..n], here);
      NewEntriesRefs(name, ext + 1, blocks[n..], bytes - here);
    } else {
      NoNewEntries(name, ext, bytes);
    }
  }

  lemma {:induction false} DeleteRefs(es: seq<Entry>, name: Name)
    ensures Refs(DeleteMatches(es, name)) + RefsOf(es, name) == Refs(es)
  {
    if es != [] {
      DeleteRefs(es[1..], name);
      var after := DeleteMatches(es, name);
      assert after[1..] == DeleteMatches(es[1..], name);
      var mine := if Matches(es[0], name) then EntryRefs(es[0]) else multiset{};
      assert EntryRefs(after[0]) + mine == EntryRefs(es[0]);
      SumPairs(EntryRefs(after[0]), mine, Refs(after[1..]), RefsOf(es[1..], name));
    }
  }

  lemma {:induction false} DistinctOnce(s: seq<byte>, b: byte)
    requires Distinct(s)
    ensures multiset(s)[b] <= 1
  {
    if s != [] {
      DistinctOnce(s[1..], b);
      assert s == [s[0]] + s[1..];
      assert s[0] !in s[1..];
    }
  }

  /** No block is ever referenced twice or from outside 2..179, if none was. */
  ghost predicate Sound(d: Disc) {
    ReadDirectory(d).Some? ==> WellFormed(ReadDirectory(d).value)
  }

  // ----- files under another name

  lemma {:induction false} FirstMatchFrame(es: seq<Entry>, es': seq<Entry>, n: Name)
    requires |es| == |es'|
    requires forall i :: 0 <= i < |es| ==>
      es'[i] == es[i] || (!(Live(es[i]) && Matches(es[i], n)) && !(Live(es'[i]) && Matches(es'[i], n)))
    ensures FirstMatch(es', n) == FirstMatch(es, n)
  {
  }

  lemma {:induction false} ExtentsFrame(es: seq<Entry>, es': seq<Entry>, first: Entry, n: Name)
    requires |es| == |es'|
    requires Live(first) && Matches(first, n)
    requires forall i :: 0 <= i < |es| ==>
      es'[i] == es[i] || (!(Live(es[i]) && Matches(es[i], n)) && !(Live(es'[i]) && Matches(es'[i], n)))
    ensures Extents(es', first) == Extents(es, first)
  {
    if es != [] {
      ExtentsFrame(es[1..], es'[1..], first, n);
      if SameFile(es[0], first) { SameFileMatches(es[0], first, n); }
      if SameFile(es'[0], first) { SameFileMatches(es'[0], first, n); }
    }
  }

  lemma {:induction false} ExtentsAreLive(es: seq<Entry>, first: Entry, k: nat) returns (i: nat)
    requires k < |Extents(es, first)|
    ensures i < |es| && es[i] == Extents(es, first)[k] && SameFile(es[i], first)
  {
    if es[0][0] != DELETED && SameFile(es[0], first) {
      if k == 0 { i := 0; } else { i := ExtentsAreLive(es[1..], first, k - 1); i := i + 1; }
    } else {
      i := ExtentsAreLive(es[1..], first, k);
      i := i + 1;
    }
  }

  lemma {:induction false} FileBlocksSource(es: seq<Entry>, p: nat) returns (k: nat)
    requires p < |FileBlocks(es)|
    ensures k < |es| && FileBlocks(es)[p] in Pointers(es[k])
  {
    var n := |Pointers(es[0])|;
    if p < n { k := 0; } else { k := FileBlocksSource(es[1..], p - n); k := k + 1; }
  }

  /** Every block a file is read from is referenced in the directory. */
  lemma FileBlocksRefs(dir: Dir, first: Entry, p: nat)
    requires Live(first)
    requires p < |FileBlocks(SortExtents(Extents(dir, first)))|
    ensures FileBlocks(SortExtents(Extents(dir, first)))[p] in Refs(dir)
  {
    var es := Extents(dir, first);
    var sorted := SortExtents(es);
    var k := FileBlocksSource(sorted, p);
    SortExtentsSorts(es);
    assert sorted[k] in multiset(es);
    var m :| 0 <= m < |es| && es[m] == sorted[k];
    var i := ExtentsAreLive(dir, first, m);
    RefsMember(dir, i, FileBlocks(sorted)[p]);
  }

  lemma {:induction false} ReadBlocksFrame(d: Disc, e: Disc, but: set<nat>, blocks: seq<byte>, size: nat)
    requires SameBut(d, e, but)
    requires forall p :: 0 <= p < |blocks| ==> (blocks[p] as nat) !in but
    ensures ReadBlocks(e, blocks, size) == ReadBlocks(d, blocks, size)
    decreases |blocks|
  {
    if blocks != [] {
      assert HasBlock(d, blocks[0]) == HasBlock(e, blocks[0]);
      if size > BLOCK_SIZE {
        ReadBlocksFrame(d, e, but, blocks[1..], size - BLOCK_SIZE);
      }
    }
  }

  /** If the directory still says the same about a name, and only blocks that
      no entry references have changed, the file reads the same. */
  lemma ReadNamedFrame(d: Disc, e: Disc, but: set<nat>, dir: Dir, dir': Dir, n: Name)
    requires SameBut(d, e, but)
    requires forall b: byte :: b in Refs(dir) ==> (b as nat) !in but
    requires forall i :: 0 <= i < DIR_ENTRIES ==>
      dir'[i] == dir[i] || (!(Live(dir[i]) && Matches(dir[i], n)) && !(Live(dir'[i]) && Matches(dir'[i], n)))
    ensures ReadNamed(e, dir', n) == ReadNamed(d, dir, n)
  {
    FirstMatchFrame(dir, dir', n);
    var i := FirstMatch(dir, n);
    if i < DIR_ENTRIES {
      ExtentsFrame(dir, dir', dir[i], n);
      var es := SortExtents(Extents(dir, dir[i]));
      forall p | 0 <= p < |FileBlocks(es)| ensures (FileBlocks(es)[p] as nat) !in but {
        FileBlocksRefs(dir, dir[i], p);
      }
      ReadBlocksFrame(d, e, but, FileBlocks(es), FileSize(es));
    }
  }

  // ----- one write

  /** Once the space has been counted, the directory cannot fail. */
  lemma DirectoryReady(d: Disc, dir: Dir, name: Name, data: seq<byte>)
    requires ReadDirectory(d) == Some(dir)
    requires Ceil(|data|, BLOCK_SIZE) <= |FreeBlocks(dir)|
    requires CountDeleted(dir) >= Ceil(Ceil(|data|, BLOCK_SIZE), BLOCKS_PER_EXTENT)
    ensures ReadDirectory(WriteBlocks(d, Allocated(dir, data), data).disc) == Some(dir)
    ensures PutEntries(dir, NewEntries(name, 0, Allocated(dir, data), |data|)).Some?
  {
    var blocks := Allocated(dir, data);
    WriteBlocksSame(d, blocks, data);
    NotDirectory(blocks);
    SameDirectory(d, WriteBlocks(d, blocks, data).disc, Blocks(blocks));
    NewEntriesNamed(name, 0, blocks, |data|);
    PutEntriesExtends(dir, NewEntries(name, 0, blocks, |data|), name);
  }

  lemma StoreFailure(d: Disc, dir: Dir, name: Name, data: seq<byte>)
    requires ReadDirectory(d) == Some(dir)
    requires Store(d, dir, name, data).error.Some?
    ensures Store(d, dir, name, data).error.value != UnwritableDirectory
    ensures if Store(d, dir, name, data).error.value.UnwritableBlock?
      then Ceil(|data|, BLOCK_SIZE) <= |FreeBlocks(dir)|
        && Store(d, dir, name, data).disc == WriteBlocks(d, Allocated(dir, data), data).disc
      else Store(d, dir, name, data).disc == d
  {
    var needed := Ceil(|data|, BLOCK_SIZE);
    if needed <= |FreeBlocks(dir)| && CountDeleted(dir) >= Ceil(needed, BLOCKS_PER_EXTENT) {
      DirectoryReady(d, dir, name, data);
    }
  }

  /** Data blocks written without an entry to reference them are invisible. */
  lemma OrphansInvisible(d: Disc, dir: Dir, data: seq<byte>, other: seq<byte>)
    requires ReadDirectory(d) == Some(dir)
    requires Ceil(|data|, BLOCK_SIZE) <= |FreeBlocks(dir)|
    ensures var d' := WriteBlocks(d, Allocated(dir, data), data).disc;
      ReadDirectory(d') == Some(dir) && ReadFile(d', other) == ReadFile(d, other)
  {
    var blocks := Allocated(dir, data);
    var d' := WriteBlocks(d, blocks, data).disc;
    WriteBlocksSame(d, blocks, data);
    NotDirectory(blocks);
    SameDirectory(d, d', Blocks(blocks));
    if ParseName(other).Some? {
      UnreferencedBlocks(dir, blocks);
      ReadNamedFrame(d, d', Blocks(blocks), dir, dir, ParseName(other).value);
    }
  }

  /** A failed write leaves the directory as it was and every file readable as
      before. The check on the number of free entries is the only way to a full
      directory, and the directory can always be written back. */
  lemma WriteFailureHarmless(d: Disc, filename: seq<byte>, data: seq<byte>, other: seq<byte>)
    requires WriteFile(d, filename, data).error.Some?
    ensures var r := WriteFile(d, filename, data);
      && ReadDirectory(r.disc) == ReadDirectory(d)
      && ReadFile(r.disc, other) == ReadFile(d, other)
      && r.error.value != UnwritableDirectory
      && (!r.error.value.UnwritableBlock? ==> r.disc == d)
  {
    if ReadDirectory(d).Some? && ParseName(filename).Some? {
      var dir := ReadDirectory(d).value;
      var name := ParseName(filename).value;
      if d.tracks != 0 && FirstMatch(dir, name) == DIR_ENTRIES {
        StoreFailure(d, dir, name, data);
        if Store(d, dir, name, data).error.value.UnwritableBlock? {
          OrphansInvisible(d, dir, data, other);
        }
      }
    }
  }

  lemma UnreferencedBlocks(dir: Dir, blocks: seq<byte>)
    requires forall i :: 0 <= i < |blocks| ==> blocks[i] !in Refs(dir)
    ensures forall b: byte :: b in Refs(dir) ==> (b as nat) !in Blocks(blocks)
  {
  }

  /** A successful write references its newly allocated blocks once each and
      nothing else changes hands. */
  lemma WriteAllocates(d: Disc, filename: seq<byte>, data: seq<byte>)
    requires WriteFile(d, filename, data).error.None?
    ensures ReadDirectory(d).Some? && ReadDirectory(WriteFile(d, filename, data).disc).Some?
    ensures var dir := ReadDirectory(d).value; var dir' := ReadDirectory(WriteFile(d, filename, data).disc).value;
      && Ceil(|data|, BLOCK_SIZE) <= |FreeBlocks(dir)|
      && Refs(dir') == Refs(dir) + multiset(Allocated(dir, data))
  {
    var dir := ReadDirectory(d).value;
    var name := ParseName(filename).value;
    StoreFacts(d, dir, name, data);
    var blocks := Allocated(dir, data);
    NewEntriesRefs(name, 0, blocks, |data|);
    PutEntriesRefs(dir, NewEntries(name, 0, blocks, |data|));
  }

  lemma WriteSound(d: Disc, filename: seq<byte>, data: seq<byte>)
    requires Sound(d)
    ensures Sound(WriteFile(d, filename, data).disc)
  {
    if WriteFile(d, filename, data).error.Some? {
      WriteFailureHarmless(d, filename, data, filename);
    } else {
      WriteAllocates(d, filename, data);
      var dir := ReadDirectory(d).value;
      var dir' := ReadDirectory(WriteFile(d, filename, data).disc).value;
      var blocks := Allocated(dir, data);
      forall b | b in Refs(dir') ensures FIRST_DATA_BLOCK <= b < TOTAL_BLOCKS && Refs(dir')[b] == 1 {
        DistinctOnce(blocks, b);
        if b in multiset(blocks) { assert b in blocks; }
      }
    }
  }

  /** When a write succeeds, by the disc alone: the name is good and free, and
      there are free blocks and entries enough, the blocks all on the disc. */
  predicate CanWrite(d: Disc, filename: seq<byte>, data: seq<byte>) {
    && d.tracks != 0 && ParseName(filename).Some? && ReadDirectory(d).Some?
    && var dir, needed := ReadDirectory(d).value, Ceil(|data|, BLOCK_SIZE);
       && FirstMatch(dir, ParseName(filename).value) == DIR_ENTRIES
       && needed <= |FreeBlocks(dir)| && Ceil(needed, BLOCKS_PER_EXTENT) <= CountDeleted(dir)
       && forall i :: 0 <= i < needed ==> HasBlock(d, Allocated(dir, data)[i])
  }

  /** Blocks can be written exactly when all of them are on the disc. */
  lemma {:induction false} BlocksWritten(d: Disc, blocks: seq<byte>, data: seq<byte>)
    ensures WriteBlocks(d, blocks, data).failed.None? <==> forall i :: 0 <= i < |blocks| ==> HasBlock(d, blocks[i])
    decreases |blocks|
  {
    hide HasBlock, PutBlock;
    if blocks != [] && HasBlock(d, blocks[0]) {
      var d1 := PutBlock(d, blocks[0], Chunk(data));
      PutBlockSame(d, blocks[0], Chunk(data));
      BlocksWritten(d1, blocks[1..], data[Min(BLOCK_SIZE, |data|)..]);
      assert forall i :: 0 < i < |blocks| ==> HasBlock(d1, blocks[1..][i - 1]) == HasBlock(d, blocks[i]);
    }
  }

  lemma WriteSucceedsExactly(d: Disc, filename: seq<byte>, data: seq<byte>)
    ensures WriteFile(d, filename, data).error.None? <==> CanWrite(d, filename, data)
  {
    hide WriteBlocks, PutEntries, NewEntries, FreeBlocks, FirstMatch, CountDeleted, PutDirectory;
    if d.tracks != 0 && ParseName(filename).Some? && ReadDirectory(d).Some? {
      var dir, needed := ReadDirectory(d).value, Ceil(|data|, BLOCK_SIZE);
      if needed <= |FreeBlocks(dir)| && Ceil(needed, BLOCKS_PER_EXTENT) <= CountDeleted(dir) {
        DirectoryReady(d, dir, ParseName(filename).value, data);
        BlocksWritten(d, Allocated(dir, data), data);
      }
    }
  }

  /** A write that succeeds puts new entries under the masked name. They reach a
      file of that name unless the file belongs to another user and stands
      before the first free entry. */
  predicate Touches(d: Disc, filename: seq<byte>, data: seq<byte>, other: seq<byte>) {
    && CanWrite(d, filename, data) && data != []
    && ParseName(other) == Some(Masked(ParseName(filename).value))
    && var dir := ReadDirectory(d).value;
       var i := FirstMatch(dir, ParseName(other).value);
       FirstDeleted(dir) <= i || dir[i][0] == 0
  }

  lemma {:induction false} OtherUserExtents(es: seq<Entry>, es': seq<Entry>, first: Entry)
    requires |es| == |es'| && first[0] != 0
    requires forall i :: 0 <= i < |es| ==> es'[i] == es[i] || (es[i][0] == DELETED && es'[i][0] == 0)
    ensures Extents(es', first) == Extents(es, first)
  {
    if es != [] {
      OtherUserExtents(es[1..], es'[1..], first);
    }
  }

  lemma {:induction false} SameBefore(es: seq<Entry>, es': seq<Entry>, n: Name)
    requires |es| == |es'| && FirstMatch(es, n) < FirstDeleted(es)
    requires forall i :: 0 <= i < |es| ==> es'[i] == es[i] || es[i][0] == DELETED
    ensures FirstMatch(es', n) == FirstMatch(es, n)
  {
    var i := FirstMatch(es, n);
    assert forall k :: 0 <= k <= i ==> es'[k] == es[k];
  }

  /** The file of another user in front of the free entries is still the one
      found, and none of the new entries is taken for one of its own. */
  lemma OtherUserKept(d: Disc, e: Disc, but: set<nat>, dir: Dir, dir': Dir, n: Name)
    requires SameBut(d, e, but)
    requires forall b: byte :: b in Refs(dir) ==> (b as nat) !in but
    requires forall i :: 0 <= i < DIR_ENTRIES ==> dir'[i] == dir[i] || (dir[i][0] == DELETED && dir'[i][0] == 0)
    requires FirstMatch(dir, n) < FirstDeleted(dir) && dir[FirstMatch(dir, n)][0] != 0
    ensures ReadNamed(e, dir', n) == ReadNamed(d, dir, n)
  {
    var i := FirstMatch(dir, n);
    SameBefore(dir, dir', n);
    OtherUserExtents(dir, dir', dir[i]);
    var es := SortExtents(Extents(dir, dir[i]));
    forall p | 0 <= p < |FileBlocks(es)| ensures (FileBlocks(es)[p] as nat) !in but {
      FileBlocksRefs(dir, dir[i], p);
    }
    ReadBlocksFrame(d, e, but, FileBlocks(es), FileSize(es));
  }

  /** A write changes no file that its entries do not reach. */
  lemma WriteKeepsOthers(d: Disc, filename: seq<byte>, data: seq<byte>, other: seq<byte>)
    requires Sound(d) && !Touches(d, filename, data, other)
    ensures ReadFile(WriteFile(d, filename, data).disc, other) == ReadFile(d, other)
  {
    if WriteFile(d, filename, data).error.Some? {
      WriteFailureHarmless(d, filename, data, other);
    } else if ParseName(other).Some? {
      StoreKeepsOthers(d, filename, data, other);
    } else {
      StoreFacts(d, ReadDirectory(d).value, ParseName(filename).value, data);
    }
  }

  lemma StoreKeepsOthers(d: Disc, filename: seq<byte>, data: seq<byte>, other: seq<byte>)
    requires Sound(d) && !Touches(d, filename, data, other)
    requires WriteFile(d, filename, data).error.None? && ParseName(other).Some?
    ensures ReadFile(WriteFile(d, filename, data).disc, other) == ReadFile(d, other)
  {
    hide Touches, WriteFile, Matches, Sound, Extends, ReadNamed;
    WriteFrame(d, filename, data);
    var name, n, d' := ParseName(filename).value, ParseName(other).value, WriteFile(d, filename, data).disc;
    var dir, dir' := ReadDirectory(d).value, ReadDirectory(d').value;
    var but := Blocks(Allocated(dir, data)) + {0, 1};
    if n != Masked(name) || data == [] {
      OtherNameKept(d, d', but, dir, dir', name, n);
    } else {
      NotTouched(d, filename, data, other);
      ExtendsUser0(dir, dir', name);
      OtherUserKept(d, d', but, dir, dir', n);
    }
  }

  /** The directory behind a successful write, and what it leaves alone. */
  lemma WriteFrame(d: Disc, filename: seq<byte>, data: seq<byte>)
    requires Sound(d) && WriteFile(d, filename, data).error.None?
    ensures ParseName(filename).Some? && ReadDirectory(d).Some?
    ensures Ceil(|data|, BLOCK_SIZE) <= |FreeBlocks(ReadDirectory(d).value)|
    ensures var d', dir := WriteFile(d, filename, data).disc, ReadDirectory(d).value;
      var but := Blocks(Allocated(dir, data)) + {0, 1};
      && d'.tracks == d.tracks != 0
      && SameBut(d, d', but)
      && (forall b: byte :: b in Refs(dir) ==> (b as nat) !in but)
      && ReadDirectory(d').Some?
      && Extends(dir, ReadDirectory(d').value, ParseName(filename).value)
      && (data == [] ==> ReadDirectory(d').value == dir)
  {
    hide Store, Extends, Allocated;
    var dir := ReadDirectory(d).value;
    StoreFacts(d, dir, ParseName(filename).value, data);
    UnreferencedBlocks(dir, Allocated(dir, data));
    NoDirectoryRefs(d, dir);
    if data == [] { NoNewEntries(ParseName(filename).value, 0, 0); }
  }

  lemma OtherNameKept(d: Disc, e: Disc, but: set<nat>, dir: Dir, dir': Dir, name: Name, n: Name)
    requires SameBut(d, e, but)
    requires forall b: byte :: b in Refs(dir) ==> (b as nat) !in but
    requires Extends(dir, dir', name) && (n != Masked(name) || dir' == dir)
    ensures ReadNamed(e, dir', n) == ReadNamed(d, dir, n)
  {
    hide ReadNamed, Matches;
    forall i | 0 <= i < DIR_ENTRIES && dir'[i] != dir[i]
      ensures !(Live(dir[i]) && Matches(dir[i], n)) && !(Live(dir'[i]) && Matches(dir'[i], n))
    {
      MatchesMasked(dir'[i], name, n);
    }
    ReadNamedFrame(d, e, but, dir, dir', n);
  }

  lemma ExtendsUser0(dir: Dir, dir': Dir, name: Name)
    requires Extends(dir, dir', name)
    ensures forall i :: 0 <= i < DIR_ENTRIES ==> dir'[i] == dir[i] || (dir[i][0] == DELETED && dir'[i][0] == 0)
  {
  }

  lemma NoDirectoryRefs(d: Disc, dir: Dir)
    requires Sound(d) && ReadDirectory(d) == Some(dir)
    ensures forall b: byte :: b in Refs(dir) ==> b >= FIRST_DATA_BLOCK
  {
  }

  lemma NotTouched(d: Disc, filename: seq<byte>, data: seq<byte>, other: seq<byte>)
    requires WriteFile(d, filename, data).error.None? && data != []
    requires ParseName(other) == Some(Masked(ParseName(filename).value)) && !Touches(d, filename, data, other)
    ensures var dir := ReadDirectory(d).value; var i := FirstMatch(dir, ParseName(other).value);
      i < FirstDeleted(dir) && dir[i][0] != 0
  {
    hide CanWrite, WriteFile;
    WriteSucceedsExactly(d, filename, data);
  }

  // ----- one deletion

  /** When a deletion succeeds, by the disc alone. */
  predicate CanDelete(d: Disc, filename: seq<byte>) {
    && d.tracks != 0 && ParseName(filename).Some? && ReadDirectory(d).Some?
    && FirstMatch(ReadDirectory(d).value, ParseName(filename).value) < DIR_ENTRIES
  }

  lemma DeleteSucceedsExactly(d: Disc, filename: seq<byte>)
    ensures DeleteFile(d, filename).error.None? <==> CanDelete(d, filename)
  {
  }

  /** A failed deletion changes nothing at all, and a readable directory can
      always be written back. */
  lemma DeleteFailureHarmless(d: Disc, filename: seq<byte>)
    requires DeleteFile(d, filename).error.Some?
    ensures DeleteFile(d, filename).disc == d
    ensures DeleteFile(d, filename).error.value != UnwritableDirectory
  {
  }

  /** A deletion releases exactly the references of the entries it deletes,
      and so makes exactly their blocks free. */
  lemma DeleteFrees(d: Disc, filename: seq<byte>)
    requires Sound(d)
    requires DeleteFile(d, filename).error.None?
    ensures ReadDirectory(d).Some? && ReadDirectory(DeleteFile(d, filename).disc).Some?
    ensures var dir := ReadDirectory(d).value; var dir' := ReadDirectory(DeleteFile(d, filename).disc).value;
      var mine := RefsOf(dir, ParseName(filename).value);
      && Refs(dir') + mine == Refs(dir)
      && (forall b: byte :: b in FreeBlocks(dir') <==> b in FreeBlocks(dir) || b in mine)
  {
    var dir := ReadDirectory(d).value;
    var name := ParseName(filename).value;
    var dir' := DeleteMatches(dir, name);
    PutDirectoryFrame(d, dir');
    DeleteRefs(dir, name);
    FreeFromSpec(Refs(dir), FIRST_DATA_BLOCK);
    FreeFromSpec(Refs(dir'), FIRST_DATA_BLOCK);
    var mine := RefsOf(dir, name);
    forall b: byte ensures b in FreeBlocks(dir') <==> b in FreeBlocks(dir) || b in mine {
      assert Refs(dir)[b] == Refs(dir')[b] + mine[b];
    }
  }

  lemma DeleteSound(d: Disc, filename: seq<byte>)
    requires Sound(d)
    ensures Sound(DeleteFile(d, filename).disc)
  {
    if DeleteFile(d, filename).error.None? {
      DeleteFrees(d, filename);
      var dir := ReadDirectory(d).value;
      var dir' := ReadDirectory(DeleteFile(d, filename).disc).value;
      forall b | b in Refs(dir') ensures FIRST_DATA_BLOCK <= b < TOTAL_BLOCKS && Refs(dir')[b] == 1 {
        assert Refs(dir)[b] == Refs(dir')[b] + RefsOf(dir, ParseName(filename).value)[b];
      }
    }
  }

  lemma DeleteFacts(d: Disc, filename: seq<byte>)
    requires DeleteFile(d, filename).error.None?
    ensures ReadDirectory(d).Some? && ParseName(filename).Some?
    ensures var d' := DeleteFile(d, filename).disc; var dir := ReadDirectory(d).value;
      && d'.tracks == d.tracks
      && SameBut(d, d', {0, 1})
      && ReadDirectory(d') == Some(DeleteMatches(dir, ParseName(filename).value))
  {
    PutDirectoryFrame(d, DeleteMatches(ReadDirectory(d).value, ParseName(filename).value));
  }

  /** A deleted file is gone, and no file of another name is affected. */
  lemma DeleteKeepsOthers(d: Disc, filename: seq<byte>, other: seq<byte>)
    requires Sound(d)
    requires DeleteFile(d, filename).error.None?
    ensures ReadFile(DeleteFile(d, filename).disc, other)
         == if ParseName(other) == ParseName(filename) then Failed(FileNotFound) else ReadFile(d, other)
  {
    DeleteFacts(d, filename);
    var d' := DeleteFile(d, filename).disc;
    var dir := ReadDirectory(d).value;
    var name := ParseName(filename).value;
    var dir' := DeleteMatches(dir, name);
    if ParseName(other).Some? {
      var n := ParseName(other).value;
      if n == name {
        forall i | 0 <= i < DIR_ENTRIES ensures !(Live(dir'[i]) && Matches(dir'[i], name)) { }
      } else {
        forall i | 0 <= i < DIR_ENTRIES && dir'[i] != dir[i]
          ensures !(Live(dir[i]) && Matches(dir[i], n)) && !(Live(dir'[i]) && Matches(dir'[i], n))
        {
          MatchesUnique(dir[i], name, n);
        }
        ReadNamedFrame(d, d', {0, 1}, dir, dir', n);
      }
    }
  }

  // ----- whole runs

  datatype Op = Write(filename: seq<byte>, data: seq<byte>) | Delete(filename: seq<byte>)

  function Step(d: Disc, op: Op): Disc {
    match op
    case Write(f, data) => WriteFile(d, f, data).disc
    case Delete(f) => DeleteFile(d, f).disc
  }

  function Run(d: Disc, ops: seq<Op>): Disc
    decreases |ops|
  {
    if ops == [] then d else Run(Step(d, ops[0]), ops[1..])
  }

  /** The operation reaches that file on this disc. */
  predicate Disturbs(d: Disc, op: Op, other: seq<byte>) {
    match op
    case Write(f, data) => Touches(d, f, data, other)
    case Delete(f) => CanDelete(d, f) && ParseName(other) == ParseName(f)
  }

  lemma StepSafe(d: Disc, op: Op, other: seq<byte>)
    requires Sound(d)
    ensures Sound(Step(d, op))
    ensures !Disturbs(d, op, other) ==> ReadFile(Step(d, op), other) == ReadFile(d, other)
  {
    hide Touches;
    match op {
      case Write(f, data) =>
        WriteSound(d, f, data);
        if !Disturbs(d, op, other) { WriteKeepsOthers(d, f, data, other); }
      case Delete(f) =>
        DeleteSound(d, f);
        if DeleteFile(d, f).error.None? { DeleteKeepsOthers(d, f, other); }
    }
  }

  /** A deletion changes a file if and only if it disturbs it. */
  lemma DeleteKeepsExactly(d: Disc, filename: seq<byte>, other: seq<byte>)
    requires Sound(d)
    ensures ReadFile(DeleteFile(d, filename).disc, other) == ReadFile(d, other)
      <==> !Disturbs(d, Delete(filename), other)
  {
    if DeleteFile(d, filename).error.None? {
      DeleteKeepsOthers(d, filename, other);
      ReadNamedMissing(d, ReadDirectory(d).value, ParseName(filename).value);
    }
  }

  /** No operation of the run reaches the file on the disc it finds. */
  predicate Undisturbed(d: Disc, ops: seq<Op>, other: seq<byte>)
    decreases |ops|
  {
    ops == [] || (!Disturbs(d, ops[0], other) && Undisturbed(Step(d, ops[0]), ops[1..], other))
  }

  /** Over every run of writes and deletes, successful or not, no block comes
      to be shared or to lie outside 2..179, and every file the run does not
      reach reads back the same. */
  lemma {:induction false} RunSafe(d: Disc, ops: seq<Op>, other: seq<byte>)
    requires Sound(d)
    ensures Sound(Run(d, ops))
    ensures Undisturbed(d, ops, other) ==> ReadFile(Run(d, ops), other) == ReadFile(d, other)
    decreases |ops|
  {
    hide Disturbs;
    if ops != [] {
      StepSafe(d, ops[0], other);
      RunSafe(Step(d, ops[0]), ops[1..], other);
    }
  }

  /** Going by names alone: other than the file's, and for a write also other
      once its bytes above 127 are masked. */
  predicate Spares(op: Op, other: seq<byte>) {
    ParseName(op.filename).Some? ==>
      && ParseName(other) != ParseName(op.filename)
      && (op.Write? ==> ParseName(other) != Some(Masked(ParseName(op.filename).value)))
  }

  lemma {:induction false} SparedUndisturbed(d: Disc, ops: seq<Op>, other: seq<byte>)
    requires forall k :: 0 <= k < |ops| ==> Spares(ops[k], other)
    ensures Undisturbed(d, ops, other)
    decreases |ops|
  {
    if ops != [] {
      assert Spares(ops[0], other);
      SparedUndisturbed(Step(d, ops[0]), ops[1..], other);
    }
  }

  predicate AsciiName(op: Op) { ParseName(op.filename).Some? ==> Ascii(ParseName(op.filename).value) }

  /** With ASCII names, every file under another name reads back the same. */
  lemma AsciiRunSafe(d: Disc, ops: seq<Op>, other: seq<byte>)
    requires Sound(d)
    requires forall k :: 0 <= k < |ops| ==>
      AsciiName(ops[k]) && (ParseName(ops[k].filename).Some? ==> ParseName(other) != ParseName(ops[k].filename))
    ensures ReadFile(Run(d, ops), other) == ReadFile(d, other)
  {
    forall k | 0 <= k < |ops| ensures Spares(ops[k], other) {
      if ParseName(ops[k].filename).Some? { MaskedAscii(ParseName(ops[k].filename).value); }
    }
    SparedUndisturbed(d, ops, other);
    RunSafe(d, ops, other);
  }

  /** What was written is still there after any run that does not reach it. */
  lemma WrittenFileSurvives(d: Disc, filename: seq<byte>, data: seq<byte>, ops: seq<Op>)
    requires Sound(d)
    requires WriteFile(d, filename, data).error.None?
    requires data != [] && Ascii(ParseName(filename).value)
    requires Undisturbed(WriteFile(d, filename, data).disc, ops, filename)
    ensures ReadFile(Run(WriteFile(d, filename, data).disc, ops), filename) == Data(Padded(data))
  {
    hide Undisturbed;
    WriteSound(d, filename, data);
    WriteReadRoundTrip(d, filename, data);
    RunSafe(WriteFile(d, filename, data).disc, ops, filename);
  }
}
