/** What the file operations guarantee: contents survive, blocks are never
    shared, and failures change nothing that can be read. */
module CpmProofs {
  import opened Bits
  import opened Bytes
  import opened Wrappers
  import opened DiscBlocks
  import opened Directory
  import opened CpmFiles

  // ----- writing data blocks

  function Blocks(s: seq<byte>): (r: set<nat>)
    ensures forall i :: 0 <= i < |s| ==> (s[i] as nat) in r
  {
    if s == [] then {} else {s[0] as nat} + Blocks(s[1..])
  }

  lemma {:induction false} BlocksIndex(s: seq<byte>, b: nat) returns (i: nat)
    requires b in Blocks(s)
    ensures i < |s| && s[i] == b
  {
    if b == s[0] as nat { i := 0; } else { i := BlocksIndex(s[1..], b); i := i + 1; }
  }

  lemma {:induction false} WriteBlocksSame(d: Disc, blocks: seq<byte>, data: seq<byte>)
    ensures SameBut(d, WriteBlocks(d, blocks, data).disc, Blocks(blocks))
    decreases |blocks|
  {
    if blocks != [] {
      var d1 := PutBlock(d, blocks[0], Chunk(data));
      PutBlockSame(d, blocks[0], Chunk(data));
      if HasBlock(d, blocks[0]) {
        var data' := data[Min(BLOCK_SIZE, |data|)..];
        WriteBlocksSame(d1, blocks[1..], data');
        SameButTransitive(d, d1, WriteBlocks(d1, blocks[1..], data').disc, {blocks[0]}, Blocks(blocks[1..]));
      }
    }
  }

  /** The blocks hold the data, chunk by chunk. */
  ghost predicate Holds(d: Disc, blocks: seq<byte>, data: seq<byte>)
    decreases |blocks|
  {
    blocks != [] ==>
      && HasBlock(d, blocks[0])
      && Block(d, blocks[0]) == Chunk(data)
      && Holds(d, blocks[1..], data[Min(BLOCK_SIZE, |data|)..])
  }

  lemma {:induction false} HoldsFrame(d: Disc, e: Disc, but: set<nat>, blocks: seq<byte>, data: seq<byte>)
    requires Holds(d, blocks, data)
    requires SameBut(d, e, but)
    requires Blocks(blocks) !! but
    ensures Holds(e, blocks, data)
    decreases |blocks|
  {
    if blocks != [] {
      HoldsFrame(d, e, but, blocks[1..], data[Min(BLOCK_SIZE, |data|)..]);
    }
  }

  ghost predicate Distinct(s: seq<byte>) {
    forall i, j :: 0 <= i < j < |s| ==> s[i] != s[j]
  }

  lemma {:induction false} WriteBlocksHolds(d: Disc, blocks: seq<byte>, data: seq<byte>)
    requires Distinct(blocks)
    requires WriteBlocks(d, blocks, data).failed.None?
    ensures Holds(WriteBlocks(d, blocks, data).disc, blocks, data)
    decreases |blocks|
  {
    if blocks != [] {
      var d1 := PutBlock(d, blocks[0], Chunk(data));
      var data' := data[Min(BLOCK_SIZE, |data|)..];
      var e := WriteBlocks(d1, blocks[1..], data').disc;
      WriteBlocksHolds(d1, blocks[1..], data');
      WriteBlocksSame(d1, blocks[1..], data');
      PutBlockFrame(d, blocks[0], Chunk(data), blocks[0]);
      if (blocks[0] as nat) in Blocks(blocks[1..]) {
        var _ := BlocksIndex(blocks[1..], blocks[0]);
      }
      assert HasBlock(d1, blocks[0]) && HasBlock(e, blocks[0]);
    }
  }

  // ----- reading them back

  /** The contents a file reads back with: its bytes, then 0xE5 up to a
      whole number of 128-byte records. */
  function Padded(data: seq<byte>): (r: seq<byte>)
    ensures |r| == RECORD_SIZE * Ceil(|data|, RECORD_SIZE)
    ensures data <= r
  {
    data + Fill(RECORD_SIZE * Ceil(|data|, RECORD_SIZE) - |data|, FILL)
  }

  lemma {:induction false} ReadBack(d: Disc, blocks: seq<byte>, data: seq<byte>)
    requires |data| > 0 && |blocks| == Ceil(|data|, BLOCK_SIZE)
    requires Holds(d, blocks, data)
    ensures ReadBlocks(d, blocks, RECORD_SIZE * Ceil(|data|, RECORD_SIZE)) == Data(Padded(data))
    decreases |blocks|
  {
    var size := RECORD_SIZE * Ceil(|data|, RECORD_SIZE);
    if |data| <= BLOCK_SIZE {
      assert size <= BLOCK_SIZE;
      assert Chunk(data)[..size] == Padded(data);
    } else {
      var rest := data[BLOCK_SIZE..];
      assert Ceil(|rest|, RECORD_SIZE) == Ceil(|data|, RECORD_SIZE) - 8;
      ReadBack(d, blocks[1..], rest);
      assert Chunk(data)[..BLOCK_SIZE] == data[..BLOCK_SIZE];
      assert data[..BLOCK_SIZE] + Padded(rest) == Padded(data);
    }
  }

  // ----- the entries of a new file

  lemma {:induction false} NonZeroPadding(s: seq<byte>, n: nat)
    requires forall i :: 0 <= i < |s| ==> s[i] != 0
    ensures NonZero(s + Fill(n, 0)) == s
    decreases |s| + n
  {
    if s != [] {
      NonZeroPadding(s[1..], n);
      assert (s + Fill(n, 0))[1..] == s[1..] + Fill(n, 0);
    } else if n > 0 {
      NonZeroPadding(s, n - 1);
      assert (s + Fill(n, 0))[1..] == s + Fill(n - 1, 0);
    }
  }

  /** The fields of a new entry. */
  lemma MakeEntryFields(name: Name, ext: nat, blocks: seq<byte>, bytes: nat)
    requires |blocks| <= BLOCKS_PER_EXTENT
    requires forall i :: 0 <= i < |blocks| ==> blocks[i] != 0
    ensures var e := MakeEntry(name, ext, blocks, bytes);
      && e[0] == 0 && e[1..12] == name
      && Pointers(e) == blocks
      && Records(e) == Min(Ceil(bytes, RECORD_SIZE), RECORDS_PER_EXTENT)
      && (ext < 32 ==> ExtentNumber(e) == ext)
  {
    var e := MakeEntry(name, ext, blocks, bytes);
    assert e[1..12] == name;
    assert e[16..32] == blocks + Fill(BLOCKS_PER_EXTENT - |blocks|, 0);
    NonZeroPadding(blocks, BLOCKS_PER_EXTENT - |blocks|);
  }

  /** The first of the new entries and the others. */
  lemma NewEntriesSplit(name: Name, ext: nat, blocks: seq<byte>, bytes: nat)
    requires blocks != []
    ensures var n := Min(BLOCKS_PER_EXTENT, |blocks|);
      var here := Min(n * BLOCK_SIZE, bytes);
      var es := NewEntries(name, ext, blocks, bytes);
      && es != [] && es[0] == MakeEntry(name, ext, blocks[..n], here)
      && es[1..] == NewEntries(name, ext + 1, blocks[n..], bytes - here)
      && blocks[..n] + blocks[n..] == blocks
  {
    hide MakeEntry;
  }

  lemma NoNewEntries(name: Name, ext: nat, bytes: nat)
    ensures NewEntries(name, ext, [], bytes) == []
  {
  }

  lemma {:induction false} NewEntriesBlocks(name: Name, ext: nat, blocks: seq<byte>, bytes: nat)
    requires forall i :: 0 <= i < |blocks| ==> blocks[i] != 0
    ensures FileBlocks(NewEntries(name, ext, blocks, bytes)) == blocks
    decreases |blocks|
  {
    hide MakeEntry, Pointers, Records, ExtentNumber, NewEntries;
    if blocks != [] {
      var n := Min(BLOCKS_PER_EXTENT, |blocks|);
      var here := Min(n * BLOCK_SIZE, bytes);
      NewEntriesSplit(name, ext, blocks, bytes);
      MakeEntryFields(name, ext, blocks[..n], here);
      NewEntriesBlocks(name, ext + 1, blocks[n..], bytes - here);
    } else {
      NoNewEntries(name, ext, bytes);
    }
  }

  lemma {:induction false} NewEntriesSize(name: Name, ext: nat, blocks: seq<byte>, bytes: nat)
    requires bytes > 0 && |blocks| == Ceil(bytes, BLOCK_SIZE)
    requires forall i :: 0 <= i < |blocks| ==> blocks[i] != 0
    ensures FileSize(NewEntries(name, ext, blocks, bytes)) == RECORD_SIZE * Ceil(bytes, RECORD_SIZE)
    decreases |blocks|
  {
    var es := NewEntries(name, ext, blocks, bytes);
    if |blocks| <= BLOCKS_PER_EXTENT {
      MakeEntryFields(name, ext, blocks[..|blocks|], bytes);
      assert blocks[|blocks|..] == [];
      assert es == [MakeEntry(name, ext, blocks[..|blocks|], bytes)];
    } else {
      var rest := NewEntries(name, ext + 1, blocks[BLOCKS_PER_EXTENT..], bytes - EXTENT_SIZE);
      NewEntriesSize(name, ext + 1, blocks[BLOCKS_PER_EXTENT..], bytes - EXTENT_SIZE);
      assert es[1..] == rest && |rest| > 0;
      assert es[|es| - 1] == rest[|rest| - 1];
      assert Ceil(bytes - EXTENT_SIZE, RECORD_SIZE) == Ceil(bytes, RECORD_SIZE) - 128;
    }
  }

  lemma {:induction false} NewEntriesAscending(name: Name, ext: nat, blocks: seq<byte>, bytes: nat)
    requires forall i :: 0 <= i < |blocks| ==> blocks[i] != 0
    requires |blocks| <= BLOCKS_PER_EXTENT * (32 - ext)
    ensures Ascending(NewEntries(name, ext, blocks, bytes))
    ensures blocks != [] ==> ExtentNumber(NewEntries(name, ext, blocks, bytes)[0]) == ext
    decreases |blocks|
  {
    if blocks != [] {
      var n := Min(BLOCKS_PER_EXTENT, |blocks|);
      var here := Min(n * BLOCK_SIZE, bytes);
      MakeEntryFields(name, ext, blocks[..n], here);
      NewEntriesAscending(name, ext + 1, blocks[n..], bytes - here);
      assert NewEntries(name, ext, blocks, bytes)[1..] == NewEntries(name, ext + 1, blocks[n..], bytes - here);
    }
  }

  ghost predicate AllNamed(es: seq<Entry>, name: Name) {
    forall k :: 0 <= k < |es| ==> es[k][0] == 0 && es[k][1..12] == name
  }

  lemma {:induction false} NewEntriesNamed(name: Name, ext: nat, blocks: seq<byte>, bytes: nat)
    requires forall i :: 0 <= i < |blocks| ==> blocks[i] != 0
    ensures AllNamed(NewEntries(name, ext, blocks, bytes), name)
    ensures |NewEntries(name, ext, blocks, bytes)| == Ceil(|blocks|, BLOCKS_PER_EXTENT)
    decreases |blocks|
  {
    if blocks != [] {
      var n := Min(BLOCKS_PER_EXTENT, |blocks|);
      var here := Min(n * BLOCK_SIZE, bytes);
      MakeEntryFields(name, ext, blocks[..n], here);
      NewEntriesNamed(name, ext + 1, blocks[n..], bytes - here);
    }
  }

  // ----- where the entries go

  /** Deleted slots of dir may have become entries of `name`; nothing else changed. */
  ghost predicate Extends(dir: Dir, dir': Dir, name: Name) {
    forall i :: 0 <= i < DIR_ENTRIES ==>
      dir'[i] == dir[i] || (dir[i][0] == DELETED && dir'[i][0] == 0 && dir'[i][1..12] == name)
  }

  lemma {:induction false} PutEntriesExtends(dir: Dir, es: seq<Entry>, name: Name)
    requires CountDeleted(dir) >= |es| && AllNamed(es, name)
    ensures PutEntries(dir, es).Some?
    ensures Extends(dir, PutEntries(dir, es).value, name)
    ensures es != [] ==> FirstDeleted(dir) < DIR_ENTRIES
    ensures es != [] ==> PutEntries(dir, es).value[FirstDeleted(dir)][0] == 0
    decreases |es|
  {
    if es != [] {
      var i := FirstDeleted(dir);
      CountDeletedUpdate(dir, i, es[0]);
      PutEntriesExtends(dir[i := es[0]], es[1..], name);
    }
  }

  lemma {:induction false} ExtentsInsert(es: seq<Entry>, i: nat, e: Entry, first: Entry)
    requires i < |es| && es[i][0] == DELETED
    requires e[0] != DELETED && SameFile(e, first)
    requires forall k :: i <= k < |es| ==> !(es[k][0] != DELETED && SameFile(es[k], first))
    ensures Extents(es[i := e], first) == Extents(es, first) + [e]
  {
    if i == 0 {
      assert es[0 := e][1..] == es[1..];
      NoExtents(es[1..], first);
    } else {
      ExtentsInsert(es[1..], i - 1, e, first);
      assert es[i := e][1..] == es[1..][i - 1 := e];
    }
  }

  lemma {:induction false} NoExtents(es: seq<Entry>, first: Entry)
    requires forall k :: 0 <= k < |es| ==> !(es[k][0] != DELETED && SameFile(es[k], first))
    ensures Extents(es, first) == []
  {
    if es != [] {
      NoExtents(es[1..], first);
    }
  }

  lemma {:induction false} PutEntriesExtents(dir: Dir, es: seq<Entry>, name: Name, first: Entry)
    requires PutEntries(dir, es).Some? && AllNamed(es, name)
    requires first[0] == 0 && first[1..12] == name
    requires forall k :: FirstDeleted(dir) <= k < DIR_ENTRIES ==> !(dir[k][0] != DELETED && SameFile(dir[k], first))
    ensures Extents(PutEntries(dir, es).value, first) == Extents(dir, first) + es
    decreases |es|
  {
    if es != [] {
      var i := FirstDeleted(dir);
      SameName(es[0], first, name);
      ExtentsInsert(dir, i, es[0], first);
      PutEntriesExtents(dir[i := es[0]], es[1..], name, first);
      assert es == [es[0]] + es[1..];
    }
  }

  lemma SameName(a: Entry, b: Entry, name: Name)
    requires a[0] == b[0] && a[1..12] == name && b[1..12] == name
    ensures SameFile(a, b)
  {
    forall j | 1 <= j <= 11 ensures a[j] == b[j] {
      assert a[j] == a[1..12][j - 1] && b[j] == b[1..12][j - 1];
    }
  }

  // ----- the whole-file round trip

  function Allocated(dir: Dir, data: seq<byte>): (r: seq<byte>)
    requires Ceil(|data|, BLOCK_SIZE) <= |FreeBlocks(dir)|
    ensures |r| == Ceil(|data|, BLOCK_SIZE) <= TOTAL_BLOCKS - FIRST_DATA_BLOCK
    ensures Distinct(r)
    ensures forall i :: 0 <= i < |r| ==> FIRST_DATA_BLOCK <= r[i] < TOTAL_BLOCKS && r[i] !in Refs(dir)
  {
    FreeFromSpec(Refs(dir), FIRST_DATA_BLOCK);
    var free := FreeBlocks(dir);
    assert forall i :: 0 <= i < |free| ==> free[i] in free;
    free[..Ceil(|data|, BLOCK_SIZE)]
  }

  /** What a successful write has put on the disc. */
  lemma StoreFacts(d: Disc, dir: Dir, name: Name, data: seq<byte>)
    requires ReadDirectory(d) == Some(dir)
    requires Store(d, dir, name, data).error.None?
    ensures Ceil(|data|, BLOCK_SIZE) <= |FreeBlocks(dir)|
    ensures PutEntries(dir, NewEntries(name, 0, Allocated(dir, data), |data|)).Some?
    ensures var d' := Store(d, dir, name, data).disc; var blocks := Allocated(dir, data);
      && d'.tracks == d.tracks
      && ReadDirectory(d') == PutEntries(dir, NewEntries(name, 0, blocks, |data|))
      && Extends(dir, ReadDirectory(d').value, name)
      && (blocks != [] ==> FirstDeleted(dir) < DIR_ENTRIES && ReadDirectory(d').value[FirstDeleted(dir)][0] == 0)
      && Holds(d', blocks, data)
      && SameBut(d, d', Blocks(blocks) + {0, 1})
  {
    var blocks := Allocated(dir, data);
    var w := WriteBlocks(d, blocks, data);
    WriteBlocksSame(d, blocks, data);
    WriteBlocksHolds(d, blocks, data);
    NotDirectory(blocks);
    SameDirectory(d, w.disc, Blocks(blocks));
    NewEntriesNamed(name, 0, blocks, |data|);
    PutEntriesExtends(dir, NewEntries(name, 0, blocks, |data|), name);
    var dir' := PutEntries(dir, NewEntries(name, 0, blocks, |data|)).value;
    PutDirectoryFrame(w.disc, dir');
    HoldsFrame(w.disc, PutDirectory(w.disc, dir'), {0, 1}, blocks, data);
    SameButTransitive(d, w.disc, PutDirectory(w.disc, dir'), Blocks(blocks), {0, 1});
  }

  lemma {:induction false} NotDirectory(blocks: seq<byte>)
    requires forall i :: 0 <= i < |blocks| ==> blocks[i] >= FIRST_DATA_BLOCK
    ensures Blocks(blocks) !! {0, 1}
  {
    if blocks != [] {
      NotDirectory(blocks[1..]);
    }
  }

  /** The name an entry is looked up by: the attribute bits masked off. */
  function Masked(name: Name): (r: Name)
    ensures forall j :: 0 <= j < 11 ==> r[j] == name[j] % 128
  {
    seq(11, j requires 0 <= j < 11 => name[j] % 128)
  }

  lemma MaskedAscii(name: Name)
    ensures Ascii(name) <==> Masked(name) == name
  {
    if Masked(name) == name {
      forall j | 0 <= j < 11 ensures name[j] < 128 { assert Masked(name)[j] == name[j]; }
    }
  }

  lemma MatchesMasked(e: Entry, name: Name, n: Name)
    requires e[1..12] == name
    ensures Matches(e, n) <==> n == Masked(name)
  {
    forall j | 0 <= j < 11 ensures e[1 + j] % 128 == Masked(name)[j] { assert e[1 + j] == e[1..12][j]; }
    MatchesUnique(e, Masked(name), n);
  }

  lemma MatchesUnique(e: Entry, m: Name, n: Name)
    requires Matches(e, m)
    ensures Matches(e, n) <==> n == m
  {
    if Matches(e, n) {
      forall j | 0 <= j < 11 ensures n[j] == m[j] { assert e[1 + j] % 128 == n[j]; }
    }
  }

  lemma SameFileMatches(e: Entry, first: Entry, n: Name)
    requires SameFile(e, first) && Matches(first, n)
    ensures Matches(e, n)
  {
    forall j | 0 <= j < 11 ensures e[1 + j] % 128 == n[j] { assert first[1 + j] % 128 == n[j]; }
  }

  /** No file of user 0 bears the name, and none of another user bears it in
      front of the first free entry. */
  ghost predicate NameFree(dir: Dir, n: Name) {
    && FirstDeleted(dir) <= FirstMatch(dir, n)
    && forall k :: 0 <= k < DIR_ENTRIES && dir[k][0] == 0 ==> !Matches(dir[k], n)
  }

  /** Looking a new file up finds its entries and no others. */
  lemma NewFileExtents(dir: Dir, dir': Dir, name: Name, es: seq<Entry>)
    requires NameFree(dir, Masked(name))
    requires es != [] && AllNamed(es, name)
    requires PutEntries(dir, es) == Some(dir')
    requires Extends(dir, dir', name)
    requires FirstDeleted(dir) < DIR_ENTRIES && dir'[FirstDeleted(dir)][0] == 0
    ensures FirstMatch(dir', Masked(name)) < DIR_ENTRIES
    ensures Extents(dir', dir'[FirstMatch(dir', Masked(name))]) == es
  {
    var n := Masked(name);
    var at := FirstDeleted(dir);
    assert dir'[at] != dir[at];
    MatchesMasked(dir'[at], name, n);
    var i := FirstMatch(dir', n);
    assert i <= at;
    var first := dir'[at];
    forall k | 0 <= k < DIR_ENTRIES ensures !(dir[k][0] != DELETED && SameFile(dir[k], first)) {
      if SameFile(dir[k], first) { SameFileMatches(dir[k], first, n); }
    }
    NoExtents(dir, first);
    PutEntriesExtents(dir, es, name, first);
  }

  lemma StoreThenRead(d: Disc, dir: Dir, name: Name, data: seq<byte>)
    requires ReadDirectory(d) == Some(dir) && NameFree(dir, Masked(name))
    requires Store(d, dir, name, data).error.None?
    requires data != []
    ensures ReadDirectory(Store(d, dir, name, data).disc).Some?
    ensures var d' := Store(d, dir, name, data).disc;
      ReadNamed(d', ReadDirectory(d').value, Masked(name)) == Data(Padded(data))
  {
    StoreFacts(d, dir, name, data);
    var blocks := Allocated(dir, data);
    var d' := Store(d, dir, name, data).disc;
    var es := NewEntries(name, 0, blocks, |data|);
    NewEntriesNamed(name, 0, blocks, |data|);
    NewFileExtents(dir, ReadDirectory(d').value, name, es);
    NewEntriesAscending(name, 0, blocks, |data|);
    SortExtentsFixed(es);
    NewEntriesBlocks(name, 0, blocks, |data|);
    NewEntriesSize(name, 0, blocks, |data|);
    ReadBack(d', blocks, data);
  }

  /** The write-then-read round trip, and exactly when it holds. Empty contents
      leave no directory entry, and a name byte above 127 can never equal the
      masked byte it is compared with; everything else reads back whole. */
  lemma WriteReadRoundTrip(d: Disc, filename: seq<byte>, data: seq<byte>)
    requires WriteFile(d, filename, data).error.None?
    ensures ReadFile(WriteFile(d, filename, data).disc, filename)
         == if data != [] && Ascii(ParseName(filename).value) then Data(Padded(data)) else Failed(FileNotFound)
  {
    hide Store, Matches, Padded, Extends, Allocated;
    var name := ParseName(filename).value;
    var dir := ReadDirectory(d).value;
    var d' := WriteFile(d, filename, data).disc;
    StoreFacts(d, dir, name, data);
    MaskedAscii(name);
    if data != [] && Ascii(name) {
      NoneNamed(dir, name);
      StoreThenRead(d, dir, name, data);
    } else if data == [] {
      NoNewEntries(name, 0, 0);
    } else {
      NeverFound(ReadDirectory(d').value, name);
    }
  }

  lemma NoneNamed(dir: Dir, n: Name)
    requires FirstMatch(dir, n) == DIR_ENTRIES
    ensures NameFree(dir, n)
  {
  }

  /** Entries are compared with their high bits masked off. */
  lemma NeverFound(dir: Dir, name: Name)
    requires !Ascii(name)
    ensures FirstMatch(dir, name) == DIR_ENTRIES
  {
    var j :| 0 <= j < 11 && name[j] >= 128;
    forall e: Entry ensures !Matches(e, name) { assert e[1 + j] % 128 != name[j]; }
  }

  /** A name with bytes above 127 is stored under its masked name: it answers
      to that name when no file of user 0 bore it, and hides those of other
      users that stand behind it. */
  lemma AliasedName(d: Disc, filename: seq<byte>, data: seq<byte>, other: seq<byte>)
    requires WriteFile(d, filename, data).error.None? && data != []
    requires ParseName(other) == Some(Masked(ParseName(filename).value))
    requires NameFree(ReadDirectory(d).value, ParseName(other).value)
    ensures ReadFile(WriteFile(d, filename, data).disc, other) == Data(Padded(data))
  {
    var name := ParseName(filename).value;
    var dir := ReadDirectory(d).value;
    StoreFacts(d, dir, name, data);
    StoreThenRead(d, dir, name, data);
  }

  lemma {:induction false} ReadBlocksError(d: Disc, blocks: seq<byte>, size: nat)
    ensures ReadBlocks(d, blocks, size) != Failed(FileNotFound)
    decreases |blocks|
  {
    if blocks != [] && size > BLOCK_SIZE {
      ReadBlocksError(d, blocks[1..], size - BLOCK_SIZE);
    }
  }

  lemma ReadNamedMissing(d: Disc, dir: Dir, name: Name)
    ensures ReadNamed(d, dir, name) == Failed(FileNotFound) <==> FirstMatch(dir, name) == DIR_ENTRIES
  {
    var i := FirstMatch(dir, name);
    if i < DIR_ENTRIES {
      var es := SortExtents(Extents(dir, dir[i]));
      ReadBlocksError(d, FileBlocks(es), FileSize(es));
    }
  }
}
