/** The drive, whose sector buffers the file operations change in place
    (src/disk_file_editor.cpp). */
module Drives {
  import opened Bits
  import opened Bytes
  import opened Wrappers
  import opened DiscBlocks
  import opened Directory
  import opened CpmFiles
  import opened Amsdos

  /** The entries of a file, gathered from the directory. */
  method CollectExtents(dir: Dir, first: Entry) returns (extents: seq<Entry>)
    ensures extents == Extents(dir, first)
  {
    extents := [];
    var i := 0;
    while i < DIR_ENTRIES
      invariant 0 <= i <= DIR_ENTRIES
      invariant extents + Extents(dir[i..], first) == Extents(dir, first)
    {
      assert dir[i..][1..] == dir[i + 1..];
      if dir[i][0] != DELETED && SameFile(dir[i], first) {
        extents := extents + [dir[i]];
      }
      i := i + 1;
    }
  }

  method ComputeFileSize(dir: Dir, first: Entry) returns (size: nat)
    ensures size == FileSize(SortExtents(Extents(dir, first)))
  {
    var found := CollectExtents(dir, first);
    var extents := SortExtents(found);
    if extents == [] {
      return 0;
    }
    size := 0;
    var i := 0;
    while i + 1 < |extents|
      invariant 0 <= i <= |extents| - 1
      invariant size == EXTENT_SIZE * i
    {
      size := size + EXTENT_SIZE;
      i := i + 1;
    }
    size := size + RECORD_SIZE * Records(extents[|extents| - 1]);
  }

  method GetFileBlocks(dir: Dir, first: Entry) returns (blocks: seq<byte>)
    ensures blocks == FileBlocks(SortExtents(Extents(dir, first)))
  {
    var found := CollectExtents(dir, first);
    var extents := SortExtents(found);
    blocks := [];
    var i := 0;
    while i < |extents|
      invariant 0 <= i <= |extents|
      invariant blocks + FileBlocks(extents[i..]) == FileBlocks(extents)
    {
      assert extents[i..][1..] == extents[i + 1..];
      blocks := blocks + Pointers(extents[i]);
      i := i + 1;
    }
  }

  function PointerSet(s: seq<byte>): set<byte> {
    if s == [] then {} else (if s[0] != 0 then {s[0]} else {}) + PointerSet(s[1..])
  }

  function UsedSet(es: seq<Entry>): set<byte> {
    if es == [] then {} else (if Live(es[0]) then PointerSet(es[0][16..32]) else {}) + UsedSet(es[1..])
  }

  lemma {:induction false} PointerSetNonZero(s: seq<byte>, b: byte)
    ensures b in PointerSet(s) <==> b in multiset(NonZero(s))
  {
    if s != [] {
      PointerSetNonZero(s[1..], b);
    }
  }

  lemma {:induction false} UsedSetRefs(es: seq<Entry>, b: byte)
    ensures b in UsedSet(es) <==> b in Refs(es)
  {
    if es != [] {
      PointerSetNonZero(es[0][16..32], b);
      UsedSetRefs(es[1..], b);
      assert b in Refs(es) <==> b in EntryRefs(es[0]) || b in Refs(es[1..]);
    }
  }

  method AddPointers(used: set<byte>, e: Entry) returns (r: set<byte>)
    ensures r == used + PointerSet(e[16..32])
  {
    r := used;
    var p := 16;
    while p < ENTRY_SIZE
      invariant 16 <= p <= ENTRY_SIZE
      invariant r + PointerSet(e[p..32]) == used + PointerSet(e[16..32])
    {
      assert e[p..32][1..] == e[p + 1..32];
      if e[p] != 0 {
        r := r + {e[p]};
      }
      p := p + 1;
    }
  }

  method UsedBlocks(dir: Dir) returns (used: set<byte>)
    ensures used == {0, 1} + UsedSet(dir)
  {
    used := {0, 1};
    var i := 0;
    assert dir[0..] == dir;
    while i < DIR_ENTRIES
      invariant 0 <= i <= DIR_ENTRIES
      invariant used + UsedSet(dir[i..]) == {0, 1} + UsedSet(dir)
    {
      assert dir[i..][1..] == dir[i + 1..];
      if Live(dir[i]) {
        used := AddPointers(used, dir[i]);
      }
      i := i + 1;
    }
  }

  method FindFreeBlocks(dir: Dir) returns (free: seq<byte>)
    ensures free == FreeBlocks(dir)
  {
    hide Refs, UsedSet;
    var used := UsedBlocks(dir);
    free := [];
    var b := FIRST_DATA_BLOCK;
    while b < TOTAL_BLOCKS
      invariant FIRST_DATA_BLOCK <= b <= TOTAL_BLOCKS
      invariant free + FreeFrom(Refs(dir), b) == FreeBlocks(dir)
    {
      UsedSetRefs(dir, b);
      if b !in used {
        free := free + [b];
      }
      b := b + 1;
    }
  }

  method FindFreeEntry(dir: Dir) returns (at: int)
    ensures at == if FirstDeleted(dir) == DIR_ENTRIES then -1 else FirstDeleted(dir)
  {
    var i := 0;
    while i < DIR_ENTRIES
      invariant 0 <= i <= DIR_ENTRIES
      invariant forall k :: 0 <= k < i ==> dir[k][0] != DELETED
    {
      if dir[i][0] == DELETED {
        return i;
      }
      i := i + 1;
    }
    return -1;
  }

  method FindFile(dir: Dir, name: Name) returns (at: nat)
    ensures at == FirstMatch(dir, name)
  {
    at := 0;
    while at < DIR_ENTRIES
      invariant 0 <= at <= DIR_ENTRIES
      invariant forall k :: 0 <= k < at ==> !(Live(dir[k]) && Matches(dir[k], name))
    {
      if Live(dir[at]) && Matches(dir[at], name) {
        return;
      }
      at := at + 1;
    }
  }

  method CountFreeEntries(dir: Dir) returns (n: nat)
    ensures n == CountDeleted(dir)
  {
    n := 0;
    var i := 0;
    while i < DIR_ENTRIES
      invariant 0 <= i <= DIR_ENTRIES
      invariant n + CountDeleted(dir[i..]) == CountDeleted(dir)
    {
      assert dir[i..][1..] == dir[i + 1..];
      if dir[i][0] == DELETED {
        n := n + 1;
      }
      i := i + 1;
    }
  }

  /** The directory entries of a new file, made one extent at a time. */
  method CreateEntries(dir0: Dir, name: Name, blocks: seq<byte>, total: nat) returns (ok: bool, dir: Dir)
    ensures PutEntries(dir0, NewEntries(name, 0, blocks, total)) == if ok then Some(dir) else None
  {
    dir := dir0;
    var ext, placed, remaining := 0, 0, total;
    while placed < |blocks|
      invariant 0 <= placed <= |blocks|
      invariant PutEntries(dir, NewEntries(name, ext, blocks[placed..], remaining))
             == PutEntries(dir0, NewEntries(name, 0, blocks, total))
    {
      var at := FindFreeEntry(dir);
      if at < 0 {
        return false, dir;
      }
      var entry, n, bytes := CreateEntry(name, ext, blocks[placed..], remaining);
      assert blocks[placed..][n..] == blocks[placed + n..];
      dir := dir[at := entry];
      placed, remaining, ext := placed + n, remaining - bytes, ext + 1;
    }
    ok := true;
  }

  /** One extent: up to sixteen block pointers and the records they hold. */
  method CreateEntry(name: Name, ext: nat, blocks: seq<byte>, remaining: nat) returns (entry: Entry, n: nat, bytes: nat)
    ensures n == Min(BLOCKS_PER_EXTENT, |blocks|)
    ensures bytes == Min(n * BLOCK_SIZE, remaining)
    ensures entry == MakeEntry(name, ext, blocks[..n], bytes)
  {
    var head: seq<byte> := [0] + name + [ext % 32, 0, ext / 32 % 64];
    var pointers := Fill(BLOCKS_PER_EXTENT, 0);
    n, bytes := 0, 0;
    while n < BLOCKS_PER_EXTENT && n < |blocks|
      invariant 0 <= n <= BLOCKS_PER_EXTENT && n <= |blocks|
      invariant bytes == Min(n * BLOCK_SIZE, remaining)
      invariant pointers == blocks[..n] + Fill(BLOCKS_PER_EXTENT - n, 0)
    {
      pointers := pointers[n := blocks[n]];
      bytes := bytes + Min(BLOCK_SIZE, remaining - bytes);
      n := n + 1;
    }
    var records := Ceil(bytes, RECORD_SIZE);
    entry := head + [Min(records, RECORDS_PER_EXTENT)] + pointers;
  }

  class Drive {
    var tracks: nat
    var sectors: map<SectorKey, Sector>
    var altered: bool

    constructor (disc: Disc)
      ensures Image() == disc && !altered
    {
      tracks, sectors, altered := disc.tracks, disc.sectors, false;
    }

    /** The disc in the drive. */
    function Image(): Disc
      reads this
    {
      Disc(tracks, sectors)
    }

    method ReadBlock(block: nat) returns (ok: bool, out: seq<byte>)
      ensures ok == HasBlock(Image(), block)
      ensures ok ==> out == Block(Image(), block)
    {
      if block >= TOTAL_BLOCKS {
        return false, [];
      }
      out := [];
      var half := 0;
      while half < 2
        invariant 0 <= half <= 2
        invariant half >= 1 ==> Present(Image(), 2 * block)
        invariant half == 2 ==> Present(Image(), 2 * block + 1)
        invariant half == 0 ==> out == []
        invariant half == 1 ==> out == SectorBytes(Image(), 2 * block)
        invariant half == 2 ==> out == Block(Image(), block)
      {
        var n := 2 * block + half;
        if n / SECTORS_PER_TRACK >= tracks || Key(n) !in sectors {
          return false, out;
        }
        out := out + sectors[Key(n)][..SECTOR_SIZE];
        half := half + 1;
      }
      ok := true;
    }

    method WriteBlock(block: nat, bytes: seq<byte>) returns (ok: bool)
      requires |bytes| == BLOCK_SIZE
      modifies this
      ensures Image() == PutBlock(old(Image()), block, bytes)
      ensures ok == HasBlock(old(Image()), block)
      ensures altered == (ok || old(altered))
    {
      if block >= TOTAL_BLOCKS {
        return false;
      }
      ghost var d0 := Image();
      var half := 0;
      while half < 2
        invariant 0 <= half <= 2
        invariant altered == old(altered) && tracks == old(tracks)
        invariant half == 0 ==> Image() == d0
        invariant half >= 1 ==> Present(d0, 2 * block)
        invariant half == 1 ==> Image() == PutSector(d0, 2 * block, bytes[..SECTOR_SIZE])
        invariant half == 2 ==> HasBlock(d0, block) && Image() == PutBlock(d0, block, bytes)
      {
        var n := 2 * block + half;
        if n / SECTORS_PER_TRACK >= tracks || Key(n) !in sectors {
          return false;
        }
        assert half == 1 ==> bytes[SECTOR_SIZE..2 * SECTOR_SIZE] == bytes[SECTOR_SIZE..];
        var old_bytes := sectors[Key(n)];
        sectors := sectors[Key(n) := bytes[half * SECTOR_SIZE..(half + 1) * SECTOR_SIZE] + old_bytes[SECTOR_SIZE..]];
        half := half + 1;
      }
      altered := true;
      ok := true;
    }

    method LoadDirectory() returns (ok: bool, dir: Dir)
      ensures ReadDirectory(Image()) == if ok then Some(dir) else None
    {
      var bytes := [];
      dir := seq(DIR_ENTRIES, _ => BLANK);
      var b := 0;
      while b < 2
        invariant 0 <= b <= 2
        invariant b >= 1 ==> HasBlock(Image(), 0)
        invariant b == 2 ==> HasBlock(Image(), 1)
        invariant b == 0 ==> bytes == []
        invariant b == 1 ==> bytes == Block(Image(), 0)
        invariant b == 2 ==> bytes == Block(Image(), 0) + Block(Image(), 1)
      {
        var there, block := ReadBlock(b);
        if !there {
          return false, dir;
        }
        bytes := bytes + block;
        b := b + 1;
      }
      ok, dir := true, Split(bytes, DIR_ENTRIES);
    }

    method StoreDirectory(dir: Dir) returns (ok: bool)
      modifies this
      ensures Image() == PutDirectory(old(Image()), dir)
      ensures ok ==> altered
      ensures ok == (HasBlock(old(Image()), 0) && HasBlock(old(Image()), 1))
    {
      var bytes := Flat(dir);
      PutBlockFrame(Image(), 0, bytes[..BLOCK_SIZE], 1);
      ok := WriteBlock(0, bytes[..BLOCK_SIZE]);
      if ok {
        ok := WriteBlock(1, bytes[BLOCK_SIZE..]);
      }
    }

    /** disk_read_file: changes nothing and returns what the disc holds. */
    method ReadNamedFile(filename: seq<byte>) returns (r: ReadResult)
      ensures r == ReadFile(Image(), filename)
    {
      if tracks == 0 {
        return Failed(NoDisc);
      }
      var ok, dir := LoadDirectory();
      if !ok {
        return Failed(UnreadableDirectory);
      }
      var name := ParseName(filename);
      if name.None? {
        return Failed(InvalidName);
      }
      var at := FindFile(dir, name.value);
      if at == DIR_ENTRIES {
        return Failed(FileNotFound);
      }
      var size := ComputeFileSize(dir, dir[at]);
      var blocks := GetFileBlocks(dir, dir[at]);
      r := ReadAll(blocks, size);
    }

    method ReadAll(blocks: seq<byte>, size: nat) returns (r: ReadResult)
      ensures r == ReadBlocks(Image(), blocks, size)
    {
      hide Block, HasBlock, ReadBlocks;
      var result: seq<byte> := [];
      var i, got := 0, 0;
      assert blocks[0..] == blocks;
      NothingPrepended(ReadBlocks(Image(), blocks, size));
      while i < |blocks|
        invariant 0 <= i <= |blocks| && got == |result| && (i > 0 ==> got < size) && got <= size
        invariant ReadBlocks(Image(), blocks, size)
               == Prepend(result, ReadBlocks(Image(), blocks[i..], size - got))
      {
        ReadStep(Image(), blocks, i, size - got, result);
        var ok, block := ReadBlock(blocks[i]);
        if !ok {
          return Failed(UnreadableBlock(blocks[i]));
        }
        var n := if got + BLOCK_SIZE > size then size - got else BLOCK_SIZE;
        result := result + block[..n];
        got := got + n;
        if got >= size {
          return Data(result);
        }
        i := i + 1;
      }
      assert blocks[i..] == [];
      NoBlocks(Image(), size - got, result);
      r := Data(result);
    }

    /** disk_write_file. */
    method WriteNamedFile(filename: seq<byte>, contents: seq<byte>, addHeader: bool,
                          fileType: byte, loadAddr: nat, execAddr: nat)
      returns (error: Option<Error>)
      modifies this
      ensures Result(Image(), error)
           == WriteFile(old(Image()), filename,
                        FullContents(filename, contents, addHeader, fileType, loadAddr, execAddr))
      ensures error.None? ==> altered
    {
      if tracks == 0 {
        return Some(NoDisc);
      }
      var name := ParseName(filename);
      if name.None? {
        return Some(InvalidName);
      }
      var data := contents;
      if addHeader {
        var header := MakeHeader(filename, fileType, loadAddr, execAddr, |contents|);
        data := header + contents;
      }
      var ok, dir := LoadDirectory();
      if !ok {
        return Some(UnreadableDirectory);
      }
      var at := FindFile(dir, name.value);
      if at < DIR_ENTRIES {
        return Some(FileExists);
      }
      error := StoreNewFile(dir, name.value, data);
    }

    method StoreNewFile(dir: Dir, name: Name, data: seq<byte>) returns (error: Option<Error>)
      modifies this
      ensures Result(Image(), error) == Store(old(Image()), dir, name, data)
      ensures error.None? ==> altered
    {
      var free := FindFreeBlocks(dir);
      var needed := Ceil(|data|, BLOCK_SIZE);
      if needed > |free| {
        return Some(DiscFull(needed, |free|));
      }
      var entries := CountFreeEntries(dir);
      if entries < Ceil(needed, BLOCKS_PER_EXTENT) {
        return Some(DirectoryFull);
      }
      var failed := WriteAll(free[..needed], data);
      if failed.Some? {
        return Some(UnwritableBlock(failed.value));
      }
      var ok, dir' := CreateEntries(dir, name, free[..needed], |data|);
      if !ok {
        return Some(DirectoryFull);
      }
      ok := StoreDirectory(dir');
      if !ok {
        return Some(UnwritableDirectory);
      }
      altered := true;
      error := None;
    }

    method WriteAll(blocks: seq<byte>, data: seq<byte>) returns (failed: Option<byte>)
      modifies this
      ensures Written(Image(), failed) == WriteBlocks(old(Image()), blocks, data)
    {
      var b, offset := 0, 0;
      while b < |blocks|
        invariant 0 <= b <= |blocks| && 0 <= offset <= |data|
        invariant WriteBlocks(Image(), blocks[b..], data[offset..]) == WriteBlocks(old(Image()), blocks, data)
      {
        var rest := data[offset..];
        assert blocks[b..][1..] == blocks[b + 1..];
        var n := if offset + BLOCK_SIZE > |data| then |data| - offset else BLOCK_SIZE;
        assert n == Min(BLOCK_SIZE, |rest|) && rest[n..] == data[offset + n..];
        var buffer := rest[..n] + Fill(BLOCK_SIZE - n, FILL);
        var ok := WriteBlock(blocks[b], buffer);
        if !ok {
          return Some(blocks[b]);
        }
        offset := offset + n;
        b := b + 1;
      }
      failed := None;
    }

    /** disk_delete_file. */
    method DeleteNamedFile(filename: seq<byte>) returns (error: Option<Error>)
      modifies this
      ensures Result(Image(), error) == DeleteFile(old(Image()), filename)
      ensures error.None? ==> altered
    {
      if tracks == 0 {
        return Some(NoDisc);
      }
      var name := ParseName(filename);
      if name.None? {
        return Some(InvalidName);
      }
      var ok, dir := LoadDirectory();
      if !ok {
        return Some(UnreadableDirectory);
      }
      var found, dir' := EraseEntries(dir, name.value);
      if !found {
        return Some(FileNotFound);
      }
      ok := StoreDirectory(dir');
      if !ok {
        return Some(UnwritableDirectory);
      }
      altered := true;
      error := None;
    }
  }

  /** Mark every live entry of the name as deleted. */
  method EraseEntries(dir0: Dir, name: Name) returns (found: bool, dir: Dir)
    ensures found <==> FirstMatch(dir0, name) < DIR_ENTRIES
    ensures dir == DeleteMatches(dir0, name)
  {
    dir, found := dir0, false;
    var i := 0;
    while i < DIR_ENTRIES
      invariant 0 <= i <= DIR_ENTRIES
      invariant forall k :: 0 <= k < i ==> dir[k] == DeleteMatches(dir0, name)[k]
      invariant forall k :: i <= k < DIR_ENTRIES ==> dir[k] == dir0[k]
      invariant found <==> exists k :: 0 <= k < i && Live(dir0[k]) && Matches(dir0[k], name)
    {
      if Live(dir[i]) && Matches(dir[i], name) {
        dir := dir[i := MarkDeleted(dir[i])];
        found := true;
      }
      i := i + 1;
    }
  }

  function Prepend(bytes: seq<byte>, r: ReadResult): ReadResult {
    match r
    case Data(rest) => Data(bytes + rest)
    case Failed(e) => Failed(e)
  }

  lemma NothingPrepended(r: ReadResult)
    ensures Prepend([], r) == r
  {
  }

  lemma NoBlocks(d: Disc, size: nat, done: seq<byte>)
    ensures Prepend(done, ReadBlocks(d, [], size)) == Data(done)
  {
  }

  lemma ReadStep(d: Disc, blocks: seq<byte>, i: nat, size: nat, done: seq<byte>)
    requires i < |blocks|
    ensures Prepend(done, ReadBlocks(d, blocks[i..], size))
      == if !HasBlock(d, blocks[i]) then Failed(UnreadableBlock(blocks[i]))
         else if size <= BLOCK_SIZE then Data(done + Block(d, blocks[i])[..size])
         else Prepend(done + Block(d, blocks[i])[..BLOCK_SIZE], ReadBlocks(d, blocks[i + 1..], size - BLOCK_SIZE))
  {
  }
}
