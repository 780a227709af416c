/** Which bytes of the disc a write or a delete changes, and to what. */
module DiscWrites {
  import opened Bits
  import opened Bytes
  import opened Wrappers
  import opened DiscBlocks
  import opened Directory
  import opened CpmFiles
  import opened CpmProofs
  import opened DiscImage
  import opened DiscFiles

  lemma CompleteSame(d: Disc, e: Disc, but: set<nat>)
    requires Complete(d) && SameBut(d, e, but)
    ensures Complete(e)
  {
    hide Block;
    forall t, id | 0 <= t < 40 && 0xC1 <= id <= 0xC9 ensures SectorKey(t, id) in e.sectors {
      var n := 9 * t + (id - 0xC1);
      assert Key(n) == SectorKey(t, id);
      HasAll(d, n / 2);
      assert HasBlock(e, n / 2);
      assert n == 2 * (n / 2) || n == 2 * (n / 2) + 1;
    }
  }

  lemma HasAll(d: Disc, b: nat)
    requires Complete(d) && b < 180
    ensures HasBlock(d, b)
  {
    BlockInImage(d, b);
  }

  lemma ByteOfBlock(d: Disc, p: nat)
    requires Complete(d) && p < 180 * 1024
    ensures HasBlock(d, p / 1024) && Image(d)[p] == Block(d, p / 1024)[p % 1024]
  {
    hide Image, Block, HasBlock, Complete;
    var b := p / 1024;
    BlockInImage(d, b);
    assert Image(d)[1024 * b..1024 * b + 1024][p % 1024] == Image(d)[p];
  }

  lemma ByteOfEntry(d: Disc, dir: Dir, p: nat)
    requires Complete(d) && ReadDirectory(d) == Some(dir) && p < 2048
    ensures Image(d)[p] == dir[p / 32][p % 32]
  {
    hide Image, Complete, ReadDirectory;
    var i := p / 32;
    EntryInImage(d, i);
    assert Image(d)[32 * i..32 * i + 32][p % 32] == Image(d)[p];
  }

  // ----- deleting

  /** Deleting a file changes one byte of each entry in use that bears its name,
      and nothing else on the disc. */
  lemma DeletedImage(d: Disc, filename: seq<byte>)
    requires Complete(d) && DeleteFile(d, filename).error.None?
    ensures ParseName(filename).Some? && Complete(DeleteFile(d, filename).disc)
    ensures var img, now, name := Image(d), Image(DeleteFile(d, filename).disc), ParseName(filename).value;
      forall p :: 0 <= p < 180 * 1024 ==>
        now[p] == if p < 2048 && p % 32 == 0 && Named(img, p / 32, name) then 0xE5 else img[p]
  {
    hide Image, Complete, ReadDirectory, PutDirectory, Block, HasBlock, Named, Matches, Live, SameBut, FirstMatch;
    var dir, name := ReadDirectory(d).value, ParseName(filename).value;
    var e := DeleteFile(d, filename).disc;
    PutDirectoryFrame(d, DeleteMatches(dir, name));
    CompleteSame(d, e, {0, 1});
    forall p | 0 <= p < 180 * 1024
      ensures Image(e)[p]
        == if p < 2048 && p % 32 == 0 && Named(Image(d), p / 32, name) then 0xE5 else Image(d)[p]
    {
      if p < 2048 {
        EntryBytes(d, dir, p / 32, name);
        ByteOfEntry(d, dir, p);
        ByteOfEntry(e, DeleteMatches(dir, name), p);
      } else {
        SameByte(d, e, {0, 1}, p);
      }
    }
  }

  lemma SameByte(d: Disc, e: Disc, but: set<nat>, p: nat)
    requires Complete(d) && Complete(e) && SameBut(d, e, but) && p < 180 * 1024 && p / 1024 !in but
    ensures Image(e)[p] == Image(d)[p]
  {
    hide Image, Block, HasBlock, Complete;
    ByteOfBlock(d, p);
    ByteOfBlock(e, p);
  }

  // ----- which blocks and entries a write takes

  /** Some entry in use names the block. */
  ghost predicate Used(img: seq<byte>, b: nat)
    requires |img| >= 2048
  {
    exists i: nat, k: nat :: i < 64 && k < 16 && img[32 * i] <= 15 && BlockOf(img, i, k) == b
  }

  /** A data block no entry in use names. */
  ghost predicate Free(img: seq<byte>, b: nat)
    requires |img| >= 2048
  {
    2 <= b < 180 && !Used(img, b)
  }

  /** How many blocks below b are free. */
  ghost function FreeBelow(img: seq<byte>, b: nat): nat
    requires |img| >= 2048
  {
    if b == 0 then 0 else FreeBelow(img, b - 1) + (if Free(img, b - 1) then 1 else 0)
  }

  predicate Vacant(img: seq<byte>, i: nat)
    requires 32 * i < |img|
  {
    img[32 * i] == 0xE5
  }

  /** How many entries in front of entry i are vacant. */
  function VacantBelow(img: seq<byte>, i: nat): nat
    requires 32 * i <= |img|
  {
    if i == 0 then 0 else VacantBelow(img, i - 1) + (if Vacant(img, i - 1) then 1 else 0)
  }

  lemma {:induction false} NonZeroMember(s: seq<byte>, b: byte)
    ensures b in NonZero(s) <==> b != 0 && b in s
  {
    if s != [] { NonZeroMember(s[1..], b); }
  }

  lemma {:induction false} RefsNamed(es: seq<Entry>, b: byte)
    ensures b in Refs(es) <==> exists i :: 0 <= i < |es| && Live(es[i]) && b in Pointers(es[i])
  {
    hide Live, Pointers;
    if es != [] {
      RefsNamed(es[1..], b);
      if i :| 0 <= i < |es| && Live(es[i]) && b in Pointers(es[i]) {
        if i > 0 { assert es[1..][i - 1] == es[i]; }
      }
      if i :| 0 <= i < |es[1..]| && Live(es[1..][i]) && b in Pointers(es[1..][i]) {
        assert es[i + 1] == es[1..][i];
      }
    }
  }

  lemma UsedIs(d: Disc, dir: Dir, b: byte)
    requires Complete(d) && ReadDirectory(d) == Some(dir) && b != 0
    ensures Used(Image(d), b) <==> b in Refs(dir)
  {
    hide Image, Complete, ReadDirectory, Refs, NonZero;
    var img := Image(d);
    RefsNamed(dir, b);
    forall i | 0 <= i < 64
      ensures (Live(dir[i]) <==> img[32 * i] <= 15)
      ensures b in Pointers(dir[i]) <==> exists k: nat :: k < 16 && BlockOf(img, i, k) == b
    {
      EntryBytes(d, dir, i, seq(11, _ => 32));
      NonZeroMember(dir[i][16..32], b);
      NamedIn(dir[i], img, i, b);
    }
  }

  lemma NamedIn(e: Entry, img: seq<byte>, i: nat, b: byte)
    requires 32 * i + 32 <= |img| && forall j :: 0 <= j < 32 ==> e[j] == img[32 * i + j]
    ensures b in e[16..32] <==> exists k: nat :: k < 16 && BlockOf(img, i, k) == b
  {
    if b in e[16..32] {
      var k :| 0 <= k < 16 && e[16..32][k] == b;
      assert BlockOf(img, i, k) == b;
    }
    if k: nat :| k < 16 && BlockOf(img, i, k) == b {
      assert e[16..32][k] == b;
    }
  }

  ghost function NotIn(refs: multiset<byte>, from: nat, b: nat): nat
    requires from <= b <= 180
    decreases b - from
  {
    if from == b then 0 else NotIn(refs, from, b - 1) + (if (b - 1) in refs then 0 else 1)
  }

  lemma {:induction false} NotInFront(refs: multiset<byte>, from: nat, b: nat)
    requires from < b <= 180
    ensures NotIn(refs, from, b) == (if from in refs then 0 else 1) + NotIn(refs, from + 1, b)
    decreases b - from
  {
    if from + 1 < b { NotInFront(refs, from, b - 1); }
  }

  /** A free block stands in the list behind the free blocks below it. */
  lemma {:induction false} FreeRank(refs: multiset<byte>, from: nat, b: nat)
    requires 2 <= from <= b < 180 && b !in refs
    ensures NotIn(refs, from, b) < |FreeFrom(refs, from)| && FreeFrom(refs, from)[NotIn(refs, from, b)] == b
    decreases b - from
  {
    if from < b {
      NotInFront(refs, from, b);
      FreeRank(refs, from + 1, b);
    }
  }

  lemma {:induction false} BelowIs(d: Disc, dir: Dir, b: nat)
    requires Complete(d) && ReadDirectory(d) == Some(dir) && 2 <= b <= 180
    ensures FreeBelow(Image(d), b) == NotIn(Refs(dir), 2, b)
    decreases b
  {
    hide Image, Complete, ReadDirectory, Refs, Used;
    var img := Image(d);
    if b == 2 {
      assert FreeBelow(img, 1) == 0;
    } else {
      BelowIs(d, dir, b - 1);
      UsedIs(d, dir, b - 1);
    }
  }

  /** The block at place k of the list is the free one with k free blocks below. */
  lemma FreeAt(d: Disc, dir: Dir, b: nat)
    requires Complete(d) && ReadDirectory(d) == Some(dir) && 2 <= b < 180
    ensures Free(Image(d), b) <==> b !in Refs(dir)
    ensures Free(Image(d), b) ==>
      FreeBelow(Image(d), b) < |FreeBlocks(dir)| && FreeBlocks(dir)[FreeBelow(Image(d), b)] == b
  {
    hide Image, Complete, ReadDirectory, Refs, Used, FreeFrom, NotIn, FreeBelow;
    UsedIs(d, dir, b);
    BelowIs(d, dir, b);
    if b !in Refs(dir) { FreeRank(Refs(dir), 2, b); }
  }

  lemma FreeListed(d: Disc, dir: Dir, k: nat)
    requires Complete(d) && ReadDirectory(d) == Some(dir) && k < |FreeBlocks(dir)|
    ensures var b := FreeBlocks(dir)[k]; Free(Image(d), b) && FreeBelow(Image(d), b) == k
  {
    hide Image, Complete, ReadDirectory, Refs, FreeFrom, FreeBelow, Free;
    FreeFromSpec(Refs(dir), 2);
    var b := FreeBlocks(dir)[k];
    assert b in FreeBlocks(dir);
    FreeAt(d, dir, b);
  }

  // ----- the new entries

  /** How many bytes of the file extent x holds. */
  function Here(bytes: nat, x: nat): nat
    requires 16384 * x <= bytes
  {
    if bytes - 16384 * x < 16384 then bytes - 16384 * x else 16384
  }

  function Upto(n: nat, x: nat): nat { if n < 16 * x + 16 then n else 16 * x + 16 }

  lemma {:induction false} NewEntryAt(name: Name, ext: nat, blocks: seq<byte>, bytes: nat, x: nat)
    requires |blocks| == Ceil(bytes, BLOCK_SIZE) && 16 * x < |blocks|
    ensures 16384 * x < bytes && x < |NewEntries(name, ext, blocks, bytes)|
    ensures NewEntries(name, ext, blocks, bytes)[x]
      == MakeEntry(name, ext + x, blocks[16 * x..Upto(|blocks|, x)], Here(bytes, x))
    decreases x
  {
    hide MakeEntry, NewEntries;
    NewEntriesSplit(name, ext, blocks, bytes);
    var es := NewEntries(name, ext, blocks, bytes);
    if x == 0 {
      assert blocks[0..Upto(|blocks|, 0)] == blocks[..Upto(|blocks|, 0)];
    } else {
      NewEntryAt(name, ext + 1, blocks[16..], bytes - 16384, x - 1);
      assert es[x] == es[1..][x - 1];
      assert blocks[16..][16 * (x - 1)..Upto(|blocks| - 16, x - 1)] == blocks[16 * x..Upto(|blocks|, x)];
    }
  }

  /** Entry x of a new file of that many bytes: user 0, the name, the extent
      number, the records in use, and its blocks with zeros behind. */
  ghost predicate EntryOf(e: Entry, name: Name, x: nat, bytes: nat, blocks: seq<byte>)
    requires 16384 * x < bytes
  {
    && e[0] == 0 && (forall j :: 0 <= j < 11 ==> e[1 + j] == name[j])
    && e[12] == x && e[13] == 0 && e[14] == 0
    && 128 * ((e[15] as int) - 1) < Here(bytes, x) <= 128 * (e[15] as int)
    && forall k :: 0 <= k < 16 ==> Place(e, k) == if 16 * x + k < |blocks| then blocks[16 * x + k] else 0
  }

  lemma EntryIs(name: Name, x: nat, bytes: nat, blocks: seq<byte>)
    requires |blocks| == Ceil(bytes, BLOCK_SIZE) && 16 * x < |blocks| && x < 32
    ensures 16384 * x < bytes
    ensures EntryOf(MakeEntry(name, x, blocks[16 * x..Upto(|blocks|, x)], Here(bytes, x)), name, x, bytes, blocks)
  {
  }

  lemma {:induction false} CountVacant(dir: seq<Entry>, i: nat)
    requires i <= |dir|
    ensures i <= FirstDeleted(dir) ==> Deleted(dir, i) == 0
    decreases i
  {
    if i > 0 { CountVacant(dir, i - 1); }
  }

  /** How many of the first i entries are deleted. */
  function Deleted(dir: seq<Entry>, i: nat): nat
    requires i <= |dir|
  {
    if i == 0 then 0 else Deleted(dir, i - 1) + (if dir[i - 1][0] == 0xE5 then 1 else 0)
  }

  lemma {:induction false} DeletedTaken(dir: seq<Entry>, f: nat, e: Entry, i: nat)
    requires f < |dir| && dir[f][0] == 0xE5 && e[0] != 0xE5 && i <= |dir|
    ensures Deleted(dir[f := e], i) == Deleted(dir, i) - (if f < i then 1 else 0)
    decreases i
  {
    if i > 0 { DeletedTaken(dir, f, e, i - 1); }
  }

  /** The new entries take the vacant places in order. */
  lemma {:induction false} EntryPlaced(dir: Dir, es: seq<Entry>, i: nat)
    requires PutEntries(dir, es).Some? && i < 64 && forall x :: 0 <= x < |es| ==> es[x][0] == 0
    ensures PutEntries(dir, es).value[i]
      == if dir[i][0] == 0xE5 && Deleted(dir, i) < |es| then es[Deleted(dir, i)] else dir[i]
    decreases |es|
  {
    if es != [] {
      var f := FirstDeleted(dir);
      EntryPlaced(dir[f := es[0]], es[1..], i);
      DeletedTaken(dir, f, es[0], i);
      CountVacant(dir, f);
      if f < i { DeletedOnce(dir, f, i); }
    }
  }

  lemma {:induction false} DeletedOnce(dir: seq<Entry>, f: nat, i: nat)
    requires f < i <= |dir| && dir[f][0] == 0xE5
    ensures Deleted(dir, i) >= 1
    decreases i
  {
    if f < i - 1 { DeletedOnce(dir, f, i - 1); }
  }

  lemma {:induction false} VacantIs(d: Disc, dir: Dir, i: nat)
    requires Complete(d) && ReadDirectory(d) == Some(dir) && i <= 64
    ensures VacantBelow(Image(d), i) == Deleted(dir, i)
    decreases i
  {
    hide Image, Complete, ReadDirectory;
    if i > 0 {
      VacantIs(d, dir, i - 1);
      ByteOfEntry(d, dir, 32 * (i - 1));
    }
  }

  lemma {:induction false} HeldAt(d: Disc, blocks: seq<byte>, data: seq<byte>, k: nat, o: nat)
    requires Holds(d, blocks, data) && k < |blocks| && o < 1024
    ensures HasBlock(d, blocks[k])
    ensures Block(d, blocks[k])[o] == if 1024 * k + o < |data| then data[1024 * k + o] else 0xE5
    decreases k
  {
    hide HasBlock, Block;
    if k > 0 { HeldAt(d, blocks[1..], data[Min(BLOCK_SIZE, |data|)..], k - 1, o); }
  }

  // ----- writing

  /** Byte p of the disc after a write, when it was `was` before. The k-th free
      block takes the k-th kilobyte of the contents, filled up with E5; the x-th
      vacant entry becomes that of extent x; every other byte stays. */
  ghost predicate WrittenByte(img: seq<byte>, name: Name, data: seq<byte>, p: nat, now: byte)
    requires |img| == 180 * 1024 && p < |img|
  {
    var b, i, blocks := p / 1024, p / 32, (|data| + 1023) / 1024;
    if b >= 2 then
      if Free(img, b) && FreeBelow(img, b) < blocks then
        var at := 1024 * FreeBelow(img, b) + p % 1024;
        now == if at < |data| then data[at] else 0xE5
      else now == img[p]
    else if Vacant(img, i) && 16 * VacantBelow(img, i) < blocks then
      EntryByte(img, name, |data|, VacantBelow(img, i), p % 32, now)
    else now == img[p]
  }

  /** Byte j of the entry of extent x. */
  ghost predicate EntryByte(img: seq<byte>, name: Name, bytes: nat, x: nat, j: nat, now: byte)
    requires |img| == 180 * 1024 && j < 32
  {
    if j == 0 then now == 0
    else if j <= 11 then now == name[j - 1]
    else if j == 12 then now == x
    else if j <= 14 then now == 0
    else if j == 15 then
      var here := if bytes - 16384 * x < 16384 then bytes - 16384 * x else 16384;
      128 * ((now as int) - 1) < here <= 128 * (now as int)
    else
      var k := 16 * x + (j - 16);
      if 1024 * k < bytes then Free(img, now) && FreeBelow(img, now) == k else now == 0
  }

  lemma EntryByteIs(d: Disc, dir: Dir, e: Entry, name: Name, x: nat, data: seq<byte>, j: nat)
    requires Complete(d) && ReadDirectory(d) == Some(dir) && j < 32 && 16384 * x < |data|
    requires Ceil(|data|, BLOCK_SIZE) <= |FreeBlocks(dir)|
    requires EntryOf(e, name, x, |data|, Allocated(dir, data))
    ensures EntryByte(Image(d), name, |data|, x, j, e[j])
  {
    hide Image, Complete, ReadDirectory, FreeFrom, Refs, Free, FreeBelow;
    if 1 <= j <= 11 {
      assert e[1 + (j - 1)] == name[j - 1];
    } else if j >= 16 {
      var k := 16 * x + (j - 16);
      assert Place(e, j - 16) == e[j];
      if k < Ceil(|data|, BLOCK_SIZE) {
        assert Allocated(dir, data)[k] == FreeBlocks(dir)[k];
        FreeListed(d, dir, k);
      }
    }
  }

  lemma DirectoryByte(d: Disc, d': Disc, dir: Dir, name: Name, data: seq<byte>, p: nat)
    requires Complete(d) && Complete(d') && ReadDirectory(d) == Some(dir) && p < 2048
    requires Ceil(|data|, BLOCK_SIZE) <= |FreeBlocks(dir)|
    requires var dir' := PutEntries(dir, NewEntries(name, 0, Allocated(dir, data), |data|));
      dir'.Some? && ReadDirectory(d') == dir'
    ensures WrittenByte(Image(d), name, data, p, Image(d')[p])
  {
    hide Image, Complete, ReadDirectory, FreeFrom, Refs, Free, FreeBelow, NewEntries, PutEntries, EntryByte, MakeEntry;
    var blocks, i := Allocated(dir, data), p / 32;
    var es := NewEntries(name, 0, blocks, |data|);
    NewEntriesNamed(name, 0, blocks, |data|);
    EntryPlaced(dir, es, i);
    VacantIs(d, dir, i);
    ByteOfEntry(d, dir, p);
    ByteOfEntry(d, dir, 32 * i);
    ByteOfEntry(d', PutEntries(dir, es).value, p);
    var x := Deleted(dir, i);
    if dir[i][0] == 0xE5 && 16 * x < |blocks| {
      NewEntryAt(name, 0, blocks, |data|, x);
      EntryIs(name, x, |data|, blocks);
      EntryByteIs(d, dir, es[x], name, x, data, p % 32);
    }
  }

  lemma TakenFree(d: Disc, dir: Dir, data: seq<byte>, b: nat)
    requires Complete(d) && ReadDirectory(d) == Some(dir) && Ceil(|data|, BLOCK_SIZE) <= |FreeBlocks(dir)|
    ensures b in Blocks(Allocated(dir, data)) ==>
      Free(Image(d), b) && FreeBelow(Image(d), b) < Ceil(|data|, BLOCK_SIZE)
  {
    hide Image, Complete, ReadDirectory, FreeFrom, Refs, Free, FreeBelow, Blocks;
    var blocks := Allocated(dir, data);
    if b in Blocks(blocks) {
      var k := BlocksIndex(blocks, b);
      assert FreeBlocks(dir)[k] == blocks[k];
      FreeListed(d, dir, k);
    }
  }

  lemma DataByte(d: Disc, d': Disc, dir: Dir, name: Name, data: seq<byte>, p: nat)
    requires Complete(d) && Complete(d') && ReadDirectory(d) == Some(dir) && 2048 <= p < 180 * 1024
    requires Ceil(|data|, BLOCK_SIZE) <= |FreeBlocks(dir)|
    requires Holds(d', Allocated(dir, data), data) && SameBut(d, d', Blocks(Allocated(dir, data)) + {0, 1})
    ensures WrittenByte(Image(d), name, data, p, Image(d')[p])
  {
    hide Image, Complete, ReadDirectory, FreeFrom, Refs, Free, FreeBelow, Holds, SameBut, Blocks, HasBlock, Block;
    var blocks, b := Allocated(dir, data), p / 1024;
    FreeAt(d, dir, b);
    TakenFree(d, dir, data, b);
    if Free(Image(d), b) && FreeBelow(Image(d), b) < |blocks| {
      var k := FreeBelow(Image(d), b);
      assert blocks[k] == FreeBlocks(dir)[k] == b;
      HeldAt(d', blocks, data, k, p % 1024);
      ByteOfBlock(d', p);
    } else {
      SameByte(d, d', Blocks(blocks) + {0, 1}, p);
    }
  }

  /** Every byte of a complete disc after a successful write. */
  lemma WrittenImage(d: Disc, filename: seq<byte>, data: seq<byte>)
    requires Complete(d) && WriteFile(d, filename, data).error.None?
    ensures ParseName(filename).Some? && Complete(WriteFile(d, filename, data).disc)
    ensures forall p :: 0 <= p < 180 * 1024 ==>
      WrittenByte(Image(d), ParseName(filename).value, data, p, Image(WriteFile(d, filename, data).disc)[p])
  {
    hide Image, Complete, ReadDirectory, Store, FreeFrom, Refs, SameBut, Holds, PutEntries, WrittenByte, Allocated,
         FirstMatch, Extends, Blocks;
    var dir, name, e := ReadDirectory(d).value, ParseName(filename).value, WriteFile(d, filename, data).disc;
    StoreFacts(d, dir, name, data);
    CompleteSame(d, e, Blocks(Allocated(dir, data)) + {0, 1});
    forall p | 0 <= p < 180 * 1024 ensures WrittenByte(Image(d), name, data, p, Image(e)[p]) {
      if p < 2048 {
        DirectoryByte(d, e, dir, name, data, p);
      } else {
        DataByte(d, e, dir, name, data, p);
      }
    }
  }

  // ----- when they succeed

  lemma {:induction false} FreeCount(refs: multiset<byte>, from: nat)
    requires 2 <= from <= 180
    ensures |FreeFrom(refs, from)| == NotIn(refs, from, 180)
    decreases 180 - from
  {
    if from < 180 {
      NotInFront(refs, from, 180);
      FreeCount(refs, from + 1);
    }
  }

  lemma {:induction false} DeletedAll(es: seq<Entry>, i: nat)
    requires i <= |es|
    ensures CountDeleted(es) == Deleted(es, i) + CountDeleted(es[i..])
    decreases i
  {
    if i == 0 {
      assert es[0..] == es;
    } else {
      DeletedAll(es, i - 1);
      assert es[i - 1..][1..] == es[i..];
    }
  }

  lemma RoomIs(d: Disc, dir: Dir)
    requires Complete(d) && ReadDirectory(d) == Some(dir)
    ensures |FreeBlocks(dir)| == FreeBelow(Image(d), 180) && CountDeleted(dir) == VacantBelow(Image(d), 64)
  {
    hide Image, Complete, ReadDirectory, Refs, FreeFrom, NotIn, FreeBelow, Deleted, VacantBelow;
    BelowIs(d, dir, 180);
    FreeCount(Refs(dir), 2);
    DeletedAll(dir, 64);
    assert dir[64..] == [];
    VacantIs(d, dir, 64);
  }

  ghost predicate AnyNamed(img: seq<byte>, name: Name)
    requires |img| >= 2048
  {
    exists k: nat :: k < 64 && Named(img, k, name)
  }

  /** A write on a complete disc: which error it reports, read off the disc. */
  lemma WriteOutcome(d: Disc, filename: seq<byte>, data: seq<byte>)
    requires Complete(d)
    ensures var img, blocks := Image(d), (|data| + 1023) / 1024;
      WriteFile(d, filename, data).error
        == if ParseName(filename).None? then Some(InvalidName)
           else if AnyNamed(img, ParseName(filename).value) then Some(FileExists)
           else if FreeBelow(img, 180) < blocks then Some(DiscFull(blocks, FreeBelow(img, 180)))
           else if 16 * VacantBelow(img, 64) < blocks then Some(DirectoryFull)
           else None
  {
    hide Image, Complete, ReadDirectory, Refs, FreeFrom, FreeBelow, VacantBelow, Named, Store, FirstMatch;
    Readable(d);
    var dir := ReadDirectory(d).value;
    if ParseName(filename).Some? {
      var name := ParseName(filename).value;
      FirstIs(d, dir, name);
      RoomIs(d, dir);
      if !AnyNamed(Image(d), name) { StoreOutcome(d, dir, name, data); }
    }
  }

  lemma {:induction false} WriteBlocksFine(d: Disc, blocks: seq<byte>, data: seq<byte>)
    requires forall i :: 0 <= i < |blocks| ==> HasBlock(d, blocks[i])
    ensures WriteBlocks(d, blocks, data).failed.None?
    decreases |blocks|
  {
    hide HasBlock, Chunk;
    if blocks != [] {
      var d1 := PutBlock(d, blocks[0], Chunk(data));
      PutBlockSame(d, blocks[0], Chunk(data));
      assert HasBlock(d, blocks[0]);
      WriteBlocksFine(d1, blocks[1..], data[Min(BLOCK_SIZE, |data|)..]);
    }
  }

  lemma CeilIs(n: nat, c: nat)
    ensures Ceil(n, 1024) == (n + 1023) / 1024
    ensures Ceil(n, 16) <= c <==> n <= 16 * c
  {
  }

  lemma AllocatedIs(dir: Dir, data: seq<byte>)
    requires Ceil(|data|, BLOCK_SIZE) <= |FreeBlocks(dir)|
    ensures Allocated(dir, data) == FreeBlocks(dir)[..Ceil(|data|, BLOCK_SIZE)]
  {
    hide FreeFrom, Refs;
  }

  /** Nothing goes wrong behind the two counts. */
  lemma StoreFine(d: Disc, dir: Dir, name: Name, data: seq<byte>)
    requires Complete(d) && ReadDirectory(d) == Some(dir)
    requires Ceil(|data|, BLOCK_SIZE) <= |FreeBlocks(dir)|
    requires CountDeleted(dir) >= Ceil(Ceil(|data|, BLOCK_SIZE), BLOCKS_PER_EXTENT)
    ensures Store(d, dir, name, data).error.None?
  {
    hide Complete, ReadDirectory, FreeBlocks, WriteBlocks, PutEntries, NewEntries, HasBlock, PutDirectory, CountDeleted,
         Allocated, Extends, AllNamed, Blocks, Block, Ceil;
    AllocatedIs(dir, data);
    var blocks := Allocated(dir, data);
    forall i | 0 <= i < |blocks| ensures HasBlock(d, blocks[i]) { HasAll(d, blocks[i]); }
    WriteBlocksFine(d, blocks, data);
    WriteBlocksSame(d, blocks, data);
    HasAll(d, 0);
    HasAll(d, 1);
    NewEntriesNamed(name, 0, blocks, |data|);
    PutEntriesExtends(dir, NewEntries(name, 0, blocks, |data|), name);
  }

  lemma StoreOutcome(d: Disc, dir: Dir, name: Name, data: seq<byte>)
    requires Complete(d) && ReadDirectory(d) == Some(dir)
    ensures var blocks := (|data| + 1023) / 1024;
      Store(d, dir, name, data).error
        == if |FreeBlocks(dir)| < blocks then Some(DiscFull(blocks, |FreeBlocks(dir)|))
           else if 16 * CountDeleted(dir) < blocks then Some(DirectoryFull)
           else None
  {
    hide Complete, ReadDirectory, FreeBlocks, WriteBlocks, PutEntries, NewEntries, HasBlock, PutDirectory, CountDeleted,
         Ceil;
    var n := Ceil(|data|, BLOCK_SIZE);
    CeilIs(|data|, 0);
    CeilIs(n, CountDeleted(dir));
    if n <= |FreeBlocks(dir)| && Ceil(n, BLOCKS_PER_EXTENT) <= CountDeleted(dir) { StoreFine(d, dir, name, data); }
  }

  lemma DeleteOutcome(d: Disc, filename: seq<byte>)
    requires Complete(d)
    ensures DeleteFile(d, filename).error
      == if ParseName(filename).None? then Some(InvalidName)
         else if AnyNamed(Image(d), ParseName(filename).value) then None else Some(FileNotFound)
  {
    hide Image, Complete, ReadDirectory, Named, FirstMatch, HasBlock, PutDirectory, DeleteMatches;
    Readable(d);
    HasAll(d, 0);
    HasAll(d, 1);
    if ParseName(filename).Some? { FirstIs(d, ReadDirectory(d).value, ParseName(filename).value); }
  }
}
