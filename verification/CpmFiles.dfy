/** Files on a DATA-format disc: reading, writing and deleting
    (src/disk_file_editor.cpp), as functions of the disc's contents. */
module CpmFiles {
  import opened Bits
  import opened Bytes
  import opened Wrappers
  import opened DiscBlocks
  import opened Directory

  /** The reasons for which a file operation is refused. */
  datatype Error =
    | NoDisc
    | InvalidName
    | UnreadableDirectory
    | FileExists
    | FileNotFound
    | DiscFull(needed: nat, free: nat)
    | DirectoryFull
    | UnwritableBlock(block: nat)
    | UnreadableBlock(block: nat)
    | UnwritableDirectory

  datatype ReadResult = Data(bytes: seq<byte>) | Failed(error: Error)

  // ----- names

  const DOT: byte := 46
  const SPACE: byte := 32
  const FILL: byte := 0xE5

  function ToUpper(c: byte): byte { if 97 <= c <= 122 then c - 32 else c }

  function Upper(s: seq<byte>): (r: seq<byte>)
    ensures |r| == |s|
  {
    seq(|s|, i requires 0 <= i < |s| => ToUpper(s[i]))
  }

  /** The position of the first dot, or |s|. */
  function FindDot(s: seq<byte>): (i: nat)
    ensures i <= |s|
  {
    if s == [] || s[0] == DOT then 0 else 1 + FindDot(s[1..])
  }

  /** "name.ext" as eight and three upper-case bytes, space padded. */
  function ParseName(display: seq<byte>): Option<Name> {
    var upper := Upper(display);
    var dot := FindDot(upper);
    var name := upper[..dot];
    var ext := if dot < |upper| then upper[dot + 1..] else [];
    if |name| > 8 || |ext| > 3 then None
    else Some(name + Fill(8 - |name|, SPACE) + ext + Fill(3 - |ext|, SPACE))
  }

  predicate Ascii(name: Name) { forall j :: 0 <= j < 11 ==> name[j] < 128 }

  // ----- the directory on the disc

  function ReadDirectory(d: Disc): Option<Dir> {
    if HasBlock(d, 0) && HasBlock(d, 1)
    then Some(Split(Block(d, 0) + Block(d, 1), DIR_ENTRIES))
    else None
  }

  function PutDirectory(d: Disc, dir: Dir): Disc {
    var bytes := Flat(dir);
    var d1 := PutBlock(d, 0, bytes[..1024]);
    if HasBlock(d, 0) then PutBlock(d1, 1, bytes[1024..]) else d1
  }

  /** A readable directory can be rewritten, and reads back as written;
      the data blocks are not touched. */
  lemma PutDirectoryFrame(d: Disc, dir: Dir)
    requires ReadDirectory(d).Some?
    ensures ReadDirectory(PutDirectory(d, dir)) == Some(dir)
    ensures SameBut(d, PutDirectory(d, dir), {0, 1})
  {
    var bytes := Flat(dir);
    var d1 := PutBlock(d, 0, bytes[..1024]);
    var d2 := PutBlock(d1, 1, bytes[1024..]);
    PutBlockFrame(d, 0, bytes[..1024], 1);
    PutBlockFrame(d1, 1, bytes[1024..], 0);
    assert bytes[..1024] + bytes[1024..] == bytes;
    SplitFlat(dir);
    PutBlockSame(d, 0, bytes[..1024]);
    PutBlockSame(d1, 1, bytes[1024..]);
    SameButTransitive(d, d1, d2, {0}, {1});
    assert {0} + {1} == {0, 1};
  }

  lemma SameDirectory(d: Disc, e: Disc, but: set<nat>)
    requires SameBut(d, e, but) && 0 !in but && 1 !in but
    ensures ReadDirectory(e) == ReadDirectory(d)
  {
  }

  // ----- reading

  /** The first `size` bytes of the given blocks. A block is read even when
      nothing is wanted from it; reading stops once `size` is reached. */
  function ReadBlocks(d: Disc, blocks: seq<byte>, size: nat): ReadResult
    decreases |blocks|
  {
    if blocks == [] then Data([])
    else if !HasBlock(d, blocks[0]) then Failed(UnreadableBlock(blocks[0]))
    else
      var n := if size < BLOCK_SIZE then size else BLOCK_SIZE;
      var here := Block(d, blocks[0])[..n];
      if size <= BLOCK_SIZE then Data(here)
      else
        match ReadBlocks(d, blocks[1..], size - BLOCK_SIZE)
        case Data(rest) => Data(here + rest)
        case Failed(e) => Failed(e)
  }

  function ReadExtents(d: Disc, extents: seq<Entry>): ReadResult {
    ReadBlocks(d, FileBlocks(extents), FileSize(extents))
  }

  function ReadNamed(d: Disc, dir: Dir, name: Name): ReadResult {
    var i := FirstMatch(dir, name);
    if i == |dir| then Failed(FileNotFound)
    else ReadExtents(d, SortExtents(Extents(dir, dir[i])))
  }

  function ReadFile(d: Disc, filename: seq<byte>): ReadResult {
    if d.tracks == 0 then Failed(NoDisc)
    else if ReadDirectory(d).None? then Failed(UnreadableDirectory)
    else if ParseName(filename).None? then Failed(InvalidName)
    else ReadNamed(d, ReadDirectory(d).value, ParseName(filename).value)
  }

  // ----- writing

  function Min(a: nat, b: nat): nat { if a < b then a else b }

  function Ceil(n: nat, k: nat): nat
    requires k > 0
  {
    (n + k - 1) / k
  }

  /** The next block's worth of data, filled up with 0xE5. */
  function Chunk(data: seq<byte>): (r: seq<byte>)
    ensures |r| == BLOCK_SIZE
  {
    var n := Min(BLOCK_SIZE, |data|);
    data[..n] + Fill(BLOCK_SIZE - n, FILL)
  }

  datatype Written = Written(disc: Disc, failed: Option<byte>)

  /** Store the data in the given blocks, up to the first that is missing. */
  function WriteBlocks(d: Disc, blocks: seq<byte>, data: seq<byte>): Written
    decreases |blocks|
  {
    if blocks == [] then Written(d, None)
    else
      var d1 := PutBlock(d, blocks[0], Chunk(data));
      if !HasBlock(d, blocks[0]) then Written(d1, Some(blocks[0]))
      else WriteBlocks(d1, blocks[1..], data[Min(BLOCK_SIZE, |data|)..])
  }

  /** The directory entry of extent number ext, holding `bytes` bytes. */
  function MakeEntry(name: Name, ext: nat, blocks: seq<byte>, bytes: nat): Entry
    requires |blocks| <= BLOCKS_PER_EXTENT
  {
    [0] + name + [ext % 32, 0, ext / 32 % 64, Min(Ceil(bytes, RECORD_SIZE), RECORDS_PER_EXTENT)]
      + blocks + Fill(BLOCKS_PER_EXTENT - |blocks|, 0)
  }

  /** One entry for every sixteen blocks. */
  function NewEntries(name: Name, ext: nat, blocks: seq<byte>, bytes: nat): seq<Entry>
    decreases |blocks|
  {
    if blocks == [] then []
    else
      var n := Min(BLOCKS_PER_EXTENT, |blocks|);
      var here := Min(n * BLOCK_SIZE, bytes);
      [MakeEntry(name, ext, blocks[..n], here)] + NewEntries(name, ext + 1, blocks[n..], bytes - here)
  }

  /** Each entry in turn takes the first deleted slot. */
  function PutEntries(dir: Dir, es: seq<Entry>): Option<Dir>
    decreases |es|
  {
    if es == [] then Some(dir)
    else
      var i := FirstDeleted(dir);
      if i == |dir| then None else PutEntries(dir[i := es[0]], es[1..])
  }

  datatype Result = Result(disc: Disc, error: Option<Error>)

  /** Everything after the checks that need no free space. */
  function Store(d: Disc, dir: Dir, name: Name, data: seq<byte>): Result {
    var free := FreeBlocks(dir);
    var needed := Ceil(|data|, BLOCK_SIZE);
    if needed > |free| then Result(d, Some(DiscFull(needed, |free|)))
    else if CountDeleted(dir) < Ceil(needed, BLOCKS_PER_EXTENT) then Result(d, Some(DirectoryFull))
    else
      var w := WriteBlocks(d, free[..needed], data);
      if w.failed.Some? then Result(w.disc, Some(UnwritableBlock(w.failed.value)))
      else
        match PutEntries(dir, NewEntries(name, 0, free[..needed], |data|))
        case None => Result(w.disc, Some(DirectoryFull))
        case Some(dir') =>
          Result(PutDirectory(w.disc, dir'),
                 if HasBlock(w.disc, 0) && HasBlock(w.disc, 1) then None else Some(UnwritableDirectory))
  }

  /** Write `data`, the file's full contents, header included. */
  function WriteFile(d: Disc, filename: seq<byte>, data: seq<byte>): Result {
    if d.tracks == 0 then Result(d, Some(NoDisc))
    else if ParseName(filename).None? then Result(d, Some(InvalidName))
    else if ReadDirectory(d).None? then Result(d, Some(UnreadableDirectory))
    else
      var dir := ReadDirectory(d).value;
      var name := ParseName(filename).value;
      if FirstMatch(dir, name) < |dir| then Result(d, Some(FileExists))
      else Store(d, dir, name, data)
  }

  // ----- deleting

  function MarkDeleted(e: Entry): Entry { e[0 := DELETED] }

  function DeleteMatches(es: seq<Entry>, name: Name): (r: seq<Entry>)
    ensures |r| == |es|
  {
    seq(|es|, i requires 0 <= i < |es| =>
      if Live(es[i]) && Matches(es[i], name) then MarkDeleted(es[i]) else es[i])
  }

  function DeleteFile(d: Disc, filename: seq<byte>): Result {
    if d.tracks == 0 then Result(d, Some(NoDisc))
    else if ParseName(filename).None? then Result(d, Some(InvalidName))
    else if ReadDirectory(d).None? then Result(d, Some(UnreadableDirectory))
    else
      var dir := ReadDirectory(d).value;
      var name := ParseName(filename).value;
      if FirstMatch(dir, name) == |dir| then Result(d, Some(FileNotFound))
      else
        Result(PutDirectory(d, DeleteMatches(dir, name)),
               if HasBlock(d, 0) && HasBlock(d, 1) then None else Some(UnwritableDirectory))
  }
}
