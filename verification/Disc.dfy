/** The disc under the CP/M file system: 40 tracks of nine 512-byte sectors,
    seen as 180 blocks of 1K (src/disk_file_editor.cpp). */
module DiscBlocks {
  import opened Bits

  const SECTORS_PER_TRACK := 9
  const FIRST_SECTOR_ID := 0xC1
  const SECTOR_SIZE := 512
  const BLOCK_SIZE := 1024
  const TOTAL_BLOCKS := 180

  datatype SectorKey = SectorKey(track: nat, id: nat)

  /** A sector buffer; only its first 512 bytes belong to the file system. */
  type Sector = s: seq<byte> | |s| >= SECTOR_SIZE witness seq(512, _ => 0)

  /** Side 0 of a disc. Sectors may be missing on any track. */
  datatype Disc = Disc(tracks: nat, sectors: map<SectorKey, Sector>)

  /** Logical sector n is the (n % 9)-th of track n / 9. */
  function Key(n: nat): SectorKey {
    SectorKey(n / SECTORS_PER_TRACK, FIRST_SECTOR_ID + n % SECTORS_PER_TRACK)
  }

  predicate Present(d: Disc, n: nat) {
    n / SECTORS_PER_TRACK < d.tracks && Key(n) in d.sectors
  }

  function SectorBytes(d: Disc, n: nat): (r: seq<byte>)
    requires Present(d, n)
    ensures |r| == SECTOR_SIZE
  {
    d.sectors[Key(n)][..SECTOR_SIZE]
  }

  function PutSector(d: Disc, n: nat, bytes: seq<byte>): Disc
    requires Present(d, n)
    requires |bytes| == SECTOR_SIZE
  {
    d.(sectors := d.sectors[Key(n) := bytes + d.sectors[Key(n)][SECTOR_SIZE..]])
  }

  predicate HasBlock(d: Disc, b: nat) {
    b < TOTAL_BLOCKS && Present(d, 2 * b) && Present(d, 2 * b + 1)
  }

  function Block(d: Disc, b: nat): (r: seq<byte>)
    requires HasBlock(d, b)
    ensures |r| == BLOCK_SIZE
  {
    SectorBytes(d, 2 * b) + SectorBytes(d, 2 * b + 1)
  }

  /** What write_block leaves behind. It succeeds exactly when the block is
      there; a block whose second sector is missing is left half written. */
  function PutBlock(d: Disc, b: nat, bytes: seq<byte>): Disc
    requires |bytes| == BLOCK_SIZE
  {
    if b >= TOTAL_BLOCKS || !Present(d, 2 * b) then d
    else
      var d1 := PutSector(d, 2 * b, bytes[..SECTOR_SIZE]);
      if !Present(d1, 2 * b + 1) then d1
      else PutSector(d1, 2 * b + 1, bytes[SECTOR_SIZE..])
  }

  /** Distinct logical sectors never share a buffer. */
  lemma KeyInjective(m: nat, n: nat)
    requires Key(m) == Key(n)
    ensures m == n
  {
  }

  lemma PutSectorFrame(d: Disc, n: nat, bytes: seq<byte>, m: nat)
    requires Present(d, n) && |bytes| == SECTOR_SIZE
    ensures Present(PutSector(d, n, bytes), m) == Present(d, m)
    ensures m != n && Present(d, m) ==> SectorBytes(PutSector(d, n, bytes), m) == SectorBytes(d, m)
    ensures SectorBytes(PutSector(d, n, bytes), n) == bytes
  {
    if m != n && Key(m) == Key(n) {
      KeyInjective(m, n);
    }
  }

  /** A block write keeps every sector in place, stores the block it names if
      that block is there, and changes no other block. */
  lemma PutBlockFrame(d: Disc, b: nat, bytes: seq<byte>, c: nat)
    requires |bytes| == BLOCK_SIZE
    ensures HasBlock(PutBlock(d, b, bytes), c) == HasBlock(d, c)
    ensures c != b && HasBlock(d, c) ==> Block(PutBlock(d, b, bytes), c) == Block(d, c)
    ensures HasBlock(d, b) ==> HasBlock(PutBlock(d, b, bytes), b) && Block(PutBlock(d, b, bytes), b) == bytes
  {
    if b < TOTAL_BLOCKS && Present(d, 2 * b) {
      var lo, hi := bytes[..SECTOR_SIZE], bytes[SECTOR_SIZE..];
      var d1 := PutSector(d, 2 * b, lo);
      PutSectorFrame(d, 2 * b, lo, 2 * b + 1);
      PutSectorFrame(d, 2 * b, lo, 2 * c);
      PutSectorFrame(d, 2 * b, lo, 2 * c + 1);
      if Present(d1, 2 * b + 1) {
        PutSectorFrame(d1, 2 * b + 1, hi, 2 * b);
        PutSectorFrame(d1, 2 * b + 1, hi, 2 * c);
        PutSectorFrame(d1, 2 * b + 1, hi, 2 * c + 1);
        assert lo + hi == bytes;
      }
    }
  }

  /** d and e have the same blocks, with the same contents outside `but`. */
  ghost predicate SameBut(d: Disc, e: Disc, but: set<nat>) {
    && d.tracks == e.tracks
    && (forall b: nat :: HasBlock(d, b) == HasBlock(e, b))
    && (forall b: nat :: b !in but && HasBlock(d, b) ==> Block(e, b) == Block(d, b))
  }

  lemma PutBlockSame(d: Disc, b: nat, bytes: seq<byte>)
    requires |bytes| == BLOCK_SIZE
    ensures SameBut(d, PutBlock(d, b, bytes), {b})
  {
    forall c: nat
      ensures HasBlock(d, c) == HasBlock(PutBlock(d, b, bytes), c)
      ensures c != b && HasBlock(d, c) ==> Block(PutBlock(d, b, bytes), c) == Block(d, c)
    {
      PutBlockFrame(d, b, bytes, c);
    }
  }

  lemma SameButTransitive(c: Disc, d: Disc, e: Disc, s: set<nat>, t: set<nat>)
    requires SameBut(c, d, s) && SameBut(d, e, t)
    ensures SameBut(c, e, s + t)
  {
  }
}
