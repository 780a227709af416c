/** Where the blocks of a DATA-format disc lie: the disc as one run of bytes,
    track by track and sector by sector in the order of their ids. */
module DiscImage {
  import opened Bits
  import opened Bytes
  import opened Wrappers
  import opened DiscBlocks
  import opened Directory
  import opened CpmFiles

  /** Forty tracks, each with the sectors C1 to C9. */
  predicate Complete(d: Disc) {
    d.tracks >= 40 && forall t, id :: 0 <= t < 40 && 0xC1 <= id <= 0xC9 ==> SectorKey(t, id) in d.sectors
  }

  /** Sectors C1, C2, ... of a track, n of them. */
  function TrackImage(d: Disc, t: nat, n: nat): (r: seq<byte>)
    requires Complete(d) && t < 40 && n <= 9
    ensures |r| == 512 * n
  {
    if n == 0 then [] else TrackImage(d, t, n - 1) + d.sectors[SectorKey(t, 0xC0 + n)][..512]
  }

  /** Tracks 0, 1, ..., n of them. */
  function Tracks(d: Disc, n: nat): (r: seq<byte>)
    requires Complete(d) && n <= 40
    ensures |r| == 4608 * n
  {
    if n == 0 then [] else Tracks(d, n - 1) + TrackImage(d, n - 1, 9)
  }

  function Image(d: Disc): (r: seq<byte>)
    requires Complete(d)
    ensures |r| == 40 * 9 * 512 == 180 * 1024
  {
    Tracks(d, 40)
  }

  lemma {:induction false} SectorInTrack(d: Disc, t: nat, n: nat, s: nat)
    requires Complete(d) && t < 40 && n <= 9 && 1 <= s <= n
    ensures TrackImage(d, t, n)[512 * (s - 1)..512 * s] == d.sectors[SectorKey(t, 0xC0 + s)][..512]
  {
    var front, last := TrackImage(d, t, n - 1), d.sectors[SectorKey(t, 0xC0 + n)][..512];
    if s < n {
      SectorInTrack(d, t, n - 1, s);
      SliceLeft(front, last, 512 * (s - 1), 512);
    } else {
      SliceRight(front, last, 0, 512);
    }
  }

  lemma {:induction false} TrackInImage(d: Disc, n: nat, t: nat)
    requires Complete(d) && t < n <= 40
    ensures Tracks(d, n)[4608 * t..4608 * t + 4608] == TrackImage(d, t, 9)
  {
    hide TrackImage;
    var front, last := Tracks(d, n - 1), TrackImage(d, n - 1, 9);
    if t < n - 1 {
      TrackInImage(d, n - 1, t);
      SliceLeft(front, last, 4608 * t, 4608);
    } else {
      SliceRight(front, last, 0, 4608);
    }
  }

  lemma SectorInImage(d: Disc, t: nat, s: nat)
    requires Complete(d) && t < 40 && 1 <= s <= 9
    ensures var at := 4608 * t + 512 * (s - 1);
      Image(d)[at..at + 512] == d.sectors[SectorKey(t, 0xC0 + s)][..512]
  {
    hide TrackImage, Tracks;
    TrackInImage(d, 40, t);
    SectorInTrack(d, t, 9, s);
    SubSlice(Image(d), 4608 * t, 4608 * t + 4608, 512 * (s - 1), 512);
  }

  lemma LogicalSector(d: Disc, n: nat)
    requires Complete(d) && n < 360
    ensures Present(d, n) && SectorBytes(d, n) == Image(d)[512 * n..512 * n + 512]
  {
    hide Image;
    var t, s := n / 9, n % 9 + 1;
    assert n == 9 * t + (s - 1) && Key(n) == SectorKey(t, 0xC0 + s);
    SectorInImage(d, t, s);
  }

  /** Block b is kilobyte b of the disc. */
  lemma BlockInImage(d: Disc, b: nat)
    requires Complete(d) && b < 180
    ensures HasBlock(d, b) && Block(d, b) == Image(d)[1024 * b..1024 * b + 1024]
  {
    hide Image, SectorBytes, Present;
    LogicalSector(d, 2 * b);
    LogicalSector(d, 2 * b + 1);
    var whole := Image(d);
    assert whole[1024 * b..1024 * b + 1024] == whole[1024 * b..1024 * b + 512] + whole[1024 * b + 512..1024 * b + 1024];
  }

  /** Sector 0xC0 + s of track t starts at that byte of the disc. */
  predicate LiesAt(t: nat, s: nat, at: nat) { 1 <= s <= 9 && 4608 * t + 512 * (s - 1) == at }

  ghost predicate SectorThere(d: Disc, at: nat) {
    forall t: nat, s: nat :: LiesAt(t, s, at) ==> t < d.tracks && SectorKey(t, 0xC0 + s) in d.sectors
  }

  lemma SectorPlace(d: Disc, n: nat)
    ensures Present(d, n) <==> SectorThere(d, 512 * n)
  {
    var t, s := n / 9, n % 9 + 1;
    assert LiesAt(t, s, 512 * n) && Key(n) == SectorKey(t, 0xC0 + s);
    forall u: nat, r: nat | LiesAt(u, r, 512 * n) ensures u == t && r == s { }
  }

  /** Any disc: a block is there exactly when the sectors are that its two
      halves would lie in. */
  lemma BlockThere(d: Disc, b: nat)
    ensures HasBlock(d, b) <==> b < 180 && SectorThere(d, 1024 * b) && SectorThere(d, 1024 * b + 512)
  {
    SectorPlace(d, 2 * b);
    SectorPlace(d, 2 * b + 1);
  }

  // ----- writing

  lemma PutComplete(d: Disc, b: nat, bytes: seq<byte>)
    requires Complete(d) && |bytes| == BLOCK_SIZE
    ensures Complete(PutBlock(d, b, bytes))
  {
  }

  /** Writing a block replaces that kilobyte of the disc and not a byte more. */
  lemma PutBlockInImage(d: Disc, b: nat, bytes: seq<byte>)
    requires Complete(d) && b < 180 && |bytes| == BLOCK_SIZE
    ensures Complete(PutBlock(d, b, bytes))
    ensures Image(PutBlock(d, b, bytes)) == Image(d)[..1024 * b] + bytes + Image(d)[1024 * b + 1024..]
  {
    hide Image, PutBlock, Block;
    PutComplete(d, b, bytes);
    var e := PutBlock(d, b, bytes);
    var was, now := Image(d), Image(e);
    forall i | 0 <= i < 180 * 1024
      ensures now[i] == if i / 1024 == b then bytes[i % 1024] else was[i]
    {
      var c := i / 1024;
      BlockInImage(d, c);
      BlockInImage(e, c);
      BlockInImage(d, b);
      PutBlockFrame(d, b, bytes, c);
      assert now[i] == now[1024 * c..1024 * c + 1024][i % 1024] == Block(e, c)[i % 1024];
      assert was[i] == was[1024 * c..1024 * c + 1024][i % 1024] == Block(d, c)[i % 1024];
    }
  }

  // ----- the directory

  lemma {:induction false} SplitAt(bytes: seq<byte>, n: nat, i: nat)
    requires |bytes| == ENTRY_SIZE * n && i < n
    ensures Split(bytes, n)[i] == bytes[ENTRY_SIZE * i..ENTRY_SIZE * i + ENTRY_SIZE]
    decreases n
  {
    if i > 0 {
      SplitAt(bytes[ENTRY_SIZE..], n - 1, i - 1);
      assert bytes[ENTRY_SIZE..][ENTRY_SIZE * (i - 1)..ENTRY_SIZE * i]
        == bytes[ENTRY_SIZE * i..ENTRY_SIZE * i + ENTRY_SIZE];
    }
  }

  /** Directory entry i is bytes 32i to 32i + 31 of the disc. */
  lemma EntryInImage(d: Disc, i: nat)
    requires Complete(d) && i < DIR_ENTRIES
    ensures ReadDirectory(d).Some? && ReadDirectory(d).value[i] == Image(d)[32 * i..32 * i + 32]
  {
    hide Image, Block;
    BlockInImage(d, 0);
    BlockInImage(d, 1);
    var all := Block(d, 0) + Block(d, 1);
    assert all == Image(d)[..2048];
    SplitAt(all, DIR_ENTRIES, i);
  }
}
