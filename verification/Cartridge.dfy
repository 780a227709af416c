/** Loading a Plus cartridge: a RIFF file whose chunks become 16 KiB pages
    (src/cartridge.cpp). */
module Cartridge {
  import opened Bits
  import opened Bytes
  import opened Wrappers

  const PAGE := 16384
  const PAGES := 32
  const HEADER := 12
  const CHUNK_HEADER := 8

  const RIFF: seq<byte> := [82, 73, 70, 70]
  const AMS: seq<byte> := [65, 77, 83, 33]

  function Padded(size: nat): (r: nat)
    ensures r % 2 == 0 && size <= r <= size + 1
  {
    size + size % 2
  }

  /** The bytes of a chunk that go into its page, pad byte included. */
  function Kept(size: nat): (r: nat)
    ensures r <= PAGE && r <= Padded(size)
    ensures r == 0 <==> size == 0
  {
    Padded(if size < PAGE then size else PAGE)
  }

  /** Where the cursor comes to stand behind a chunk's content. */
  function Behind(cursor: nat, size: nat): nat {
    if Kept(size) >= PAGE && Kept(size) < size then cursor + Kept(size) + (Padded(size) - Kept(size))
    else cursor + Kept(size)
  }

  /** Always by the even-padded size, cut or not. */
  lemma CursorAdvances(cursor: nat, size: nat)
    ensures Behind(cursor, size) == cursor + Padded(size)
  {
  }

  function PageOf(kept: seq<byte>): (r: seq<byte>)
    requires |kept| <= PAGE
    ensures |r| == PAGE
  {
    kept + Fill(PAGE - |kept|, 0)
  }

  /** The chunk walk. `offset` counts the sizes as declared, without padding. */
  function Walk(data: seq<byte>, cursor: nat, offset: nat, total: nat, pages: seq<seq<byte>>): Option<seq<seq<byte>>>
    requires cursor <= |data|
    decreases |data| - cursor
  {
    if offset >= total then Some(pages)
    else if cursor + CHUNK_HEADER > |data| then None
    else
      var at, size := cursor + CHUNK_HEADER, Read32(data, cursor + 4);
      if size == 0 then Walk(data, at, U32(offset + CHUNK_HEADER), total, pages)
      else if |pages| >= PAGES || at + Kept(size) > |data| || Behind(at, size) > |data| then None
      else
        CursorAdvances(at, size);
        Walk(data, Behind(at, size), U32(offset + CHUNK_HEADER + size), total,
             pages + [PageOf(data[at..at + Kept(size)])])
  }

  /** cpr_load. */
  function Load(data: seq<byte>): Option<seq<seq<byte>>> {
    if |data| < HEADER || data[..4] != RIFF || data[8..12] != AMS then None
    else Walk(data, HEADER, HEADER, Read32(data, 4), [])
  }

  // ----- well-formed files

  /** A RIFF chunk; the pad byte is written only behind an odd body. */
  datatype Chunk = Chunk(id: seq<byte>, body: seq<byte>, pad: byte)

  predicate ValidChunks(chunks: seq<Chunk>) { forall i :: 0 <= i < |chunks| ==> |chunks[i].id| == 4 }

  function Body(c: Chunk): (r: seq<byte>)
    ensures |r| == Padded(|c.body|)
  {
    if |c.body| % 2 == 1 then c.body + [c.pad] else c.body
  }

  function ChunkBytes(c: Chunk): seq<byte> { c.id + Le32(|c.body|) + Body(c) }

  function AllBytes(chunks: seq<Chunk>): seq<byte> {
    if chunks == [] then [] else ChunkBytes(chunks[0]) + AllBytes(chunks[1..])
  }

  function RiffFile(chunks: seq<Chunk>): seq<byte> {
    RIFF + Le32(4 + |AllBytes(chunks)|) + AMS + AllBytes(chunks)
  }

  /** One page for each chunk that is not empty, in order. */
  function Pages(chunks: seq<Chunk>): seq<seq<byte>> {
    if chunks == [] then []
    else if chunks[0].body == [] then Pages(chunks[1..])
    else [PageOf(Body(chunks[0])[..Kept(|chunks[0].body|)])] + Pages(chunks[1..])
  }

  function OddChunks(chunks: seq<Chunk>): nat {
    if chunks == [] then 0 else |chunks[0].body| % 2 + OddChunks(chunks[1..])
  }

  // ----- what loads

  /** One chunk of the walk. */
  lemma ChunkStep(front: seq<byte>, c: Chunk, rest: seq<byte>, offset: nat, total: nat, pages: seq<seq<byte>>)
    requires |c.id| == 4 && |c.body| < 0x1_0000_0000 && offset < total
    ensures var data := front + ChunkBytes(c) + rest;
      var next := |front + ChunkBytes(c)|;
      Walk(data, |front|, offset, total, pages)
      == if c.body == [] then Walk(data, next, U32(offset + CHUNK_HEADER), total, pages)
         else if |pages| >= PAGES then None
         else Walk(data, next, U32(offset + CHUNK_HEADER + |c.body|), total,
                   pages + [PageOf(Body(c)[..Kept(|c.body|)])])
  {
    hide PageOf, Le32, Kept, Read32, U32;
    var data, at, size := front + ChunkBytes(c) + rest, |front| + CHUNK_HEADER, |c.body|;
    HeaderRead(front, c, rest);
    CursorAdvances(at, size);
    BodyRead(front, c, rest);
  }

  lemma HeaderRead(front: seq<byte>, c: Chunk, rest: seq<byte>)
    requires |c.id| == 4 && |c.body| < 0x1_0000_0000
    ensures |front| + 8 <= |front + ChunkBytes(c) + rest|
    ensures Read32(front + ChunkBytes(c) + rest, |front| + 4) == |c.body|
  {
    hide Le32, Read32;
    var data, le := front + ChunkBytes(c) + rest, Le32(|c.body|);
    assert data == (front + c.id) + le + (Body(c) + rest);
    SliceMiddle(front + c.id, le, Body(c) + rest, 0, 4);
    assert le[0..4] == le;
    Le32Reads(|c.body|, data, |front| + 4);
  }

  lemma BodyRead(front: seq<byte>, c: Chunk, rest: seq<byte>)
    requires |c.id| == 4
    ensures var at, n := |front| + CHUNK_HEADER, Kept(|c.body|);
      && at + n <= |front + ChunkBytes(c) + rest|
      && (front + ChunkBytes(c) + rest)[at..at + n] == Body(c)[..n]
  {
  }

  /** From any point of a well-formed file. `front` is what has been walked, of
      which `offset` has left out one byte for each odd chunk. */
  lemma {:induction false} WalkLoads(front: seq<byte>, chunks: seq<Chunk>, offset: nat, pages: seq<seq<byte>>)
    requires ValidChunks(chunks) && 8 <= offset <= |front| && |pages| <= PAGES
    requires |front| + |AllBytes(chunks)| < 0x1_0000_0000
    ensures Walk(front + AllBytes(chunks), |front|, offset, |front| + |AllBytes(chunks)| - 8, pages)
      == if |front| - offset + OddChunks(chunks) <= 8 && |pages| + |Pages(chunks)| <= PAGES
         then Some(pages + Pages(chunks)) else None
    decreases |chunks|
  {
    hide PageOf, Kept, Walk, ChunkBytes, Body, U32;
    var data, total := front + AllBytes(chunks), |front| + |AllBytes(chunks)| - 8;
    if chunks == [] {
      assert pages + [] == pages;
      WalkEnds(data, |front|, offset, total, pages);
    } else {
      var c, rest := chunks[0], chunks[1..];
      ChunkLength(c);
      assert data == front + ChunkBytes(c) + AllBytes(rest);
      if offset >= total {
        WalkEnds(data, |front|, offset, total, pages);
        NothingLeft(c, rest);
        assert pages + [] == pages;
      } else {
        ChunkStep(front, c, AllBytes(rest), offset, total, pages);
        Small(offset + CHUNK_HEADER + |c.body|);
        if c.body == [] {
          WalkLoads(front + ChunkBytes(c), rest, offset + CHUNK_HEADER, pages);
        } else if |pages| < PAGES {
          var page := PageOf(Body(c)[..Kept(|c.body|)]);
          WalkLoads(front + ChunkBytes(c), rest, offset + CHUNK_HEADER + |c.body|, pages + [page]);
          assert (pages + [page]) + Pages(rest) == pages + ([page] + Pages(rest));
        }
      }
    }
  }

  lemma Small(n: nat)
    requires n < 0x1_0000_0000
    ensures U32(n) == n
  {
  }

  lemma ChunkLength(c: Chunk)
    requires |c.id| == 4
    ensures |ChunkBytes(c)| == 8 + Padded(|c.body|)
  {
  }

  /** At the end the declared total may still ask for more than there is. */
  lemma WalkEnds(data: seq<byte>, cursor: nat, offset: nat, total: nat, pages: seq<seq<byte>>)
    requires cursor <= |data| && (offset >= total || cursor + CHUNK_HEADER > |data|)
    ensures Walk(data, cursor, offset, total, pages) == if offset >= total then Some(pages) else None
  {
  }

  /** Only one empty chunk can be left when the walk stops early. */
  lemma NothingLeft(c: Chunk, rest: seq<Chunk>)
    requires |c.id| == 4 && ValidChunks(rest) && Padded(|c.body|) + |AllBytes(rest)| == 0
    ensures Pages([c] + rest) == [] && OddChunks([c] + rest) == 0
  {
  }

  /** A well-formed cartridge of up to 32 pages loads, page by page, exactly when
      it has no more than eight chunks of odd size. */
  lemma LoadsExactly(chunks: seq<Chunk>)
    requires ValidChunks(chunks) && |RiffFile(chunks)| < 0x1_0000_0000
    ensures Load(RiffFile(chunks))
      == if OddChunks(chunks) <= 8 && |Pages(chunks)| <= PAGES then Some(Pages(chunks)) else None
  {
    hide Walk, Le32, Read32, AllBytes, Pages, OddChunks;
    var n := |AllBytes(chunks)|;
    var front := RIFF + Le32(4 + n) + AMS;
    var data := RiffFile(chunks);
    assert data == front + AllBytes(chunks);
    assert data[..4] == RIFF && data[8..12] == AMS && data[4..8] == Le32(4 + n);
    Le32Reads(4 + n, data, 4);
    WalkLoads(front, chunks, HEADER, []);
    assert [] + Pages(chunks) == Pages(chunks);
  }

  // ----- every file that loads

  predicate Sized(chunks: seq<Chunk>) { forall i :: 0 <= i < |chunks| ==> |chunks[i].body| < 0x1_0000_0000 }

  /** The declared sizes, counted in 32 bits, reach the total with the last of
      the chunks and not before. */
  predicate StopsAfter(chunks: seq<Chunk>, offset: nat, total: nat)
    decreases |chunks|
  {
    if chunks == [] then offset >= total
    else offset < total && StopsAfter(chunks[1..], U32(offset + CHUNK_HEADER + |chunks[0].body|), total)
  }

  /** A walk over such chunks, whatever stands behind them. */
  lemma {:induction false} WalkOf(front: seq<byte>, chunks: seq<Chunk>, rest: seq<byte>,
                                  offset: nat, total: nat, pages: seq<seq<byte>>)
    requires ValidChunks(chunks) && Sized(chunks) && StopsAfter(chunks, offset, total) && |pages| <= PAGES
    ensures Walk(front + (AllBytes(chunks) + rest), |front|, offset, total, pages)
      == if |pages| + |Pages(chunks)| <= PAGES then Some(pages + Pages(chunks)) else None
    decreases |chunks|
  {
    hide PageOf, Kept, Walk, ChunkBytes, Body, U32;
    var data := front + (AllBytes(chunks) + rest);
    if chunks == [] {
      assert pages + [] == pages;
      WalkEnds(data, |front|, offset, total, pages);
    } else {
      var c, more, front' := chunks[0], chunks[1..], front + ChunkBytes(chunks[0]);
      assert data == front' + (AllBytes(more) + rest);
      ChunkStep(front, c, AllBytes(more) + rest, offset, total, pages);
      if c.body == [] {
        WalkOf(front', more, rest, U32(offset + CHUNK_HEADER), total, pages);
      } else if |pages| < PAGES {
        var page := PageOf(Body(c)[..Kept(|c.body|)]);
        WalkOf(front', more, rest, U32(offset + CHUNK_HEADER + |c.body|), total, pages + [page]);
        assert (pages + [page]) + Pages(more) == pages + ([page] + Pages(more));
      }
    }
  }

  /** The chunk that stands at the cursor. */
  function ChunkAt(data: seq<byte>, cursor: nat): (c: Chunk)
    requires cursor + CHUNK_HEADER <= |data|
    requires cursor + CHUNK_HEADER + Padded(Read32(data, cursor + 4)) <= |data|
    ensures |c.id| == 4 && |c.body| == Read32(data, cursor + 4) < 0x1_0000_0000
  {
    var at, size := cursor + CHUNK_HEADER, Read32(data, cursor + 4);
    Chunk(data[cursor..cursor + 4], data[at..at + size], if size % 2 == 1 then data[at + size] else 0)
  }

  lemma ChunkThere(data: seq<byte>, cursor: nat)
    requires cursor + CHUNK_HEADER <= |data|
    requires cursor + CHUNK_HEADER + Padded(Read32(data, cursor + 4)) <= |data|
    ensures var n := CHUNK_HEADER + Padded(Read32(data, cursor + 4));
      data == data[..cursor] + ChunkBytes(ChunkAt(data, cursor)) + data[cursor + n..]
  {
    hide Read32, Le32;
    var c, at, size := ChunkAt(data, cursor), cursor + CHUNK_HEADER, Read32(data, cursor + 4);
    ReadLe32(data, cursor + 4);
    assert Body(c) == data[at..at + Padded(size)];
    assert ChunkBytes(c) == data[cursor..at + Padded(size)];
  }

  /** Whatever a walk accepts is a run of chunks with something behind it. */
  lemma {:induction false} WalkSplits(data: seq<byte>, cursor: nat, offset: nat, total: nat, pages: seq<seq<byte>>)
    returns (chunks: seq<Chunk>, rest: seq<byte>)
    requires cursor <= |data| && Walk(data, cursor, offset, total, pages).Some?
    ensures ValidChunks(chunks) && Sized(chunks) && StopsAfter(chunks, offset, total)
    ensures data[cursor..] == AllBytes(chunks) + rest
    decreases |data| - cursor
  {
    hide PageOf, Kept, Read32, ChunkBytes, ChunkAt, U32;
    if offset >= total {
      return [], data[cursor..];
    }
    var at, size := cursor + CHUNK_HEADER, Read32(data, cursor + 4);
    CursorAdvances(at, size);
    var c, next := ChunkAt(data, cursor), at + Padded(size);
    var more;
    if size == 0 {
      more, rest := WalkSplits(data, next, U32(offset + CHUNK_HEADER), total, pages);
    } else {
      more, rest := WalkSplits(data, next, U32(offset + CHUNK_HEADER + size), total,
                               pages + [PageOf(data[at..at + Kept(size)])]);
    }
    chunks := [c] + more;
    assert chunks[1..] == more;
    ChunkThere(data, cursor);
    Unfold(data, cursor, next, ChunkBytes(c), AllBytes(more), rest);
  }

  lemma Unfold(data: seq<byte>, cursor: nat, next: nat, c: seq<byte>, more: seq<byte>, rest: seq<byte>)
    requires cursor <= next <= |data|
    requires data == data[..cursor] + c + data[next..] && data[next..] == more + rest
    ensures data[cursor..] == (c + more) + rest
  {
    assert data == data[..cursor] + (c + data[next..]);
    assert data[cursor..] == c + (more + rest);
  }

  /** The file is a header, a run of chunks that reaches the declared total,
      and anything at all behind them. */
  ghost predicate Consists(data: seq<byte>, chunks: seq<Chunk>, rest: seq<byte>) {
    && |data| >= HEADER && data[..4] == RIFF && data[8..12] == AMS
    && ValidChunks(chunks) && Sized(chunks)
    && data[HEADER..] == AllBytes(chunks) + rest
    && StopsAfter(chunks, HEADER, Read32(data, 4))
  }

  /** For every file at all: it loads exactly when it consists of such chunks and
      they fill at most 32 pages, and page p is then the p-th of them that is
      not empty, cut to its page, then zeros. */
  lemma LoadsPages(data: seq<byte>)
    ensures Load(data).Some? <==> exists chunks, rest :: Consists(data, chunks, rest) && |Pages(chunks)| <= PAGES
    ensures forall chunks, rest :: Consists(data, chunks, rest) ==>
      Load(data) == if |Pages(chunks)| <= PAGES then Some(Pages(chunks)) else None
  {
    hide Walk, Read32, AllBytes, Pages, StopsAfter, ValidChunks, Sized;
    forall chunks, rest | Consists(data, chunks, rest)
      ensures Load(data) == if |Pages(chunks)| <= PAGES then Some(Pages(chunks)) else None
    {
      assert data == data[..HEADER] + (AllBytes(chunks) + rest);
      WalkOf(data[..HEADER], chunks, rest, HEADER, Read32(data, 4), []);
      assert [] + Pages(chunks) == Pages(chunks);
    }
    if Load(data).Some? {
      var chunks, rest := WalkSplits(data, HEADER, HEADER, Read32(data, 4), []);
      assert Consists(data, chunks, rest);
    }
  }

  function Copies(c: Chunk, n: nat): seq<Chunk> { if n == 0 then [] else [c] + Copies(c, n - 1) }

  lemma {:induction false} OddCopies(c: Chunk, n: nat)
    requires |c.id| == 4 && |c.body| == 1
    ensures ValidChunks(Copies(c, n)) && OddChunks(Copies(c, n)) == n
    ensures |AllBytes(Copies(c, n))| == 10 * n && |Pages(Copies(c, n))| == n
  {
    if n > 0 {
      OddCopies(c, n - 1);
      ChunkLength(c);
      assert Copies(c, n)[1..] == Copies(c, n - 1);
    }
  }

  /** Nine chunks of one byte are refused, though they need only nine pages. */
  lemma NineOddChunks(c: Chunk, n: nat)
    requires |c.id| == 4 && |c.body| == 1 && n == 9
    ensures |Pages(Copies(c, n))| == 9 && Load(RiffFile(Copies(c, n))) == None
  {
    hide Copies, OddChunks, Pages, Load, AllBytes;
    OddCopies(c, n);
    LoadsExactly(Copies(c, n));
  }

  // ----- the loader

  ghost predicate PageSized(pages: seq<seq<byte>>) { forall p :: 0 <= p < |pages| ==> |pages[p]| == PAGE }

  /** Byte k of the image: that of its page, or zero. */
  ghost function ImageByte(pages: seq<seq<byte>>, k: nat): byte
    requires PageSized(pages)
  {
    if k / PAGE < |pages| then pages[k / PAGE][k % PAGE] else 0
  }

  ghost predicate Holds(image: seq<byte>, pages: seq<seq<byte>>) {
    && PageSized(pages) && |pages| <= PAGES && |image| == PAGES * PAGE
    && forall k :: 0 <= k < |image| ==> image[k] == ImageByte(pages, k)
  }

  method CopyIn(image: array<byte>, at: nat, src: seq<byte>)
    requires at + |src| <= image.Length
    modifies image
    ensures forall k :: 0 <= k < image.Length ==>
      image[k] == if at <= k < at + |src| then src[k - at] else old(image[k])
  {
    var i := 0;
    while i < |src|
      invariant 0 <= i <= |src|
      invariant forall k :: 0 <= k < image.Length ==>
        image[k] == if at <= k < at + i then src[k - at] else old(image[k])
    {
      image[at + i] := src[i];
      i := i + 1;
    }
  }

  /** Copying the kept bytes into the next free page makes it that page. */
  lemma PageEntered(before: seq<byte>, after: seq<byte>, pages: seq<seq<byte>>, kept: seq<byte>)
    requires Holds(before, pages) && |pages| < PAGES && |kept| <= PAGE && |after| == |before|
    requires forall k :: 0 <= k < |after| ==>
      after[k] == if |pages| * PAGE <= k < |pages| * PAGE + |kept| then kept[k - |pages| * PAGE] else before[k]
    ensures Holds(after, pages + [PageOf(kept)])
  {
  }

  /** cpr_load: a zeroed image, filled page by page. */
  method CprLoad(data: seq<byte>) returns (ok: bool, image: array<byte>)
    ensures ok == Load(data).Some?
    ensures ok ==> Holds(image[..], Load(data).value)
  {
    hide Walk, Read32, PageOf, Kept, Behind, ImageByte;
    image := new byte[PAGES * PAGE](_ => 0);
    ok := false;
    if |data| < HEADER || data[..4] != RIFF || data[8..12] != AMS {
      return;
    }
    var total := Read32(data, 4);
    var cursor: nat, offset: nat := HEADER, HEADER;
    var cartridgeOffset := 0;
    ghost var pages: seq<seq<byte>> := [];
    EmptyImage(image[..]);
    while offset < total
      invariant cursor <= |data|
      invariant Walk(data, cursor, offset, total, pages) == Load(data)
      invariant cartridgeOffset == |pages| * PAGE && Holds(image[..], pages)
      decreases |data| - cursor
    {
      WalkStep(data, cursor, offset, total, pages);
      if cursor + CHUNK_HEADER > |data| {
        return;
      }
      var size := Read32(data, cursor + 4);
      cursor := cursor + CHUNK_HEADER;
      offset := U32(offset + CHUNK_HEADER);
      if size != 0 {
        if cartridgeOffset + PAGE > PAGES * PAGE || cursor + Kept(size) > |data| {
          return;
        }
        var kept := data[cursor..cursor + Kept(size)];
        ghost var before := image[..];
        CopyIn(image, cartridgeOffset, kept);
        PageEntered(before, image[..], pages, kept);
        pages := pages + [PageOf(kept)];
        CursorAdvances(cursor, size);
        cursor := Behind(cursor, size);
        if cursor > |data| {
          return;
        }
        cartridgeOffset := cartridgeOffset + PAGE;
        offset := U32(offset + size);
      }
    }
    WalkEnds(data, cursor, offset, total, pages);
    ok := true;
  }

  lemma EmptyImage(image: seq<byte>)
    requires |image| == PAGES * PAGE && forall k :: 0 <= k < |image| ==> image[k] == 0
    ensures Holds(image, [])
  {
  }

  lemma WalkStep(data: seq<byte>, cursor: nat, offset: nat, total: nat, pages: seq<seq<byte>>)
    requires cursor <= |data| && offset < total
    ensures Walk(data, cursor, offset, total, pages) ==
      if cursor + CHUNK_HEADER > |data| then None
      else
        var at, size := cursor + CHUNK_HEADER, Read32(data, cursor + 4);
        if size == 0 then Walk(data, at, U32(offset + CHUNK_HEADER), total, pages)
        else if |pages| >= PAGES || at + Kept(size) > |data| || at + Padded(size) > |data| then None
        else Walk(data, at + Padded(size), U32(U32(offset + CHUNK_HEADER) + size), total,
                  pages + [PageOf(data[at..at + Kept(size)])])
  {
    hide PageOf, Kept, Read32;
    if cursor + CHUNK_HEADER <= |data| {
      var size := Read32(data, cursor + 4);
      CursorAdvances(cursor + CHUNK_HEADER, size);
      assert U32(U32(offset + CHUNK_HEADER) + size) == U32(offset + CHUNK_HEADER + size);
    }
  }

  // ----- the pages

  function NonEmpty(chunks: seq<Chunk>): nat {
    if chunks == [] then 0 else (if chunks[0].body == [] then 0 else 1) + NonEmpty(chunks[1..])
  }

  /** Byte p of a chunk's page: its body as far as a page goes, the pad byte
      behind an odd one, zeros behind that. */
  ghost predicate PageHolds(page: seq<byte>, c: Chunk) {
    && |page| == 16384
    && forall p :: 0 <= p < 16384 ==>
         page[p] == if p < |c.body| then c.body[p] else if p == |c.body| && p % 2 == 1 then c.pad else 0
  }

  lemma PageBytes(c: Chunk)
    ensures PageHolds(PageOf(Body(c)[..Kept(|c.body|)]), c)
  {
  }

  /** A chunk that is not empty becomes the page numbered by those before it. */
  lemma {:induction false} PageOfChunk(front: seq<Chunk>, c: Chunk, rest: seq<Chunk>)
    requires c.body != []
    ensures NonEmpty(front) < |Pages(front + ([c] + rest))|
    ensures PageHolds(Pages(front + ([c] + rest))[NonEmpty(front)], c)
    decreases |front|
  {
    hide PageOf, Body, Kept, PageHolds;
    var all := front + ([c] + rest);
    if front == [] {
      assert all == [c] + rest && all[1..] == rest;
      PageBytes(c);
    } else {
      assert all[0] == front[0] && all[1..] == front[1..] + ([c] + rest);
      PageOfChunk(front[1..], c, rest);
    }
  }

  lemma {:induction false} PageCount(chunks: seq<Chunk>)
    ensures |Pages(chunks)| == NonEmpty(chunks)
  {
    hide PageOf, Body, Kept;
    if chunks != [] { PageCount(chunks[1..]); }
  }
}
