/** Files as bytes of the disc: where a file's bytes lie, and which bytes an
    operation changes. Offsets into an entry are the format's: 0 the user, 1-11
    the name, 12 and 14 the extent number, 15 the records, 16-31 the blocks. */
module DiscFiles {
  import opened Bits
  import opened Bytes
  import opened Wrappers
  import opened DiscBlocks
  import opened Directory
  import opened CpmFiles
  import opened CpmProofs
  import opened DiscImage

  /** Entry i bears the name, attribute bits aside. */
  predicate Bears(img: seq<byte>, i: nat, name: Name)
    requires 32 * i + 32 <= |img|
  {
    forall j :: 0 <= j < 11 ==> img[32 * i + 1 + j] % 128 == name[j]
  }

  /** It is in use, by one of the users 0 to 15. */
  predicate Named(img: seq<byte>, i: nat, name: Name)
    requires 32 * i + 32 <= |img|
  {
    img[32 * i] <= 15 && Bears(img, i, name)
  }

  lemma EntryBytes(d: Disc, dir: Dir, i: nat, name: Name)
    requires Complete(d) && ReadDirectory(d) == Some(dir) && i < 64
    ensures forall j :: 0 <= j < 32 ==> dir[i][j] == Image(d)[32 * i + j]
    ensures Bears(Image(d), i, name) <==> Matches(dir[i], name)
    ensures Named(Image(d), i, name) <==> Live(dir[i]) && Matches(dir[i], name)
  {
    hide Image;
    EntryInImage(d, i);
    var img := Image(d);
    forall j | 0 <= j < 32 ensures dir[i][j] == img[32 * i + j] {
      assert img[32 * i..32 * i + 32][j] == img[32 * i + j];
    }
    forall j | 0 <= j < 11 ensures dir[i][1 + j] % 128 == name[j] <==> img[32 * i + 1 + j] % 128 == name[j] {
      assert dir[i][j + 1] == img[32 * i + (j + 1)];
    }
  }

  /** Entry f is the first in use that bears the name. */
  ghost predicate First(img: seq<byte>, f: nat, name: Name)
    requires |img| >= 2048
  {
    f < 64 && Named(img, f, name) && forall k: nat :: k < f ==> !Named(img, k, name)
  }

  lemma FirstIs(d: Disc, dir: Dir, name: Name)
    requires Complete(d) && ReadDirectory(d) == Some(dir)
    ensures forall f: nat :: First(Image(d), f, name) <==> f < 64 && FirstMatch(dir, name) == f
    ensures FirstMatch(dir, name) == 64 <==> forall k: nat :: k < 64 ==> !Named(Image(d), k, name)
  {
    hide Image, Named, Matches, Live;
    forall k: nat | k < 64 ensures Named(Image(d), k, name) <==> Live(dir[k]) && Matches(dir[k], name) {
      EntryBytes(d, dir, k, name);
    }
  }

  lemma Readable(d: Disc)
    requires Complete(d)
    ensures d.tracks > 0 && ReadDirectory(d).Some?
  {
    EntryInImage(d, 0);
  }

  /** A file is missing exactly when no entry in use bears its name. */
  lemma MissingExactly(d: Disc, filename: seq<byte>)
    requires Complete(d) && ParseName(filename).Some?
    ensures ReadFile(d, filename) == Failed(FileNotFound)
      <==> forall k: nat :: k < 64 ==> !Named(Image(d), k, ParseName(filename).value)
  {
    hide Image, ReadNamed, Named, ReadDirectory, Complete;
    Readable(d);
    var dir, name := ReadDirectory(d).value, ParseName(filename).value;
    FirstIs(d, dir, name);
    ReadNamedMissing(d, dir, name);
  }

  // ----- reading

  function Number(img: seq<byte>, i: nat): nat
    requires 32 * i + 32 <= |img|
  {
    (img[32 * i + 12] as int) + 32 * (img[32 * i + 14] as int)
  }

  /** The entries of the file entry f belongs to, by ascending extent number. */
  ghost predicate Chain(img: seq<byte>, f: nat, name: Name, slots: seq<nat>)
    requires |img| >= 2048 && f < 64
  {
    && (forall x :: 0 <= x < |slots| ==> slots[x] < 64)
    && (forall i: nat :: i < 64 ==> (i in slots <==> img[32 * i] == img[32 * f] && Bears(img, i, name)))
    && (forall x, y :: 0 <= x < y < |slots| ==> Number(img, slots[x]) < Number(img, slots[y]))
  }

  /** The block named k-th in entry i. */
  function BlockOf(img: seq<byte>, i: nat, k: nat): byte
    requires 32 * i + 32 <= |img| && k < 16
  {
    img[32 * i + 16 + k]
  }

  /** The first n places of entry i name a block. */
  predicate NamesBlocks(img: seq<byte>, i: nat, n: nat)
    requires 32 * i + 32 <= |img| && n <= 16
  {
    forall k :: 0 <= k < n ==> BlockOf(img, i, k) != 0
  }

  /** How many blocks that many records of 128 bytes reach into. */
  function Reached(records: byte): nat { ((records as int) + 7) / 8 }

  /** All sixteen blocks are named in every extent but the last, which names
      those its records reach into; none is outside the disc. */
  ghost predicate Filled(img: seq<byte>, slots: seq<nat>)
    requires |img| >= 2048 && slots != [] && forall x :: 0 <= x < |slots| ==> slots[x] < 64
  {
    && img[32 * slots[|slots| - 1] + 15] <= 128
    && (forall x, k :: 0 <= x < |slots| && 0 <= k < 16 ==> BlockOf(img, slots[x], k) < 180)
    && (forall x :: 0 <= x < |slots| - 1 ==> NamesBlocks(img, slots[x], 16))
    && NamesBlocks(img, slots[|slots| - 1], Reached(img[32 * slots[|slots| - 1] + 15]))
  }

  ghost predicate Strict(s: seq<Entry>) {
    forall x, y :: 0 <= x < y < |s| ==> ExtentNumber(s[x]) < ExtentNumber(s[y])
  }

  lemma {:induction false} ExtentsMembers(es: seq<Entry>, first: Entry)
    ensures forall e :: e in Extents(es, first) <==> e in es && e[0] != DELETED && SameFile(e, first)
  {
    hide SameFile;
    if es != [] { ExtentsMembers(es[1..], first); }
  }

  ghost predicate Apart(es: seq<Entry>, first: Entry) {
    forall i, j :: 0 <= i < j < |es| && SameFile(es[i], first) && SameFile(es[j], first) ==>
      ExtentNumber(es[i]) != ExtentNumber(es[j])
  }

  ghost predicate NoTwice(s: seq<Entry>) { forall e :: e in s ==> multiset(s)[e] == 1 }

  lemma {:induction false} ExtentsOnce(es: seq<Entry>, first: Entry)
    requires Apart(es, first)
    ensures NoTwice(Extents(es, first))
  {
    hide SameFile, ExtentNumber;
    if es != [] {
      ExtentsOnce(es[1..], first);
      ExtentsMembers(es[1..], first);
      var rest := Extents(es[1..], first);
      if es[0][0] != DELETED && SameFile(es[0], first) {
        forall e | e in rest ensures ExtentNumber(e) != ExtentNumber(es[0]) {
          var j :| 0 <= j < |es[1..]| && es[1..][j] == e;
          assert es[j + 1] == e;
        }
        OnceMore(es[0], rest);
      }
    }
  }

  lemma OnceMore(e: Entry, s: seq<Entry>)
    requires NoTwice(s) && e !in s
    ensures NoTwice([e] + s)
  {
    assert multiset([e] + s) == multiset{e} + multiset(s);
  }

  lemma {:induction false} AscendingAt(s: seq<Entry>, x: nat, y: nat)
    requires Ascending(s) && x < y < |s|
    ensures ExtentNumber(s[x]) <= ExtentNumber(s[y])
  {
    hide ExtentNumber;
    if x > 0 {
      AscendingAt(s[1..], x - 1, y - 1);
    } else if y > 1 {
      AscendingAt(s[1..], 0, y - 1);
    }
  }

  /** Two lists in strict order with the same members are the same. */
  lemma {:induction false} StrictUnique(s: seq<Entry>, t: seq<Entry>)
    requires Strict(s) && Strict(t) && forall e :: e in s <==> e in t
    ensures s == t
  {
    hide ExtentNumber;
    assert s != [] ==> s[0] in s;
    assert t != [] ==> t[0] in t;
    if s != [] {
      var i :| 0 <= i < |t| && t[i] == s[0];
      var j :| 0 <= j < |s| && s[j] == t[0];
      assert i == 0 && j == 0;
      forall e ensures e in s[1..] <==> e in t[1..] { RestMember(s, e); RestMember(t, e); }
      StrictUnique(s[1..], t[1..]);
    }
  }

  lemma RestMember(s: seq<Entry>, e: Entry)
    requires Strict(s) && s != []
    ensures e in s[1..] <==> e in s && e != s[0]
  {
    hide ExtentNumber;
    if e in s[1..] {
      var i :| 0 <= i < |s[1..]| && s[1..][i] == e;
      assert s[i + 1] == e && ExtentNumber(s[0]) < ExtentNumber(s[i + 1]);
    }
  }

  lemma Once(r: seq<Entry>, x: nat, y: nat)
    requires NoTwice(r) && x < y < |r|
    ensures r[x] != r[y]
  {
    assert r == r[..x] + [r[x]] + r[x + 1..y] + [r[y]] + r[y + 1..];
    assert r[x] in r;
  }

  lemma StrictDiffer(t: seq<Entry>, a: Entry, b: Entry)
    requires Strict(t) && a in t && b in t && a != b
    ensures ExtentNumber(a) != ExtentNumber(b)
  {
    hide ExtentNumber;
    var i :| 0 <= i < |t| && t[i] == a;
    var j :| 0 <= j < |t| && t[j] == b;
    assert i < j || j < i;
  }

  lemma SameMembers(s: seq<Entry>, r: seq<Entry>)
    requires multiset(s) == multiset(r)
    ensures forall e :: e in s <==> e in r
    ensures NoTwice(s) ==> NoTwice(r)
  {
    forall e ensures e in s <==> e in r {
      assert e in r <==> e in multiset(r);
      assert e in s <==> e in multiset(s);
    }
  }

  /** Sorting a list without repetition gives the one strict order of it. */
  lemma SortedStrict(s: seq<Entry>, t: seq<Entry>)
    requires NoTwice(s) && Strict(t) && forall e :: e in s <==> e in t
    ensures SortExtents(s) == t
  {
    hide ExtentNumber, SortExtents, Ascending, NoTwice;
    SortExtentsSorts(s);
    var r := SortExtents(s);
    SameMembers(s, r);
    forall x, y | 0 <= x < y < |r| ensures ExtentNumber(r[x]) < ExtentNumber(r[y]) {
      AscendingAt(r, x, y);
      Once(r, x, y);
      assert r[x] in r && r[y] in r;
      StrictDiffer(t, r[x], r[y]);
    }
    StrictUnique(r, t);
  }

  /** The entries that are sorted are those of the chain. */
  lemma ChainSorted(d: Disc, dir: Dir, f: nat, name: Name, slots: seq<nat>)
    requires Complete(d) && ReadDirectory(d) == Some(dir) && First(Image(d), f, name) && Chain(Image(d), f, name, slots)
    ensures forall x :: 0 <= x < |slots| ==> slots[x] < 64
    ensures SortExtents(Extents(dir, dir[f])) == seq(|slots|, x requires 0 <= x < |slots| => dir[slots[x]])
  {
    hide Image, Bears, ExtentNumber, SameFile, Complete, Extents, Strict, Apart, NoTwice, SortExtents;
    var img, s := Image(d), seq(|slots|, x requires 0 <= x < |slots| => dir[slots[x]]);
    forall i: nat | i < 64
      ensures ExtentNumber(dir[i]) == Number(img, i) && dir[i][0] == img[32 * i]
      ensures SameFile(dir[i], dir[f]) <==> img[32 * i] == img[32 * f] && Bears(img, i, name)
    {
      EntryBytes(d, dir, i, name);
      EntryBytes(d, dir, f, name);
      SameBears(dir[i], dir[f], name);
      NumberIs(dir[i], img, i);
    }
    assert Strict(s) by { StrictChain(img, slots, dir, s); }
    assert Apart(dir, dir[f]) by { ApartChain(img, f, name, slots, dir); }
    ExtentsOnce(dir, dir[f]);
    ExtentsMembers(dir, dir[f]);
    forall e ensures e in Extents(dir, dir[f]) <==> e in s { ChainMember(img, f, name, slots, dir, s, e); }
    SortedStrict(Extents(dir, dir[f]), s);
  }

  lemma SameBears(e: Entry, first: Entry, name: Name)
    requires Matches(first, name)
    ensures SameFile(e, first) <==> e[0] == first[0] && Matches(e, name)
  {
    if SameFile(e, first) {
      SameFileMatches(e, first, name);
    } else if Matches(e, name) && e[0] == first[0] {
      forall j | 1 <= j <= 11 ensures e[j] % 128 == first[j] % 128 {
        assert e[1 + (j - 1)] % 128 == name[j - 1] && first[1 + (j - 1)] % 128 == name[j - 1];
      }
    }
  }

  lemma NumberIs(e: Entry, img: seq<byte>, i: nat)
    requires 32 * i + 32 <= |img| && forall j :: 0 <= j < 32 ==> e[j] == img[32 * i + j]
    ensures ExtentNumber(e) == Number(img, i) && Records(e) == img[32 * i + 15]
  {
  }

  lemma StrictChain(img: seq<byte>, slots: seq<nat>, dir: Dir, s: seq<Entry>)
    requires |img| >= 2048 && |s| == |slots|
    requires forall x :: 0 <= x < |slots| ==> slots[x] < 64 && s[x] == dir[slots[x]]
    requires forall i: nat :: i < 64 ==> ExtentNumber(dir[i]) == Number(img, i)
    requires forall x, y :: 0 <= x < y < |slots| ==> Number(img, slots[x]) < Number(img, slots[y])
    ensures Strict(s)
  {
    hide ExtentNumber, Number;
  }

  /** What the directory shows of the image. */
  ghost predicate Shows(img: seq<byte>, f: nat, name: Name, dir: Dir)
    requires |img| >= 2048 && f < 64
  {
    forall i: nat :: i < 64 ==>
      && ExtentNumber(dir[i]) == Number(img, i) && dir[i][0] == img[32 * i]
      && (SameFile(dir[i], dir[f]) <==> img[32 * i] == img[32 * f] && Bears(img, i, name))
  }

  lemma ApartChain(img: seq<byte>, f: nat, name: Name, slots: seq<nat>, dir: Dir)
    requires |img| >= 2048 && f < 64 && Chain(img, f, name, slots) && Shows(img, f, name, dir)
    ensures Apart(dir, dir[f])
  {
    hide ExtentNumber, Number, SameFile, Bears;
    forall i, j | 0 <= i < j < |dir| && SameFile(dir[i], dir[f]) && SameFile(dir[j], dir[f])
      ensures ExtentNumber(dir[i]) != ExtentNumber(dir[j])
    {
      assert i in slots && j in slots;
      var x :| 0 <= x < |slots| && slots[x] == i;
      var y :| 0 <= y < |slots| && slots[y] == j;
      assert x < y || y < x;
    }
  }

  lemma ChainMember(img: seq<byte>, f: nat, name: Name, slots: seq<nat>, dir: Dir, s: seq<Entry>, e: Entry)
    requires |img| >= 2048 && f < 64 && img[32 * f] <= 15 && Chain(img, f, name, slots) && Shows(img, f, name, dir)
    requires |s| == |slots| && forall x :: 0 <= x < |slots| ==> slots[x] < 64 && s[x] == dir[slots[x]]
    ensures e in s <==> e in dir && e[0] != DELETED && SameFile(e, dir[f])
  {
    hide ExtentNumber, Number, SameFile, Bears;
    if e in s {
      var x :| 0 <= x < |s| && s[x] == e;
      assert slots[x] in slots;
    }
    if e in dir && e[0] != DELETED && SameFile(e, dir[f]) {
      var i :| 0 <= i < |dir| && dir[i] == e;
      assert i in slots;
      var x :| 0 <= x < |slots| && slots[x] == i;
      assert s[x] == e;
    }
  }

  // ----- the bytes of a file

  lemma {:induction false} NonZeroPrefix(s: seq<byte>, n: nat)
    requires n <= |s| && forall k :: 0 <= k < n ==> s[k] != 0
    ensures |NonZero(s)| >= n && forall k :: 0 <= k < n ==> NonZero(s)[k] == s[k]
    ensures n == |s| ==> |NonZero(s)| == n
  {
    if n > 0 { NonZeroPrefix(s[1..], n - 1); }
  }

  function Place(e: Entry, k: nat): byte
    requires k < 16
  {
    e[16 + k]
  }

  predicate Placed(e: Entry, n: nat)
    requires n <= 16
  {
    forall k :: 0 <= k < n ==> Place(e, k) != 0
  }

  lemma PointerPrefix(e: Entry, n: nat)
    requires n <= 16 && Placed(e, n)
    ensures |Pointers(e)| >= n && forall k :: 0 <= k < n ==> Pointers(e)[k] == Place(e, k)
    ensures n == 16 ==> |Pointers(e)| == 16
  {
    hide NonZero;
    var s := e[16..32];
    forall k | 0 <= k < n ensures s[k] == Place(e, k) { }
    NonZeroPrefix(s, n);
  }

  /** Sixteen blocks an extent: block q of the file is named in extent q / 16. */
  lemma {:induction false} FileBlockAt(s: seq<Entry>, n: nat, q: nat)
    requires s != [] && n <= 16
    requires (forall x :: 0 <= x < |s| - 1 ==> Placed(s[x], 16)) && Placed(s[|s| - 1], n)
    ensures |FileBlocks(s)| >= 16 * (|s| - 1) + n
    ensures q < 16 * (|s| - 1) + n ==> FileBlocks(s)[q] == Place(s[q / 16], q % 16)
  {
    hide Pointers, Place, Placed;
    if |s| == 1 {
      PointerPrefix(s[0], n);
      assert q < n ==> q / 16 == 0 && q % 16 == q;
    } else {
      PointerPrefix(s[0], 16);
      if q < 16 {
        FileBlockAt(s[1..], n, 0);
        assert q / 16 == 0 && q % 16 == q;
      } else {
        FileBlockAt(s[1..], n, q - 16);
        assert (q - 16) / 16 == q / 16 - 1 && (q - 16) % 16 == q % 16;
      }
    }
  }

  lemma {:induction false} BlocksInside(s: seq<Entry>)
    requires forall x, k :: 0 <= x < |s| && 0 <= k < 16 ==> Place(s[x], k) < 180
    ensures forall q :: 0 <= q < |FileBlocks(s)| ==> FileBlocks(s)[q] < 180
  {
    hide Pointers;
    if s != [] {
      BlocksInside(s[1..]);
      PointersInside(s[0]);
    }
  }

  lemma PointersInside(e: Entry)
    requires forall k :: 0 <= k < 16 ==> Place(e, k) < 180
    ensures forall q :: 0 <= q < |Pointers(e)| ==> Pointers(e)[q] < 180
  {
    hide NonZero;
    forall q | 0 <= q < |Pointers(e)| ensures Pointers(e)[q] < 180 {
      assert Pointers(e)[q] in e[16..32];
      var k :| 0 <= k < 16 && e[16..32][k] == Pointers(e)[q];
      assert Place(e, k) < 180;
    }
  }

  lemma {:induction false} ReadBlocksAt(d: Disc, blocks: seq<byte>, size: nat)
    requires (forall q :: 0 <= q < |blocks| ==> HasBlock(d, blocks[q])) && size <= 1024 * |blocks|
    ensures var r := ReadBlocks(d, blocks, size);
      && r.Data? && |r.bytes| == size
      && forall p :: 0 <= p < size ==> r.bytes[p] == Block(d, blocks[p / 1024])[p % 1024]
    decreases |blocks|
  {
    hide HasBlock, Block;
    if size > 1024 {
      ReadBlocksAt(d, blocks[1..], size - 1024);
      var r, rest := ReadBlocks(d, blocks, size), ReadBlocks(d, blocks[1..], size - 1024);
      forall p | 0 <= p < size ensures r.bytes[p] == Block(d, blocks[p / 1024])[p % 1024] {
        if p >= 1024 {
          assert r.bytes[p] == rest.bytes[p - 1024];
          assert blocks[1..][(p - 1024) / 1024] == blocks[p / 1024] && (p - 1024) % 1024 == p % 1024;
        }
      }
    }
  }

  /** Byte p of the file. */
  function FileByte(img: seq<byte>, slots: seq<nat>, p: nat): byte
    requires |img| == 180 * 1024 && p / 16384 < |slots| && slots[p / 16384] < 64
    requires BlockOf(img, slots[p / 16384], p / 1024 % 16) < 180
  {
    img[1024 * (BlockOf(img, slots[p / 16384], p / 1024 % 16) as int) + p % 1024]
  }

  /** Reading any file of any complete disc: byte p lies in the kilobyte named
      in its extent p / 16384 at place p / 1024 % 16, and the records of the last
      extent say where the file ends. */
  lemma FileInImage(d: Disc, filename: seq<byte>, f: nat, slots: seq<nat>)
    requires Complete(d) && ParseName(filename).Some? && First(Image(d), f, ParseName(filename).value)
    requires Chain(Image(d), f, ParseName(filename).value, slots) && slots != [] && Filled(Image(d), slots)
    ensures var img, r := Image(d), ReadFile(d, filename);
      && r.Data? && |r.bytes| == 16384 * (|slots| - 1) + 128 * (img[32 * slots[|slots| - 1] + 15] as int)
      && forall p :: 0 <= p < |r.bytes| ==> r.bytes[p] == FileByte(img, slots, p)
  {
    hide Image, ReadDirectory, Complete, First, Chain, SortExtents, Extents, ReadBlocks, Bears;
    var img, name := Image(d), ParseName(filename).value;
    Readable(d);
    var dir := ReadDirectory(d).value;
    FirstIs(d, dir, name);
    ChainSorted(d, dir, f, name, slots);
    var s := seq(|slots|, x requires 0 <= x < |slots| => dir[slots[x]]);
    assert ReadFile(d, filename) == ReadExtents(d, s);
    ExtentsRead(d, dir, slots, s);
  }

  lemma ExtentsRead(d: Disc, dir: Dir, slots: seq<nat>, s: seq<Entry>)
    requires Complete(d) && ReadDirectory(d) == Some(dir) && slots != [] && |s| == |slots|
    requires forall x :: 0 <= x < |slots| ==> slots[x] < 64 && s[x] == dir[slots[x]]
    requires Filled(Image(d), slots)
    ensures var img, r := Image(d), ReadExtents(d, s);
      && r.Data? && |r.bytes| == 16384 * (|slots| - 1) + 128 * (img[32 * slots[|slots| - 1] + 15] as int)
      && forall p :: 0 <= p < |r.bytes| ==> r.bytes[p] == FileByte(img, slots, p)
  {
    hide Image, ReadDirectory, Complete, ReadBlocks, FileBlocks, HasBlock, Block;
    var img, name := Image(d), seq(11, _ => 32);
    forall x | 0 <= x < |s| ensures forall j :: 0 <= j < 32 ==> s[x][j] == img[32 * slots[x] + j] {
      EntryBytes(d, dir, slots[x], name);
    }
    forall x, k | 0 <= x < |s| && 0 <= k < 16 ensures Place(s[x], k) == BlockOf(img, slots[x], k) { }
    var last := img[32 * slots[|slots| - 1] + 15];
    var n := Reached(last);
    forall x, m: nat | 0 <= x < |s| && m <= 16 && NamesBlocks(img, slots[x], m) ensures Placed(s[x], m) { }
    FileBlockAt(s, n, 0);
    BlocksInside(s);
    var blocks, size := FileBlocks(s), FileSize(s);
    forall q | 0 <= q < |blocks| ensures HasBlock(d, blocks[q]) { BlockInImage(d, blocks[q]); }
    ReadBlocksAt(d, blocks, size);
    var r := ReadExtents(d, s);
    forall p | 0 <= p < size ensures r.bytes[p] == FileByte(img, slots, p) {
      var q := p / 1024;
      FileBlockAt(s, n, q);
      BlockInImage(d, blocks[q]);
      var b: nat := blocks[q];
      assert img[1024 * b..1024 * b + 1024][p % 1024] == img[1024 * b + p % 1024];
    }
  }
}
