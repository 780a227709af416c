/** Byte strings: numbers laid out in bytes, and sequence facts about pieces of
    files. */
module Bytes {
  import opened Bits

  // ----- numbers

  function U32(n: int): (r: nat)
    ensures r < 0x1_0000_0000
  {
    n % 0x1_0000_0000
  }

  function Le32(x: nat): (r: seq<byte>)
    ensures |r| == 4
  {
    [x % 256, x / 256 % 256, x / 65536 % 256, x / 16777216 % 256]
  }

  function Read32(b: seq<byte>, at: nat): nat
    requires at + 4 <= |b|
  {
    (b[at] as int) + 256 * (b[at + 1] as int) + 65536 * (b[at + 2] as int) + 16777216 * (b[at + 3] as int)
  }

  lemma Le32Reads(x: nat, b: seq<byte>, at: nat)
    requires at + 4 <= |b| && b[at..at + 4] == Le32(x)
    ensures Read32(b, at) == U32(x)
  {
    assert b[at] == b[at..at + 4][0] && b[at + 1] == b[at..at + 4][1];
    assert b[at + 2] == b[at..at + 4][2] && b[at + 3] == b[at..at + 4][3];
    FourBytes(x);
  }

  lemma FourBytes(x: nat)
    ensures x % 256 + 256 * (x / 256 % 256) + 65536 * (x / 65536 % 256) + 16777216 * (x / 16777216 % 256) == U32(x)
  {
    var q1 := x / 256;
    var q2 := q1 / 256;
    var q3 := q2 / 256;
    var r := x % 256 + 256 * (q1 % 256) + 65536 * (q2 % 256);
    assert x == 16777216 * q3 + r && 0 <= r < 16777216;
    assert x / 65536 == q2 && x / 16777216 == q3;
    var q4 := q3 / 256;
    assert x == 0x1_0000_0000 * q4 + (16777216 * (q3 % 256) + r);
  }

  /** Reading four bytes loses nothing. */
  lemma ReadLe32(b: seq<byte>, at: nat)
    requires at + 4 <= |b|
    ensures Le32(Read32(b, at)) == b[at..at + 4]
  {
    LowByte(b[at], (b[at + 1] as int) + 256 * (b[at + 2] as int) + 65536 * (b[at + 3] as int));
    LowByte(b[at + 1], (b[at + 2] as int) + 256 * (b[at + 3] as int));
    LowByte(b[at + 2], b[at + 3] as int);
    QuotientSteps(Read32(b, at));
  }

  lemma LowByte(b: byte, hi: nat)
    ensures ((b as int) + 256 * hi) % 256 == b && ((b as int) + 256 * hi) / 256 == hi
  {
  }

  lemma QuotientSteps(x: nat)
    ensures x / 65536 == x / 256 / 256 && x / 16777216 == x / 65536 / 256
  {
  }

  function Be16(w: nat): (r: seq<byte>)
    ensures |r| == 2
  {
    [w / 256 % 256, w % 256]
  }

  function Read16(b: seq<byte>, at: nat): nat
    requires at + 2 <= |b|
  {
    256 * (b[at] as int) + (b[at + 1] as int)
  }

  function Le16(x: nat): (r: seq<byte>)
    ensures |r| == 2
  {
    [x % 256, x / 256 % 256]
  }

  function Read16le(b: seq<byte>, at: nat): nat
    requires at + 2 <= |b|
  {
    (b[at] as int) + 256 * (b[at + 1] as int)
  }

  // ----- sequences

  function Fill(n: nat, b: byte): (r: seq<byte>)
    ensures |r| == n && forall i :: 0 <= i < n ==> r[i] == b
  {
    seq(n, _ => b)
  }

  /** Overwrite the bytes at a position. */
  function Splice(s: seq<byte>, at: nat, bytes: seq<byte>): (r: seq<byte>)
    requires at + |bytes| <= |s|
    ensures |r| == |s|
  {
    s[..at] + bytes + s[at + |bytes|..]
  }

  function Sum(s: seq<byte>): nat {
    if s == [] then 0 else Sum(s[..|s| - 1]) + s[|s| - 1]
  }

  lemma SliceRight<T>(a: seq<T>, b: seq<T>, i: nat, n: nat)
    requires i + n <= |b|
    ensures (a + b)[|a| + i..|a| + i + n] == b[i..i + n]
  {
  }

  lemma SliceLeft<T>(a: seq<T>, b: seq<T>, i: nat, n: nat)
    requires i + n <= |a|
    ensures (a + b)[i..i + n] == a[i..i + n]
  {
  }

  lemma SubSlice<T>(s: seq<T>, from: nat, to: nat, i: nat, n: nat)
    requires from + i + n <= to <= |s|
    ensures s[from..to][i..i + n] == s[from + i..from + i + n]
  {
    var a, b := s[from..to][i..i + n], s[from + i..from + i + n];
    forall k | 0 <= k < n ensures a[k] == b[k] { }
  }

  lemma SliceMiddle<T>(a: seq<T>, b: seq<T>, c: seq<T>, i: nat, n: nat)
    requires i + n <= |b|
    ensures (a + b + c)[|a| + i..|a| + i + n] == b[i..i + n]
  {
  }

  lemma Associate<T>(a: seq<T>, b: seq<T>, c: seq<T>)
    ensures (a + b) + c == a + (b + c)
  {
  }
}
