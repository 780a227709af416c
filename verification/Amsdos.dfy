/** The 128-byte AMSDOS header a file may start with (src/disk_file_editor.cpp). */
module Amsdos {
  import opened Bits
  import opened Bytes
  import opened Directory
  import opened CpmFiles

  const HEADER_SIZE := 128
  const CHECKED := 67

  datatype HeaderInfo = Invalid | Valid(fileType: byte, loadAddr: nat, execAddr: nat, fileLength: nat)

  function Low(n: nat): byte { n % 256 }
  function High(n: nat): byte { n / 256 % 256 }

  /** Bytes 0 to 66, which the checksum covers. */
  function Fields(name: Name, fileType: byte, loadAddr: nat, execAddr: nat, length: nat): (r: seq<byte>)
    ensures |r| == CHECKED
  {
    [0] + name + Fill(6, 0) + [fileType, 0, 0, Low(loadAddr), High(loadAddr), 0,
      Low(length), High(length), Low(execAddr), High(execAddr)] + Fill(36, 0)
      + [Low(length), High(length), length / 65536 % 256]
  }

  function NameOrBlank(filename: seq<byte>): Name {
    match ParseName(filename)
    case Some(name) => name
    case None => Fill(11, SPACE)
  }

  function Header(filename: seq<byte>, fileType: byte, loadAddr: nat, execAddr: nat, length: nat): (r: seq<byte>)
    ensures |r| == HEADER_SIZE
  {
    var fields := Fields(NameOrBlank(filename), fileType, loadAddr, execAddr, length);
    var checksum := Sum(fields) % 65536;
    fields + [Low(checksum), High(checksum)] + Fill(59, 0)
  }

  function ParseHeader(data: seq<byte>): HeaderInfo {
    if |data| < HEADER_SIZE then Invalid
    else if Sum(data[..CHECKED]) % 65536 != (data[67] as int) + 256 * (data[68] as int) then Invalid
    else Valid(data[18], (data[21] as int) + 256 * (data[22] as int), (data[26] as int) + 256 * (data[27] as int),
               (data[64] as int) + 256 * (data[65] as int) + 65536 * (data[66] as int))
  }

  /** Every header made is recognised and gives back what went into it; the
      length is kept to 24 bits. */
  lemma HeaderRoundTrip(filename: seq<byte>, fileType: byte, loadAddr: nat, execAddr: nat, length: nat,
                        contents: seq<byte>)
    requires loadAddr < 65536 && execAddr < 65536
    ensures ParseHeader(Header(filename, fileType, loadAddr, execAddr, length) + contents)
         == Valid(fileType, loadAddr, execAddr, length % 0x100_0000)
  {
    var fields := Fields(NameOrBlank(filename), fileType, loadAddr, execAddr, length);
    var data := Header(filename, fileType, loadAddr, execAddr, length) + contents;
    assert data[..CHECKED] == fields;
    assert forall i :: 0 <= i < CHECKED ==> data[i] == fields[i];
    LengthBytes(length);
  }

  lemma LengthBytes(n: nat)
    ensures n % 256 + 256 * (n / 256 % 256) + 65536 * (n / 65536 % 256) == n % 0x100_0000
  {
    assert n / 65536 == n / 256 / 256;
    assert n / 0x100_0000 == n / 65536 / 256;
  }

  lemma TwoBytes(n: nat)
    ensures (Low(n) as int) + 256 * (High(n) as int) == n % 65536
  {
    assert n / 65536 == n / 256 / 256;
  }

  /** The positions that hold something; every other byte from 12 on is 0. */
  predicate Holds(i: int) { i == 18 || 21 <= i <= 22 || 24 <= i <= 27 || 64 <= i <= 68 }

  lemma FieldBytes(name: Name, fileType: byte, loadAddr: nat, execAddr: nat, length: nat)
    ensures var f := Fields(name, fileType, loadAddr, execAddr, length);
      && f[0] == 0 && f[1..12] == name && f[18] == fileType
      && f[21] == Low(loadAddr) && f[22] == High(loadAddr) && f[24] == Low(length) && f[25] == High(length)
      && f[26] == Low(execAddr) && f[27] == High(execAddr)
      && f[64] == Low(length) && f[65] == High(length) && f[66] == length / 65536 % 256
  {
    hide Low, High;
  }

  lemma FieldZeros(name: Name, fileType: byte, loadAddr: nat, execAddr: nat, length: nat)
    ensures var f := Fields(name, fileType, loadAddr, execAddr, length);
      forall i :: 12 <= i < CHECKED && !Holds(i) ==> f[i] == 0
  {
    hide Low, High;
  }

  /** Every byte of a header: user 0, the name, the type, the addresses and
      lengths low byte first, the checksum, and zeros everywhere else. */
  lemma HeaderLayout(filename: seq<byte>, fileType: byte, loadAddr: nat, execAddr: nat, length: nat)
    ensures var h := Header(filename, fileType, loadAddr, execAddr, length);
      && h[0] == 0
      && h[1..12] == (match ParseName(filename) case Some(name) => name case None => Fill(11, 32))
      && h[18] == fileType
      && (h[21] as int) + 256 * (h[22] as int) == loadAddr % 65536
      && (h[24] as int) + 256 * (h[25] as int) == length % 65536
      && (h[26] as int) + 256 * (h[27] as int) == execAddr % 65536
      && (h[64] as int) + 256 * (h[65] as int) + 65536 * (h[66] as int) == length % 0x100_0000
      && (h[67] as int) + 256 * (h[68] as int) == Sum(h[..67]) % 65536
      && forall i :: 12 <= i < 128 && !Holds(i) ==> h[i] == 0
  {
    var fields := Fields(NameOrBlank(filename), fileType, loadAddr, execAddr, length);
    var h := Header(filename, fileType, loadAddr, execAddr, length);
    assert h[..67] == fields by { hide Fields, NameOrBlank, Sum, Low, High; }
    HeaderEnd(filename, fileType, loadAddr, execAddr, length);
    hide *;
    FieldBytes(NameOrBlank(filename), fileType, loadAddr, execAddr, length);
    FieldZeros(NameOrBlank(filename), fileType, loadAddr, execAddr, length);
    NameIs(filename);
    TwoBytes(loadAddr);
    TwoBytes(execAddr);
    TwoBytes(length);
    LengthBytes(length);
    SplitBytes(length);
    Prefix(h, fields);
  }

  lemma Prefix(h: seq<byte>, fields: seq<byte>)
    requires |h| == 128 && |fields| == 67 && h[..67] == fields
    ensures forall i :: 0 <= i < 67 ==> h[i] == fields[i]
    ensures h[1..12] == fields[1..12]
  {
  }

  lemma SplitBytes(n: nat)
    ensures (Low(n) as int) == n % 256 && (High(n) as int) == n / 256 % 256
  {
  }

  lemma NameIs(filename: seq<byte>)
    ensures NameOrBlank(filename) == match ParseName(filename) case Some(name) => name case None => Fill(11, 32)
  {
    hide ParseName;
  }

  /** The checksum and the zeros behind it. */
  lemma HeaderEnd(filename: seq<byte>, fileType: byte, loadAddr: nat, execAddr: nat, length: nat)
    ensures var h := Header(filename, fileType, loadAddr, execAddr, length);
      && (h[67] as int) + 256 * (h[68] as int) == Sum(h[..67]) % 65536
      && forall i :: 69 <= i < 128 ==> h[i] == 0
  {
    hide Fields, NameOrBlank, Sum, Low, High;
    var fields := Fields(NameOrBlank(filename), fileType, loadAddr, execAddr, length);
    var h := Header(filename, fileType, loadAddr, execAddr, length);
    assert h[..67] == fields;
    TwoBytes(Sum(fields) % 65536);
  }

  lemma SumNothing(s: seq<byte>)
    ensures Sum(s[..0]) == 0
  {
  }

  lemma SumStep(s: seq<byte>, i: nat)
    requires i < |s|
    ensures Sum(s[..i + 1]) == Sum(s[..i]) + (s[i] as int)
  {
    assert s[..i + 1][..i] == s[..i];
  }

  /** disk_make_amsdos_header: the checksum is accumulated byte by byte in 16 bits. */
  method MakeHeader(filename: seq<byte>, fileType: byte, loadAddr: nat, execAddr: nat, length: nat)
    returns (header: seq<byte>)
    ensures header == Header(filename, fileType, loadAddr, execAddr, length)
  {
    hide Fields, NameOrBlank, Sum, Fill;
    var fields := Fields(NameOrBlank(filename), fileType, loadAddr, execAddr, length);
    SumNothing(fields);
    var checksum: nat := 0;
    var i := 0;
    while i < CHECKED
      invariant 0 <= i <= CHECKED
      invariant checksum == Sum(fields[..i]) % 65536
    {
      SumStep(fields, i);
      checksum := (checksum + (fields[i] as int)) % 65536;
      i := i + 1;
    }
    assert fields[..CHECKED] == fields;
    header := fields + [Low(checksum), High(checksum)] + Fill(59, 0);
  }

  /** The bytes disk_write_file stores. */
  function FullContents(filename: seq<byte>, data: seq<byte>, addHeader: bool,
                        fileType: byte, loadAddr: nat, execAddr: nat): seq<byte> {
    if addHeader then Header(filename, fileType, loadAddr, execAddr, |data|) + data else data
  }
}
