/** How a displayed file name becomes the eleven bytes of a directory entry. */
module CpmNames {
  import opened Bits
  import opened Bytes
  import opened Wrappers
  import opened Directory
  import opened CpmFiles

  predicate IsLower(c: byte) { 97 <= c <= 122 }

  /** The letters a to z become A to Z, any other byte stays. */
  predicate Raised(c: byte, d: byte) { if IsLower(c) then d == c - 32 else d == c }

  predicate NoDot(s: seq<byte>) { forall i :: 0 <= i < |s| ==> s[i] != DOT }

  /** The part in upper case, filled up with spaces. */
  ghost predicate FilledUp(part: seq<byte>, field: seq<byte>) {
    && |part| <= |field|
    && forall j :: 0 <= j < |field| ==> if j < |part| then Raised(part[j], field[j]) else field[j] == 32
  }

  /** Eight bytes of name and three of type. */
  ghost predicate Stored(base: seq<byte>, ext: seq<byte>, n: Name) { FilledUp(base, n[..8]) && FilledUp(ext, n[8..]) }

  lemma {:induction false} DotAt(s: seq<byte>, t: seq<byte>)
    requires NoDot(s) && (t == [] || t[0] == DOT)
    ensures FindDot(s + t) == |s|
  {
    if s == [] {
      assert s + t == t;
    } else {
      assert (s + t)[1..] == s[1..] + t;
      DotAt(s[1..], t);
    }
  }

  /** A name, and a type behind its first dot if there is one: stored exactly if
      they are not too long. */
  lemma NameParses(base: seq<byte>, tail: seq<byte>)
    requires NoDot(base) && (tail == [] || tail[0] == DOT)
    ensures var ext := if tail == [] then [] else tail[1..];
      && (ParseName(base + tail).Some? <==> |base| <= 8 && |ext| <= 3)
      && (ParseName(base + tail).Some? ==> Stored(base, ext, ParseName(base + tail).value))
  {
    hide Upper, FindDot, FilledUp, NoDot, Fill;
    var ext := if tail == [] then [] else tail[1..];
    UpperParts(base, tail);
    if |base| <= 8 && |ext| <= 3 {
      UpperFills(base, 8);
      UpperFills(ext, 3);
      FieldsApart(Upper(base) + Fill(8 - |base|, SPACE), Upper(ext), Fill(3 - |ext|, SPACE));
    }
  }

  lemma UpperParts(base: seq<byte>, tail: seq<byte>)
    requires NoDot(base) && (tail == [] || tail[0] == DOT)
    ensures var up := Upper(base + tail);
      && |up| == |base| + |tail| && FindDot(up) == |base| && up[..|base|] == Upper(base)
      && (tail != [] ==> up[|base| + 1..] == Upper(tail[1..]))
  {
    var up := Upper(base + tail);
    assert up == Upper(base) + Upper(tail);
    DotAt(Upper(base), Upper(tail));
  }

  lemma UpperFills(part: seq<byte>, n: nat)
    requires |part| <= n
    ensures FilledUp(part, Upper(part) + Fill(n - |part|, SPACE))
  {
  }

  lemma FieldsApart(a: seq<byte>, b: seq<byte>, c: seq<byte>)
    ensures (a + b + c)[..|a|] == a && (a + b + c)[|a|..] == b + c
  {
  }

  /** No stored name has a lower-case letter. */
  lemma StoredUpper(display: seq<byte>)
    requires ParseName(display).Some?
    ensures forall j :: 0 <= j < 11 ==> !IsLower(ParseName(display).value[j])
  {
  }

  /** Letter case does not matter. */
  lemma CaseBlind(a: seq<byte>, b: seq<byte>)
    requires |a| == |b| && forall i :: 0 <= i < |a| ==> exists c :: Raised(a[i], c) && Raised(b[i], c)
    ensures ParseName(a) == ParseName(b)
  {
    forall i | 0 <= i < |a| ensures Upper(a)[i] == Upper(b)[i] {
      var c :| Raised(a[i], c) && Raised(b[i], c);
    }
    assert Upper(a) == Upper(b);
  }

  // ----- showing a stored name

  function Trimmed(s: seq<byte>): (r: seq<byte>)
    ensures r <= s && (r != [] ==> r[|r| - 1] != 32)
    ensures forall i :: |r| <= i < |s| ==> s[i] == 32
  {
    if s == [] || s[|s| - 1] != 32 then s else Trimmed(s[..|s| - 1])
  }

  /** name.ext, without the padding. */
  function Shown(n: Name): seq<byte> {
    var base, ext := Trimmed(n[..8]), Trimmed(n[8..]);
    if ext == [] then base else base + [DOT] + ext
  }

  /** A stored name shown as name.ext parses to itself, unless a dot stands in
      the name itself or a lower-case letter in either. */
  lemma ShownParses(n: Name)
    requires NoDot(n[..8]) && forall j :: 0 <= j < 11 ==> !IsLower(n[j])
    ensures ParseName(Shown(n)) == Some(n)
  {
    hide ParseName, Trimmed;
    var base, ext := Trimmed(n[..8]), Trimmed(n[8..]);
    var tail := if ext == [] then [] else [DOT] + ext;
    assert Shown(n) == base + tail by { assert base + [] == base; assert base + [DOT] + ext == base + ([DOT] + ext); }
    assert tail != [] ==> tail[1..] == ext;
    NameParses(base, tail);
    var m := ParseName(base + tail).value;
    FieldBack(n[..8], m[..8]);
    FieldBack(n[8..], m[8..]);
    assert m == m[..8] + m[8..] && n == n[..8] + n[8..];
  }

  lemma FieldBack(field: seq<byte>, other: seq<byte>)
    requires |other| == |field| && FilledUp(Trimmed(field), other)
    requires forall j :: 0 <= j < |field| ==> !IsLower(field[j])
    ensures other == field
  {
    hide Trimmed;
    forall j | 0 <= j < |field| ensures other[j] == field[j] { }
  }
}
