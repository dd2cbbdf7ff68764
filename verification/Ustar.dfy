/** Ustar archive headers (lib/ustar.c): made in a 512-byte buffer, and parsed back. Names are C strings without their
    terminating null byte. */
module Ustar {
  import opened Options
  import opened Bytes
  import opened Octal
  import opened Vaddr

  const HEADER_SIZE: nat := 512
  const REGULAR: byte := 48          // '0'
  const DIRECTORY: byte := 53        // '5'

  // ----- names

  const SLASH: byte := 47
  const DOT: byte := 46

  predicate Antisocial(s: seq<byte>)
    ensures Antisocial(s) ==> SLASH in s
  {
    || (|s| >= 1 && s[0] == SLASH)
    || (|s| >= 2 && s[0] == DOT && s[1] == SLASH)
    || (|s| >= 3 && s[0] == DOT && s[1] == DOT && s[2] == SLASH)
  }

  /** strchr (s, '/'), where there is one. */
  function FirstSlash(s: seq<byte>): (i: nat)
    requires SLASH in s
    ensures i < |s| && s[i] == SLASH && forall j :: 0 <= j < i ==> s[j] != SLASH
  {
    if s[0] == SLASH then 0 else 1 + FirstSlash(s[1..])
  }

  /** The name without its antisocial prefixes. */
  function Strip(s: seq<byte>): (r: seq<byte>)
    ensures !Antisocial(r) && r != [] && r != [DOT, DOT]
    ensures NoNull(s) ==> NoNull(r)
    decreases |s|
  {
    if Antisocial(s) then Strip(s[FirstSlash(s) + 1..])
    else if s == [] || s == [DOT, DOT] then [DOT]
    else s
  }

  method StripPrefixes(name: seq<byte>) returns (r: seq<byte>)
    ensures r == Strip(name)
  {
    r := name;
    while Antisocial(r)
      invariant Strip(r) == Strip(name)
      decreases |r|
    {
      r := r[FirstSlash(r) + 1..];
    }
    if r == [] || r == [DOT, DOT] {
      r := [DOT];
    }
  }

  /** A run of the prefixes "/", "./" and "../". */
  predicate OnlyPrefixes(p: seq<byte>)
    decreases |p|
  {
    p == [] || (Antisocial(p) && OnlyPrefixes(p[FirstSlash(p) + 1..]))
  }

  /** A prefix of a name that reaches past its first slash begins as the name does. */
  lemma PrefixKept(s: seq<byte>, k: nat)
    requires Antisocial(s) && FirstSlash(s) < k <= |s|
    ensures Antisocial(s[..k]) && FirstSlash(s[..k]) == FirstSlash(s)
  {
    hide FirstSlash;
    assert s[..k][FirstSlash(s)] == SLASH;
  }

  /** Stripping drops such a run and nothing else, but for a name that it leaves empty or "..", which becomes ".". */
  lemma {:induction false} StripDrops(s: seq<byte>) returns (k: nat)
    ensures k <= |s| && OnlyPrefixes(s[..k])
    ensures Strip(s) == if s[k..] == [] || s[k..] == [DOT, DOT] then [DOT] else s[k..]
    decreases |s|
  {
    hide FirstSlash, Antisocial, Strip, OnlyPrefixes, NoNull;
    OnePrefix(s);
    if Antisocial(s) {
      var i := FirstSlash(s) + 1;
      var j := StripDrops(s[i..]);
      k := i + j;
      PrefixKept(s, k);
      Slices(s, i, j);
      OnePrefix(s[..k]);
    } else {
      k := 0;
      assert s[0..] == s && s[..0] == [];
      OnePrefix(s[..0]);
    }
  }

  lemma Slices(s: seq<byte>, i: nat, j: nat)
    requires i + j <= |s|
    ensures s[..i + j][i..] == s[i..][..j] && s[i + j..] == s[i..][j..]
  {
  }

  lemma OnePrefix(s: seq<byte>)
    ensures if Antisocial(s) then
              Strip(s) == Strip(s[FirstSlash(s) + 1..]) && (OnlyPrefixes(s) <==> OnlyPrefixes(s[FirstSlash(s) + 1..]))
            else
              Strip(s) == (if s == [] || s == [DOT, DOT] then [DOT] else s) && (OnlyPrefixes(s) <==> s == [])
  {
    hide FirstSlash;
  }

  lemma StripIdempotent(s: seq<byte>)
    ensures Strip(Strip(s)) == Strip(s)
  {
  }

  // ----- the checksum

  /** The sum of the first n bytes, the checksum field counted as spaces. */
  function Checksum(h: seq<byte>, n: nat): (c: nat)
    requires n <= |h|
    ensures c <= 255 * n
  {
    if n == 0 then 0 else Checksum(h, n - 1) + if 148 <= n - 1 < 156 then 32 else h[n - 1] as nat
  }

  method CalculateChksum(h: seq<byte>) returns (c: nat)
    requires |h| == HEADER_SIZE
    ensures c == Checksum(h, HEADER_SIZE)
  {
    c := 0;
    var i := 0;
    while i < HEADER_SIZE
      invariant i <= HEADER_SIZE && c == Checksum(h, i)
    {
      c := c + if 148 <= i < 156 then 32 else h[i] as nat;
      i := i + 1;
    }
  }

  /** The checksum does not depend on its own field. */
  lemma {:induction false} ChecksumBlank(g: seq<byte>, h: seq<byte>, n: nat)
    requires n <= |g| == |h| && forall i :: 0 <= i < |g| && !(148 <= i < 156) ==> g[i] == h[i]
    ensures Checksum(g, n) == Checksum(h, n)
  {
    if n > 0 {
      ChecksumBlank(g, h, n - 1);
    }
  }

  function ByteSum(s: seq<byte>): nat {
    if s == [] then 0 else ByteSum(s[..|s| - 1]) + s[|s| - 1] as nat
  }

  /** It is the sum of the bytes outside the field, and 256 for the eight spaces the field counts as. */
  lemma ChecksumIs(h: seq<byte>)
    requires |h| == HEADER_SIZE
    ensures Checksum(h, HEADER_SIZE) == ByteSum(h[..148]) + 256 + ByteSum(h[156..])
  {
    PartialSum(h, HEADER_SIZE);
    assert h[156..HEADER_SIZE] == h[156..];
  }

  lemma {:induction false} PartialSum(h: seq<byte>, n: nat)
    requires n <= |h|
    ensures Checksum(h, n) == if n <= 148 then ByteSum(h[..n])
                              else if n <= 156 then ByteSum(h[..148]) + 32 * (n - 148)
                              else ByteSum(h[..148]) + 256 + ByteSum(h[156..n])
  {
    if n > 0 {
      PartialSum(h, n - 1);
      if n <= 148 {
        assert h[..n][..n - 1] == h[..n - 1];
      } else if n > 156 {
        assert h[156..n][..n - 157] == h[156..n - 1];
      }
    }
  }

  // ----- making a header

  function Put(h: seq<byte>, at: nat, bytes: seq<byte>): (r: seq<byte>)
    requires at + |bytes| <= |h|
    ensures |r| == |h|
    ensures forall i :: 0 <= i < |r| ==> r[i] == if at <= i < at + |bytes| then bytes[i - at] else h[i]
  {
    h[..at] + bytes + h[at + |bytes|..]
  }

  const ROOT: seq<byte> := [114, 111, 111, 116, 0]          // "root"
  const MAGIC: seq<byte> := [117, 115, 116, 97, 114, 0]     // "ustar"
  const NO_ID: seq<byte> := [48, 48, 48, 48, 48, 48, 48, 0] // "0000000"

  /** The header before its checksum is filled in. */
  function Unsummed(name: seq<byte>, kind: byte, size: int): (h: seq<byte>)
    requires |name| <= 99
    ensures |h| == HEADER_SIZE
  {
    var h := seq(HEADER_SIZE, _ => 0 as byte);
    var h := Put(h, 0, name + [0]);
    var h := Put(h, 100, Digits(if kind == REGULAR then 420 else 493, 7) + [0]);
    var h := Put(h, 108, NO_ID);
    var h := Put(h, 116, NO_ID);
    var h := Put(h, 124, Digits(U32(size), 11) + [0]);
    var h := Put(h, 136, Digits(1136102400, 11) + [0]);
    var h := Put(h, 156, [kind]);
    var h := Put(h, 257, MAGIC);
    var h := Put(h, 263, [ZERO, ZERO]);
    var h := Put(h, 297, ROOT);
    Put(h, 265, ROOT)
  }

  function Summed(h: seq<byte>): (r: seq<byte>)
    requires |h| == HEADER_SIZE
    ensures |r| == HEADER_SIZE
  {
    Put(h, 148, Digits(Checksum(h, HEADER_SIZE), 7) + [0])
  }

  // ----- parsing a header

  /** The end of the archive, a file's name, type and size, or the error message. */
  datatype Parsed = Eof | Member(name: seq<byte>, kind: byte, size: nat) | Bad(message: string)

  function ParseHeader(h: seq<byte>): Parsed
    requires |h| == HEADER_SIZE
  {
    if forall i :: 0 <= i < HEADER_SIZE ==> h[i] == 0 then Eof
    else if h[257..263] != MAGIC then Bad("not a ustar archive")
    else if h[263] != ZERO || h[264] != ZERO then Bad("invalid ustar version")
    else
      var chksum := ParseFrom(h[148..156], 0, 0);
      if chksum.None? then Bad("corrupt chksum field")
      else if chksum.value != Checksum(h, HEADER_SIZE) then Bad("checksum mismatch")
      else if h[99] != 0 || h[345] != 0 then Bad("file name too long")
      else if h[156] != REGULAR && h[156] != DIRECTORY then Bad("unimplemented file type")
      else
        var size := if h[156] == REGULAR then ParseFrom(h[124..136], 0, 0) else Some(0);
        if size.None? then Bad("corrupt file size field")
        else if size.value > 0x7FFF_FFFF then Bad("file too large")
        else Member(Strip(CString(h[0..100])), h[156], size.value)
  }

  /** No parsed name leads out of the directory it is extracted into by a prefix. */
  lemma ParsedNameSafe(h: seq<byte>)
    requires |h| == HEADER_SIZE && ParseHeader(h).Member?
    ensures var n := ParseHeader(h).name; !Antisocial(n) && n != [] && n != [DOT, DOT] && NoNull(n)
  {
  }

  /** A header in which one byte outside the checksum field has been changed is not taken for a file's. */
  lemma CorruptionDetected(h: seq<byte>, i: nat, b: byte)
    requires |h| == HEADER_SIZE && ParseHeader(h).Member? && i < HEADER_SIZE && !(148 <= i < 156) && b != h[i]
    ensures ParseHeader(h[i := b]).Bad?
  {
    hide Strip, CString, Checksum, ParseFrom;
    var g := h[i := b];
    OneByteChanged(h, i, b, HEADER_SIZE);
    assert g[148..156] == h[148..156];
    assert h[257] == MAGIC[0] && h[258] == MAGIC[1] by {
      assert h[257..263][0] == h[257] && h[257..263][1] == h[258];
    }
    assert g[257] != 0 || g[258] != 0;
  }

  lemma {:induction false} OneByteChanged(h: seq<byte>, i: nat, b: byte, n: nat)
    requires n <= |h| && i < |h| && !(148 <= i < 156)
    ensures Checksum(h[i := b], n) == Checksum(h, n) + if i < n then b as int - h[i] as int else 0
  {
    if n > 0 {
      OneByteChanged(h, i, b, n - 1);
    }
  }

  // ----- the round trip

  lemma TextFields(name: seq<byte>, kind: byte, size: int)
    requires |name| <= 99
    ensures var h := Unsummed(name, kind, size);
            && h[257..263] == MAGIC && h[263] == ZERO && h[264] == ZERO && h[345] == 0 && h[156] == kind
            && h[..|name|] == name && h[|name|] == 0 && h[99] == 0
  {
    hide Put, Digits;
  }

  lemma SizeField(name: seq<byte>, kind: byte, size: int)
    requires |name| <= 99
    ensures Unsummed(name, kind, size)[124..136] == Digits(U32(size), 11) + [0]
  {
    hide Put, Digits;
  }

  /** Only the checksum field differs, and it holds the checksum. */
  lemma SummedIs(h: seq<byte>)
    requires |h| == HEADER_SIZE
    ensures var r := Summed(h);
            && (forall i :: 0 <= i < HEADER_SIZE && !(148 <= i < 156) ==> r[i] == h[i])
            && ParseFrom(r[148..156], 0, 0) == Some(Checksum(r, HEADER_SIZE))
  {
    hide Put, Digits, Checksum, ParseFrom;
    var r, c := Summed(h), Checksum(h, HEADER_SIZE);
    Pow8Values();
    ParseDigits(c, 7);
    assert r[148..156] == Digits(c, 7) + [0];
    ChecksumBlank(r, h, HEADER_SIZE);
  }

  lemma Pow8Values()
    ensures Pow8(7) == 2097152 && Pow8(11) == 8589934592
  {
    assert Pow8(3) == 8 * Pow8(2) == 512;
    assert Pow8(5) == 8 * Pow8(4) == 32768;
    assert Pow8(7) == 8 * Pow8(6) == 2097152;
    assert Pow8(9) == 8 * Pow8(8) == 134217728;
  }

  /** Parsing a made header gives the stripped name, the type and the size: zero for a directory, and for a regular file
      exactly when the size is not negative. */
  lemma RoundTrip(name: seq<byte>, kind: byte, size: int)
    requires NoNull(name) && (kind == REGULAR || kind == DIRECTORY) && -0x8000_0000 <= size < 0x8000_0000
    requires |Strip(name)| <= 99
    ensures ParseHeader(Summed(Unsummed(Strip(name), kind, size))) ==
              if kind == DIRECTORY then Member(Strip(name), kind, 0)
              else if size >= 0 then Member(Strip(name), kind, size)
              else Bad("file too large")
  {
    hide Unsummed, Summed, Strip, Checksum, ParseFrom, CString;
    MadeFields(Strip(name), kind, size);
    StripIdempotent(name);
  }

  /** What the parser looks at in a made header. */
  lemma MadeFields(n: seq<byte>, kind: byte, size: int)
    requires |n| <= 99 && NoNull(n) && -0x8000_0000 <= size < 0x8000_0000
    ensures var h := Summed(Unsummed(n, kind, size));
            && h[257] != 0 && h[257..263] == MAGIC && h[263] == ZERO && h[264] == ZERO && h[345] == 0 && h[99] == 0
            && h[156] == kind && CString(h[0..100]) == n
            && ParseFrom(h[148..156], 0, 0) == Some(Checksum(h, HEADER_SIZE))
            && ParseFrom(h[124..136], 0, 0) == Some(if size >= 0 then size else size + 0x1_0000_0000)
  {
    hide Unsummed, Summed, Checksum, ParseFrom, Digits, CString;
    var g := Unsummed(n, kind, size);
    var h := Summed(g);
    SummedIs(g);
    TextFields(n, kind, size);
    SizeField(n, kind, size);
    assert h[257..263] == g[257..263] && h[124..136] == g[124..136];
    assert h[257] == MAGIC[0];
    Pow8Values();
    assert U32(size) == if size >= 0 then size else size + 0x1_0000_0000;
    ParseDigits(U32(size), 11);
    assert h[0..100][..|n|] == g[..|n|] && h[0..100][|n|] == g[|n|];
    CStringIs(h[0..100], |n|);
  }

  /** What the parser does not look at in a made header: the mode, the owners and the time; and that the rest is zero. */
  lemma MadeRest(n: seq<byte>, kind: byte, size: int)
    requires |n| <= 99 && (kind == REGULAR || kind == DIRECTORY) && -0x8000_0000 <= size < 0x8000_0000
    ensures var h := Summed(Unsummed(n, kind, size));
            && ParseFrom(h[100..108], 0, 0) == Some(if kind == REGULAR then 6 * 64 + 4 * 8 + 4 else 7 * 64 + 5 * 8 + 5)
            && h[108..116] == h[116..124] == NO_ID && ParseFrom(h[136..148], 0, 0) == Some(1136102400)
            && h[265..270] == h[297..302] == ROOT
            && forall i :: |n| <= i < 100 || 157 <= i < 257 || 270 <= i < 297 || 302 <= i < HEADER_SIZE ==> h[i] == 0
  {
    hide Unsummed, Summed, Checksum, ParseFrom, Digits;
    var g := Unsummed(n, kind, size);
    var h := Summed(g);
    SummedIs(g);
    RestFields(n, kind, size);
    assert h[100..108] == g[100..108] && h[136..148] == g[136..148];
    assert h[108..116] == g[108..116] && h[116..124] == g[116..124] && h[265..270] == g[265..270] && h[297..302] == g[297..302];
    Pow8Values();
    ParseDigits(if kind == REGULAR then 420 else 493, 7);
    ParseDigits(1136102400, 11);
  }

  lemma RestFields(n: seq<byte>, kind: byte, size: int)
    requires |n| <= 99
    ensures var g := Unsummed(n, kind, size);
            && g[100..108] == Digits(if kind == REGULAR then 420 else 493, 7) + [0]
            && g[108..116] == g[116..124] == NO_ID && g[136..148] == Digits(1136102400, 11) + [0]
            && g[265..270] == g[297..302] == ROOT
            && forall i :: |n| <= i < 100 || 157 <= i < 257 || 270 <= i < 297 || 302 <= i < HEADER_SIZE ==> g[i] == 0
  {
    hide Put, Digits;
  }

  // ----- in the caller's buffer

  /** strlcpy and the direct stores: bytes written into the header. */
  method Store(header: array<byte>, at: nat, bytes: seq<byte>)
    requires at + |bytes| <= header.Length
    modifies header
    ensures header[..] == Put(old(header[..]), at, bytes)
  {
    var i := 0;
    while i < |bytes|
      invariant i <= |bytes|
      invariant forall k :: 0 <= k < header.Length ==>
                  header[k] == if at <= k < at + i then bytes[k - at] else old(header[k])
    {
      header[at + i] := bytes[i];
      i := i + 1;
    }
  }

  /** snprintf of a zero-padded octal number into a field that it fills, with its null byte. */
  method StoreOctal(header: array<byte>, at: nat, width: nat, value: nat)
    requires 0 < width <= 64 && at + width < header.Length && value < Pow8(width)
    modifies header
    ensures header[..] == Put(old(header[..]), at, Digits(value, width) + [0])
  {
    var digits := FormatOctal(value, width);
    Store(header, at, digits + [0]);
  }

  /** ustar_make_header; false when the stripped name is too long. */
  method MakeHeader(name: seq<byte>, kind: byte, size: int, header: array<byte>) returns (ok: bool)
    requires header.Length == HEADER_SIZE && (kind == REGULAR || kind == DIRECTORY) && -0x8000_0000 <= size < 0x8000_0000
    modifies header
    ensures ok <==> |Strip(name)| <= 99
    ensures header[..] == if ok then Summed(Unsummed(Strip(name), kind, size)) else old(header[..])
  {
    hide Put, Digits, Strip, Checksum;
    var n := StripPrefixes(name);
    if |n| > 99 {
      return false;
    }
    Pow8Values();
    ClearHeader(header);
    Store(header, 0, n + [0]);
    StoreOctal(header, 100, 7, if kind == REGULAR then 420 else 493);
    Store(header, 108, NO_ID);
    Store(header, 116, NO_ID);
    StoreOctal(header, 124, 11, U32(size));
    StoreOctal(header, 136, 11, 1136102400);
    Store(header, 156, [kind]);
    Store(header, 257, MAGIC);
    Store(header, 263, [ZERO, ZERO]);
    Store(header, 297, ROOT);
    Store(header, 265, ROOT);
    var c := CalculateChksum(header[..]);
    StoreOctal(header, 148, 7, c);
    ok := true;
  }

  /** memset. */
  method ClearHeader(header: array<byte>)
    modifies header
    ensures header[..] == seq(header.Length, _ => 0 as byte)
  {
    var i := 0;
    while i < header.Length
      invariant i <= header.Length && forall k :: 0 <= k < i ==> header[k] == 0
    {
      header[i] := 0;
      i := i + 1;
    }
  }

  method IsAllZeros(h: seq<byte>) returns (b: bool)
    ensures b <==> forall i :: 0 <= i < |h| ==> h[i] == 0
  {
    var i := 0;
    while i < |h|
      invariant i <= |h| && forall k :: 0 <= k < i ==> h[k] == 0
    {
      if h[i] != 0 {
        return false;
      }
      i := i + 1;
    }
    b := true;
  }

  /** ustar_parse_header. */
  method Parse(h: seq<byte>) returns (r: Parsed)
    requires |h| == HEADER_SIZE
    ensures r == ParseHeader(h)
  {
    hide Strip, Checksum, ParseFrom, CString;
    var eof := IsAllZeros(h);
    if eof {
      return Eof;
    }
    if h[257..263] != MAGIC {
      return Bad("not a ustar archive");
    } else if h[263] != ZERO || h[264] != ZERO {
      return Bad("invalid ustar version");
    }
    var chksum := ParseOctalField(h[148..156]);
    if chksum.None? {
      return Bad("corrupt chksum field");
    }
    var sum := CalculateChksum(h);
    if chksum.value != sum {
      return Bad("checksum mismatch");
    } else if h[99] != 0 || h[345] != 0 {
      return Bad("file name too long");
    } else if h[156] != REGULAR && h[156] != DIRECTORY {
      return Bad("unimplemented file type");
    }
    var size := Some(0);
    if h[156] == REGULAR {
      size := ParseOctalField(h[124..136]);
      if size.None? {
        return Bad("corrupt file size field");
      } else if size.value > 0x7FFF_FFFF {
        return Bad("file too large");
      }
    }
    var name := StripPrefixes(CString(h[0..100]));
    r := Member(name, h[156], size.value);
  }
}
