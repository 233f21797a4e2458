/** Octal fields: as format_integer prints them and as parse_octal_field reads them back. */
module OctalFields {
  import opened Basics

  const ULONG_MAX: nat := 0xffff_ffff

  const ZERO: byte := 48

  predicate IsDigit(c: byte) { ZERO <= c <= 55 }

  /** The number a string of octal digits stands for. */
  function Value(d: seq<byte>): int {
    if d == [] then 0 else 8 * Value(d[..|d| - 1]) + (d[|d| - 1] - ZERO)
  }

  predicate Digits(d: seq<byte>) { forall i :: 0 <= i < |d| ==> IsDigit(d[i]) }

  /** n written with exactly w digits, dropping higher ones. */
  function Octal(n: nat, w: nat): (d: seq<byte>)
    ensures |d| == w && Digits(d)
  {
    if w == 0 then [] else Octal(n / 8, w - 1) + [ZERO + n % 8]
  }

  function Pow8(w: nat): nat { if w == 0 then 1 else 8 * Pow8(w - 1) }

  /** A number that fits prints to digits that stand for it. */
  lemma {:induction false} OctalValue(n: nat, w: nat)
    requires n < Pow8(w)
    ensures Value(Octal(n, w)) == n
  {
    if w > 0 {
      OctalValue(n / 8, w - 1);
      assert Octal(n, w)[..w - 1] == Octal(n / 8, w - 1);
    }
  }

  /** Digits are determined by their number and count. */
  lemma {:induction false} ValueOctal(d: seq<byte>)
    requires Digits(d)
    ensures 0 <= Value(d) < Pow8(|d|) && Octal(Value(d), |d|) == d
  {
    if d != [] {
      var e := d[..|d| - 1];
      ValueOctal(e);
      assert d == e + [d[|d| - 1]];
      assert Value(d) / 8 == Value(e) && Value(d) % 8 == d[|d| - 1] - ZERO;
    }
  }

  function Repeat(c: byte, k: nat): (s: seq<byte>)
    ensures |s| == k && forall i :: 0 <= i < k ==> s[i] == c
  {
    seq(k, _ => c)
  }

  function Reversed(s: seq<byte>): (r: seq<byte>)
    ensures |r| == |s|
  {
    if s == [] then [] else [s[|s| - 1]] + Reversed(s[..|s| - 1])
  }

  /** format_integer for an unsigned octal conversion with a width and the 0 flag, as in "%07o": digits are
      collected in reverse, at least one, and zeros fill the field. */
  method FormatOctal(value: nat, width: nat) returns (out: seq<byte>)
    requires value <= ULONG_MAX && 0 < width && value < Pow8(width)
    ensures out == Octal(value, width)
  {
    hide Octal, Reversed, Pow8, Digits;
    Pow8Eleven();
    ReversedNone();
    var buf := new byte[64];
    var v: nat, cp: nat := value, 0;
    while v > 0
      invariant cp <= 11 && v < Pow8(11 - cp) && cp <= width && v < Pow8(width - cp)
      invariant Octal(value, width) == Octal(v, width - cp) + Reversed(buf[..cp])
      decreases v
    {
      DigitStep(v, 11 - cp, []);
      DigitStep(v, width - cp, Reversed(buf[..cp]));
      ReversedAppend(buf[..cp], ZERO + v % 8);
      buf[cp] := ZERO + v % 8;
      assert buf[..cp + 1] == buf[..cp] + [buf[cp]];
      cp := cp + 1;
      v := v / 8;
    }
    while cp < 1 && cp < 63
      invariant cp <= 11 && cp <= width
      invariant Octal(value, width) == Octal(0, width - cp) + Reversed(buf[..cp])
    {
      OctalZero(width);
      OctalZero(width - 1);
      buf[cp] := ZERO;
      assert buf[..1] == [] + [ZERO];
      ReversedAppend([], ZERO);
      cp := cp + 1;
    }
    OctalZero(width - cp);
    var padCnt := if width < cp then 0 else width - cp;
    out := Repeat(ZERO, padCnt);
    while cp > 0
      invariant cp <= 11 && out + Reversed(buf[..cp]) == Octal(value, width)
    {
      cp := cp - 1;
      ReversedAppend(buf[..cp], buf[cp]);
      assert buf[..cp + 1] == buf[..cp] + [buf[cp]];
      out := out + [buf[cp]];
    }
    assert buf[..0] == [];
  }

  lemma Pow8Eleven()
    ensures Pow8(11) == 0x2_0000_0000
  {
    assert Pow8(3) == 512 && Pow8(6) == 512 * 512;
  }

  lemma ReversedNone()
    ensures Reversed([]) == []
  {
  }

  lemma ReversedAppend(s: seq<byte>, c: byte)
    ensures Reversed(s + [c]) == [c] + Reversed(s)
  {
    assert (s + [c])[..|s|] == s;
  }

  lemma DigitStep(v: nat, w: nat, rest: seq<byte>)
    requires 0 < v < Pow8(w)
    ensures w > 0 && v / 8 < Pow8(w - 1)
    ensures Octal(v, w) + rest == Octal(v / 8, w - 1) + ([ZERO + v % 8] + rest)
  {
  }

  lemma {:induction false} OctalZero(w: nat)
    ensures Octal(0, w) == Repeat(ZERO, w)
  {
    if w > 0 {
      OctalZero(w - 1);
    }
  }

  // ----- Reading -----

  /** The rest of parse_octal_field from byte ofs, with the number so far. */
  function ParseFrom(s: seq<byte>, ofs: nat, value: nat): Option<nat>
    requires ofs <= |s|
    decreases |s| - ofs
  {
    if ofs == |s| then None
    else if IsDigit(s[ofs]) then
      if value > ULONG_MAX / 8 then None else ParseFrom(s, ofs + 1, s[ofs] - ZERO + value * 8)
    else if (s[ofs] == 32 || s[ofs] == 0) && ofs > 0 then Some(value)
    else None
  }

  /** What the field means: digits up to a space or a null byte, as long as their number fits. */
  lemma {:induction false} ParseMeans(s: seq<byte>, k: nat, ofs: nat)
    requires ofs <= k < |s| && Digits(s[..k]) && !IsDigit(s[k])
    ensures 0 <= Value(s[..ofs]) <= Value(s[..k])
    ensures Value(s[..k]) <= ULONG_MAX ==>
      ParseFrom(s, ofs, Value(s[..ofs])) == if k > 0 && (s[k] == 32 || s[k] == 0) then Some(Value(s[..k])) else None
    ensures Value(s[..ofs]) <= ULONG_MAX < Value(s[..k]) ==> ParseFrom(s, ofs, Value(s[..ofs])) == None
    decreases k - ofs
  {
    assert Digits(s[..ofs]);
    ValueOctal(s[..ofs]);
    if ofs < k {
      assert s[..k][ofs] == s[ofs];
      assert s[..ofs + 1][..ofs] == s[..ofs];
      ParseMeans(s, k, ofs + 1);
    }
  }

  /** A number printed and terminated reads back. */
  lemma OctalInverse(n: nat, w: nat)
    requires n <= ULONG_MAX && n < Pow8(w) && w > 0
    ensures ParseFrom(Octal(n, w) + [0], 0, 0) == Some(n)
  {
    var s := Octal(n, w) + [0];
    assert s[..w] == Octal(n, w) && s[..0] == [];
    OctalValue(n, w);
    ParseMeans(s, w, 0);
  }

  /** parse_octal_field. */
  method ParseOctalField(s: seq<byte>) returns (r: Option<nat>)
    ensures r == ParseFrom(s, 0, 0)
  {
    var value: nat, ofs: nat := 0, 0;
    while ofs < |s|
      invariant ofs <= |s| && ParseFrom(s, 0, 0) == ParseFrom(s, ofs, value)
    {
      var c := s[ofs];
      if IsDigit(c) {
        if value > ULONG_MAX / 8 {
          return None;
        }
        value := c - ZERO + value * 8;
      } else if c == 32 || c == 0 {
        return if ofs > 0 then Some(value) else None;
      } else {
        return None;
      }
      ofs := ofs + 1;
    }
    r := None;
  }
}

/** ustar archive headers: 512 bytes made and read back. Names are C strings without their terminator. */
module UstarHeaders {
  import opened Basics
  import opened OctalFields

  const HEADER_SIZE: nat := 512
  const SLASH: byte := 47
  const DOT: byte := 46
  const MODE_OFS: nat := 100
  const UID_OFS: nat := 108
  const GID_OFS: nat := 116
  const SIZE_OFS: nat := 124
  const MTIME_OFS: nat := 136
  const CHKSUM_OFS: nat := 148
  const TYPE_OFS: nat := 156
  const MAGIC_OFS: nat := 257
  const VERSION_OFS: nat := 263
  const UNAME_OFS: nat := 265
  const GNAME_OFS: nat := 297
  const PREFIX_OFS: nat := 345
  const INT_MAX: nat := 0x7fff_ffff

  datatype FileType = Regular | Directory

  /** What ustar_parse_header reports. */
  datatype Parsed = EndOfArchive | File(name: seq<byte>, fileType: FileType, size: nat) | Failure(message: string)

  function TypeFlag(t: FileType): byte { if t == Regular then 48 else 53 }

  predicate NoNull(s: seq<byte>) { 0 !in s }

  // ----- File names -----

  predicate StartsWith(s: seq<byte>, p: seq<byte>) { |p| <= |s| && s[..|p|] == p }

  /** The name begins with a slash, "./" or "../". */
  predicate Antisocial(s: seq<byte>) {
    StartsWith(s, [SLASH]) || StartsWith(s, [DOT, SLASH]) || StartsWith(s, [DOT, DOT, SLASH])
  }

  /** One past the first slash. */
  function AfterSlash(s: seq<byte>): (i: nat)
    requires SLASH in s
    ensures 0 < i <= |s| && s[i - 1] == SLASH && SLASH !in s[..i - 1]
  {
    if s[0] == SLASH then 1 else
      assert s == [s[0]] + s[1..];
      1 + AfterSlash(s[1..])
  }

  lemma AntisocialHasSlash(s: seq<byte>)
    requires Antisocial(s)
    ensures SLASH in s
  {
    if StartsWith(s, [DOT, SLASH]) {
      assert s[1] == s[..2][1];
    } else if StartsWith(s, [DOT, DOT, SLASH]) {
      assert s[2] == s[..3][2];
    } else {
      assert s[0] == s[..1][0];
    }
  }

  function Dropped(s: seq<byte>): seq<byte>
    decreases |s|
  {
    if Antisocial(s) then
      AntisocialHasSlash(s);
      Dropped(s[AfterSlash(s)..])
    else s
  }

  /** strip_antisocial_prefixes. */
  function Stripped(s: seq<byte>): seq<byte> {
    var d := Dropped(s);
    if d == [] || d == [DOT, DOT] then [DOT] else d
  }

  method Strip(s: seq<byte>) returns (r: seq<byte>)
    ensures r == Stripped(s)
  {
    r := s;
    while Antisocial(r)
      invariant Dropped(s) == Dropped(r)
      decreases |r|
    {
      AntisocialHasSlash(r);
      r := r[AfterSlash(r)..];
    }
    if r == [] || r == [DOT, DOT] {
      r := [DOT];
    }
  }

  lemma {:induction false} DroppedFacts(s: seq<byte>)
    ensures !Antisocial(Dropped(s)) && |Dropped(s)| <= |s| && (NoNull(s) ==> NoNull(Dropped(s)))
    decreases |s|
  {
    if Antisocial(s) {
      AntisocialHasSlash(s);
      DroppedFacts(s[AfterSlash(s)..]);
    }
  }

  /** A stripped name has no dangerous prefix, is not empty or "..", and stripping it again changes nothing. */
  lemma StripIdempotent(s: seq<byte>)
    ensures !Antisocial(Stripped(s)) && Stripped(s) != [] && Stripped(s) != [DOT, DOT]
    ensures Stripped(Stripped(s)) == Stripped(s)
    ensures NoNull(s) ==> NoNull(Stripped(s))
  {
    DroppedFacts(s);
    assert [DOT][..1][0] == DOT != [SLASH][0];
    assert !Antisocial([DOT]);
  }

  /** The first k bytes are a run of "/", "./" and "../". */
  ghost predicate IsRun(s: seq<byte>, k: nat)
    decreases k
  {
    || k == 0
    || (k >= 1 && StartsWith(s, [47]) && IsRun(s[1..], k - 1))
    || (k >= 2 && StartsWith(s, [46, 47]) && IsRun(s[2..], k - 2))
    || (k >= 3 && StartsWith(s, [46, 46, 47]) && IsRun(s[3..], k - 3))
  }

  ghost predicate LongestRun(s: seq<byte>, k: nat) {
    k <= |s| && IsRun(s, k) && forall j: nat :: j > k ==> !IsRun(s, j)
  }

  lemma FirstSlash(s: seq<byte>, i: nat, j: nat)
    requires 0 < i <= |s| && SLASH !in s[..i - 1] && j < |s| && s[j] == SLASH
    ensures i - 1 <= j
  {
  }

  /** The length of the one piece a dangerous name begins with is where its first slash ends. */
  lemma PieceLength(s: seq<byte>)
    requires Antisocial(s) && SLASH in s
    ensures StartsWith(s, [47]) <==> AfterSlash(s) == 1
    ensures StartsWith(s, [46, 47]) <==> AfterSlash(s) == 2
    ensures StartsWith(s, [46, 46, 47]) <==> AfterSlash(s) == 3
  {
    var i := AfterSlash(s);
    hide AfterSlash;
    assert |s| > 0 && s[..1][0] == s[0];
    assert |s| > 1 ==> s[..2][0] == s[0] && s[..2][1] == s[1];
    assert |s| > 2 ==> s[..3][0] == s[0] && s[..3][1] == s[1] && s[..3][2] == s[2];
    assert i > 1 ==> s[..i - 1][0] == s[0];
    assert i > 2 ==> s[..i - 1][1] == s[1];
    assert i <= 3 by { FirstSlash(s, i, if s[0] == 47 then 0 else if s[1] == 47 then 1 else 2); }
  }

  lemma {:induction false} DroppedIs(s: seq<byte>) returns (k: nat)
    ensures LongestRun(s, k) && Dropped(s) == s[k..]
    decreases |s|
  {
    if Antisocial(s) {
      AntisocialHasSlash(s);
      PieceLength(s);
      var i := AfterSlash(s);
      hide AfterSlash, StartsWith;
      var m := DroppedIs(s[i..]);
      k := i + m;
      assert s[i..][m..] == s[k..];
      forall j: nat | j > k
        ensures !IsRun(s, j)
      {
        assert !IsRun(s[i..], j - i);
      }
    } else {
      k := 0;
    }
  }

  predicate IsOrDot(r: seq<byte>, s: seq<byte>) { r == if s == [] || s == [46, 46] then [46] else s }

  /** What is left of a name after the longest run of "/", "./" and "../" at its front, or "." if that is nothing or
      "..". */
  lemma StrippedIs(s: seq<byte>)
    ensures exists k: nat :: LongestRun(s, k) && IsOrDot(Stripped(s), s[k..])
  {
    var k := DroppedIs(s);
    assert k <= |s|;
    hide LongestRun, Dropped;
    assert IsOrDot(Stripped(s), s[k..]);
  }

  // ----- Fields -----

  /** h with data at byte o. */
  function Put(h: seq<byte>, o: nat, data: seq<byte>): (r: seq<byte>)
    requires o + |data| <= |h|
    ensures |r| == |h|
    ensures forall i {:trigger r[i]} :: 0 <= i < |h| ==> r[i] == if o <= i < o + |data| then data[i - o] else h[i]
  {
    h[..o] + data + h[o + |data|..]
  }

  ghost predicate Holds(h: seq<byte>, o: nat, data: seq<byte>) {
    o + |data| <= |h| && h[o..o + |data|] == data
  }

  lemma PutHolds(h: seq<byte>, o: nat, data: seq<byte>)
    requires o + |data| <= |h|
    ensures Holds(Put(h, o, data), o, data)
  {
  }

  lemma PutKeeps(h: seq<byte>, o: nat, data: seq<byte>, p: nat, other: seq<byte>)
    requires o + |data| <= |h| && Holds(h, p, other) && (p + |other| <= o || o + |data| <= p)
    ensures Holds(Put(h, o, data), p, other)
  {
    var r := Put(h, o, data);
    forall i | 0 <= i < |other|
      ensures r[p..p + |other|][i] == other[i]
    {
      assert r[p + i] == h[p + i] && h[p..p + |other|][i] == h[p + i];
    }
  }

  /** Writing a field of the header. */
  method Write(h: array<byte>, o: nat, data: seq<byte>)
    requires o + |data| <= h.Length
    modifies h
    ensures h[..] == Put(old(h[..]), o, data)
  {
    var i := 0;
    while i < |data|
      invariant i <= |data|
      invariant forall j :: 0 <= j < h.Length ==> h[j] == if o <= j < o + i then data[j - o] else old(h[j])
    {
      h[o + i] := data[i];
      i := i + 1;
    }
    assert h[..] == Put(old(h[..]), o, data);
  }

  // ----- Checksum -----

  /** The sum of the first n bytes, the chksum field counting as spaces. */
  function Sum(h: seq<byte>, n: nat): (s: nat)
    requires n <= |h|
    ensures s <= 255 * n
  {
    if n == 0 then 0
    else Sum(h, n - 1) + (if CHKSUM_OFS <= n - 1 < CHKSUM_OFS + 8 then 32 else h[n - 1])
  }

  /** calculate_chksum. */
  method Chksum(h: array<byte>) returns (sum: nat)
    requires h.Length == HEADER_SIZE
    ensures sum == Sum(h[..], HEADER_SIZE)
  {
    sum := 0;
    var i := 0;
    while i < HEADER_SIZE
      invariant i <= HEADER_SIZE && sum == Sum(h[..], i)
    {
      var inField := CHKSUM_OFS <= i < CHKSUM_OFS + 8;
      sum := sum + if inField then 32 else h[i];
      i := i + 1;
    }
  }

  /** The checksum does not depend on its own field. */
  lemma {:induction false} SumIgnoresField(h: seq<byte>, data: seq<byte>, n: nat)
    requires n <= |h| && |data| == 8 && CHKSUM_OFS + 8 <= |h|
    ensures Sum(Put(h, CHKSUM_OFS, data), n) == Sum(h, n)
  {
    if n > 0 {
      SumIgnoresField(h, data, n - 1);
    }
  }

  // ----- Making headers -----

  const USTAR: seq<byte> := [117, 115, 116, 97, 114, 0]
  const ROOT: seq<byte> := [114, 111, 111, 116, 0]
  const MTIME: nat := 1136102400

  /** A size as an unsigned 32-bit number, as the octal conversion takes it. */
  function Unsigned(size: int): nat
    requires -0x8000_0000 <= size <= INT_MAX
  {
    if size < 0 then size + 0x1_0000_0000 else size
  }

  function Mode(t: FileType): nat { if t == Regular then 420 else 493 }

  /** The header before its checksum, field by field. */
  function Unsummed(name: seq<byte>, t: FileType, size: int): (h: seq<byte>)
    requires |name| <= 99 && -0x8000_0000 <= size <= INT_MAX
    ensures |h| == HEADER_SIZE
  {
    var h := Put(Repeat(0, HEADER_SIZE), 0, name + [0]);
    var h := Put(h, MODE_OFS, Octal(Mode(t), 7) + [0]);
    var h := Put(h, UID_OFS, Octal(0, 7) + [0]);
    var h := Put(h, GID_OFS, Octal(0, 7) + [0]);
    var h := Put(h, SIZE_OFS, Octal(Unsigned(size), 11) + [0]);
    var h := Put(h, MTIME_OFS, Octal(MTIME, 11) + [0]);
    var h := Put(h, TYPE_OFS, [TypeFlag(t)]);
    var h := Put(h, MAGIC_OFS, USTAR);
    var h := Put(h, VERSION_OFS, [48, 48]);
    var h := Put(h, GNAME_OFS, ROOT);
    Put(h, UNAME_OFS, ROOT)
  }

  function Header(name: seq<byte>, t: FileType, size: int): (h: seq<byte>)
    requires |name| <= 99 && -0x8000_0000 <= size <= INT_MAX
    ensures |h| == HEADER_SIZE
  {
    var h := Unsummed(name, t, size);
    Put(h, CHKSUM_OFS, Octal(Sum(h, HEADER_SIZE), 7) + [0])
  }

  lemma OctalSizes()
    ensures Pow8(7) == 0x20_0000 && Pow8(11) == 0x2_0000_0000
  {
    Pow8Eleven();
  }

  /** ustar_make_header: false, and nothing written, exactly when the stripped name is too long. */
  method MakeHeader(fileName: seq<byte>, t: FileType, size: int, header: array<byte>) returns (ok: bool)
    requires header.Length == HEADER_SIZE && -0x8000_0000 <= size <= INT_MAX
    modifies header
    ensures ok <==> |Stripped(fileName)| <= 99
    ensures header[..] == if ok then Header(Stripped(fileName), t, size) else old(header[..])
  {
    hide Octal, Pow8, Stripped, Sum, Digits;
    OctalSizes();
    var name := Strip(fileName);
    if |name| > 99 {
      return false;
    }
    Clear(header);
    Write(header, 0, name + [0]);
    var mode := FormatOctal(Mode(t), 7);
    Write(header, MODE_OFS, mode + [0]);
    var id := FormatOctal(0, 7);
    Write(header, UID_OFS, id + [0]);
    Write(header, GID_OFS, id + [0]);
    var sz := FormatOctal(Unsigned(size), 11);
    Write(header, SIZE_OFS, sz + [0]);
    var mtime := FormatOctal(MTIME, 11);
    Write(header, MTIME_OFS, mtime + [0]);
    Write(header, TYPE_OFS, [TypeFlag(t)]);
    Write(header, MAGIC_OFS, USTAR);
    Write(header, VERSION_OFS, [48, 48]);
    Write(header, GNAME_OFS, ROOT);
    Write(header, UNAME_OFS, ROOT);
    assert header[..] == Unsummed(name, t, size);
    var sum := Chksum(header);
    var chksum := FormatOctal(sum, 7);
    Write(header, CHKSUM_OFS, chksum + [0]);
    ok := true;
  }

  /** memset to zero. */
  method Clear(h: array<byte>)
    modifies h
    ensures h[..] == Repeat(0, h.Length)
  {
    var i := 0;
    while i < h.Length
      invariant i <= h.Length && forall j :: 0 <= j < i ==> h[j] == 0
    {
      h[i] := 0;
      i := i + 1;
    }
  }

  // ----- Reading headers -----

  /** The C string at the start of s. */
  function CString(s: seq<byte>): seq<byte> {
    if s == [] || s[0] == 0 then [] else [s[0]] + CString(s[1..])
  }

  /** What ustar_parse_header makes of a header. */
  function ParseResult(h: seq<byte>): Parsed
    requires |h| == HEADER_SIZE
  {
    if forall i :: 0 <= i < |h| ==> h[i] == 0 then EndOfArchive
    else if h[MAGIC_OFS..MAGIC_OFS + 6] != USTAR then Failure("not a ustar archive")
    else if h[VERSION_OFS..VERSION_OFS + 2] != [48, 48] then Failure("invalid ustar version")
    else
      var sum := ParseFrom(h[CHKSUM_OFS..CHKSUM_OFS + 8], 0, 0);
      if sum.None? then Failure("corrupt chksum field")
      else if sum.value != Sum(h, HEADER_SIZE) then Failure("checksum mismatch")
      else if h[99] != 0 || h[PREFIX_OFS] != 0 then Failure("file name too long")
      else if h[TYPE_OFS] != TypeFlag(Regular) && h[TYPE_OFS] != TypeFlag(Directory) then
        Failure("unimplemented file type")
      else if h[TYPE_OFS] == TypeFlag(Directory) then File(Stripped(CString(h[..100])), Directory, 0)
      else
        var size := ParseFrom(h[SIZE_OFS..SIZE_OFS + 12], 0, 0);
        if size.None? then Failure("corrupt file size field")
        else if size.value > INT_MAX then Failure("file too large")
        else File(Stripped(CString(h[..100])), Regular, size.value)
  }

  /** A header the reader takes: the magic string and version, a checksum field with the sum of the bytes, a name that
      ends, no prefix, one of the two types, and for a regular file a size of at most 2^31 - 1. */
  ghost predicate Readable(h: seq<byte>)
    requires |h| == 512
  {
    && h[257..263] == [117, 115, 116, 97, 114, 0] && h[263] == 48 && h[264] == 48
    && ParseFrom(h[148..156], 0, 0) == Some(Sum(h, 512)) && h[99] == 0 && h[345] == 0
    && (h[156] == 53 || (h[156] == 48 && SizeReads(h)))
  }

  ghost predicate SizeReads(h: seq<byte>)
    requires |h| == 512
  {
    var size := ParseFrom(h[124..136], 0, 0);
    size.Some? && size.value <= 0x7fff_ffff
  }

  /** 512 zeros end the archive, a readable header gives its name, type and size, and anything else is refused. */
  lemma ParseExact(h: seq<byte>)
    requires |h| == 512
    ensures var r := ParseResult(h);
      && (r.EndOfArchive? <==> forall i :: 0 <= i < 512 ==> h[i] == 0)
      && (r.File? <==> Readable(h))
      && (r.File? ==> r.name == Stripped(CString(h[..100])) && (r.fileType == Directory <==> h[156] == 53))
      && (r.File? && r.fileType == Directory ==> r.size == 0)
      && (r.File? && r.fileType == Regular ==> ParseFrom(h[124..136], 0, 0) == Some(r.size))
  {
    hide Sum, Stripped, CString, ParseFrom;
    assert h[263..265] == [h[263], h[264]];
    assert h[257..263][0] == h[257];
  }

  lemma {:induction false} SumUpdate(h: seq<byte>, i: nat, x: byte, n: nat)
    requires i < |h| && n <= |h| && !(CHKSUM_OFS <= i < CHKSUM_OFS + 8)
    ensures Sum(h[i := x], n) == if i < n then Sum(h, n) - h[i] + x else Sum(h, n)
  {
    if n > 0 {
      SumUpdate(h, i, x, n - 1);
    }
  }

  /** The sum of an empty header: the chksum field counts as eight spaces. */
  lemma {:induction false} SumOfZeros(n: nat)
    requires n <= 512
    ensures Sum(Repeat(0, 512), n) == 32 * if n <= 148 then 0 else if n <= 156 then n - 148 else 8
  {
    if n > 0 {
      SumOfZeros(n - 1);
    }
  }

  /** A header that can be read can no longer be read after any one byte outside the chksum field has changed. */
  lemma CorruptionRefused(h: seq<byte>, i: nat, x: byte)
    requires |h| == 512 && ParseResult(h).File? && i < 512 && !(148 <= i < 156) && x != h[i]
    ensures ParseResult(h[i := x]).Failure?
  {
    var g := h[i := x];
    ParseExact(h);
    ParseExact(g);
    SumUpdate(h, i, x, 512);
    assert g[148..156] == h[148..156];
    hide ParseResult, ParseFrom, Sum, Stripped, CString;
    assert h[257..263][0] == h[257] && h[257..263][1] == h[258];
    assert g[257] != 0 || g[258] != 0;
  }

  /** ustar_parse_header. */
  method ParseHeader(h: array<byte>) returns (r: Parsed)
    requires h.Length == HEADER_SIZE
    ensures r == ParseResult(h[..])
  {
    hide Sum, Stripped, CString, ParseFrom;
    var zero := AllZeros(h);
    if zero {
      return EndOfArchive;
    }
    if h[MAGIC_OFS..MAGIC_OFS + 6] != USTAR {
      return Failure("not a ustar archive");
    } else if h[VERSION_OFS] != 48 || h[VERSION_OFS + 1] != 48 {
      var v := h[VERSION_OFS..VERSION_OFS + 2];
      assert h[VERSION_OFS] == v[0] && h[VERSION_OFS + 1] == v[1];
      return Failure("invalid ustar version");
    }
    assert h[VERSION_OFS..VERSION_OFS + 2] == [48, 48];
    var chksum := ParseOctalField(h[CHKSUM_OFS..CHKSUM_OFS + 8]);
    if chksum.None? {
      return Failure("corrupt chksum field");
    }
    var sum := Chksum(h);
    if chksum.value != sum {
      return Failure("checksum mismatch");
    } else if h[99] != 0 || h[PREFIX_OFS] != 0 {
      return Failure("file name too long");
    } else if h[TYPE_OFS] != TypeFlag(Regular) && h[TYPE_OFS] != TypeFlag(Directory) {
      return Failure("unimplemented file type");
    }
    var size := Some(0);
    if h[TYPE_OFS] == TypeFlag(Regular) {
      size := ParseOctalField(h[SIZE_OFS..SIZE_OFS + 12]);
      if size.None? {
        return Failure("corrupt file size field");
      } else if size.value > INT_MAX {
        return Failure("file too large");
      }
    }
    var name := Strip(CString(h[..100]));
    r := File(name, if h[TYPE_OFS] == TypeFlag(Regular) then Regular else Directory, size.value);
  }

  /** is_all_zeros. */
  method AllZeros(h: array<byte>) returns (r: bool)
    ensures r <==> forall i :: 0 <= i < h.Length ==> h[..][i] == 0
  {
    var i := 0;
    while i < h.Length
      invariant i <= h.Length && forall j :: 0 <= j < i ==> h[..][j] == 0
    {
      if h[i] != 0 {
        assert h[..][i] != 0;
        return false;
      }
      i := i + 1;
    }
    r := true;
  }

  // ----- Round trip -----

  /** The fields of a header that reading looks at. */
  ghost predicate Fields(h: seq<byte>, name: seq<byte>, t: FileType, size: int)
    requires -0x8000_0000 <= size <= INT_MAX
  {
    && |h| == HEADER_SIZE
    && Holds(h, 0, name + [0]) && Holds(h, SIZE_OFS, Octal(Unsigned(size), 11) + [0])
    && Holds(h, TYPE_OFS, [TypeFlag(t)]) && Holds(h, MAGIC_OFS, USTAR) && Holds(h, VERSION_OFS, [48, 48])
    && h[99] == 0 && h[PREFIX_OFS] == 0
  }

  /** A write clear of the fields leaves them. */
  lemma FieldsKept(h: seq<byte>, name: seq<byte>, t: FileType, size: int, o: nat, data: seq<byte>)
    requires |name| <= 99 && -0x8000_0000 <= size <= INT_MAX && Fields(h, name, t, size)
    requires (CHKSUM_OFS <= o && o + |data| <= TYPE_OFS) || (UNAME_OFS <= o && o + |data| <= PREFIX_OFS)
    ensures Fields(Put(h, o, data), name, t, size)
  {
    hide Holds, Octal, Digits;
    PutKeeps(h, o, data, 0, name + [0]);
    PutKeeps(h, o, data, SIZE_OFS, Octal(Unsigned(size), 11) + [0]);
    PutKeeps(h, o, data, TYPE_OFS, [TypeFlag(t)]);
    PutKeeps(h, o, data, MAGIC_OFS, USTAR);
    PutKeeps(h, o, data, VERSION_OFS, [48, 48]);
  }

  lemma HeaderFields(name: seq<byte>, t: FileType, size: int)
    requires |name| <= 99 && -0x8000_0000 <= size <= INT_MAX
    ensures Fields(Header(name, t, size), name, t, size)
  {
    hide Holds, Octal, Digits, Sum;
    var n, z := name + [0], Octal(Unsigned(size), 11) + [0];
    var h1 := Put(Repeat(0, HEADER_SIZE), 0, n);
    PutHolds(Repeat(0, HEADER_SIZE), 0, n);
    var h2 := Put(h1, MODE_OFS, Octal(Mode(t), 7) + [0]);
    PutKeeps(h1, MODE_OFS, Octal(Mode(t), 7) + [0], 0, n);
    var h3 := Put(h2, UID_OFS, Octal(0, 7) + [0]);
    PutKeeps(h2, UID_OFS, Octal(0, 7) + [0], 0, n);
    var h4 := Put(h3, GID_OFS, Octal(0, 7) + [0]);
    PutKeeps(h3, GID_OFS, Octal(0, 7) + [0], 0, n);
    var h5 := Put(h4, SIZE_OFS, z);
    PutKeeps(h4, SIZE_OFS, z, 0, n);
    PutHolds(h4, SIZE_OFS, z);
    var h6 := Put(h5, MTIME_OFS, Octal(MTIME, 11) + [0]);
    PutKeeps(h5, MTIME_OFS, Octal(MTIME, 11) + [0], 0, n);
    PutKeeps(h5, MTIME_OFS, Octal(MTIME, 11) + [0], SIZE_OFS, z);
    assert h6[99] == 0 && h6[PREFIX_OFS] == 0;
    TailFields(h6, name, t, size);
  }

  lemma TailFields(h: seq<byte>, name: seq<byte>, t: FileType, size: int)
    requires |name| <= 99 && -0x8000_0000 <= size <= INT_MAX && |h| == HEADER_SIZE
    requires Holds(h, 0, name + [0]) && Holds(h, SIZE_OFS, Octal(Unsigned(size), 11) + [0])
    requires h[99] == 0 && h[PREFIX_OFS] == 0
    ensures var f := Put(Put(Put(h, TYPE_OFS, [TypeFlag(t)]), MAGIC_OFS, USTAR), VERSION_OFS, [48, 48]);
      var g := Put(Put(f, GNAME_OFS, ROOT), UNAME_OFS, ROOT);
      Fields(Put(g, CHKSUM_OFS, Octal(Sum(g, HEADER_SIZE), 7) + [0]), name, t, size)
  {
    hide Holds, Octal, Digits, Sum;
    var n, z, f := name + [0], Octal(Unsigned(size), 11) + [0], [TypeFlag(t)];
    var h1 := Put(h, TYPE_OFS, f);
    PutKeeps(h, TYPE_OFS, f, 0, n);
    PutKeeps(h, TYPE_OFS, f, SIZE_OFS, z);
    PutHolds(h, TYPE_OFS, f);
    var h2 := Put(h1, MAGIC_OFS, USTAR);
    PutKeeps(h1, MAGIC_OFS, USTAR, 0, n);
    PutKeeps(h1, MAGIC_OFS, USTAR, SIZE_OFS, z);
    PutKeeps(h1, MAGIC_OFS, USTAR, TYPE_OFS, f);
    PutHolds(h1, MAGIC_OFS, USTAR);
    var h3 := Put(h2, VERSION_OFS, [48, 48]);
    PutKeeps(h2, VERSION_OFS, [48, 48], 0, n);
    PutKeeps(h2, VERSION_OFS, [48, 48], SIZE_OFS, z);
    PutKeeps(h2, VERSION_OFS, [48, 48], TYPE_OFS, f);
    PutKeeps(h2, VERSION_OFS, [48, 48], MAGIC_OFS, USTAR);
    PutHolds(h2, VERSION_OFS, [48, 48]);
    assert Fields(h3, name, t, size);
    hide Fields;
    FieldsKept(h3, name, t, size, GNAME_OFS, ROOT);
    var h4 := Put(h3, GNAME_OFS, ROOT);
    FieldsKept(h4, name, t, size, UNAME_OFS, ROOT);
    var h5 := Put(h4, UNAME_OFS, ROOT);
    FieldsKept(h5, name, t, size, CHKSUM_OFS, Octal(Sum(h5, HEADER_SIZE), 7) + [0]);
  }

  /** Byte i of a field that starts at o and holds data, followed by zeros. */
  function In(data: seq<byte>, o: nat, i: nat): byte
    requires o <= i
  {
    if i - o < |data| then data[i - o] else 0
  }

  /** Every byte of a header: name, mode, user and group ids, size, time, checksum, type, magic, version, user and group
      names, each padded with zeros. */
  lemma HeaderAt(name: seq<byte>, t: FileType, size: int, i: nat)
    requires |name| <= 99 && -0x8000_0000 <= size <= INT_MAX && i < 512
    ensures Header(name, t, size)[i] ==
      if i < 100 then In(name, 0, i)
      else if i < 108 then In(Octal(if t == Regular then 6 * 64 + 4 * 8 + 4 else 7 * 64 + 5 * 8 + 5, 7), 100, i)
      else if i < 116 then In(Octal(0, 7), 108, i)
      else if i < 124 then In(Octal(0, 7), 116, i)
      else if i < 136 then In(Octal(Unsigned(size), 11), 124, i)
      else if i < 148 then In(Octal(1136102400, 11), 136, i)
      else if i < 156 then In(Octal(Sum(Unsummed(name, t, size), 512), 7), 148, i)
      else if i < 157 then (if t == Regular then 48 else 53)
      else if i < 257 then 0
      else if i < 263 then In([117, 115, 116, 97, 114], 257, i)
      else if i < 265 then 48
      else if i < 297 then In([114, 111, 111, 116], 265, i)
      else In([114, 111, 111, 116], 297, i)
  {
    hide Octal, Sum, Digits;
  }

  lemma {:induction false} CStringOf(s: seq<byte>, name: seq<byte>)
    requires NoNull(name) && |name| < |s| && s[..|name| + 1] == name + [0]
    ensures CString(s) == name
  {
    assert s[0] == s[..|name| + 1][0];
    if name != [] {
      var r := s[1..];
      assert r[..|name|] == s[..|name| + 1][1..] == name[1..] + [0];
      CStringOf(r, name[1..]);
      assert name == [name[0]] + name[1..];
    }
  }

  /** Reading a header that was made: the stripped name and the type come back, and the size too, except
      that a directory's is 0 and a regular file with a negative size is refused. */
  lemma RoundTrip(fileName: seq<byte>, t: FileType, size: int)
    requires NoNull(fileName) && |Stripped(fileName)| <= 99 && -0x8000_0000 <= size <= INT_MAX
    ensures ParseResult(Header(Stripped(fileName), t, size)) ==
      if t == Directory then File(Stripped(fileName), Directory, 0)
      else if size < 0 then Failure("file too large")
      else File(Stripped(fileName), Regular, size)
  {
    hide Sum, Header, Stripped, CString, Octal, ParseFrom, NoNull, Pow8, Digits;
    var name := Stripped(fileName);
    var h := Header(name, t, size);
    StripIdempotent(fileName);
    HeaderFields(name, t, size);
    assert h[MAGIC_OFS] == USTAR[0];
    assert h[TYPE_OFS] == h[TYPE_OFS..TYPE_OFS + 1][0];
    SumReadsBack(name, t, size);
    OctalSizes();
    OctalInverse(Unsigned(size), 11);
    CStringOf(h[..100], name) by {
      assert h[..100][..|name| + 1] == h[0..|name| + 1];
    }
  }

  lemma SumReadsBack(name: seq<byte>, t: FileType, size: int)
    requires |name| <= 99 && -0x8000_0000 <= size <= INT_MAX
    ensures var h := Header(name, t, size);
      ParseFrom(h[CHKSUM_OFS..CHKSUM_OFS + 8], 0, 0) == Some(Sum(h, HEADER_SIZE))
  {
    var g := Unsummed(name, t, size);
    hide Unsummed, Octal, ParseFrom;
    var sum := Sum(g, HEADER_SIZE);
    var field := Octal(sum, 7) + [0];
    OctalSizes();
    OctalInverse(sum, 7);
    PutHolds(g, CHKSUM_OFS, field);
    SumIgnoresField(g, field, HEADER_SIZE);
  }
}
