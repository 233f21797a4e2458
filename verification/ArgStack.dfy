/** Splitting a command line into its words. */
module Tokens {
  import opened Basics

  const SPACE: byte := 32

  /** The first position from i on that holds a delimiter, or not one, as wanted; or the length. */
  function Find(s: seq<byte>, d: set<byte>, i: nat, isDelim: bool): (j: nat)
    requires i <= |s|
    ensures i <= j <= |s| && (j < |s| ==> (s[j] in d) == isDelim)
    ensures forall k :: i <= k < j ==> (s[k] in d) != isDelim
    decreases |s| - i
  {
    if i == |s| || (s[i] in d) == isDelim then i else Find(s, d, i + 1, isDelim)
  }

  datatype Span = Span(start: nat, end: nat)

  /** The words from position i on, as spans of s. */
  function Spans(s: seq<byte>, d: set<byte>, i: nat): seq<Span>
    requires i <= |s|
    decreases |s| - i
  {
    var a := Find(s, d, i, false);
    if a == |s| then []
    else
      var b := Find(s, d, a, true);
      [Span(a, b)] + Spans(s, d, b)
  }

  ghost predicate InSpan(sp: Span, k: nat) { sp.start <= k < sp.end }

  /** A maximal run of bytes that are not delimiters. */
  ghost predicate MaximalRun(s: seq<byte>, d: set<byte>, sp: Span) {
    && sp.start < sp.end <= |s| && (forall k :: sp.start <= k < sp.end ==> s[k] !in d)
    && (sp.start > 0 ==> s[sp.start - 1] in d) && (sp.end < |s| ==> s[sp.end] in d)
  }

  /** The words are maximal delimiter-free runs, in order. */
  lemma {:induction false} SpansAreRuns(s: seq<byte>, d: set<byte>, i: nat)
    requires i <= |s| && (0 < i < |s| ==> s[i] in d || s[i - 1] in d)
    ensures forall k :: 0 <= k < |Spans(s, d, i)| ==>
      MaximalRun(s, d, Spans(s, d, i)[k]) && Spans(s, d, i)[k].start >= i
    ensures forall k, l :: 0 <= k < l < |Spans(s, d, i)| ==> Spans(s, d, i)[k].end < Spans(s, d, i)[l].start
    decreases |s| - i
  {
    var a := Find(s, d, i, false);
    if a < |s| {
      var b := Find(s, d, a, true);
      SpansAreRuns(s, d, b);
      var all, rest := Spans(s, d, i), Spans(s, d, b);
      assert all == [Span(a, b)] + rest;
      assert forall k :: 0 < k < |all| ==> all[k] == rest[k - 1];
      forall k | 0 <= k < |rest|
        ensures rest[k].start > b
      {
        assert MaximalRun(s, d, rest[k]) && s[rest[k].start..rest[k].end][0] == s[rest[k].start];
      }
      assert MaximalRun(s, d, Span(a, b));
      hide Spans, MaximalRun;
    }
  }

  /** Every byte that is not a delimiter is in a word. */
  lemma {:induction false} SpansCover(s: seq<byte>, d: set<byte>, i: nat, p: nat)
    requires i <= p < |s| && s[p] !in d
    ensures Covered(Spans(s, d, i), p)
    decreases |s| - i
  {
    var a := Find(s, d, i, false);
    var b := Find(s, d, a, true);
    var all, rest := Spans(s, d, i), Spans(s, d, b);
    if p < b {
      assert InSpan(all[0], p);
    } else {
      SpansCover(s, d, b, p);
      CoveredMore(all, rest, p);
    }
  }

  ghost predicate Covered(sps: seq<Span>, p: nat) {
    exists k :: 0 <= k < |sps| && InSpan(sps[k], p)
  }

  lemma CoveredMore(all: seq<Span>, rest: seq<Span>, p: nat)
    requires Covered(rest, p) && |all| == |rest| + 1 && forall k :: 0 < k < |all| ==> all[k] == rest[k - 1]
    ensures Covered(all, p)
  {
    var k :| 0 <= k < |rest| && InSpan(rest[k], p);
    assert all[k + 1] == rest[k];
  }

  /** The words themselves. */
  function Words(s: seq<byte>, d: set<byte>, i: nat): seq<seq<byte>>
    requires i <= |s|
    decreases |s| - i
  {
    var a := Find(s, d, i, false);
    if a == |s| then []
    else
      var b := Find(s, d, a, true);
      [s[a..b]] + Words(s, d, b)
  }

  lemma {:induction false} WordsAreSpans(s: seq<byte>, d: set<byte>, i: nat)
    requires i <= |s|
    ensures |Words(s, d, i)| == |Spans(s, d, i)|
    ensures forall k :: 0 <= k < |Words(s, d, i)| ==>
      var sp := Spans(s, d, i)[k]; sp.start <= sp.end <= |s| && Words(s, d, i)[k] == s[sp.start..sp.end]
    decreases |s| - i
  {
    var a := Find(s, d, i, false);
    if a < |s| {
      WordsAreSpans(s, d, Find(s, d, a, true));
    }
  }

  /** A delimiter at i changes nothing. */
  lemma WordsSkip(s: seq<byte>, d: set<byte>, i: nat)
    requires i < |s| && s[i] in d
    ensures Words(s, d, i) == Words(s, d, i + 1)
  {
  }

  /** From position i on, the buffer still holds the line and its null byte. */
  ghost predicate Rest(buf: seq<byte>, line: seq<byte>, i: nat) {
    |buf| == |line| + 1 && buf[|line|] == 0 && forall k :: i <= k < |line| ==> buf[k] == line[k]
  }

  /** strtok_r, with any set of delimiters: the next word, terminated in place, and where to go on. */
  method Strtok(buf: array<byte>, d: set<byte>, start: nat, ghost line: seq<byte>)
    returns (token: Option<nat>, save: nat)
    requires 0 !in d && 0 !in line && start <= |line| && Rest(buf[..], line, start)
    modifies buf
    ensures start <= save <= |line| && Rest(buf[..], line, save)
    ensures token.None? <==> Find(line, d, start, false) == |line|
    ensures token.Some? ==> IsNext(buf[..], line, d, start, token.value, save)
  {
    var s := start;
    while buf[s] in d || buf[s] == 0
      invariant start <= s <= |line| && Find(line, d, start, false) == Find(line, d, s, false)
      decreases |line| - s
    {
      assert s < |line| ==> line[s] in line;
      if buf[s] == 0 {
        return None, s;
      }
      s := s + 1;
    }
    token := Some(s);
    while !(buf[s] in d || buf[s] == 0)
      invariant token.value <= s <= |line| && Find(line, d, token.value, true) == Find(line, d, s, true)
      decreases |line| - s
    {
      s := s + 1;
    }
    assert s < |line| ==> line[s] in line;
    if buf[s] != 0 {
      buf[s] := 0;
      save := s + 1;
    } else {
      save := s;
    }
  }

  /** The bytes of the C string at a. */
  method ReadString(buf: array<byte>, a: nat, ghost n: nat) returns (r: seq<byte>)
    requires a + n < buf.Length && buf[a + n] == 0 && 0 !in buf[a..a + n]
    ensures r == buf[a..a + n]
  {
    var e := a;
    while buf[e] != 0
      invariant a <= e <= a + n
      decreases a + n - e
    {
      e := e + 1;
    }
    r := buf[a..e];
  }

  /** parse_filename: the command line's words, however many there are. */
  method ParseFilename(line: seq<byte>, d: set<byte>) returns (args: seq<seq<byte>>)
    requires 0 !in d && 0 !in line
    ensures args == Words(line, d, 0)
  {
    hide Words, IsNext;
    var buf := new byte[|line| + 1](i requires 0 <= i <= |line| => if i < |line| then line[i] else 0);
    args := [];
    var token, save := Strtok(buf, d, 0, line);
    ghost var i := 0;
    while token.Some?
      invariant buf.Length == |line| + 1 && i <= save <= |line| && Rest(buf[..], line, save)
      invariant args + Words(line, d, i) == Words(line, d, 0)
      invariant token.None? <==> Find(line, d, i, false) == |line|
      invariant token.Some? ==> IsNext(buf[..], line, d, i, token.value, save)
      decreases |line| - i
    {
      NextString(buf[..], line, d, i, token.value, save);
      ghost var n := Find(line, d, token.value, true) - token.value;
      assert buf[token.value..token.value + n] == buf[..][token.value..token.value + n];
      var w := ReadString(buf, token.value, n);
      args := args + [w];
      i := save;
      token, save := Strtok(buf, d, save, line);
    }
    NoMoreWords(line, d, i);
  }

  lemma NoMoreWords(line: seq<byte>, d: set<byte>, i: nat)
    requires i <= |line| && Find(line, d, i, false) == |line|
    ensures Words(line, d, i) == []
  {
  }

  /** The string Strtok answers with is the next word, and the words after it are those from save on. */
  lemma NextString(buf: seq<byte>, line: seq<byte>, d: set<byte>, i: nat, token: nat, save: nat)
    requires i <= |line| && |buf| == |line| + 1 && 0 !in line && IsNext(buf, line, d, i, token, save)
    ensures var b := Find(line, d, token, true);
      && i <= token < b < |buf| && i < save <= |line| && buf[b] == 0 && 0 !in buf[token..b]
      && Words(line, d, i) == [buf[token..b]] + Words(line, d, save)
  {
    var b := Find(line, d, token, true);
    if b < |line| {
      WordsSkip(line, d, b);
    }
  }

  /** Strtok's answer from position i. */
  ghost predicate IsNext(buf: seq<byte>, line: seq<byte>, d: set<byte>, i: nat, token: nat, save: nat)
    requires i <= |line| && |buf| == |line| + 1
  {
    var a := Find(line, d, i, false);
    var b := Find(line, d, a, true);
    && token == a < |line| && save == (if b < |line| then b + 1 else b)
    && buf[a..b] == line[a..b] && buf[b] == 0
  }
}

/** The initial user stack: the words, the pointers to them and their number. */
module ArgStack {
  import opened Basics
  import opened Tokens

  const PHYS_BASE: nat := 0xc000_0000
  const PAGE: nat := 4096
  const MAX_ARGS: nat := 128

  // ----- Words of memory -----

  /** A 32-bit word in memory, low byte first. */
  function Word(x: nat): (w: seq<byte>)
    ensures |w| == 4
  {
    [x % 256, x / 256 % 256, x / 65536 % 256, x / 16777216 % 256]
  }

  function WordValue(m: seq<byte>, i: nat): nat
    requires i + 4 <= |m|
  {
    var b0: nat, b1: nat, b2: nat, b3: nat := m[i], m[i + 1], m[i + 2], m[i + 3];
    b0 + 256 * b1 + 65536 * b2 + 16777216 * b3
  }

  lemma WordInverse(m: seq<byte>, i: nat, x: nat)
    requires x < 0x1_0000_0000 && i + 4 <= |m| && m[i..i + 4] == Word(x)
    ensures WordValue(m, i) == x
  {
    var w := m[i..i + 4];
    assert m[i] == w[0] && m[i + 1] == w[1] && m[i + 2] == w[2] && m[i + 3] == w[3];
    var y := x / 256;
    var z := y / 256;
    assert x / 65536 == z && x / 16777216 == z / 256;
  }

  /** The C string at index i of m. */
  ghost predicate StringAt(m: seq<byte>, i: nat, s: seq<byte>) {
    i + |s| < |m| && m[i..i + |s|] == s && m[i + |s|] == 0
  }

  // ----- The frame -----

  /** The words in memory order, each with its terminator. */
  function Strings(args: seq<seq<byte>>): seq<byte> {
    if args == [] then [] else args[0] + [0] + Strings(args[1..])
  }

  /** Zeros that make the strings a multiple of four bytes long. */
  function Padding(n: nat): (p: nat)
    ensures p < 4 && (n + p) % 4 == 0
  {
    if n % 4 != 0 then 4 - n % 4 else 0
  }

  /** The address of each word from the i-th on, with the strings ending at top. */
  function Pointers(args: seq<seq<byte>>, top: nat): (p: seq<byte>)
    requires |Strings(args)| <= top
    ensures |p| == 4 * |args|
  {
    if args == [] then [] else Word(top - |Strings(args)|) + Pointers(args[1..], top)
  }

  function Zeros(k: nat): (s: seq<byte>)
    ensures |s| == k && forall i :: 0 <= i < k ==> s[i] == 0
  {
    seq(k, _ => 0)
  }

  /** How many bytes construct_ESP pushes. */
  function FrameSize(args: seq<seq<byte>>): nat {
    |Strings(args)| + Padding(|Strings(args)|) + 4 + 4 * |args| + 12
  }

  /** Everything it pushes below top. */
  function Frame(args: seq<seq<byte>>, top: nat): (f: seq<byte>)
    requires FrameSize(args) <= top
    ensures |f| == FrameSize(args)
  {
    var s := Strings(args);
    var sp := top - FrameSize(args);
    Zeros(4) + Word(|args|) + Word(sp + 12) + Pointers(args, top) + Zeros(4) + Zeros(Padding(|s|)) + s
  }

  /** The user stack page, and the stack pointer. */
  class Stack {
    const page: array<byte>
    var esp: nat

    ghost predicate Valid()
      reads this
    {
      page.Length == PAGE && PHYS_BASE - PAGE <= esp <= PHYS_BASE
    }

    /** setup_stack: a zeroed page, with the pointer 12 bytes below the top. */
    constructor ()
      ensures Valid() && esp == PHYS_BASE - 12 && fresh(page)
    {
      page := new byte[PAGE](_ => 0);
      esp := PHYS_BASE - 12;
    }

    /** The bytes from the stack pointer up to top. */
    ghost function Used(top: nat): seq<byte>
      requires Valid() && esp <= top <= PHYS_BASE
      reads this, page
    {
      page[esp - (PHYS_BASE - PAGE)..top - (PHYS_BASE - PAGE)]
    }

    /** The bytes from top up. */
    ghost function Above(top: nat): seq<byte>
      requires page.Length == PAGE && PHYS_BASE - PAGE <= top <= PHYS_BASE
      reads page
    {
      page[top - (PHYS_BASE - PAGE)..]
    }

    /** Moves the pointer down by the length of data and writes data there. */
    method Push(data: seq<byte>, ghost top: nat)
      requires Valid() && esp <= top <= PHYS_BASE && PHYS_BASE - PAGE + |data| <= esp
      modifies this`esp, page
      ensures Valid() && esp == old(esp) - |data| && Used(top) == data + old(Used(top)) && Above(top) == old(Above(top))
    {
      esp := esp - |data|;
      var o := esp - (PHYS_BASE - PAGE);
      var i := 0;
      while i < |data|
        invariant i <= |data| && esp == old(esp) - |data|
        invariant forall k :: 0 <= k < i ==> page[o + k] == data[k]
        invariant forall k :: o + |data| <= k < PAGE ==> page[k] == old(page[k])
      {
        page[o + i] := data[i];
        i := i + 1;
      }
      assert page[o..o + |data|] == data;
    }

    /** construct_ESP: strings from the last to the first, padding, a null pointer, the pointers, and the
        three words a call of main expects. */
    method ConstructEsp(args: seq<seq<byte>>)
      requires Valid() && |args| <= MAX_ARGS && PHYS_BASE - PAGE + FrameSize(args) <= esp
      modifies this`esp, page
      ensures Valid() && esp == old(esp) - FrameSize(args) && Used(old(esp)) == Frame(args, old(esp))
      ensures Above(old(esp)) == old(Above(esp))
    {
      ghost var top := esp;
      hide Strings, Pointers, Used, Above, Word, Zeros;
      var addr, total := PushStrings(args);
      Pad(total, top);
      PushZeros(top);
      PushPointers(args, addr, top);
      Push(Word(esp), top);
      Push(Word(|args|), top);
      PushZeros(top);
      FrameIs(args, top);
    }

    method PushZeros(ghost top: nat)
      requires Valid() && esp <= top <= PHYS_BASE && PHYS_BASE - PAGE + 4 <= esp
      modifies this`esp, page
      ensures Valid() && esp == old(esp) - 4 && Used(top) == Zeros(4) + old(Used(top)) && Above(top) == old(Above(top))
    {
      hide Used, Above;
      Push([0, 0, 0, 0], top);
      assert [0, 0, 0, 0] == Zeros(4);
    }

    /** The padding loop. */
    method Pad(total: nat, ghost top: nat)
      requires Valid() && esp <= top <= PHYS_BASE && PHYS_BASE - PAGE + Padding(total) <= esp
      modifies this`esp, page
      ensures Valid() && esp == old(esp) - Padding(total)
      ensures Used(top) == Zeros(Padding(total)) + old(Used(top)) && Above(top) == old(Above(top))
    {
      hide Used, Above;
      var i := 0;
      ghost var used := Used(top);
      assert Zeros(0) + used == used;
      if total % 4 != 0 {
        while i < 4 - total % 4
          invariant Valid() && i <= Padding(total) && esp == old(esp) - i
          invariant Used(top) == Zeros(i) + used && Above(top) == old(Above(top))
        {
          Push([0], top);
          assert [0] + (Zeros(i) + used) == Zeros(i + 1) + used;
          i := i + 1;
        }
      }
    }

    method PushPointers(args: seq<seq<byte>>, addr: seq<nat>, ghost top: nat)
      requires Valid() && esp <= top <= PHYS_BASE && PHYS_BASE - PAGE + 4 * |args| <= esp && |Strings(args)| <= top
      requires addr == Addresses(args, top)
      modifies this`esp, page
      ensures Valid() && esp == old(esp) - 4 * |args|
      ensures Used(top) == Pointers(args, top) + old(Used(top)) && Above(top) == old(Above(top))
    {
      ghost var used := Used(top);
      var i: nat := |args|;
      NoPointers(args, top, used);
      hide *;
      while i > 0
        invariant Valid() && i <= |args| == |addr| && esp == old(esp) - 4 * (|args| - i) && |Strings(args[i..])| <= top
        invariant Used(top) == Pointers(args[i..], top) + used && Above(top) == old(Above(top))
      {
        i := i - 1;
        PointersFrom(args, i, top);
        Assoc(Word(addr[i]), Pointers(args[i + 1..], top), used);
        Push(Word(addr[i]), top);
      }
      assert args[0..] == args;
    }

    method PushStrings(args: seq<seq<byte>>) returns (addr: seq<nat>, total: nat)
      requires Valid() && PHYS_BASE - PAGE + |Strings(args)| <= esp
      modifies this`esp, page
      ensures Valid() && total == |Strings(args)| && esp == old(esp) - total && Used(old(esp)) == Strings(args)
      ensures addr == Addresses(args, old(esp)) && Above(old(esp)) == old(Above(esp))
    {
      ghost var top := esp;
      addr, total := [], 0;
      var i: nat := |args|;
      assert args[i..] == [] && Used(top) == [];
      assert Addresses([], top) == [];
      hide Used, Above, Strings, Addresses;
      while i > 0
        invariant Valid() && i <= |args| && total == |Strings(args[i..])|
        invariant esp == top - total && Used(top) == Strings(args[i..])
        invariant addr == Addresses(args[i..], top) && Above(top) == old(Above(esp))
      {
        i := i - 1;
        StringsFrom(args, i);
        AddressesFrom(args, i, top);
        Assoc(args[i], [0], Strings(args[i + 1..]));
        total := total + |args[i]| + 1;
        Push(args[i] + [0], top);
        addr := [esp] + addr;
      }
      assert args[0..] == args;
    }
  }

  /** Where each string starts, the strings ending at top. */
  function Addresses(args: seq<seq<byte>>, top: nat): (r: seq<nat>)
    requires |Strings(args)| <= top
    ensures |r| == |args|
  {
    if args == [] then [] else [top - |Strings(args)|] + Addresses(args[1..], top)
  }

  lemma AddressesFrom(args: seq<seq<byte>>, i: nat, top: nat)
    requires i < |args| && |Strings(args)| <= top
    ensures |Strings(args[i..])| <= top && |Strings(args[i + 1..])| <= top
    ensures Addresses(args[i..], top) == [top - |Strings(args[i..])|] + Addresses(args[i + 1..], top)
  {
    StringsFrom(args, i);
    assert args[i..][1..] == args[i + 1..];
  }

  lemma {:induction false} AddressAt(args: seq<seq<byte>>, i: nat, top: nat)
    requires i < |args| && |Strings(args)| <= top
    ensures |Strings(args[i..])| <= top && Addresses(args, top)[i] == top - |Strings(args[i..])|
  {
    StringsFrom(args, i);
    if i > 0 {
      var r := args[1..];
      assert r[i - 1..] == args[i..];
      StringsFrom(args, 0);
      AddressAt(r, i - 1, top);
    } else {
      assert args[0..] == args;
    }
  }

  lemma NoPointers(args: seq<seq<byte>>, top: nat, used: seq<byte>)
    requires |Strings(args)| <= top
    ensures |args| == |Addresses(args, top)| && |Strings(args[|args|..])| <= top
    ensures Pointers(args[|args|..], top) + used == used
  {
  }

  lemma PointersFrom(args: seq<seq<byte>>, i: nat, top: nat)
    requires i < |args| && |Strings(args)| <= top
    ensures |Strings(args[i..])| <= top && |Strings(args[i + 1..])| <= top
    ensures i < |Addresses(args, top)|
    ensures Pointers(args[i..], top) == Word(Addresses(args, top)[i]) + Pointers(args[i + 1..], top)
    ensures |Word(Addresses(args, top)[i])| == 4
  {
    StringsFrom(args, i);
    AddressAt(args, i, top);
    assert args[i..][1..] == args[i + 1..];
  }

  /** The pushes, one on top of the other, are the frame. */
  lemma FrameIs(args: seq<seq<byte>>, top: nat)
    requires FrameSize(args) <= top
    ensures var s := Strings(args);
      Frame(args, top) == Zeros(4) + (Word(|args|) + (Word(top - FrameSize(args) + 12) +
                            (Pointers(args, top) + (Zeros(4) + (Zeros(Padding(|s|)) + s)))))
  {
    hide Strings, Pointers, Word, Zeros;
    var s, a, b, c := Strings(args), Zeros(4), Word(|args|), Word(top - FrameSize(args) + 12);
    var p, z := Pointers(args, top), Zeros(4);
    var q := Zeros(Padding(|s|));
    Assoc(a + b + c + p + z, q, s);
    Assoc(a + b + c + p, z, q + s);
    Assoc(a + b + c, p, z + (q + s));
    Assoc(a + b, c, p + (z + (q + s)));
    Assoc(a, b, c + (p + (z + (q + s))));
  }

  lemma Assoc(a: seq<byte>, b: seq<byte>, c: seq<byte>)
    ensures a + b + c == a + (b + c)
  {
  }

  /** The strings from the i-th on: one more, and no longer than all. */
  lemma {:induction false} StringsFrom(args: seq<seq<byte>>, i: nat)
    requires i < |args|
    ensures Strings(args[i..]) == args[i] + [0] + Strings(args[i + 1..])
    ensures |Strings(args[i..])| <= |Strings(args)|
  {
    assert args[i..][0] == args[i] && args[i..][1..] == args[i + 1..];
    if i > 0 {
      var r := args[1..];
      assert r[i - 1..] == args[i..];
      StringsFrom(r, i - 1);
    }
  }

  // ----- Reading the frame back -----

  lemma Middle(u: seq<byte>, v: seq<byte>, w: seq<byte>, f: seq<byte>)
    requires f == u + v + w
    ensures f[|u|..|u| + |v|] == v
  {
  }

  lemma SliceOfSlice(f: seq<byte>, o: nat, n: nat, a: nat)
    requires o + n <= |f| && a + 4 <= n
    ensures f[o..o + n][a..a + 4] == f[o + a..o + a + 4]
  {
    var g := f[o..o + n];
    var u, v := g[a..a + 4], f[o + a..o + a + 4];
    forall i | 0 <= i < 4
      ensures u[i] == v[i]
    {
      assert g[a + i] == f[o + a + i];
    }
  }

  lemma {:induction false} PointerAt(args: seq<seq<byte>>, i: nat, top: nat)
    requires i < |args| && |Strings(args)| <= top
    ensures Pointers(args, top)[4 * i..4 * i + 4] == Word(Addresses(args, top)[i])
  {
    var p, q := Pointers(args, top), Pointers(args[1..], top);
    assert p == Word(top - |Strings(args)|) + q;
    if i > 0 {
      PointerAt(args[1..], i - 1, top);
      assert p[4 * i..4 * i + 4] == q[4 * (i - 1)..4 * (i - 1) + 4];
    }
  }

  /** The i-th string, among the strings. */
  lemma {:induction false} StringIn(args: seq<seq<byte>>, i: nat)
    requires i < |args|
    ensures |Strings(args[i..])| <= |Strings(args)|
    ensures StringAt(Strings(args), |Strings(args)| - |Strings(args[i..])|, args[i])
  {
    var s := Strings(args);
    StringsFrom(args, i);
    if i > 0 {
      var r := args[1..];
      assert r[i - 1..] == args[i..];
      StringIn(r, i - 1);
      var t := Strings(r);
      assert s == (args[0] + [0]) + t;
      Later(args[0] + [0], t, |t| - |Strings(args[i..])|, args[i]);
    } else {
      assert args[0..] == args;
      assert s == args[0] + [0] + Strings(args[1..]);
    }
  }

  lemma Later(u: seq<byte>, t: seq<byte>, o: nat, a: seq<byte>)
    requires StringAt(t, o, a)
    ensures StringAt(u + t, |u| + o, a)
  {
    assert (u + t)[|u| + o..|u| + o + |a|] == t[o..o + |a|];
  }

  /** What main finds: a null return address, argc, argv, and behind it argc pointers and a null one. */
  ghost predicate HeadOk(args: seq<seq<byte>>, f: seq<byte>, sp: nat)
    requires |f| >= 16 + 4 * |args|
  {
    && WordValue(f, 0) == 0 && WordValue(f, 4) == |args| && WordValue(f, 8) == sp + 12
    && WordValue(f, 12 + 4 * |args|) == 0
  }

  /** argv[i] points behind the pointers, at the i-th word with its terminator; the strings follow one
      another up to top. */
  ghost predicate ArgOk(args: seq<seq<byte>>, f: seq<byte>, sp: nat, top: nat, i: nat)
    requires i < |args| && |f| >= 16 + 4 * |args|
  {
    var a := WordValue(f, 12 + 4 * i);
    && sp + 16 + 4 * |args| <= a < top && StringAt(f, a - sp, args[i])
    && a + |args[i]| + 1 == if i + 1 < |args| then WordValue(f, 12 + 4 * (i + 1)) else top
  }

  /** Reading argc, argv and the strings back from the final stack pointer gives the words. */
  lemma ReadBack(args: seq<seq<byte>>, top: nat)
    requires FrameSize(args) <= top < 0x1_0000_0000 && |args| <= MAX_ARGS
    ensures var f, sp := Frame(args, top), top - FrameSize(args);
      && |f| >= 16 + 4 * |args| && HeadOk(args, f, sp) && (top % 4 == 0 ==> sp % 4 == 0)
      && forall i: nat :: i < |args| ==> ArgOk(args, f, sp, top, i)
  {
    hide Strings, Frame, Pointers, Word, Zeros, Addresses, HeadOk, ArgOk;
    var f, sp := Frame(args, top), top - FrameSize(args);
    HeadReads(args, top);
    forall i: nat | i < |args|
      ensures ArgOk(args, f, sp, top, i)
    {
      ArgReads(args, top, i);
    }
  }

  lemma HeadReads(args: seq<seq<byte>>, top: nat)
    requires FrameSize(args) <= top < 0x1_0000_0000 && |args| <= MAX_ARGS
    ensures HeadOk(args, Frame(args, top), top - FrameSize(args))
  {
    hide Strings, Pointers, Word, WordValue, Addresses, Zeros;
    var f, sp := Frame(args, top), top - FrameSize(args);
    var s, n, b, c, p := Strings(args), |args|, Word(|args|), Word(sp + 12), Pointers(args, top);
    var z, q := Zeros(4), Zeros(Padding(|s|));
    ZeroWord();
    FrameIs(args, top);
    Middle([], z, b + (c + (p + (z + (q + s)))), f);
    WordInverse(f, 0, 0);
    Middle(z, b, c + (p + (z + (q + s))), f) by {
      Assoc(z, b, c + (p + (z + (q + s))));
    }
    WordInverse(f, 4, n);
    Middle(z + b, c, p + (z + (q + s)), f) by {
      Assoc(z, b, c + (p + (z + (q + s))));
      Assoc(z + b, c, p + (z + (q + s)));
    }
    WordInverse(f, 8, sp + 12);
    Middle(z + b + c + p, z, q + s, f) by {
      Assoc(z + b + c + p + z, q, s);
    }
    WordInverse(f, 12 + 4 * n, 0);
  }

  lemma ZeroWord()
    ensures Zeros(4) == Word(0)
  {
  }

  lemma PointerReads(args: seq<seq<byte>>, top: nat, i: nat)
    requires FrameSize(args) <= top < 0x1_0000_0000 && i < |args|
    ensures |Frame(args, top)| >= 16 + 4 * |args| && |Strings(args[i..])| <= top
    ensures WordValue(Frame(args, top), 12 + 4 * i) == top - |Strings(args[i..])|
  {
    var f := Frame(args, top);
    var s, b, c, p := Strings(args), Word(|args|), Word(top - FrameSize(args) + 12), Pointers(args, top);
    var z, q := Zeros(4), Zeros(Padding(|s|));
    hide Strings, Pointers, Word, WordValue, Addresses, Zeros;
    Middle(z + b + c, p, z + (q + s), f) by {
      FrameIs(args, top);
      Assoc(z, b, c + (p + (z + (q + s))));
      Assoc(z + b, c, p + (z + (q + s)));
      Assoc(z + b + c, p, z + (q + s));
    }
    assert f[12..12 + 4 * |args|] == p;
    hide Frame;
    AddressAt(args, i, top);
    PointerAt(args, i, top);
    SliceOfSlice(f, 12, 4 * |args|, 4 * i);
    WordInverse(f, 12 + 4 * i, top - |Strings(args[i..])|);
  }

  lemma ArgReads(args: seq<seq<byte>>, top: nat, i: nat)
    requires FrameSize(args) <= top < 0x1_0000_0000 && i < |args|
    ensures ArgOk(args, Frame(args, top), top - FrameSize(args), top, i)
  {
    hide Strings, Frame, WordValue, StringAt;
    PointerReads(args, top, i);
    StringReads(args, top, i);
    if i + 1 < |args| {
      PointerReads(args, top, i + 1);
    } else {
      NoStrings(args);
    }
  }

  /** String i is where its pointer says, and the next one is right behind it. */
  lemma StringReads(args: seq<seq<byte>>, top: nat, i: nat)
    requires FrameSize(args) <= top < 0x1_0000_0000 && i < |args|
    ensures var f, o := Frame(args, top), FrameSize(args) - |Strings(args[i..])|;
      && |f| == FrameSize(args) && 16 + 4 * |args| <= o < |f| && StringAt(f, o, args[i])
      && |Strings(args[i..])| == |args[i]| + 1 + |Strings(args[i + 1..])|
  {
    var f, s := Frame(args, top), Strings(args);
    var o := |f| - |s|;
    assert f == f[..o] + s;
    hide Strings, Frame, WordValue;
    StringIn(args, i);
    StringsFrom(args, i);
    Later(f[..o], s, |s| - |Strings(args[i..])|, args[i]);
  }

  lemma NoStrings(args: seq<seq<byte>>)
    ensures Strings(args[|args|..]) == []
  {
  }

  /** The whole way: a command line's words come back from the stack it starts with. */
  method StartProcess(line: seq<byte>) returns (ok: bool, stack: Stack)
    requires 0 !in line
    ensures ok <==> |Words(line, {SPACE}, 0)| <= MAX_ARGS && FrameSize(Words(line, {SPACE}, 0)) <= PAGE - 12
    ensures fresh(stack) && stack.Valid()
    ensures ok ==>
      var args, sp, top := Words(line, {SPACE}, 0), stack.esp, PHYS_BASE - 12;
      && sp % 4 == 0 && sp == top - FrameSize(args) && |stack.Used(top)| >= 16 + 4 * |args|
      && HeadOk(args, stack.Used(top), sp) && forall i: nat :: i < |args| ==> ArgOk(args, stack.Used(top), sp, top, i)
  {
    hide Words, HeadOk, ArgOk, Frame, FrameSize;
    stack := new Stack();
    var args := ParseFilename(line, {SPACE});
    ok := |args| <= MAX_ARGS && FrameSize(args) <= PAGE - 12;
    if ok {
      stack.ConstructEsp(args);
      ReadBack(args, PHYS_BASE - 12);
    }
  }
}
