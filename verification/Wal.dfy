/** SQLite write-ahead log frames: layout and checksum, sections 4.1 and 4.2 of the SQLite
    Database File Format (`bottomless/src/wal.rs`, `bottomless/src/read.rs`). */
module Wal {
  import opened Basics
  import opened PageFile

  type U32 = x: int | 0 <= x < 0x1_0000_0000 witness 0

  const WAL_HEADER_SIZE: nat := 32
  const FRAME_HEADER_SIZE: nat := 24

  // ---------------------------------------------------------------- checksums

  /** The two halves of a 64-bit checksum. */
  datatype Crc = Crc(s1: U32, s2: U32)

  function Add32(a: U32, b: U32): U32 {
    (a + b) % U32_RANGE
  }

  /** One turn of the checksum loop, over two words. */
  function Mix(c: Crc, x: U32, y: U32): Crc {
    var s1 := Add32(Add32(c.s1, x), c.s2);
    Crc(s1, Add32(Add32(c.s2, y), s1))
  }

  /** The word with the given bytes, the lowest first. */
  function Join(a: int, b: int, c: int, d: int): (w: int)
    requires 0 <= a < 0x100 && 0 <= b < 0x100 && 0 <= c < 0x100 && 0 <= d < 0x100
    ensures 0 <= w < U32_RANGE
  {
    a + 0x100 * b + 0x1_0000 * c + 0x100_0000 * d
  }

  lemma LowByte(a: int, k: int, b: int, l: int)
    requires 0 <= a < 0x100 && 0 <= b < 0x100 && a + 0x100 * k == b + 0x100 * l
    ensures a == b && k == l
  {
  }

  lemma JoinIsInjective(a: int, b: int, c: int, d: int, e: int, f: int, g: int, h: int)
    requires 0 <= a < 0x100 && 0 <= b < 0x100 && 0 <= c < 0x100 && 0 <= d < 0x100
    requires 0 <= e < 0x100 && 0 <= f < 0x100 && 0 <= g < 0x100 && 0 <= h < 0x100
    requires Join(a, b, c, d) == Join(e, f, g, h)
    ensures a == e && b == f && c == g && d == h
  {
    LowByte(a, b + 0x100 * (c + 0x100 * d), e, f + 0x100 * (g + 0x100 * h));
    LowByte(b, c + 0x100 * d, f, g + 0x100 * h);
    LowByte(c, d, g, h);
  }

  lemma JoinDiffers(x: Bytes, y: Bytes, i: nat, j: nat)
    requires |x| == |y| && i + 4 <= |x| && i <= j < i + 4 && x[j] != y[j]
    ensures WordAt(x, i) != WordAt(y, i)
  {
    hide Join;
    if WordAt(x, i) == WordAt(y, i) {
      JoinIsInjective(x[i], x[i + 1], x[i + 2], x[i + 3], y[i], y[i + 1], y[i + 2], y[i + 3]);
    }
  }

  /** The word at `i` in the byte order of the machine, little-endian. */
  function WordAt(bytes: Bytes, i: nat): U32
    requires i + 4 <= |bytes|
  {
    Join(bytes[i], bytes[i + 1], bytes[i + 2], bytes[i + 3])
  }

  function MixBlock(c: Crc, bytes: Bytes, i: nat): Crc
    requires i + 8 <= |bytes|
  {
    Mix(c, WordAt(bytes, i), WordAt(bytes, i + 4))
  }

  function Checksum(init: Crc, bytes: Bytes): Crc {
    if |bytes| < 8 then init
    else MixBlock(Checksum(init, bytes[..|bytes| - 8]), bytes, |bytes| - 8)
  }

  // ---------------------------------------------------------------- the checksum in closed form

  function Fib(n: nat): nat {
    if n < 2 then n else Fib(n - 1) + Fib(n - 2)
  }

  /** The sum of `Fib(|words| - 1 - i + shift) * words[i]`. */
  function Weighted(words: seq<int>, shift: nat): int {
    if words == [] then 0
    else Weighted(words[..|words| - 1], shift + 1) + Fib(shift) * words[|words| - 1]
  }

  lemma {:induction false} WeightedAt(words: seq<int>, shift: nat, i: nat)
    requires i < |words|
    ensures Weighted(words, shift) - Weighted(words[i := 0], shift) == Fib(|words| - 1 - i + shift) * words[i]
  {
    var n := |words| - 1;
    if i == n {
      assert words[i := 0][..n] == words[..n];
    } else {
      assert words[i := 0][..n] == words[..n][i := 0];
      WeightedAt(words[..n], shift + 1, i);
    }
  }

  lemma {:induction false} WeightedRule(words: seq<int>, shift: nat)
    ensures Weighted(words, shift + 2) == Weighted(words, shift + 1) + Weighted(words, shift)
  {
    if words != [] {
      var n := |words| - 1;
      WeightedRule(words[..n], shift + 1);
      assert Fib(shift + 2) == Fib(shift + 1) + Fib(shift);
      Distribute(Fib(shift + 1), Fib(shift), words[n]);
    }
  }

  lemma Distribute(a: int, b: int, c: int)
    ensures (a + b) * c == a * c + b * c
  {
  }

  lemma WeightedBlock(words: seq<int>, x: int, y: int)
    ensures Weighted(words + [x, y], 0) == Weighted(words, 0) + Weighted(words, 1) + x
    ensures Weighted(words + [x, y], 1) == Weighted(words + [x, y], 0) + Weighted(words, 1) + y
  {
    var w, n := words + [x, y], |words|;
    assert w[..n + 1] == words + [x] && (words + [x])[..n] == words;
    WeightedRule(words, 0);
    WeightedRule(words, 1);
    WeightedMore(words + [x], y, w, 0);
    WeightedMore(words + [x], y, w, 1);
    WeightedMore(words, x, words + [x], 1);
    WeightedMore(words, x, words + [x], 2);
    FirstFibs();
  }

  lemma WeightedMore(words: seq<int>, x: int, more: seq<int>, shift: nat)
    requires more == words + [x]
    ensures Weighted(more, shift) == Weighted(words, shift + 1) + Fib(shift) * x
  {
    assert more[..|words|] == words;
  }

  /** The number that four bytes stand for, the lowest first. */
  function LittleEndian(b: Bytes): nat {
    if b == [] then 0 else b[0] + 256 * LittleEndian(b[1..])
  }

  ghost predicate AreWords(words: seq<int>, bytes: Bytes) {
    && |bytes| == 4 * |words|
    && forall i :: 0 <= i < |words| ==> words[i] == LittleEndian(bytes[4 * i..4 * i + 4])
  }

  lemma WordIs(bytes: Bytes, i: nat)
    requires i + 4 <= |bytes|
    ensures WordAt(bytes, i) == LittleEndian(bytes[i..i + 4])
  {
    var b := bytes[i..i + 4];
    assert b[1..][1..] == b[2..] && b[2..][1..] == b[3..] && b[3..][1..] == [];
    var p: int, q: int, r: int := b[1], b[2], b[3];
    assert LittleEndian(b[3..]) == r;
    assert LittleEndian(b[2..]) == q + 256 * r;
    assert LittleEndian(b[1..]) == p + 256 * (q + 256 * r);
  }

  function Sums32(words: seq<int>): Crc {
    Crc(Weighted(words, 0) % 0x1_0000_0000, Weighted(words, 1) % 0x1_0000_0000)
  }

  lemma MixIsBlock(words: seq<int>, x: U32, y: U32)
    ensures Mix(Sums32(words), x, y) == Sums32(words + [x, y])
  {
    hide Weighted;
    WeightedBlock(words, x, y);
    var a, b := Weighted(words, 0), Weighted(words, 1);
    AddThree(a, b, x);
    AddThree(b, a + b + x, y);
  }

  lemma AddThree(a: int, b: int, x: U32)
    ensures Add32(Add32(a % 0x1_0000_0000, x), b % 0x1_0000_0000) == (a + x + b) % 0x1_0000_0000
  {
    ReduceFirst(a, x);
    ReduceFirst(a + x, b % 0x1_0000_0000);
    ReduceFirst(b, a + x);
  }

  lemma ReduceFirst(a: int, b: int)
    ensures (a % 0x1_0000_0000 + b) % 0x1_0000_0000 == (a + b) % 0x1_0000_0000
  {
    var q, r := a / 0x1_0000_0000, a % 0x1_0000_0000;
    assert a + b == r + b + 0x1_0000_0000 * q;
    WholeTurns(r + b, q);
  }

  lemma WholeTurns(c: int, q: int)
    ensures (c + 0x1_0000_0000 * q) % 0x1_0000_0000 == c % 0x1_0000_0000
  {
  }

  /** The words that stand for a checksum so far. */
  function Before(init: Crc): seq<int> {
    [init.s1, init.s2 - init.s1]
  }

  lemma BeforeIs(init: Crc)
    ensures Sums32(Before(init)) == init
  {
    var a: int, b: int := init.s1, init.s2 - init.s1;
    assert [] + [a] == [a] && [a] + [b] == [a, b];
    WeightedMore([], a, [a], 1);
    WeightedMore([], a, [a], 2);
    WeightedMore([a], b, [a, b], 0);
    WeightedMore([a], b, [a, b], 1);
    FirstFibs();
  }

  lemma FirstFibs()
    ensures Fib(0) == 0 && Fib(1) == 1 && Fib(2) == 1
  {
  }

  /** The checksum of section 4.2: over the words of the bytes, and two words for the checksum
      that it starts from, the sums weighted with Fibonacci numbers, in 32 bits. */
  lemma {:induction false} ChecksumIsFibonacci(init: Crc, bytes: Bytes, words: seq<int>)
    requires AreWords(words, bytes) && |bytes| % 8 == 0
    ensures Checksum(init, bytes) == Sums32(Before(init) + words)
    decreases |bytes|
  {
    hide Sums32, Mix, Before, WordAt;
    if bytes == [] {
      assert Before(init) + words == Before(init);
      BeforeIs(init);
    } else {
      var n := |words|;
      var front, x, y := words[..n - 2], words[n - 2], words[n - 1];
      WordsFront(words, bytes);
      ChecksumIsFibonacci(init, bytes[..|bytes| - 8], front);
      WordIs(bytes, |bytes| - 8);
      WordIs(bytes, |bytes| - 4);
      MixIsBlock(Before(init) + front, x, y);
      assert Before(init) + front + [x, y] == Before(init) + words;
    }
  }

  lemma WordsFront(words: seq<int>, bytes: Bytes)
    requires AreWords(words, bytes) && |words| >= 2
    ensures AreWords(words[..|words| - 2], bytes[..|bytes| - 8])
  {
    var front := bytes[..|bytes| - 8];
    forall i | 0 <= i < |words| - 2
      ensures words[i] == LittleEndian(front[4 * i..4 * i + 4])
    {
      assert front[4 * i..4 * i + 4] == bytes[4 * i..4 * i + 4];
    }
  }

  /** From nothing: without the two words in front. */
  lemma ChecksumFromZero(bytes: Bytes, words: seq<int>)
    requires AreWords(words, bytes) && |bytes| % 8 == 0
    ensures Checksum(Crc(0, 0), bytes) == Sums32(words)
  {
    ChecksumIsFibonacci(Crc(0, 0), bytes, words);
    LeadingZeros(words, 0);
    LeadingZeros(words, 1);
  }

  lemma {:induction false} LeadingZeros(words: seq<int>, shift: nat)
    ensures Weighted([0, 0] + words, shift) == Weighted(words, shift)
  {
    if words == [] {
      var z: seq<int> := [0, 0];
      assert z + words == z && z[..1] == [0] && z[..1][..0] == [];
      assert Weighted(z[..1], shift + 1) == 0;
    } else {
      var n := |words| - 1;
      assert ([0, 0] + words)[..n + 2] == [0, 0] + words[..n];
      LeadingZeros(words[..n], shift + 1);
    }
  }

  /** The checksum of section 4.2, computed word by word. */
  method ChecksumBe(init: Crc, bytes: Bytes) returns (c: Crc)
    requires |bytes| % 8 == 0
    ensures c == Checksum(init, bytes)
    ensures forall words :: AreWords(words, bytes) ==> c == Sums32(Before(init) + words)
  {
    hide Mix, Join;
    c := init;
    var i := 0;
    while i < |bytes|
      invariant 0 <= i <= |bytes| && i % 8 == 0
      invariant c == Checksum(init, bytes[..i])
    {
      var next := bytes[..i + 8];
      assert next[..i] == bytes[..i];
      c := MixBlock(c, bytes, i);
      i := i + 8;
    }
    assert bytes[..i] == bytes;
    forall words | AreWords(words, bytes)
      ensures c == Sums32(Before(init) + words)
    {
      ChecksumIsFibonacci(init, bytes, words);
    }
  }

  // ---------------------------------------------------------------- what the checksum detects

  lemma {:induction false} ChecksumConcat(init: Crc, a: Bytes, b: Bytes)
    requires |b| % 8 == 0
    ensures Checksum(init, a + b) == Checksum(Checksum(init, a), b)
  {
    hide Mix, Join;
    if b == [] {
      assert a + b == a;
    } else {
      var front := b[..|b| - 8];
      assert (a + b)[..|a + b| - 8] == a + front;
      ChecksumConcat(init, a, front);
      assert MixBlock(Checksum(init, a + front), a + b, |a + b| - 8)
          == MixBlock(Checksum(Checksum(init, a), front), b, |b| - 8);
    }
  }

  lemma AddCancels(a: U32, b: U32, c: U32)
    ensures Add32(a, c) == Add32(b, c) ==> a == b
    ensures Add32(c, a) == Add32(c, b) ==> a == b
  {
  }

  /** From the words of a block and the checksum after it, the checksum before it follows. */
  lemma MixKeepsDifference(c: Crc, d: Crc, x: U32, y: U32)
    requires c != d
    ensures Mix(c, x, y) != Mix(d, x, y)
  {
    hide Add32;
    var r, t := Mix(c, x, y), Mix(d, x, y);
    if r == t {
      AddCancels(Add32(c.s2, y), Add32(d.s2, y), r.s1);
      AddCancels(c.s2, d.s2, y);
      AddCancels(Add32(c.s1, x), Add32(d.s1, x), c.s2);
      AddCancels(c.s1, d.s1, x);
    }
  }

  /** From the checksums before and after a block, its words follow. */
  lemma MixSeesWords(c: Crc, x: U32, y: U32, u: U32, v: U32)
    requires x != u || y != v
    ensures Mix(c, x, y) != Mix(c, u, v)
  {
    hide Add32;
    var r, t := Mix(c, x, y), Mix(c, u, v);
    if r == t {
      AddCancels(Add32(c.s1, x), Add32(c.s1, u), c.s2);
      AddCancels(x, u, c.s1);
      AddCancels(Add32(c.s2, y), Add32(c.s2, v), r.s1);
      AddCancels(y, v, c.s2);
    }
  }

  lemma {:induction false} ChecksumKeepsDifference(c: Crc, d: Crc, bytes: Bytes)
    requires c != d && |bytes| % 8 == 0
    ensures Checksum(c, bytes) != Checksum(d, bytes)
  {
    if bytes != [] {
      var n := |bytes| - 8;
      ChecksumKeepsDifference(c, d, bytes[..n]);
      MixKeepsDifference(Checksum(c, bytes[..n]), Checksum(d, bytes[..n]), WordAt(bytes, n), WordAt(bytes, n + 4));
    }
  }

  lemma WordsDiffer(x: Bytes, y: Bytes)
    requires |x| == |y| == 8 && x != y
    ensures WordAt(x, 0) != WordAt(y, 0) || WordAt(x, 4) != WordAt(y, 4)
  {
    hide WordAt;
    var j :| 0 <= j < 8 && x[j] != y[j];
    JoinDiffers(x, y, if j < 4 then 0 else 4, j);
  }

  /** The checksum detects every corruption that stays within one aligned block of 8 bytes. */
  lemma DetectsBlockCorruption(init: Crc, before: Bytes, x: Bytes, y: Bytes, after: Bytes)
    requires |after| % 8 == 0
    requires |x| == |y| == 8 && x != y
    ensures Checksum(init, before + x + after) != Checksum(init, before + y + after)
  {
    ChecksumConcat(init, before + x, after);
    ChecksumConcat(init, before + y, after);
    ChecksumConcat(init, before, x);
    ChecksumConcat(init, before, y);
    var c := Checksum(init, before);
    assert x[..0] == [] && y[..0] == [];
    WordsDiffer(x, y);
    MixSeesWords(c, WordAt(x, 0), WordAt(x, 4), WordAt(y, 0), WordAt(y, 4));
    assert Checksum(c, x) == MixBlock(c, x, 0) && Checksum(c, y) == MixBlock(c, y, 0);
    ChecksumKeepsDifference(Checksum(c, x), Checksum(c, y), after);
  }

  // ---------------------------------------------------------------- frames

  /** A frame: its header and its page. */
  datatype WalFrame = WalFrame(header: Bytes, page: Bytes)

  ghost predicate WellFormed(f: WalFrame, pageSize: nat) {
    |f.header| == FRAME_HEADER_SIZE && |f.page| == pageSize
  }

  ghost predicate AllWellFormed(fs: seq<WalFrame>, pageSize: nat) {
    forall i :: 0 <= i < |fs| ==> WellFormed(fs[i], pageSize)
  }

  function BigEndian32(bytes: Bytes, i: nat): U32
    requires i + 4 <= |bytes|
  {
    Join(bytes[i + 3], bytes[i + 2], bytes[i + 1], bytes[i])
  }

  /** The page of the database file that a frame is written to.  The number is taken less one
      in 32 bits, so that page 0, which SQLite does not write, wraps around. */
  function FramePage(f: WalFrame): PageNo
    requires |f.header| == FRAME_HEADER_SIZE
  {
    var pgno := BigEndian32(f.header, 0);
    if pgno == 0 then U32_RANGE else pgno
  }

  /** The size of the database after a commit, 0 for other frames. */
  function SizeAfter(f: WalFrame): U32
    requires |f.header| == FRAME_HEADER_SIZE
  {
    BigEndian32(f.header, 4)
  }

  predicate IsCommitted(f: WalFrame)
    requires |f.header| == FRAME_HEADER_SIZE
  {
    SizeAfter(f) != 0
  }

  function FrameCrc(f: WalFrame): Crc
    requires |f.header| == FRAME_HEADER_SIZE
  {
    Crc(BigEndian32(f.header, 16), BigEndian32(f.header, 20))
  }

  /** The checksum the frame should carry, given the one of the frame before. */
  function ExpectedCrc(f: WalFrame, init: Crc): Crc
    requires |f.header| == FRAME_HEADER_SIZE
  {
    Checksum(Checksum(init, f.header[..8]), f.page)
  }

  method Verify(f: WalFrame, init: Crc) returns (r: Option<Crc>)
    requires |f.header| == FRAME_HEADER_SIZE && |f.page| % 8 == 0
    ensures r == if ExpectedCrc(f, init) == FrameCrc(f) then Some(FrameCrc(f)) else None
  {
    var crc := ChecksumBe(init, f.header[..8]);
    crc := ChecksumBe(crc, f.page);
    return if crc == FrameCrc(f) then Some(crc) else None;
  }

  /** The bytes that the checksum of a frame covers. */
  function Checked(f: WalFrame): Bytes
    requires |f.header| == FRAME_HEADER_SIZE
  {
    f.header[..8] + f.page
  }

  lemma ExpectedIsChecksum(f: WalFrame, init: Crc)
    requires |f.header| == FRAME_HEADER_SIZE && |f.page| % 8 == 0
    ensures ExpectedCrc(f, init) == Checksum(init, Checked(f))
  {
    ChecksumConcat(init, f.header[..8], f.page);
  }

  /** A frame that verifies no longer does once the bytes of one aligned block of its page, or
      of the checked part of its header, have changed. */
  lemma VerifyRejectsCorruption(f: WalFrame, g: WalFrame, init: Crc, before: Bytes, x: Bytes, y: Bytes, after: Bytes)
    requires |f.header| == |g.header| == FRAME_HEADER_SIZE && f.header[8..] == g.header[8..]
    requires |f.page| % 8 == 0 && |g.page| % 8 == 0
    requires Checked(f) == before + x + after && Checked(g) == before + y + after
    requires |x| == |y| == 8 && x != y && |after| % 8 == 0
    requires ExpectedCrc(f, init) == FrameCrc(f)
    ensures ExpectedCrc(g, init) != FrameCrc(g)
  {
    hide Checksum, Checked, ExpectedCrc;
    DetectsBlockCorruption(init, before, x, y, after);
    ExpectedIsChecksum(f, init);
    ExpectedIsChecksum(g, init);
    SameCrcField(f, g);
  }

  lemma SameCrcField(f: WalFrame, g: WalFrame)
    requires |f.header| == |g.header| == FRAME_HEADER_SIZE && f.header[8..] == g.header[8..]
    ensures FrameCrc(f) == FrameCrc(g)
  {
    assert forall i :: 8 <= i < FRAME_HEADER_SIZE ==> f.header[i] == f.header[8..][i - 8];
    assert forall i :: 8 <= i < FRAME_HEADER_SIZE ==> g.header[i] == g.header[8..][i - 8];
  }

  // ---------------------------------------------------------------- files

  /** Frames one after another, as the log and the batch objects store them. */
  function Encode(fs: seq<WalFrame>): Bytes {
    if fs == [] then [] else fs[0].header + fs[0].page + Encode(fs[1..])
  }

  function FrameSize(pageSize: nat): nat {
    FRAME_HEADER_SIZE + pageSize
  }

  /** The size of `n` frames. */
  function FramesSize(n: nat, pageSize: nat): nat
  {
    assert n * FrameSize(pageSize) >= 0;
    n * FrameSize(pageSize)
  }

  lemma OneMoreFrame(n: nat, pageSize: nat)
    ensures FramesSize(n + 1, pageSize) == FramesSize(n, pageSize) + FrameSize(pageSize)
    ensures FramesSize(0, pageSize) == 0
  {
  }

  /** The page size and the checksum in the header of a log. */
  function HeaderPageSize(wal: Bytes): U32
    requires |wal| >= WAL_HEADER_SIZE
  {
    BigEndian32(wal, 8)
  }

  function HeaderChecksum(wal: Bytes): Crc
    requires |wal| >= WAL_HEADER_SIZE
  {
    Crc(BigEndian32(wal, 24), BigEndian32(wal, 28))
  }

  /** Where the frame with the given number, counted from 1, starts in the log. */
  function Offset(frameNo: nat, pageSize: nat): nat
    requires frameNo >= 1
  {
    WAL_HEADER_SIZE + FramesSize(frameNo - 1, pageSize)
  }

  lemma {:induction false} EncodeSize(fs: seq<WalFrame>, pageSize: nat)
    requires AllWellFormed(fs, pageSize)
    ensures |Encode(fs)| == FramesSize(|fs|, pageSize)
  {
    hide FramesSize;
    if fs == [] {
      OneMoreFrame(0, pageSize);
    } else {
      EncodeSize(fs[1..], pageSize);
      OneMoreFrame(|fs| - 1, pageSize);
    }
  }

  lemma {:induction false} EncodeConcat(a: seq<WalFrame>, b: seq<WalFrame>)
    ensures Encode(a + b) == Encode(a) + Encode(b)
  {
    if a == [] {
      assert a + b == b;
    } else {
      assert (a + b)[1..] == a[1..] + b;
      EncodeConcat(a[1..], b);
    }
  }

  /** Copying `n` frames from the offset of frame `start` copies exactly those frames. */
  lemma CopyFrames(walHeader: Bytes, fs: seq<WalFrame>, pageSize: nat, start: nat, n: nat)
    requires |walHeader| == WAL_HEADER_SIZE && AllWellFormed(fs, pageSize)
    requires 1 <= start && start - 1 + n <= |fs|
    ensures var file := walHeader + Encode(fs); var at := Offset(start, pageSize);
      && at + FramesSize(n, pageSize) <= |file|
      && file[at..at + FramesSize(n, pageSize)] == Encode(fs[start - 1..start - 1 + n])
  {
    hide FramesSize, Encode;
    var a, b, c := fs[..start - 1], fs[start - 1..start - 1 + n], fs[start - 1 + n..];
    assert fs == a + (b + c);
    EncodeConcat(a, b + c);
    EncodeConcat(b, c);
    EncodeSize(a, pageSize);
    EncodeSize(b, pageSize);
    MiddleOf(walHeader, Encode(a), Encode(b), Encode(c));
  }

  lemma MiddleOf(h: Bytes, a: Bytes, b: Bytes, c: Bytes)
    ensures var file := h + (a + (b + c)); var at := |h| + |a|;
      at + |b| <= |file| && file[at..at + |b|] == b
  {
    assert h + (a + (b + c)) == (h + a) + (b + c);
  }

  /** Reads frames until the body ends; false when it ends inside a page. */
  function Decode(body: Bytes, pageSize: nat): (r: (seq<WalFrame>, bool))
    ensures AllWellFormed(r.0, pageSize)
    decreases |body|
  {
    if |body| < FRAME_HEADER_SIZE then ([], true)
    else if |body| < FrameSize(pageSize) then ([], false)
    else
      var f := WalFrame(body[..FRAME_HEADER_SIZE], body[FRAME_HEADER_SIZE..FrameSize(pageSize)]);
      var (rest, ok) := Decode(body[FrameSize(pageSize)..], pageSize);
      ([f] + rest, ok)
  }

  lemma EncodeFirst(fs: seq<WalFrame>, rest: Bytes)
    requires fs != []
    ensures Encode(fs) + rest == fs[0].header + fs[0].page + (Encode(fs[1..]) + rest)
  {
  }

  lemma DecodeFirst(f: WalFrame, rest: Bytes, pageSize: nat)
    requires WellFormed(f, pageSize)
    ensures var (fs, ok) := Decode(rest, pageSize); Decode(f.header + f.page + rest, pageSize) == ([f] + fs, ok)
  {
    var body := f.header + f.page + rest;
    assert body[..FRAME_HEADER_SIZE] == f.header;
    assert body[FRAME_HEADER_SIZE..FrameSize(pageSize)] == f.page;
    assert body[FrameSize(pageSize)..] == rest;
  }

  lemma {:induction false} DecodeEncode(fs: seq<WalFrame>, pageSize: nat)
    requires AllWellFormed(fs, pageSize)
    ensures Decode(Encode(fs), pageSize) == (fs, true)
  {
    DecodeCut(fs, [], pageSize);
    assert Encode(fs) + [] == Encode(fs);
  }

  /** A body that ends early: what is left of a header is ignored, a cut page is not. */
  lemma {:induction false} DecodeCut(fs: seq<WalFrame>, rest: Bytes, pageSize: nat)
    requires AllWellFormed(fs, pageSize) && |rest| < 24 + pageSize
    ensures Decode(Encode(fs) + rest, pageSize) == (fs, |rest| < 24)
  {
    if fs == [] {
      assert Encode(fs) + rest == rest;
    } else {
      EncodeFirst(fs, rest);
      assert WellFormed(fs[0], pageSize) && fs == [fs[0]] + fs[1..];
      hide Decode, Encode, WellFormed;
      DecodeCut(fs[1..], rest, pageSize);
      DecodeFirst(fs[0], Encode(fs[1..]) + rest, pageSize);
    }
  }
}
