/** Frames and the header of the log as SQLite writes them, field by field, and the checksum in
    closed form (sections 4.1 and 4.2 of the SQLite Database File Format).

Nothing here is used by the code that reads; the lemmas tie what it reads to what was written. */
module WalLayout {
  import opened Basics
  import opened PageFile
  import opened BigEndian
  import opened Wal

  // ---------------------------------------------------------------- headers

  /** A frame by its fields; `size` is the size of the database after a commit, else 0. */
  datatype Fields = Fields(pgno: U32, size: U32, salt1: U32, salt2: U32, crc: Crc, page: Bytes)

  /** Six numbers of four bytes. */
  function FrameHeader(r: Fields): (h: Bytes)
    ensures |h| == 24
  {
    Six(ToBigEndian(r.pgno, 4), ToBigEndian(r.size, 4), ToBigEndian(r.salt1, 4), ToBigEndian(r.salt2, 4),
        ToBigEndian(r.crc.s1, 4), ToBigEndian(r.crc.s2, 4))
  }

  function Six(a: Bytes, b: Bytes, c: Bytes, d: Bytes, e: Bytes, f: Bytes): Bytes {
    a + (b + (c + (d + (e + f))))
  }

  function FrameOf(r: Fields): WalFrame {
    WalFrame(FrameHeader(r), r.page)
  }

  lemma SixParts(a: Bytes, b: Bytes, c: Bytes, d: Bytes, e: Bytes, f: Bytes)
    requires |a| == 4 && |b| == 4 && |c| == 4 && |d| == 4 && |e| == 4 && |f| == 4
    ensures var h := Six(a, b, c, d, e, f);
      && |h| == 24 && h[0..4] == a && h[4..8] == b && h[8..12] == c && h[12..16] == d && h[16..20] == e
      && h[20..24] == f
  {
    var h := Six(a, b, c, d, e, f);
    assert forall i :: 0 <= i < 4 ==> h[i] == a[i];
    assert forall i :: 0 <= i < 4 ==> h[4 + i] == b[i];
    assert forall i :: 0 <= i < 4 ==> h[8 + i] == c[i];
    assert forall i :: 0 <= i < 4 ==> h[12 + i] == d[i];
    assert forall i :: 0 <= i < 4 ==> h[16 + i] == e[i];
    assert forall i :: 0 <= i < 4 ==> h[20 + i] == f[i];
  }

  lemma ReadsNumber(bytes: Bytes, i: nat, n: U32)
    requires i + 4 <= |bytes| && bytes[i..i + 4] == ToBigEndian(n, 4)
    ensures BigEndian32(bytes, i) == n
  {
    hide ToBigEndian;
    FourBytes();
    BigEndianBack(n, 4);
    NumberOf(bytes[i..i + 4]);
  }

  lemma NumberOf(b: Bytes)
    requires |b| == 4
    ensures FromBigEndian(b) == Join(b[3], b[2], b[1], b[0])
  {
    var p: int, q: int, r: int := b[0], b[1], b[2];
    assert FromBigEndian(b[..1]) == p by { assert b[..1][..0] == []; }
    assert FromBigEndian(b[..2]) == 256 * p + q by { assert b[..2][..1] == b[..1]; }
    assert FromBigEndian(b[..3]) == 256 * (256 * p + q) + r by { assert b[..3][..2] == b[..2]; }
  }

  /** Reading a frame gives back the fields that were written. */
  lemma FieldsBack(r: Fields)
    ensures var f := FrameOf(r);
      && |f.header| == 24 && f.page == r.page
      && FramePage(f) == (if r.pgno == 0 then 0x1_0000_0000 else r.pgno)
      && SizeAfter(f) == r.size && FrameCrc(f) == r.crc
  {
    hide ToBigEndian, BigEndian32, Six;
    var h := FrameHeader(r);
    SixParts(ToBigEndian(r.pgno, 4), ToBigEndian(r.size, 4), ToBigEndian(r.salt1, 4), ToBigEndian(r.salt2, 4),
             ToBigEndian(r.crc.s1, 4), ToBigEndian(r.crc.s2, 4));
    ReadsNumber(h, 0, r.pgno);
    ReadsNumber(h, 4, r.size);
    ReadsNumber(h, 16, r.crc.s1);
    ReadsNumber(h, 20, r.crc.s2);
  }

  /** Every frame has fields. */
  lemma EveryFrame(f: WalFrame) returns (r: Fields)
    requires |f.header| == 24
    ensures f == FrameOf(r)
  {
    hide ToBigEndian, FromBigEndian;
    var h := f.header;
    var a := Number(h[0..4]);
    var b := Number(h[4..8]);
    var c := Number(h[8..12]);
    var d := Number(h[12..16]);
    var e := Number(h[16..20]);
    var g := Number(h[20..24]);
    r := Fields(a, b, c, d, Crc(e, g), f.page);
    assert h == Six(h[0..4], h[4..8], h[8..12], h[12..16], h[16..20], h[20..24]);
  }

  lemma Number(b: Bytes) returns (n: U32)
    requires |b| == 4
    ensures ToBigEndian(n, 4) == b
  {
    FromBigEndianBack(b);
    FourBytes();
    n := FromBigEndian(b);
  }

  /** The header of a log: its magic number, version, page size, checkpoint, salts and checksum. */
  function WalHeader(magic: U32, version: U32, pageSize: U32, checkpoint: U32, salt1: U32, salt2: U32,
                     crc: Crc): Bytes
  {
    ToBigEndian(magic, 4) + (ToBigEndian(version, 4)
      + Six(ToBigEndian(pageSize, 4), ToBigEndian(checkpoint, 4), ToBigEndian(salt1, 4), ToBigEndian(salt2, 4),
            ToBigEndian(crc.s1, 4), ToBigEndian(crc.s2, 4)))
  }

  /** Reading the header gives back the page size and the checksum. */
  lemma WalHeaderBack(magic: U32, version: U32, pageSize: U32, checkpoint: U32, salt1: U32, salt2: U32, crc: Crc,
                      rest: Bytes)
    ensures var h := WalHeader(magic, version, pageSize, checkpoint, salt1, salt2, crc) + rest;
      && |h| == 32 + |rest|
      && HeaderPageSize(h) == pageSize && HeaderChecksum(h) == crc
  {
    hide ToBigEndian, BigEndian32, Six;
    var six := Six(ToBigEndian(pageSize, 4), ToBigEndian(checkpoint, 4), ToBigEndian(salt1, 4),
                   ToBigEndian(salt2, 4), ToBigEndian(crc.s1, 4), ToBigEndian(crc.s2, 4));
    SixParts(ToBigEndian(pageSize, 4), ToBigEndian(checkpoint, 4), ToBigEndian(salt1, 4),
             ToBigEndian(salt2, 4), ToBigEndian(crc.s1, 4), ToBigEndian(crc.s2, 4));
    var h := WalHeader(magic, version, pageSize, checkpoint, salt1, salt2, crc) + rest;
    assert forall i :: 0 <= i < 24 ==> h[8 + i] == six[i];
    assert h[8..12] == six[0..4] && h[24..28] == six[16..20] && h[28..32] == six[20..24];
    ReadsNumber(h, 8, pageSize);
    ReadsNumber(h, 24, crc.s1);
    ReadsNumber(h, 28, crc.s2);
  }

  // ---------------------------------------------------------------- checksums of frames

  /** A frame is accepted if and only if its checksum is that sum over the words of its page
      number and its size, in the byte order of the machine, and of its page. */
  lemma FrameChecksum(r: Fields, init: Crc, words: seq<int>)
    requires |r.page| % 8 == 0
    requires AreWords(words, ToBigEndian(r.pgno, 4) + ToBigEndian(r.size, 4) + r.page)
    ensures ExpectedCrc(FrameOf(r), init) == FrameCrc(FrameOf(r)) <==> r.crc == Sums32(Before(init) + words)
  {
    hide ToBigEndian, Sums32, Before, Checksum, FrameHeader, FrameCrc, ExpectedCrc;
    FieldsBack(r);
    ExpectedIsChecksum(FrameOf(r), init);
    CheckedPart(r);
    ChecksumIsFibonacci(init, Checked(FrameOf(r)), words);
  }

  lemma CheckedPart(r: Fields)
    ensures Checked(FrameOf(r)) == ToBigEndian(r.pgno, 4) + ToBigEndian(r.size, 4) + r.page
  {
    hide ToBigEndian, Six;
    SixParts(ToBigEndian(r.pgno, 4), ToBigEndian(r.size, 4), ToBigEndian(r.salt1, 4), ToBigEndian(r.salt2, 4),
             ToBigEndian(r.crc.s1, 4), ToBigEndian(r.crc.s2, 4));
    var h := FrameHeader(r);
    assert h[..8] == h[0..4] + h[4..8];
  }
}
