/** Backing up a write-ahead log as batch objects and restoring a database from them
    (`bottomless/src/backup.rs`, `bottomless/src/replicator.rs`). */
module Bottomless {
  import opened Basics
  import opened BigEndian
  import opened PageFile
  import opened Wal
  import Names = ObjectNames

  /** An object of the backup bucket. */
  datatype Object = Object(key: string, body: Bytes)

  // ---------------------------------------------------------------- backup

  /** The frames of one object and the fields of its name. */
  datatype Batch = Batch(first: nat, last: nat, timestamp: nat, kind: Names.Compression)

  ghost function ObjectOf(dir: string, fs: seq<WalFrame>, b: Batch): Object
    requires 1 <= b.first <= b.last <= |fs|
  {
    Object(Names.Key(dir, b.first, b.last, b.timestamp, b.kind), Encode(fs[b.first - 1..b.last]))
  }

  /** The batches cover the frames `[a, b)` one after another, at most `max` frames each. */
  ghost predicate Consecutive(batches: seq<Batch>, a: nat, b: nat, max: nat) {
    if batches == [] then a == b
    else
      && batches[0].first == a <= batches[0].last < a + max
      && batches[0].last < U32_RANGE && batches[0].timestamp < U64_RANGE
      && Consecutive(batches[1..], batches[0].last + 1, b, max)
  }

  lemma {:induction false} ConsecutiveBounds(batches: seq<Batch>, a: nat, b: nat, max: nat)
    requires Consecutive(batches, a, b, max)
    ensures a <= b
    ensures forall i :: 0 <= i < |batches| ==> a <= batches[i].first <= batches[i].last < b
  {
    if batches != [] {
      ConsecutiveBounds(batches[1..], batches[0].last + 1, b, max);
      assert forall i :: 1 <= i < |batches| ==> batches[i] == batches[1..][i - 1];
    }
  }

  /** Flushing one range after another is flushing one longer range. */
  lemma {:induction false} ConsecutiveJoin(x: seq<Batch>, y: seq<Batch>, a: nat, m: nat, b: nat, max: nat)
    requires Consecutive(x, a, m, max) && Consecutive(y, m, b, max)
    ensures Consecutive(x + y, a, b, max)
  {
    if x == [] {
      assert x + y == y;
    } else {
      assert (x + y)[1..] == x[1..] + y;
      ConsecutiveJoin(x[1..], y, x[0].last + 1, m, b, max);
    }
  }

  ghost predicate AreObjects(objs: seq<Object>, dir: string, fs: seq<WalFrame>, batches: seq<Batch>) {
    && |objs| == |batches|
    && (forall i :: 0 <= i < |batches| ==>
          1 <= batches[i].first <= batches[i].last <= |fs| && objs[i] == ObjectOf(dir, fs, batches[i]))
  }

  /** What a restore has to know about the log of a generation. */
  datatype Metadata = Metadata(pageSize: nat, checksum: Crc)

  function MetaObject(dir: string, m: Metadata): Object {
    Object(dir + "/.meta",
           ToBigEndian(m.pageSize, 4) + (ToBigEndian(m.checksum.s1, 4) + ToBigEndian(m.checksum.s2, 4)))
  }

  /** `get_metadata`; `None` where reading a number runs past the end, which stops the program. */
  function GetMetadata(body: Bytes): Option<Metadata> {
    if |body| < 12 then None
    else
      FourByteNumber(body[4..8]); FourByteNumber(body[8..12]);
      Some(Metadata(FromBigEndian(body[..4]), Crc(FromBigEndian(body[4..8]), FromBigEndian(body[8..12]))))
  }

  lemma FourByteNumber(b: Bytes)
    requires |b| == 4
    ensures FromBigEndian(b) < U32_RANGE
  {
    FromBigEndianBack(b);
    FourBytes();
  }

  /** Restoring reads the page size and the checksum that the backup has written. */
  lemma MetadataBack(dir: string, m: Metadata)
    requires m.pageSize < U32_RANGE
    ensures GetMetadata(MetaObject(dir, m).body) == Some(m)
  {
    hide FromBigEndian, ToBigEndian, Pow256;
    var a, b, c := ToBigEndian(m.pageSize, 4), ToBigEndian(m.checksum.s1, 4), ToBigEndian(m.checksum.s2, 4);
    var body := a + (b + c);
    assert body[..4] == a && body[4..8] == b && body[8..12] == c;
    FourBytes();
    BigEndianBack(m.pageSize, 4);
    BigEndianBack(m.checksum.s1, 4);
    BigEndianBack(m.checksum.s2, 4);
  }

  /** The metadata are not taken for frames. */
  lemma MetadataIsNoRange(dir: string, m: Metadata)
    ensures Names.ParseFrameRange(MetaObject(dir, m).key).NotARange?
  {
    var name := ".meta";
    assert dir + "/.meta" == dir + ['/'] + name;
    Names.RFindLast(dir, '/', name);
    assert (dir + ['/'] + name)[|dir| + 1..] == name;
    assert forall i :: 0 <= i < |name| ==> name[i] != '-';
    Names.NoneToFind(name, '-');
  }

  /** Every batch but the last is as long as allowed. */
  ghost predicate FullButLast(batches: seq<Batch>, max: nat) {
    forall i :: 0 <= i < |batches| - 1 ==> batches[i].last + 1 == batches[i].first + max
  }

  ghost predicate LastIsFull(batches: seq<Batch>, max: nat) {
    batches != [] ==> batches[|batches| - 1].last + 1 == batches[|batches| - 1].first + max
  }

  lemma FullSoFar(batches: seq<Batch>, b: Batch, max: nat)
    requires FullButLast(batches, max) && LastIsFull(batches, max)
    ensures FullButLast(batches + [b], max)
    ensures b.last + 1 == b.first + max ==> LastIsFull(batches + [b], max)
  {
  }

  lemma HeaderInFront(header: Bytes, rest: Bytes)
    requires |header| == WAL_HEADER_SIZE
    ensures HeaderPageSize(header + rest) == HeaderPageSize(header)
    ensures HeaderChecksum(header + rest) == HeaderChecksum(header)
  {
  }

  /** Cuts the frames `[start, end)` of the log into batch objects, and writes the metadata
      before the first frame.  `now` gives the clock at each batch; the outbox accepts `sends`
      names.  Returns the objects written and the last frame they hold. */
  method Flush(wal: Bytes, ghost walHeader: Bytes, ghost fs: seq<WalFrame>, dir: string, start: nat, end: nat,
               maxFramesPerBatch: nat, kind: Names.Compression, now: nat -> nat, sends: nat)
    returns (ok: bool, meta: Option<Object>, objs: seq<Object>, lastFrame: nat, ghost batches: seq<Batch>)
    requires |walHeader| == WAL_HEADER_SIZE && wal == walHeader + Encode(fs)
    requires AllWellFormed(fs, HeaderPageSize(walHeader))
    requires 1 <= start <= end && end - 1 <= |fs| && end <= U32_RANGE
    requires maxFramesPerBatch > 0 && forall i :: now(i) < U64_RANGE
    ensures AreObjects(objs, dir, fs, batches)
    ensures Consecutive(batches, start, lastFrame + 1, maxFramesPerBatch)
    ensures FullButLast(batches, maxFramesPerBatch)
    ensures forall i :: 0 <= i < |batches| ==> batches[i].timestamp == now(i) && batches[i].kind == kind
    ensures meta == if start == 1 && start < end
                    then Some(MetaObject(dir, Metadata(HeaderPageSize(walHeader), HeaderChecksum(walHeader))))
                    else None
    ensures ok <==> meta.None? || sends > 0
    ensures ok && (if meta.Some? then 1 else 0) + |objs| <= sends ==> lastFrame == end - 1
    ensures lastFrame < end && (!ok ==> objs == [])
  {
    hide Consecutive, AreObjects, AllWellFormed, Encode, Names.Key, MetaObject, HeaderPageSize, HeaderChecksum,
      FullButLast;
    var pageSize, checksum := HeaderPageSize(wal), HeaderChecksum(wal);
    HeaderInFront(walHeader, Encode(fs));
    ok, meta, objs, batches := true, None, [], [];
    NoBatches(dir, fs, start, maxFramesPerBatch);
    if start == end {
      return ok, meta, objs, start - 1, batches;
    }
    var left: int := sends;
    if start == 1 {
      meta, left := Some(MetaObject(dir, Metadata(pageSize, checksum))), left - 1;
      if left < 0 {
        return false, meta, objs, start - 1, batches;
      }
    }
    var s := start;
    while s < end
      invariant start <= s <= end
      invariant AreObjects(objs, dir, fs, batches)
      invariant Consecutive(batches, start, s, maxFramesPerBatch)
      invariant |batches| == |objs| <= left && FullButLast(batches, maxFramesPerBatch)
      invariant forall i :: 0 <= i < |batches| ==> batches[i].timestamp == now(i) && batches[i].kind == kind
      invariant s < end ==> LastIsFull(batches, maxFramesPerBatch)
    {
      var e := if s + maxFramesPerBatch < end then s + maxFramesPerBatch else end;
      ghost var b := Batch(s, e - 1, now(|objs|), kind);
      var body := CopyBatch(wal, walHeader, fs, pageSize, s, e);
      OneBatch(b, maxFramesPerBatch);
      ConsecutiveJoin(batches, [b], start, s, e, maxFramesPerBatch);
      var obj := Object(Names.Key(dir, s, e - 1, now(|objs|), kind), body);
      OneMoreObject(objs, dir, fs, batches, obj, b);
      FullSoFar(batches, b, maxFramesPerBatch);
      objs := objs + [obj];
      batches := batches + [b];
      if |objs| > left {
        return ok, meta, objs, e - 1, batches;
      }
      s := e;
    }
    lastFrame := end - 1;
  }

  /** Seeks to frame `s` and copies the frames up to `e`. */
  method CopyBatch(wal: Bytes, ghost walHeader: Bytes, ghost fs: seq<WalFrame>, pageSize: nat, s: nat, e: nat)
    returns (body: Bytes)
    requires |walHeader| == WAL_HEADER_SIZE && AllWellFormed(fs, pageSize) && wal == walHeader + Encode(fs)
    requires 1 <= s < e && e - 1 <= |fs|
    ensures body == Encode(fs[s - 1..e - 1])
  {
    CopyFrames(walHeader, fs, pageSize, s, e - s);
    var at := Offset(s, pageSize);
    body := wal[at..at + FramesSize(e - s, pageSize)];
  }

  lemma NoBatches(dir: string, fs: seq<WalFrame>, a: nat, max: nat)
    ensures AreObjects([], dir, fs, []) && Consecutive([], a, a, max) && FullButLast([], max)
  {
  }

  lemma OneMoreObject(objs: seq<Object>, dir: string, fs: seq<WalFrame>, batches: seq<Batch>, obj: Object, b: Batch)
    requires AreObjects(objs, dir, fs, batches)
    requires 1 <= b.first <= b.last <= |fs| && obj == ObjectOf(dir, fs, b)
    ensures AreObjects(objs + [obj], dir, fs, batches + [b])
  {
    hide ObjectOf;
  }

  lemma OneBatch(b: Batch, max: nat)
    requires b.first <= b.last < b.first + max
    requires b.last < U32_RANGE && b.timestamp < U64_RANGE
    ensures Consecutive([b], b.first, b.last + 1, max)
  {
  }

  // ---------------------------------------------------------------- what a restore means

  /** Writes the page of every frame, in order. */
  ghost function WriteFrames(db: DbFile, pageSize: nat, fs: seq<WalFrame>): DbFile
    requires AllWellFormed(fs, pageSize)
  {
    if fs == [] then db
    else
      var last := fs[|fs| - 1];
      WritePage(WriteFrames(db, pageSize, fs[..|fs| - 1]), pageSize, FramePage(last), last.page)
  }

  /** The last version of every page. */
  ghost function LastPages(fs: seq<WalFrame>, pageSize: nat): map<PageNo, Bytes>
    requires AllWellFormed(fs, pageSize)
  {
    if fs == [] then map[]
    else
      var last := fs[|fs| - 1];
      LastPages(fs[..|fs| - 1], pageSize)[FramePage(last) := last.page]
  }

  /** How many frames belong to complete transactions. */
  ghost function CommittedLen(fs: seq<WalFrame>, pageSize: nat): (n: nat)
    requires AllWellFormed(fs, pageSize)
    ensures n <= |fs|
  {
    if fs == [] then 0
    else if IsCommitted(fs[|fs| - 1]) then |fs|
    else CommittedLen(fs[..|fs| - 1], pageSize)
  }

  /** The database with exactly the complete transactions of `fs` applied. */
  ghost function Recovered(db: DbFile, pageSize: nat, fs: seq<WalFrame>): DbFile
    requires AllWellFormed(fs, pageSize)
  {
    WriteFrames(db, pageSize, fs[..CommittedLen(fs, pageSize)])
  }

  ghost function CrcAfter(fs: seq<WalFrame>, init: Crc, pageSize: nat): Crc
    requires AllWellFormed(fs, pageSize)
  {
    if fs == [] then init else FrameCrc(fs[|fs| - 1])
  }

  /** Every frame carries the checksum that follows from the one before. */
  ghost predicate Chained(fs: seq<WalFrame>, init: Crc, pageSize: nat)
    requires AllWellFormed(fs, pageSize)
  {
    fs != [] ==>
      && Chained(fs[..|fs| - 1], init, pageSize)
      && ExpectedCrc(fs[|fs| - 1], CrcAfter(fs[..|fs| - 1], init, pageSize)) == FrameCrc(fs[|fs| - 1])
  }

  lemma {:induction false} OverlayIsWriting(db: DbFile, pageSize: nat, fs: seq<WalFrame>)
    requires AllWellFormed(fs, pageSize)
    ensures Overlay(db, pageSize, LastPages(fs, pageSize)) == WriteFrames(db, pageSize, fs)
  {
    hide Overlay, WritePage;
    if fs == [] {
      OverlayNothing(db, pageSize);
    } else {
      var front, last := fs[..|fs| - 1], fs[|fs| - 1];
      OverlayIsWriting(db, pageSize, front);
      OverlayInsert(db, pageSize, LastPages(front, pageSize), FramePage(last), last.page);
    }
  }

  lemma {:induction false} WriteConcat(db: DbFile, pageSize: nat, a: seq<WalFrame>, b: seq<WalFrame>)
    requires AllWellFormed(a, pageSize) && AllWellFormed(b, pageSize)
    ensures AllWellFormed(a + b, pageSize)
    ensures WriteFrames(db, pageSize, a + b) == WriteFrames(WriteFrames(db, pageSize, a), pageSize, b)
  {
    hide WritePage;
    if b == [] {
      assert a + b == a;
    } else {
      assert (a + b)[..|a + b| - 1] == a + b[..|b| - 1];
      WriteConcat(db, pageSize, a, b[..|b| - 1]);
    }
  }

  lemma {:induction false} ChainedPrefix(fs: seq<WalFrame>, init: Crc, pageSize: nat, n: nat)
    requires AllWellFormed(fs, pageSize) && Chained(fs, init, pageSize) && n <= |fs|
    ensures Chained(fs[..n], init, pageSize)
  {
    if n == |fs| {
      assert fs[..n] == fs;
    } else {
      ChainedPrefix(fs[..|fs| - 1], init, pageSize, n);
      assert fs[..|fs| - 1][..n] == fs[..n];
    }
  }
}
