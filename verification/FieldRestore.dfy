/** Backup and restore in terms of what SQLite wrote: page numbers, sizes, checksums and pages. */
module FieldRestore {
  import opened Basics
  import opened PageFile
  import opened BigEndian
  import opened Wal
  import opened WalLayout
  import opened Bottomless
  import opened Restore
  import opened BackupRestore
  import opened RestoreStack

  function FramesFrom(recs: seq<Fields>): (fs: seq<WalFrame>)
    ensures |fs| == |recs| && forall i :: 0 <= i < |recs| ==> fs[i] == FrameOf(recs[i])
  {
    seq(|recs|, i requires 0 <= i < |recs| => FrameOf(recs[i]))
  }

  ghost predicate OfSize(recs: seq<Fields>, pageSize: nat) {
    forall i :: 0 <= i < |recs| ==> |recs[i].page| == pageSize
  }

  lemma FramesWellFormed(recs: seq<Fields>, pageSize: nat)
    requires OfSize(recs, pageSize)
    ensures AllWellFormed(FramesFrom(recs), pageSize)
  {
  }

  lemma FramesSlice(recs: seq<Fields>, n: nat)
    requires n <= |recs|
    ensures FramesFrom(recs[..n]) == FramesFrom(recs)[..n]
  {
    hide FrameOf;
  }

  // ---------------------------------------------------------------- complete transactions

  /** The last frame with a size, counted from 1, or 0. */
  ghost predicate IsLastCommit(recs: seq<Fields>, n: nat) {
    && n <= |recs|
    && (n > 0 ==> recs[n - 1].size != 0)
    && forall i :: n <= i < |recs| ==> recs[i].size == 0
  }

  lemma {:induction false} CommittedFields(recs: seq<Fields>, pageSize: nat)
    requires OfSize(recs, pageSize)
    ensures AllWellFormed(FramesFrom(recs), pageSize)
    ensures IsLastCommit(recs, CommittedLen(FramesFrom(recs), pageSize))
  {
    hide FrameOf, SizeAfter;
    FramesWellFormed(recs, pageSize);
    if recs != [] {
      var k := |recs| - 1;
      FieldsBack(recs[k]);
      FramesSlice(recs, k);
      CommittedFields(recs[..k], pageSize);
    }
  }

  /** The page that a frame with the given number goes to. */
  function PageOf(pgno: U32): PageNo {
    if pgno == 0 then 0x1_0000_0000 else pgno
  }

  /** For every page, what was written to it last. */
  ghost function LastVersions(recs: seq<Fields>): map<PageNo, Bytes> {
    if recs == [] then map[]
    else
      var last := recs[|recs| - 1];
      LastVersions(recs[..|recs| - 1])[PageOf(last.pgno) := last.page]
  }

  lemma {:induction false} LastPagesFields(recs: seq<Fields>, pageSize: nat)
    requires OfSize(recs, pageSize)
    ensures AllWellFormed(FramesFrom(recs), pageSize)
    ensures LastPages(FramesFrom(recs), pageSize) == LastVersions(recs)
  {
    hide FrameOf, FramePage;
    FramesWellFormed(recs, pageSize);
    if recs != [] {
      var k := |recs| - 1;
      FieldsBack(recs[k]);
      FramesSlice(recs, k);
      LastPagesFields(recs[..k], pageSize);
    }
  }

  /** Recovering writes the last version of every page up to the last frame with a size, and
      nothing of the frames after it. */
  lemma RecoveredFields(db: DbFile, pageSize: nat, recs: seq<Fields>, n: nat)
    requires OfSize(recs, pageSize) && IsLastCommit(recs, n)
    ensures AllWellFormed(FramesFrom(recs), pageSize)
    ensures CommittedLen(FramesFrom(recs), pageSize) == n
    ensures Recovered(db, pageSize, FramesFrom(recs)) == Overlay(db, pageSize, LastVersions(recs[..n]))
  {
    hide LastVersions, LastPages, CommittedLen, WriteFrames, Overlay, AllWellFormed;
    CommittedFields(recs, pageSize);
    OneLastCommit(recs, n, CommittedLen(FramesFrom(recs), pageSize));
    FramesSlice(recs, n);
    LastPagesFields(recs[..n], pageSize);
    OverlayIsWriting(db, pageSize, FramesFrom(recs[..n]));
  }

  lemma OneLastCommit(recs: seq<Fields>, m: nat, n: nat)
    requires IsLastCommit(recs, m) && IsLastCommit(recs, n)
    ensures m == n
  {
    NoneLater(recs, m, n);
    NoneLater(recs, n, m);
  }

  lemma NoneLater(recs: seq<Fields>, m: nat, n: nat)
    requires IsLastCommit(recs, m) && n <= |recs| && (n > 0 ==> recs[n - 1].size != 0)
    ensures n <= m
  {
  }

  // ---------------------------------------------------------------- checksums

  function WordsOf(bytes: Bytes): (words: seq<int>) {
    seq(|bytes| / 4, i requires 0 <= i < |bytes| / 4 => LittleEndian(bytes[4 * i..4 * i + 4]))
  }

  /** The checksum before frame `i`. */
  function CrcBefore(recs: seq<Fields>, init: Crc, i: nat): Crc
    requires i <= |recs|
  {
    if i == 0 then init else recs[i - 1].crc
  }

  function CheckedBytes(r: Fields): Bytes {
    ToBigEndian(r.pgno, 4) + ToBigEndian(r.size, 4) + r.page
  }

  /** Every frame has the checksum of section 4.2 over its page number, its size and its page,
      started from the checksum of the frame before. */
  ghost predicate ChecksumsFollow(recs: seq<Fields>, init: Crc) {
    forall i :: 0 <= i < |recs| ==>
      recs[i].crc == Sums32(Wal.Before(CrcBefore(recs, init, i)) + WordsOf(CheckedBytes(recs[i])))
  }

  lemma WordsAreWords(bytes: Bytes)
    requires |bytes| % 8 == 0
    ensures AreWords(WordsOf(bytes), bytes)
  {
  }

  lemma {:induction false} ChainedFields(recs: seq<Fields>, init: Crc, pageSize: nat)
    requires OfSize(recs, pageSize) && pageSize % 8 == 0
    ensures AllWellFormed(FramesFrom(recs), pageSize)
    ensures Chained(FramesFrom(recs), init, pageSize) <==> ChecksumsFollow(recs, init)
  {
    hide FrameOf, FrameCrc, ExpectedCrc, Sums32, Wal.Before, CheckedBytes, WordsOf, ToBigEndian;
    FramesWellFormed(recs, pageSize);
    if recs != [] {
      var k := |recs| - 1;
      var front := recs[..k];
      FramesSlice(recs, k);
      ChainedFields(front, init, pageSize);
      LastChecksum(recs, init, pageSize);
      FollowFront(recs, init);
    }
  }

  lemma FollowFront(recs: seq<Fields>, init: Crc)
    requires recs != []
    ensures var k := |recs| - 1;
      ChecksumsFollow(recs, init) <==>
        && ChecksumsFollow(recs[..k], init)
        && recs[k].crc == Sums32(Wal.Before(CrcBefore(recs, init, k)) + WordsOf(CheckedBytes(recs[k])))
  {
    hide Sums32, Wal.Before, CheckedBytes, WordsOf;
    var k := |recs| - 1;
    var front := recs[..k];
    assert forall i :: 0 <= i < k ==> front[i] == recs[i] && CrcBefore(front, init, i) == CrcBefore(recs, init, i);
  }

  lemma LastChecksum(recs: seq<Fields>, init: Crc, pageSize: nat)
    requires OfSize(recs, pageSize) && pageSize % 8 == 0 && recs != []
    requires AllWellFormed(FramesFrom(recs)[..|recs| - 1], pageSize)
    ensures var k, fs := |recs| - 1, FramesFrom(recs);
      ExpectedCrc(fs[k], CrcAfter(fs[..k], init, pageSize)) == FrameCrc(fs[k]) <==>
        recs[k].crc == Sums32(Wal.Before(CrcBefore(recs, init, k)) + WordsOf(CheckedBytes(recs[k])))
  {
    hide FrameOf, FrameCrc, ExpectedCrc, Sums32, Wal.Before, WordsOf, ToBigEndian;
    var k, fs := |recs| - 1, FramesFrom(recs);
    if k > 0 {
      FieldsBack(recs[k - 1]);
    }
    assert CrcAfter(fs[..k], init, pageSize) == CrcBefore(recs, init, k);
    WordsAreWords(CheckedBytes(recs[k]));
    FrameChecksum(recs[k], CrcBefore(recs, init, k), WordsOf(CheckedBytes(recs[k])));
  }

  // ---------------------------------------------------------------- accepted batches

  /** The batch is within the last consistent frame, if there is a limit, and not too late. */
  ghost predicate Within(batch: Batch, lastFrame: Option<nat>, tooLate: nat -> bool) {
    (lastFrame.Some? ==> batch.last <= lastFrame.value) && !tooLate(batch.timestamp)
  }

  /** The batches up to the first one that is not within the limits. */
  ghost predicate IsAcceptedPart(batches: seq<Batch>, lastFrame: Option<nat>, tooLate: nat -> bool, j: nat) {
    && j <= |batches|
    && (forall i :: 0 <= i < j ==> Within(batches[i], lastFrame, tooLate))
    && (j < |batches| ==> !Within(batches[j], lastFrame, tooLate))
  }

  /** The last frame of the first `j` batches. */
  ghost function EndOf(batches: seq<Batch>, j: nat): nat
    requires j <= |batches|
  {
    if j == 0 then 0 else batches[j - 1].last
  }

  lemma {:induction false} AcceptedPart(batches: seq<Batch>, received: nat, lastFrame: Option<nat>,
                                        tooLate: nat -> bool) returns (j: nat)
    ensures IsAcceptedPart(batches, lastFrame, tooLate, j)
    ensures BackupRestore.Accepted(batches, received, Limits(lastFrame, tooLate))
            == if j == 0 then received else batches[j - 1].last
    decreases |batches|
  {
    var limits := Limits(lastFrame, tooLate);
    if batches == [] || !Within(batches[0], lastFrame, tooLate) {
      j := 0;
    } else {
      j := AcceptedPart(batches[1..], batches[0].last, lastFrame, tooLate);
      assert forall i :: 0 <= i < |batches| - 1 ==> batches[1..][i] == batches[i + 1];
      j := j + 1;
    }
  }

  // ---------------------------------------------------------------- backup, then restore

  /** Backup, then restore, of frames given by their fields: `j` batches are accepted, `m` frames
      are taken, and `n` of them are complete transactions.  The file gets the last version of
      every page among these `n`, and nothing else. */
  method RestoreFields(listing: seq<Object>, ghost objs: seq<Object>, ghost dir: string, ghost recs: seq<Fields>,
                       ghost batches: seq<Batch>, ghost b: nat, ghost max: nat, pageSize: nat, limits: Limits,
                       checksum: Crc, verifyCrc: bool, swapAfterPages: nat, swaps: nat -> (nat, bool), db: DbFile)
    returns (ok: bool, applied: bool, db': DbFile, ghost j: nat, ghost m: nat, ghost n: nat)
    requires pageSize % 8 == 0 && OfSize(recs, pageSize)
    requires AreObjects(objs, dir, FramesFrom(recs), batches) && Consecutive(batches, 1, b, max) && Lists(listing, objs)
    ensures IsAcceptedPart(batches, limits.lastConsistentFrame, limits.tooLate, j)
    ensures m <= EndOf(batches, j) <= |recs| && (ok <==> m == EndOf(batches, j))
    ensures verifyCrc ==> ChecksumsFollow(recs[..m], checksum)
    ensures m < EndOf(batches, j) ==> verifyCrc && !ChecksumsFollow(recs[..m + 1], checksum)
    ensures IsLastCommit(recs[..m], n) && (applied <==> n > 0)
    ensures db' == Overlay(db, pageSize, LastVersions(recs[..n]))
  {
    hide AreObjects, Consecutive, Lists, Recovered, CommittedLen, Chained, GoodFrames, Overlay, LastVersions,
      ChecksumsFollow, Accepted, IsLastCommit;
    ghost var fs := FramesFrom(recs);
    FramesWellFormed(recs, pageSize);
    j := AcceptedPart(batches, 0, limits.lastConsistentFrame, limits.tooLate);
    ok, applied, db' := RestoreBackup(listing, objs, dir, fs, batches, b, max, pageSize, limits, checksum, verifyCrc,
                                      swapAfterPages, swaps, db);
    ghost var a := EndOf(batches, j);
    ghost var good := GoodFrames(fs[..a], verifyCrc, checksum, pageSize);
    m := |good|;
    GoodFields(recs, a, verifyCrc, checksum, pageSize);
    AllGood(fs[..a], verifyCrc, checksum, pageSize);
    FramesSlice(recs, m);
    CommittedFields(recs[..m], pageSize);
    n := CommittedLen(good, pageSize);
    RecoveredFields(db, pageSize, recs[..m], n);
    CommitInRange(recs[..m], n);
    assert recs[..m][..n] == recs[..n];
  }

  lemma CommitInRange(recs: seq<Fields>, n: nat)
    requires IsLastCommit(recs, n)
    ensures n <= |recs|
  {
  }

  /** The frames taken are the longest prefix whose checksums follow. */
  lemma GoodFields(recs: seq<Fields>, a: nat, verifyCrc: bool, init: Crc, pageSize: nat)
    requires OfSize(recs, pageSize) && pageSize % 8 == 0 && a <= |recs|
    ensures AllWellFormed(FramesFrom(recs)[..a], pageSize)
    ensures var good := GoodFrames(FramesFrom(recs)[..a], verifyCrc, init, pageSize);
      && good == FramesFrom(recs)[..|good|] && |good| <= a
      && (verifyCrc ==> ChecksumsFollow(recs[..|good|], init))
      && (|good| < a ==> verifyCrc && !ChecksumsFollow(recs[..|good| + 1], init))
  {
    hide Chained, GoodFrames, ChecksumsFollow;
    FramesWellFormed(recs, pageSize);
    var all := FramesFrom(recs)[..a];
    var good := GoodFrames(all, verifyCrc, init, pageSize);
    var m := |good|;
    GoodIsLongest(all, verifyCrc, init, pageSize, m);
    PrefixFields(recs, a, m, init, pageSize);
    assert good == all[..m] == FramesFrom(recs)[..m];
    if m < a {
      GoodIsLongest(all, verifyCrc, init, pageSize, m + 1);
      PrefixFields(recs, a, m + 1, init, pageSize);
    }
  }

  lemma PrefixFields(recs: seq<Fields>, a: nat, m: nat, init: Crc, pageSize: nat)
    requires OfSize(recs, pageSize) && pageSize % 8 == 0 && m <= a <= |recs|
    ensures AllWellFormed(FramesFrom(recs)[..a][..m], pageSize)
    ensures Chained(FramesFrom(recs)[..a][..m], init, pageSize) <==> ChecksumsFollow(recs[..m], init)
  {
    hide Chained, ChecksumsFollow;
    FramesSlice(recs, m);
    assert FramesFrom(recs)[..a][..m] == FramesFrom(recs[..m]);
    ChainedFields(recs[..m], init, pageSize);
  }

  // ---------------------------------------------------------------- a stack of generations

  /** A generation as it was backed up: the frames flushed, the batches and their objects. */
  datatype Backup = Backup(objs: seq<Object>, dir: string, fs: seq<WalFrame>, batches: seq<Batch>, max: nat) {

    function Flushed(): nat {
      if batches == [] then 0 else batches[|batches| - 1].last
    }
  }

  /** The generation holds the backup and nothing else that looks like frames; no batch is too
      late.  Without metadata nothing was flushed. */
  ghost predicate IsBackupOf(x: Backup, g: Generation, pageSize: nat, tooLate: nat -> bool) {
    && AllWellFormed(x.fs, pageSize) && x.Flushed() <= |x.fs|
    && AreObjects(x.objs, x.dir, x.fs, x.batches) && Consecutive(x.batches, 1, x.Flushed() + 1, x.max)
    && Lists(g.listing, x.objs)
    && (g.metadata.None? ==> x.batches == [])
    && forall i :: 0 <= i < |x.batches| ==> !tooLate(x.batches[i].timestamp)
  }

  /** One backup for each generation. */
  ghost predicate AreBackups(backups: seq<Backup>, bucket: Bucket, gens: seq<nat>, pageSize: nat,
                             tooLate: nat -> bool)
  {
    && |backups| == |gens| && Complete(backups, pageSize)
    && forall i :: 0 <= i < |backups| ==> IsBackupOf(backups[i], bucket(gens[i]), pageSize, tooLate)
  }

  ghost predicate Complete(backups: seq<Backup>, pageSize: nat) {
    forall i :: 0 <= i < |backups| ==>
      AllWellFormed(backups[i].fs, pageSize) && backups[i].Flushed() <= |backups[i].fs|
  }

  /** The file with the complete transactions of the backups from `k` on, the oldest first. */
  ghost function ReplayAll(base: DbFile, pageSize: nat, backups: seq<Backup>, k: nat): DbFile
    requires k <= |backups| && Complete(backups, pageSize)
    decreases |backups| - k
  {
    if k == |backups| then base
    else
      Recovered(ReplayAll(base, pageSize, backups, k + 1), pageSize, backups[k].fs[..backups[k].Flushed()])
  }

  /** What a generation contributes: an older one all its flushed frames, the newest one the
      batches up to the first that goes beyond the last consistent frame. */
  lemma Contributes(x: Backup, g: Generation, k: nat, pageSize: nat, lastFrame: nat, tooLate: nat -> bool)
    returns (j: nat)
    requires IsBackupOf(x, g, pageSize, tooLate)
    ensures j <= |x.batches| && EndOf(x.batches, j) <= |x.fs|
    ensures RestoreStack.FramesOf(g, pageSize, LimitsAt(k, lastFrame, tooLate)) == x.fs[..EndOf(x.batches, j)]
    ensures k > 0 ==> EndOf(x.batches, j) == x.Flushed()
    ensures k == 0 ==>
      && (forall i :: 0 <= i < j ==> x.batches[i].last <= lastFrame)
      && (j < |x.batches| ==> x.batches[j].last > lastFrame)
  {
    hide AreObjects, Consecutive, Lists, Accepted;
    var limit := if k == 0 then Some(lastFrame) else None;
    j := AcceptedPart(x.batches, 0, limit, tooLate);
    if g.metadata.Some? {
      FramesOfBackup(g, x.objs, x.dir, x.fs, pageSize, x.batches, x.Flushed() + 1, x.max,
                     LimitsAt(k, lastFrame, tooLate));
    } else {
      assert x.fs[..0] == [];
    }
  }

  lemma {:induction false} OlderContribute(bucket: Bucket, gens: seq<nat>, backups: seq<Backup>, k: nat, pageSize: nat,
                                           lastFrame: nat, tooLate: nat -> bool)
    requires gens != [] && 0 < k <= |gens| && AreBackups(backups, bucket, gens, pageSize, tooLate)
    ensures Rebuilt(bucket, gens, k, pageSize, lastFrame, tooLate)
            == ReplayAll(RestoreStack.Base(bucket, gens), pageSize, backups, k)
    decreases |gens| - k
  {
    hide RestoreStack.FramesOf, Recovered, AreObjects, Consecutive, Lists;
    if k < |gens| {
      OlderContribute(bucket, gens, backups, k + 1, pageSize, lastFrame, tooLate);
      var j := Contributes(backups[k], bucket(gens[k]), k, pageSize, lastFrame, tooLate);
    }
  }

  /** The older backups replayed, and the first `j` batches of the newest one over them. */
  ghost function Stacked(base: DbFile, pageSize: nat, backups: seq<Backup>, j: nat): DbFile
    requires backups != [] && Complete(backups, pageSize)
    requires j <= |backups[0].batches| && EndOf(backups[0].batches, j) <= |backups[0].fs|
  {
    Recovered(ReplayAll(base, pageSize, backups, 1), pageSize, backups[0].fs[..EndOf(backups[0].batches, j)])
  }

  /** A restored stack is the main file with all flushed transactions of the older generations,
      one after another, and then those of the newest one in the batches up to the first that
      goes beyond its last consistent frame. */
  lemma StackOfBackups(bucket: Bucket, gens: seq<nat>, backups: seq<Backup>, pageSize: nat, lastFrame: nat,
                       tooLate: nat -> bool) returns (j: nat)
    requires gens != [] && AreBackups(backups, bucket, gens, pageSize, tooLate)
    ensures j <= |backups[0].batches| && EndOf(backups[0].batches, j) <= |backups[0].fs|
    ensures forall i :: 0 <= i < j ==> backups[0].batches[i].last <= lastFrame
    ensures j < |backups[0].batches| ==> backups[0].batches[j].last > lastFrame
    ensures Rebuilt(bucket, gens, 0, pageSize, lastFrame, tooLate)
            == Stacked(RestoreStack.Base(bucket, gens), pageSize, backups, j)
  {
    hide RestoreStack.FramesOf, Recovered, AreObjects, Consecutive, Lists;
    OlderContribute(bucket, gens, backups, 1, pageSize, lastFrame, tooLate);
    j := Contributes(backups[0], bucket(gens[0]), 0, pageSize, lastFrame, tooLate);
  }
}
