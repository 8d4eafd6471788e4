/** Replaying batch objects into a database file (`bottomless/src/replicator.rs`). */
module Restore {
  import opened Basics
  import opened PageFile
  import opened Wal
  import opened TransactionCache
  import opened Bottomless
  import Names = ObjectNames

  // ---------------------------------------------------------------- one frame after another

  lemma CommittedStep(fs: seq<WalFrame>, f: WalFrame, pageSize: nat)
    requires AllWellFormed(fs, pageSize) && WellFormed(f, pageSize)
    ensures AllWellFormed(fs + [f], pageSize)
    ensures CommittedLen(fs + [f], pageSize) == if IsCommitted(f) then |fs| + 1 else CommittedLen(fs, pageSize)
  {
    assert (fs + [f])[..|fs|] == fs;
  }

  lemma ChainedStep(fs: seq<WalFrame>, f: WalFrame, init: Crc, pageSize: nat)
    requires AllWellFormed(fs, pageSize) && WellFormed(f, pageSize)
    ensures AllWellFormed(fs + [f], pageSize)
    ensures Chained(fs + [f], init, pageSize) <==>
      Chained(fs, init, pageSize) && ExpectedCrc(f, CrcAfter(fs, init, pageSize)) == FrameCrc(f)
    ensures CrcAfter(fs + [f], init, pageSize) == FrameCrc(f)
  {
    assert (fs + [f])[..|fs|] == fs;
  }

  lemma LastPagesStep(fs: seq<WalFrame>, f: WalFrame, pageSize: nat)
    requires AllWellFormed(fs, pageSize) && WellFormed(f, pageSize)
    ensures AllWellFormed(fs + [f], pageSize)
    ensures LastPages(fs + [f], pageSize) == LastPages(fs, pageSize)[FramePage(f) := f.page]
  {
    assert (fs + [f])[..|fs|] == fs;
  }

  /** Committing applies the frames of the transaction to what was recovered before. */
  lemma RecoveredStep(db: DbFile, fs: seq<WalFrame>, pageSize: nat)
    requires AllWellFormed(fs, pageSize) && fs != [] && IsCommitted(fs[|fs| - 1])
    ensures var n := CommittedLen(fs[..|fs| - 1], pageSize);
      Recovered(db, pageSize, fs) == WriteFrames(WriteFrames(db, pageSize, fs[..n]), pageSize, fs[n..])
  {
    assert CommittedLen(fs, pageSize) == |fs|;
    hide WriteFrames, CommittedLen;
    var n := CommittedLen(fs[..|fs| - 1], pageSize);
    assert fs[..|fs|] == fs && fs == fs[..n] + fs[n..];
    WriteConcat(db, pageSize, fs[..n], fs[n..]);
  }

  /** The state of the loop of `restore_wal`. */
  class Restorer {
    const pageSize: nat
    const swapAfterPages: nat
    const verifyCrc: bool
    var db: DbFile
    var checksum: Crc
    var pendingPages: TransactionPageCache
    ghost const base: DbFile
    ghost const init: Crc
    /** the frames taken so far */
    ghost var taken: seq<WalFrame>

    ghost predicate Valid()
      reads this, pendingPages
    {
      && AllWellFormed(taken, pageSize)
      && ChecksumValid()
      && PagesValid()
    }

    ghost predicate ChecksumValid()
      requires AllWellFormed(taken, pageSize)
      reads this
    {
      verifyCrc ==> Chained(taken, init, pageSize) && checksum == CrcAfter(taken, init, pageSize)
    }

    /** The file holds the complete transactions, the cache the pages of the open one. */
    ghost predicate PagesValid()
      requires AllWellFormed(taken, pageSize)
      reads this, pendingPages
    {
      && db == Recovered(base, pageSize, taken)
      && pendingPages.Valid() && pendingPages.pageSize == pageSize
      && pendingPages.contents == LastPages(taken[CommittedLen(taken, pageSize)..], pageSize)
    }

    constructor (db: DbFile, checksum: Crc, pageSize: nat, swapAfterPages: nat, verifyCrc: bool)
      ensures Valid() && taken == [] && fresh(pendingPages)
      ensures base == db && init == checksum && this.pageSize == pageSize && this.verifyCrc == verifyCrc
    {
      this.db, this.checksum, this.pageSize := db, checksum, pageSize;
      this.swapAfterPages, this.verifyCrc := swapAfterPages, verifyCrc;
      pendingPages := new TransactionPageCache(swapAfterPages, pageSize);
      taken, base, init := [], db, checksum;
    }

    /** Takes one frame; `ok` is false when its checksum does not follow from the last one.
        `committed` tells whether the frame completed a transaction. */
    method Take(f: WalFrame, swapWrites: nat, swapOpens: bool) returns (ok: bool, committed: bool)
      requires Valid() && WellFormed(f, pageSize) && pageSize % 8 == 0
      modifies this, pendingPages
      ensures Valid() && fresh({pendingPages} - {old(pendingPages)})
      ensures AllWellFormed(old(taken) + [f], pageSize)
      ensures ok <==> verifyCrc ==> Chained(old(taken) + [f], init, pageSize)
      ensures taken == old(taken) + if ok then [f] else []
      ensures committed <==> ok && IsCommitted(f)
    {
      hide PagesValid, Chained, CrcAfter, ExpectedCrc, FrameCrc, BigEndian32, IsCommitted;
      ChainedStep(taken, f, init, pageSize);
      if verifyCrc {
        var r := Verify(f, checksum);
        if r.None? {
          assert taken == old(taken) + [];
          return false, false;
        }
        checksum := r.value;
        SamePages();
      }
      committed := Store(f, swapWrites, swapOpens);
      return true, committed;
    }

    twostate lemma SamePages()
      requires old(AllWellFormed(taken, pageSize)) && old(PagesValid())
      requires unchanged(this`db) && unchanged(this`taken) && unchanged(this`pendingPages) && unchanged(pendingPages)
      ensures PagesValid()
    {
      hide Recovered, LastPages, CommittedLen;
    }

    method Store(f: WalFrame, swapWrites: nat, swapOpens: bool) returns (committed: bool)
      requires AllWellFormed(taken, pageSize) && PagesValid() && WellFormed(f, pageSize)
      modifies this`db, this`pendingPages, this`taken, pendingPages
      ensures taken == old(taken) + [f] && AllWellFormed(taken, pageSize) && PagesValid()
      ensures fresh({pendingPages} - {old(pendingPages)})
      ensures committed == IsCommitted(f)
    {
      hide Recovered, LastPages, CommittedLen, BigEndian32, Overlay;
      CommittedStep(taken, f, pageSize);
      ghost var n := CommittedLen(taken, pageSize);
      ghost var open := taken[n..];
      LastPagesStep(open, f, pageSize);
      pendingPages.Insert(FramePage(f), f.page, swapWrites, swapOpens);
      taken := taken + [f];
      assert taken[n..] == open + [f];
      if IsCommitted(f) {
        db := pendingPages.Flush(db);
        Committed(open + [f]);
        pendingPages := new TransactionPageCache(swapAfterPages, pageSize);
        return true;
      } else {
        NotCommitted(old(taken), f);
        return false;
      }
    }

    /** A commit brings the file to the recovered state of all the frames taken. */
    lemma Committed(txn: seq<WalFrame>)
      requires AllWellFormed(taken, pageSize) && taken != [] && IsCommitted(taken[|taken| - 1])
      requires txn == taken[CommittedLen(taken[..|taken| - 1], pageSize)..]
      ensures CommittedLen(taken, pageSize) == |taken|
      ensures AllWellFormed(txn, pageSize)
      ensures Overlay(Recovered(base, pageSize, taken[..|taken| - 1]), pageSize, LastPages(txn, pageSize))
           == Recovered(base, pageSize, taken)
      ensures LastPages(taken[|taken|..], pageSize) == map[]
    {
      hide Overlay, WriteFrames;
      var front := taken[..|taken| - 1];
      var n := CommittedLen(front, pageSize);
      assert front[..n] == taken[..n];
      RecoveredStep(base, taken, pageSize);
      OverlayIsWriting(WriteFrames(base, pageSize, taken[..n]), pageSize, txn);
    }

    lemma NotCommitted(before: seq<WalFrame>, f: WalFrame)
      requires AllWellFormed(before, pageSize) && WellFormed(f, pageSize) && !IsCommitted(f)
      ensures AllWellFormed(before + [f], pageSize)
      ensures Recovered(base, pageSize, before + [f]) == Recovered(base, pageSize, before)
    {
      CommittedStep(before, f, pageSize);
      var n := CommittedLen(before, pageSize);
      assert (before + [f])[..n] == before[..n];
    }
  }

  // ---------------------------------------------------------------- one object

  /** What a restore has achieved out of the frames `all` it was to read: the frames `good`
      were taken, and it stopped early exactly at the first frame whose checksum is wrong. */
  ghost predicate TookUntilBad(good: seq<WalFrame>, all: seq<WalFrame>, verifyCrc: bool, init: Crc, pageSize: nat)
    requires AllWellFormed(all, pageSize)
  {
    && good <= all
    && (verifyCrc ==> Chained(good, init, pageSize))
    && (good != all ==> verifyCrc && !Chained(all[..|good| + 1], init, pageSize))
  }

  /** The frames that a restore takes out of `all`: without verified checksums all of them, with
      them those before the first bad one. */
  ghost function GoodFrames(all: seq<WalFrame>, verifyCrc: bool, init: Crc, pageSize: nat): (good: seq<WalFrame>)
    requires AllWellFormed(all, pageSize)
    ensures good <= all
  {
    if !verifyCrc || Chained(all, init, pageSize) then all
    else GoodFrames(all[..|all| - 1], verifyCrc, init, pageSize)
  }

  /** They are the longest prefix whose checksums chain. */
  lemma {:induction false} GoodIsLongest(all: seq<WalFrame>, verifyCrc: bool, init: Crc, pageSize: nat, n: nat)
    requires AllWellFormed(all, pageSize) && n <= |all|
    ensures n <= |GoodFrames(all, verifyCrc, init, pageSize)| <==> !verifyCrc || Chained(all[..n], init, pageSize)
  {
    assert Chained([], init, pageSize);
    hide Chained;
    if !verifyCrc || Chained(all, init, pageSize) {
      if verifyCrc {
        ChainedPrefix(all, init, pageSize, n);
      }
    } else if n == |all| {
      assert all[..n] == all && all != [];
      assert |GoodFrames(all[..|all| - 1], verifyCrc, init, pageSize)| <= |all| - 1;
    } else {
      var front := all[..|all| - 1];
      GoodIsLongest(front, verifyCrc, init, pageSize, n);
      assert front[..n] == all[..n];
    }
  }

  lemma TookGood(good: seq<WalFrame>, all: seq<WalFrame>, verifyCrc: bool, init: Crc, pageSize: nat)
    requires AllWellFormed(all, pageSize) && TookUntilBad(good, all, verifyCrc, init, pageSize)
    ensures good == GoodFrames(all, verifyCrc, init, pageSize)
  {
    hide Chained, GoodFrames;
    assert good == all[..|good|];
    GoodIsLongest(all, verifyCrc, init, pageSize, |good|);
    if good != all {
      GoodIsLongest(all, verifyCrc, init, pageSize, |good| + 1);
    }
  }

  lemma AllGood(all: seq<WalFrame>, verifyCrc: bool, init: Crc, pageSize: nat)
    requires AllWellFormed(all, pageSize)
    ensures GoodFrames(all, verifyCrc, init, pageSize) == all <==> verifyCrc ==> Chained(all, init, pageSize)
  {
    hide Chained, GoodFrames;
    GoodIsLongest(all, verifyCrc, init, pageSize, |all|);
    assert all[..|all|] == all;
  }

  /** Why reading an object ended. */
  datatype Ending = Complete | Truncated | BadChecksum

  /** Replays one object.  `swaps` tells how each swap of the page cache goes. */
  method RestoreObject(r: Restorer, body: Bytes, pageSize: nat, received: nat, swaps: nat -> (nat, bool))
    returns (ending: Ending, received': nat, applied: bool)
    requires r.Valid() && r.pageSize == pageSize && pageSize % 8 == 0
    modifies r, r.pendingPages
    ensures r.Valid() && fresh({r.pendingPages} - {old(r.pendingPages)})
    ensures TookUntilBad(r.taken, old(r.taken) + Decode(body, pageSize).0, r.verifyCrc, r.init, pageSize)
    ensures ending.BadChecksum? <==> r.taken != old(r.taken) + Decode(body, pageSize).0
    ensures ending.Truncated? ==> !Decode(body, pageSize).1
    ensures ending.Complete? ==> Decode(body, pageSize).1 && received' == received + |Decode(body, pageSize).0|
    ensures CommittedLen(old(r.taken), pageSize) <= CommittedLen(r.taken, pageSize)
    ensures applied <==> CommittedLen(old(r.taken), pageSize) < CommittedLen(r.taken, pageSize)
  {
    hide Restorer.ChecksumValid, Restorer.PagesValid, Chained, CommittedLen, TookUntilBad, IsCommitted, Decode,
      FramePage;
    DecodeEnds(body, pageSize);
    ghost var all := old(r.taken) + Decode(body, pageSize).0;
    var at := 0;
    received', applied := received, false;
    assert body[0..] == body;
    while |body| - at >= FRAME_HEADER_SIZE
      invariant 0 <= at <= |body| && r.Valid() && fresh({r.pendingPages} - {old(r.pendingPages)})
      invariant all == r.taken + Decode(body[at..], pageSize).0
      invariant Decode(body[at..], pageSize).1 == Decode(body, pageSize).1
      invariant received' + |Decode(body[at..], pageSize).0| == received + |Decode(body, pageSize).0|
      invariant CommittedLen(old(r.taken), pageSize) <= CommittedLen(r.taken, pageSize) <= |r.taken|
      invariant applied <==> CommittedLen(old(r.taken), pageSize) < CommittedLen(r.taken, pageSize)
    {
      if |body| - at < FrameSize(pageSize) {
        DecodeEnds(body[at..], pageSize);
        assert r.taken == all;
        TookAll(r);
        return Truncated, received', applied;
      }
      var f := WalFrame(body[at..at + FRAME_HEADER_SIZE], body[at + FRAME_HEADER_SIZE..at + FrameSize(pageSize)]);
      ghost var before, rest := r.taken, Decode(body[at + FrameSize(pageSize)..], pageSize).0;
      DecodeStep(body, at, pageSize);
      NextOf(before, f, rest, all, pageSize);
      CommittedStep(before, f, pageSize);
      var (swapWrites, swapOpens) := swaps(received');
      var ok, committed := r.Take(f, swapWrites, swapOpens);
      if !ok {
        assert r.taken == before;
        TookSome(r, all, f);
        return BadChecksum, received', applied;
      }
      applied := applied || committed;
      received' := received' + 1;
      at := at + FrameSize(pageSize);
      assert all == r.taken + rest;
    }
    DecodeEnds(body[at..], pageSize);
    assert r.taken == all;
    TookAll(r);
    return Complete, received', applied;
  }

  /** A body that is too short for a page, or even for a header, holds no frame. */
  lemma DecodeEnds(body: Bytes, pageSize: nat)
    ensures |body| < FrameSize(pageSize) ==> Decode(body, pageSize) == ([], |body| < FRAME_HEADER_SIZE)
    ensures |body| < FRAME_HEADER_SIZE ==> |body| < FrameSize(pageSize)
  {
  }

  lemma NextOf(before: seq<WalFrame>, f: WalFrame, rest: seq<WalFrame>, all: seq<WalFrame>, pageSize: nat)
    requires all == before + ([f] + rest) && AllWellFormed(all, pageSize)
    ensures all[..|before| + 1] == before + [f] && before + [f] <= all && all == before + [f] + rest
    ensures WellFormed(f, pageSize)
    ensures AllWellFormed(before, pageSize) && AllWellFormed(all, pageSize)
  {
    hide FramePage;
    assert all[|before|] == f;
    assert forall i :: 0 <= i < |before| ==> all[i] == before[i];
  }

  lemma DecodeStep(body: Bytes, at: nat, pageSize: nat)
    requires at + FrameSize(pageSize) <= |body|
    ensures var f := WalFrame(body[at..at + FRAME_HEADER_SIZE], body[at + FRAME_HEADER_SIZE..at + FrameSize(pageSize)]);
      var (rest, ok) := Decode(body[at + FrameSize(pageSize)..], pageSize);
      Decode(body[at..], pageSize) == ([f] + rest, ok)
  {
    var b := body[at..];
    assert b[..FRAME_HEADER_SIZE] == body[at..at + FRAME_HEADER_SIZE];
    assert b[FRAME_HEADER_SIZE..FrameSize(pageSize)] == body[at + FRAME_HEADER_SIZE..at + FrameSize(pageSize)];
    assert b[FrameSize(pageSize)..] == body[at + FrameSize(pageSize)..];
  }

  lemma TookAll(r: Restorer)
    requires r.Valid()
    ensures TookUntilBad(r.taken, r.taken, r.verifyCrc, r.init, r.pageSize)
  {
  }

  lemma TookSome(r: Restorer, all: seq<WalFrame>, f: WalFrame)
    requires r.Valid() && AllWellFormed(all, r.pageSize)
    requires r.taken + [f] <= all && r.verifyCrc && !Chained(all[..|r.taken| + 1], r.init, r.pageSize)
    ensures TookUntilBad(r.taken, all, r.verifyCrc, r.init, r.pageSize)
  {
  }

  // ---------------------------------------------------------------- one object after another

  /** Why collecting frames stopped: at the end or at a gap or a limit, or at an object that
      ends inside a page. */
  datatype Stop = Finished | Cut

  /** The bounds of a restore: the last consistent frame, and which batches are too recent,
      told by their timestamps. */
  datatype Limits = Limits(lastConsistentFrame: Option<nat>, tooLate: nat -> bool)

  predicate Admits(limits: Limits, last: nat, timestamp: nat) {
    && !(limits.lastConsistentFrame.Some? && last > limits.lastConsistentFrame.value)
    && !limits.tooLate(timestamp)
  }

  /** The frames that a restore reads from the listed objects, given how many it has read. */
  ghost function Collect(objs: seq<Object>, pageSize: nat, received: nat, limits: Limits): (r: (seq<WalFrame>, Stop))
    ensures AllWellFormed(r.0, pageSize)
    decreases |objs|
  {
    if objs == [] then ([], Finished)
    else
      match Names.ParseFrameRange(objs[0].key)
      case NotARange => Collect(objs[1..], pageSize, received, limits)
      case Range(first, last, timestamp, kind) =>
        if first != received + 1 || !Admits(limits, last, timestamp) then ([], Finished)
        else
          var (fs, ok) := Decode(objs[0].body, pageSize);
          if !ok then (fs, Cut)
          else
            var (rest, stop) := Collect(objs[1..], pageSize, received + |fs|, limits);
            (fs + rest, stop)
  }

  /** Restores the write-ahead log of one generation from one page of listed objects.  `swaps`
      tells how the swaps of the page cache go.  The file ends up with exactly the complete
      transactions among the frames taken. */
  method RestoreWal(objs: seq<Object>, pageSize: nat, limits: Limits, checksum: Crc, verifyCrc: bool,
                    swapAfterPages: nat, swaps: nat -> (nat, bool), db: DbFile)
    returns (ok: bool, applied: bool, db': DbFile)
    requires pageSize % 8 == 0
    ensures var all := Collect(objs, pageSize, 0, limits);
      var good := GoodFrames(all.0, verifyCrc, checksum, pageSize);
      && AllWellFormed(good, pageSize)
      && db' == Recovered(db, pageSize, good)
      && (ok <==> good == all.0 && all.1.Finished?)
      && (applied <==> CommittedLen(good, pageSize) > 0)
  {
    hide Restorer.ChecksumValid, Restorer.PagesValid, Recovered, Decode, Names.ParseFrameRange, CommittedLen,
      TookUntilBad, GoodFrames, Collect, FramePage;
    ghost var all := Collect(objs, pageSize, 0, limits);
    var r := new Restorer(db, checksum, pageSize, swapAfterPages, verifyCrc);
    var received: nat, i: nat := 0, 0;
    applied := false;
    NothingTaken(pageSize);
    assert objs[0..] == objs;
    while i < |objs|
      invariant 0 <= i <= |objs| && r.Valid() && fresh(r) && fresh(r.pendingPages)
      invariant r.base == db && r.init == checksum && r.pageSize == pageSize && r.verifyCrc == verifyCrc
      invariant all.0 == r.taken + Collect(objs[i..], pageSize, received, limits).0
      invariant all.1 == Collect(objs[i..], pageSize, received, limits).1
      invariant applied <==> CommittedLen(r.taken, pageSize) > 0
    {
      CollectAt(objs, i, pageSize, received, limits);
      match Names.ParseFrameRange(objs[i].key) {
        case NotARange =>
        case Range(first, last, timestamp, kind) =>
          if first != received + 1 || !Admits(limits, last, timestamp) {
            Restored(r, all.0);
            return true, applied, r.db;
          }
          ghost var before, fs := r.taken, Decode(objs[i].body, pageSize).0;
          var ending, received', more := RestoreObject(r, objs[i].body, pageSize, received, swaps);
          match ending {
            case Complete =>
              received, applied := received', applied || more;
            case Truncated =>
              Restored(r, all.0);
              return false, applied || more, r.db;
            case BadChecksum =>
              TookLess(r.taken, before + fs, all.0, verifyCrc, checksum, pageSize);
              TookGood(r.taken, all.0, verifyCrc, checksum, pageSize);
              Restored(r, r.taken);
              return false, applied || more, r.db;
          }
      }
      i := i + 1;
    }
    CollectNothing(objs, pageSize, received, limits);
    Restored(r, all.0);
    return true, applied, r.db;
  }

  lemma CollectNothing(objs: seq<Object>, pageSize: nat, received: nat, limits: Limits)
    ensures Collect(objs[|objs|..], pageSize, received, limits) == ([], Finished)
  {
  }

  lemma CollectAt(objs: seq<Object>, i: nat, pageSize: nat, received: nat, limits: Limits)
    requires i < |objs|
    ensures Collect(objs[i..], pageSize, received, limits) ==
      match Names.ParseFrameRange(objs[i].key)
      case NotARange => Collect(objs[i + 1..], pageSize, received, limits)
      case Range(first, last, timestamp, kind) =>
        if first != received + 1 || !Admits(limits, last, timestamp) then ([], Finished)
        else
          var (fs, ok) := Decode(objs[i].body, pageSize);
          if !ok then (fs, Cut)
          else
            var (rest, stop) := Collect(objs[i + 1..], pageSize, received + |fs|, limits);
            (fs + rest, stop)
  {
    hide Names.ParseFrameRange, Decode;
    assert objs[i..][1..] == objs[i + 1..] && objs[i..][0] == objs[i];
  }

  lemma NothingTaken(pageSize: nat)
    ensures CommittedLen([], pageSize) == 0
  {
  }

  /** The frames taken are good, and the file holds their complete transactions. */
  lemma Restored(r: Restorer, taken: seq<WalFrame>)
    requires r.Valid() && r.taken == taken
    ensures r.db == Recovered(r.base, r.pageSize, taken)
    ensures AllWellFormed(taken, r.pageSize) && GoodFrames(taken, r.verifyCrc, r.init, r.pageSize) == taken
  {
  }

  lemma TookLess(good: seq<WalFrame>, some: seq<WalFrame>, all: seq<WalFrame>,
                 verifyCrc: bool, init: Crc, pageSize: nat)
    requires AllWellFormed(all, pageSize) && some <= all && AllWellFormed(some, pageSize)
    requires TookUntilBad(good, some, verifyCrc, init, pageSize) && good != some
    ensures TookUntilBad(good, all, verifyCrc, init, pageSize) && good != all
  {
    assert |good| < |some|;
    assert some[..|good| + 1] == all[..|good| + 1];
  }
}
