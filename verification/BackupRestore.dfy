/** Restoring what was backed up: the objects that `WalCopier::flush` writes, listed in name
    order among other objects, replay to the frames they were cut from. */
module BackupRestore {
  import opened Basics
  import opened PageFile
  import opened Wal
  import opened Bottomless
  import opened Restore
  import Names = ObjectNames

  // ---------------------------------------------------------------- batches in flush order

  /** The last frame that a restore accepts from consecutive batches. */
  ghost function Accepted(batches: seq<Batch>, received: nat, limits: Limits): nat
    decreases |batches|
  {
    if batches == [] || !Admits(limits, batches[0].last, batches[0].timestamp) then received
    else Accepted(batches[1..], batches[0].last, limits)
  }

  /** Without limits every batch is accepted; with a limit no frame beyond it is. */
  lemma {:induction false} AcceptedBounds(batches: seq<Batch>, received: nat, b: nat, max: nat, limits: Limits)
    requires Consecutive(batches, received + 1, b, max)
    ensures received <= Accepted(batches, received, limits) < b
    ensures (forall i :: 0 <= i < |batches| ==> Admits(limits, batches[i].last, batches[i].timestamp)) ==>
      Accepted(batches, received, limits) == b - 1
    decreases |batches|
  {
    if batches == [] {
    } else {
      ConsecutiveBounds(batches[1..], batches[0].last + 1, b, max);
      AcceptedBounds(batches[1..], batches[0].last, b, max, limits);
      assert forall i :: 0 <= i < |batches| - 1 ==> batches[1..][i] == batches[i + 1];
    }
  }

  /** One batch of the listing. */
  lemma CollectBatch(objs: seq<Object>, dir: string, fs: seq<WalFrame>, pageSize: nat, batch: Batch, received: nat,
                     limits: Limits)
    requires AllWellFormed(fs, pageSize) && objs != []
    requires batch.first == received + 1 <= batch.last <= |fs| && objs[0] == ObjectOf(dir, fs, batch)
    requires batch.last < U32_RANGE && batch.timestamp < U64_RANGE
    ensures Collect(objs, pageSize, received, limits) ==
      if Admits(limits, batch.last, batch.timestamp)
      then var (rest, stop) := Collect(objs[1..], pageSize, batch.last, limits); (fs[received..batch.last] + rest, stop)
      else ([], Finished)
  {
    hide Names.ParseFrameRange, Names.Key, Encode, Decode, Admits;
    Names.KeyParses(dir, batch.first, batch.last, batch.timestamp, batch.kind);
    DecodeEncode(fs[received..batch.last], pageSize);
  }

  lemma FirstBatch(objs: seq<Object>, dir: string, fs: seq<WalFrame>, batches: seq<Batch>, received: nat, b: nat,
                   max: nat)
    requires AreObjects(objs, dir, fs, batches) && Consecutive(batches, received + 1, b, max) && batches != []
    ensures objs != [] && AreObjects(objs[1..], dir, fs, batches[1..])
    ensures Consecutive(batches[1..], batches[0].last + 1, b, max)
    ensures var batch := batches[0];
      && batch.first == received + 1 <= batch.last <= |fs| && objs[0] == ObjectOf(dir, fs, batch)
      && batch.last < U32_RANGE && batch.timestamp < U64_RANGE
  {
    hide ObjectOf;
  }

  lemma AcceptedFirst(batches: seq<Batch>, received: nat, limits: Limits)
    requires batches != []
    ensures Accepted(batches, received, limits) ==
      if Admits(limits, batches[0].last, batches[0].timestamp)
      then Accepted(batches[1..], batches[0].last, limits)
      else received
  {
  }

  /** Whatever is behind the batches, if it does not go on with the frame that is due. */
  ghost predicate StopsAt(more: seq<Object>, b: nat) {
    more != [] ==>
      Names.ParseFrameRange(more[0].key).Range? && Names.ParseFrameRange(more[0].key).first != b
  }

  lemma CollectStops(more: seq<Object>, pageSize: nat, received: nat, limits: Limits)
    requires StopsAt(more, received + 1)
    ensures Collect(more, pageSize, received, limits) == ([], Finished)
  {
    hide Names.ParseFrameRange, Decode, Admits;
  }

  /** When an object is missing, the objects behind it are not read: collecting stops where the
      next object does not start with the frame that is due. */
  lemma {:induction false} CollectToGap(objs: seq<Object>, more: seq<Object>, dir: string, fs: seq<WalFrame>,
                                        pageSize: nat, batches: seq<Batch>, received: nat, b: nat, max: nat,
                                        limits: Limits)
    requires AllWellFormed(fs, pageSize) && AreObjects(objs, dir, fs, batches)
    requires Consecutive(batches, received + 1, b, max) && received <= |fs| && StopsAt(more, b)
    ensures received <= Accepted(batches, received, limits) <= |fs|
    ensures Collect(objs + more, pageSize, received, limits) ==
      (fs[received..Accepted(batches, received, limits)], Finished)
    decreases |batches|
  {
    hide AreObjects, Consecutive, Collect, Accepted, ObjectOf, Admits, StopsAt, AllWellFormed;
    if batches == [] {
      NoBatch(objs, more, dir, fs, received, b, max, limits);
      CollectStops(more, pageSize, received, limits);
    } else {
      var batch := batches[0];
      FirstBatch(objs, dir, fs, batches, received, b, max);
      AcceptedFirst(batches, received, limits);
      CollectBatch(objs + more, dir, fs, pageSize, batch, received, limits);
      assert (objs + more)[1..] == objs[1..] + more;
      if Admits(limits, batch.last, batch.timestamp) {
        CollectToGap(objs[1..], more, dir, fs, pageSize, batches[1..], batch.last, b, max, limits);
        JoinFrames(fs, received, batch.last, Accepted(batches, received, limits));
      } else {
        assert fs[received..received] == [];
      }
    }
  }

  lemma NoBatch(objs: seq<Object>, more: seq<Object>, dir: string, fs: seq<WalFrame>, received: nat, b: nat, max: nat,
                limits: Limits)
    requires AreObjects(objs, dir, fs, []) && Consecutive([], received + 1, b, max) && received <= |fs|
    ensures objs + more == more && b == received + 1
    ensures Accepted([], received, limits) == received && fs[received..received] == []
  {
  }

  lemma JoinFrames(fs: seq<WalFrame>, i: nat, j: nat, k: nat)
    requires i <= j <= k <= |fs|
    ensures fs[i..j] + fs[j..k] == fs[i..k]
  {
  }

  lemma CollectBatches(objs: seq<Object>, dir: string, fs: seq<WalFrame>, pageSize: nat, batches: seq<Batch>,
                       received: nat, b: nat, max: nat, limits: Limits)
    requires AllWellFormed(fs, pageSize) && AreObjects(objs, dir, fs, batches)
    requires Consecutive(batches, received + 1, b, max) && received <= |fs|
    ensures received <= Accepted(batches, received, limits) <= |fs|
    ensures Collect(objs, pageSize, received, limits) ==
      (fs[received..Accepted(batches, received, limits)], Finished)
  {
    hide AreObjects, Consecutive, Collect, Accepted, AllWellFormed;
    CollectToGap(objs, [], dir, fs, pageSize, batches, received, b, max, limits);
    assert objs + [] == objs;
  }

  // ---------------------------------------------------------------- listings

  /** A listing is in strict name order. */
  ghost predicate InNameOrder(objs: seq<Object>) {
    forall i, j :: 0 <= i < j < |objs| ==> Names.Before(objs[i].key, objs[j].key)
  }

  /** The objects whose names hold a frame range. */
  ghost function Ranges(objs: seq<Object>): seq<Object> {
    if objs == [] then []
    else if Names.ParseFrameRange(objs[0].key).NotARange? then Ranges(objs[1..])
    else [objs[0]] + Ranges(objs[1..])
  }

  /** Other objects (snapshots, metadata) do not disturb a restore. */
  lemma {:induction false} CollectSkips(objs: seq<Object>, pageSize: nat, received: nat, limits: Limits)
    ensures Collect(objs, pageSize, received, limits) == Collect(Ranges(objs), pageSize, received, limits)
    decreases |objs|
  {
    hide Names.ParseFrameRange, Decode, Admits;
    if objs != [] {
      CollectSkips(objs[1..], pageSize, received, limits);
      CollectSkips(objs[1..], pageSize, received + |Decode(objs[0].body, pageSize).0|, limits);
      assert !Names.ParseFrameRange(objs[0].key).NotARange? ==> Ranges(objs)[1..] == Ranges(objs[1..]);
    }
  }

  lemma {:induction false} RangesOf(objs: seq<Object>)
    requires InNameOrder(objs)
    ensures forall o :: o in Ranges(objs) <==> o in objs && !Names.ParseFrameRange(o.key).NotARange?
    ensures InNameOrder(Ranges(objs))
  {
    hide Names.ParseFrameRange, Names.Before;
    if objs == [] {
      assert Ranges(objs) == [];
    } else {
      var rest := objs[1..];
      OrderedRest(objs);
      hide InNameOrder;
      RangesOf(rest);
      OrderedFirst(objs[0], Ranges(rest));
    }
  }

  lemma OrderedRest(objs: seq<Object>)
    requires InNameOrder(objs) && objs != []
    ensures InNameOrder(objs[1..])
    ensures forall o :: o in objs[1..] ==> Names.Before(objs[0].key, o.key)
    ensures forall o :: o in objs <==> o == objs[0] || o in objs[1..]
  {
    hide Names.Before;
    var rest := objs[1..];
    assert forall i :: 0 <= i < |rest| ==> rest[i] == objs[i + 1];
    assert objs == [objs[0]] + rest;
  }

  lemma OrderedFirst(first: Object, objs: seq<Object>)
    requires InNameOrder(objs) && forall o :: o in objs ==> Names.Before(first.key, o.key)
    ensures InNameOrder([first] + objs)
  {
    hide Names.Before;
    assert forall i :: 0 <= i < |objs| ==> objs[i] in objs;
  }

  /** A strict order admits one listing of the same objects. */
  lemma {:induction false} OneListing(a: seq<Object>, b: seq<Object>)
    requires InNameOrder(a) && InNameOrder(b) && forall o :: o in a <==> o in b
    ensures a == b
  {
    hide Names.Before;
    if a != [] || b != [] {
      SomeObject(a, b);
      SameHead(a, b);
      SameTail(a, b);
      SameTail(b, a);
      OneListing(a[1..], b[1..]);
      assert a == [a[0]] + a[1..] && b == [b[0]] + b[1..];
    }
  }

  lemma SomeObject(a: seq<Object>, b: seq<Object>)
    requires forall o :: o in a <==> o in b
    ensures a == [] <==> b == []
  {
    assert a != [] ==> a[0] in a;
    assert b != [] ==> b[0] in b;
  }

  lemma SameHead(a: seq<Object>, b: seq<Object>)
    requires a != [] && b != [] && InNameOrder(a) && InNameOrder(b) && forall o :: o in a <==> o in b
    ensures a[0] == b[0]
  {
    hide Names.Before;
    Names.BeforeIsStrict(a[0].key, b[0].key);
    assert a[0] in b && b[0] in a;
    var i :| 0 <= i < |b| && b[i] == a[0];
    var j :| 0 <= j < |a| && a[j] == b[0];
  }

  lemma SameTail(a: seq<Object>, b: seq<Object>)
    requires a != [] && b != [] && a[0] == b[0] && InNameOrder(a) && InNameOrder(b)
    requires forall o :: o in a ==> o in b
    ensures InNameOrder(a[1..]) && forall o :: o in a[1..] ==> o in b[1..]
  {
    hide Names.Before;
    Names.BeforeIsStrict(a[0].key, a[0].key);
    forall o | o in a[1..]
      ensures o in b[1..]
    {
      var i :| 0 <= i < |a| - 1 && a[1..][i] == o;
      assert a[i + 1] == o && o != a[0];
      assert o in a;
      var j :| 0 <= j < |b| && b[j] == o;
      assert b[1..][j - 1] == o;
    }
  }

  /** Flushed objects are in name order. */
  lemma BatchesInNameOrder(objs: seq<Object>, dir: string, fs: seq<WalFrame>, batches: seq<Batch>,
                           a: nat, b: nat, max: nat)
    requires AreObjects(objs, dir, fs, batches) && Consecutive(batches, a, b, max)
    ensures InNameOrder(objs)
    ensures forall o :: o in objs ==> !Names.ParseFrameRange(o.key).NotARange?
  {
    hide Names.Before, Names.Key, Names.ParseFrameRange, Consecutive, Encode;
    ConsecutiveOrder(batches, a, b, max);
    forall i, j | 0 <= i < j < |objs|
      ensures Names.Before(objs[i].key, objs[j].key)
    {
      var x, y := batches[i], batches[j];
      Names.KeysInFrameOrder(dir, x.first, x.last, x.timestamp, x.kind, y.first, y.last, y.timestamp, y.kind);
    }
    forall i | 0 <= i < |objs|
      ensures !Names.ParseFrameRange(objs[i].key).NotARange?
    {
      var x := batches[i];
      Names.KeyParses(dir, x.first, x.last, x.timestamp, x.kind);
    }
  }

  lemma {:induction false} ConsecutiveOrder(batches: seq<Batch>, a: nat, b: nat, max: nat)
    requires Consecutive(batches, a, b, max)
    ensures forall i :: 0 <= i < |batches| ==>
      && batches[i].first <= batches[i].last < U32_RANGE
      && batches[i].timestamp < U64_RANGE
    ensures forall i, j :: 0 <= i < j < |batches| ==> batches[i].first < batches[j].first
  {
    if batches != [] {
      var rest := batches[1..];
      assert forall i :: 1 <= i < |batches| ==> batches[i] == rest[i - 1];
      ConsecutiveBounds(rest, batches[0].last + 1, b, max);
      ConsecutiveOrder(rest, batches[0].last + 1, b, max);
    }
  }

  /** The listing holds the given batch objects, and other objects only under names that are
      not frame ranges. */
  ghost predicate Lists(listing: seq<Object>, objs: seq<Object>) {
    && InNameOrder(listing)
    && (forall o :: o in objs ==> o in listing)
    && (forall o :: o in listing && o !in objs ==> Names.ParseFrameRange(o.key).NotARange?)
  }

  /** Whatever else the listing holds, a restore reads exactly the accepted prefix of the
      frames that were backed up. */
  lemma RestoreReadsBackup(listing: seq<Object>, objs: seq<Object>, dir: string, fs: seq<WalFrame>, pageSize: nat,
                           batches: seq<Batch>, b: nat, max: nat, limits: Limits)
    requires AllWellFormed(fs, pageSize) && AreObjects(objs, dir, fs, batches) && Consecutive(batches, 1, b, max)
    requires Lists(listing, objs)
    ensures Accepted(batches, 0, limits) <= |fs|
    ensures Collect(listing, pageSize, 0, limits) == (fs[..Accepted(batches, 0, limits)], Finished)
  {
    hide Names.ParseFrameRange, Names.Before, Collect, InNameOrder, AreObjects, Consecutive, Accepted;
    BatchesInNameOrder(objs, dir, fs, batches, 1, b, max);
    OnlyBatches(listing, objs);
    CollectSkips(listing, pageSize, 0, limits);
    CollectBatches(objs, dir, fs, pageSize, batches, 0, b, max, limits);
    assert fs[0..Accepted(batches, 0, limits)] == fs[..Accepted(batches, 0, limits)];
  }

  /** A listing in which objects are missing: a restore reads the frames before the first gap. */
  lemma LostObjectStops(listing: seq<Object>, objs: seq<Object>, more: seq<Object>, dir: string, fs: seq<WalFrame>,
                        pageSize: nat, batches: seq<Batch>, b: nat, max: nat, limits: Limits)
    requires AllWellFormed(fs, pageSize) && AreObjects(objs, dir, fs, batches) && Consecutive(batches, 1, b, max)
    requires Ranges(listing) == objs + more && StopsAt(more, b)
    ensures Accepted(batches, 0, limits) <= |fs|
    ensures Collect(listing, pageSize, 0, limits) == (fs[..Accepted(batches, 0, limits)], Finished)
  {
    hide Names.ParseFrameRange, Collect, AreObjects, Consecutive, Accepted, Ranges;
    CollectSkips(listing, pageSize, 0, limits);
    CollectToGap(objs, more, dir, fs, pageSize, batches, 0, b, max, limits);
    assert fs[0..Accepted(batches, 0, limits)] == fs[..Accepted(batches, 0, limits)];
  }

  lemma OnlyBatches(listing: seq<Object>, objs: seq<Object>)
    requires Lists(listing, objs) && InNameOrder(objs)
    requires forall o :: o in objs ==> !Names.ParseFrameRange(o.key).NotARange?
    ensures Ranges(listing) == objs
  {
    hide Names.ParseFrameRange, Names.Before, InNameOrder;
    RangesOf(listing);
    OneListing(Ranges(listing), objs);
  }

  /** Backup, then restore: the file gets exactly the complete transactions of the accepted
      frames; when checksums are verified, of those before the first bad one. */
  method RestoreBackup(listing: seq<Object>, ghost objs: seq<Object>, ghost dir: string, ghost fs: seq<WalFrame>,
                       ghost batches: seq<Batch>, ghost b: nat, ghost max: nat, pageSize: nat, limits: Limits,
                       checksum: Crc, verifyCrc: bool, swapAfterPages: nat, swaps: nat -> (nat, bool), db: DbFile)
    returns (ok: bool, applied: bool, db': DbFile)
    requires pageSize % 8 == 0 && AllWellFormed(fs, pageSize)
    requires AreObjects(objs, dir, fs, batches) && Consecutive(batches, 1, b, max) && Lists(listing, objs)
    ensures Accepted(batches, 0, limits) <= |fs|
    ensures var accepted := fs[..Accepted(batches, 0, limits)];
      var good := GoodFrames(accepted, verifyCrc, checksum, pageSize);
      && AllWellFormed(good, pageSize)
      && db' == Recovered(db, pageSize, good)
      && (applied <==> CommittedLen(good, pageSize) > 0)
      && (ok <==> verifyCrc ==> Chained(accepted, checksum, pageSize))
  {
    hide Collect, Accepted, AreObjects, Consecutive, Lists, Recovered, CommittedLen, Chained, GoodFrames;
    RestoreReadsBackup(listing, objs, dir, fs, pageSize, batches, b, max, limits);
    AllGood(fs[..Accepted(batches, 0, limits)], verifyCrc, checksum, pageSize);
    ok, applied, db' := RestoreWal(listing, pageSize, limits, checksum, verifyCrc, swapAfterPages, swaps, db);
  }
}
