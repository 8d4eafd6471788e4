/** Restoring a database from a stack of generations (`bottomless/src/replicator.rs`). */
module RestoreStack {
  import opened Basics
  import opened PageFile
  import opened Wal
  import opened Bottomless
  import opened Restore
  import opened BackupRestore

  const MAX_RESTORE_STACK_DEPTH: nat := 100

  /** The main database file as it was when a generation was made. */
  datatype MainDb = MainDb(file: DbFile, pageSize: nat)

  /** What the bucket holds of a generation; nothing of one that does not exist. */
  datatype Generation = Generation(
    mainDb: Option<MainDb>,
    dependency: Option<nat>,
    metadata: Option<Metadata>,
    listing: seq<Object>)

  type Bucket = nat -> Generation

  // ---------------------------------------------------------------- which generations

  /** A generation and the ones before it that it depends on, as far as no main file is met. */
  ghost predicate IsLineage(bucket: Bucket, gens: seq<nat>, gen: nat) {
    && gens != [] && gens[0] == gen
    && forall i :: 0 <= i < |gens| - 1 ==>
      bucket(gens[i]).mainDb.None? && bucket(gens[i]).dependency == Some(gens[i + 1])
  }

  /** The last generation has a main file, or nothing comes before it. */
  ghost predicate IsComplete(bucket: Bucket, gens: seq<nat>)
    requires gens != []
  {
    var last := bucket(gens[|gens| - 1]);
    last.mainDb.Some? || last.dependency.None?
  }

  /** Lineages of a generation agree as far as both go. */
  lemma {:induction false} LineagesAgree(bucket: Bucket, x: seq<nat>, y: seq<nat>, gen: nat, i: nat)
    requires IsLineage(bucket, x, gen) && IsLineage(bucket, y, gen) && i < |x| && i < |y|
    ensures x[i] == y[i]
  {
    if i > 0 {
      LineagesAgree(bucket, x, y, gen, i - 1);
      assert bucket(x[i - 1]).dependency == Some(x[i]) && bucket(y[i - 1]).dependency == Some(y[i]);
    }
  }

  /** No lineage goes on behind a complete one. */
  lemma NotLonger(bucket: Bucket, x: seq<nat>, y: seq<nat>, gen: nat)
    requires IsLineage(bucket, x, gen) && IsComplete(bucket, x) && IsLineage(bucket, y, gen)
    ensures y <= x
  {
    var n := |x| - 1;
    forall i | 0 <= i < |y| && i <= n
      ensures x[i] == y[i]
    {
      LineagesAgree(bucket, x, y, gen, i);
    }
    if |y| > |x| {
      GoesOn(bucket, y, gen, n);
      assert false;
    }
  }

  lemma GoesOn(bucket: Bucket, y: seq<nat>, gen: nat, n: nat)
    requires IsLineage(bucket, y, gen) && n < |y| - 1
    ensures bucket(y[n]).mainDb.None? && bucket(y[n]).dependency.Some?
  {
    assert bucket(y[n]).dependency == Some(y[n + 1]);
  }

  /** A generation has one complete lineage at most. */
  lemma OneLineage(bucket: Bucket, x: seq<nat>, y: seq<nat>, gen: nat)
    requires IsLineage(bucket, x, gen) && IsComplete(bucket, x)
    requires IsLineage(bucket, y, gen) && IsComplete(bucket, y)
    ensures x == y
  {
    NotLonger(bucket, x, y, gen);
    NotLonger(bucket, y, x, gen);
  }

  /** More generations than allowed have no main file. */
  ghost predicate TooDeep(bucket: Bucket, gen: nat) {
    exists gens :: IsLineage(bucket, gens, gen) && |gens| == 101
                   && bucket(gens[|gens| - 1]).mainDb.None?
  }

  lemma NotTooDeep(bucket: Bucket, x: seq<nat>, gen: nat)
    requires IsLineage(bucket, x, gen) && IsComplete(bucket, x)
    requires |x| <= MAX_RESTORE_STACK_DEPTH || bucket(x[|x| - 1]).mainDb.Some?
    requires |x| <= MAX_RESTORE_STACK_DEPTH + 1
    ensures !TooDeep(bucket, gen)
  {
    forall y | IsLineage(bucket, y, gen) && |y| == MAX_RESTORE_STACK_DEPTH + 1
      ensures bucket(y[|y| - 1]).mainDb.Some?
    {
      NotLonger(bucket, x, y, gen);
    }
  }

  /** Collects the generations to restore from. */
  method FindStack(bucket: Bucket, gen: nat) returns (r: Option<seq<nat>>)
    ensures r.Some? ==> IsLineage(bucket, r.value, gen) && IsComplete(bucket, r.value) && |r.value| <= 101
    ensures r.None? <==> TooDeep(bucket, gen)
  {
    var stack, current := [gen], gen;
    while bucket(current).mainDb.None?
      invariant IsLineage(bucket, stack, gen) && |stack| <= MAX_RESTORE_STACK_DEPTH + 1
      invariant current == stack[|stack| - 1]
      decreases MAX_RESTORE_STACK_DEPTH + 1 - |stack|
    {
      if |stack| > MAX_RESTORE_STACK_DEPTH {
        return None;
      }
      match bucket(current).dependency {
        case None =>
          NotTooDeep(bucket, stack, gen);
          return Some(stack);
        case Some(prev) =>
          stack, current := stack + [prev], prev;
      }
    }
    NotTooDeep(bucket, stack, gen);
    return Some(stack);
  }

  // ---------------------------------------------------------------- what they give

  ghost function Base(bucket: Bucket, gens: seq<nat>): DbFile
    requires gens != []
  {
    var last := bucket(gens[|gens| - 1]);
    if last.mainDb.Some? then last.mainDb.value.file else []
  }

  /** Only the newest generation, at index 0, may still be written to. */
  function LimitsAt(k: nat, lastFrame: nat, tooLate: nat -> bool): Limits {
    Limits(if k == 0 then Some(lastFrame) else None, tooLate)
  }

  ghost function FramesOf(g: Generation, pageSize: nat, limits: Limits): (fs: seq<WalFrame>)
    ensures AllWellFormed(fs, pageSize)
  {
    if g.metadata.None? then [] else Collect(g.listing, pageSize, 0, limits).0
  }

  /** Of a generation that was backed up, these are the frames up to the limits. */
  lemma FramesOfBackup(g: Generation, objs: seq<Object>, dir: string, fs: seq<WalFrame>, pageSize: nat,
                       batches: seq<Batch>, b: nat, max: nat, limits: Limits)
    requires g.metadata.Some? && AllWellFormed(fs, pageSize)
    requires AreObjects(objs, dir, fs, batches) && Consecutive(batches, 1, b, max) && Lists(g.listing, objs)
    ensures Accepted(batches, 0, limits) <= |fs|
    ensures FramesOf(g, pageSize, limits) == fs[..Accepted(batches, 0, limits)]
  {
    hide Collect, Accepted, AreObjects, Consecutive, Lists;
    RestoreReadsBackup(g.listing, objs, dir, fs, pageSize, batches, b, max, limits);
  }

  /** The database after the generations from index `k` to the oldest one: the main file with
      the complete transactions of one generation after another. */
  ghost function Rebuilt(bucket: Bucket, gens: seq<nat>, k: nat, pageSize: nat, lastFrame: nat, tooLate: nat -> bool):
      DbFile
    requires gens != [] && k <= |gens|
    decreases |gens| - k
  {
    if k == |gens| then Base(bucket, gens)
    else
      var db := Rebuilt(bucket, gens, k + 1, pageSize, lastFrame, tooLate);
      Recovered(db, pageSize, FramesOf(bucket(gens[k]), pageSize, LimitsAt(k, lastFrame, tooLate)))
  }

  /** All page sizes agree. */
  ghost predicate OnePageSize(bucket: Bucket, gens: seq<nat>, pageSize: nat)
    requires gens != []
  {
    && (bucket(gens[|gens| - 1]).mainDb.Some? ==> bucket(gens[|gens| - 1]).mainDb.value.pageSize == pageSize)
    && SizesAgree(bucket, gens, 0, pageSize)
  }

  ghost predicate SizesAgree(bucket: Bucket, gens: seq<nat>, k: nat, pageSize: nat) {
    forall i :: k <= i < |gens| ==>
      bucket(gens[i]).metadata.Some? ==> bucket(gens[i]).metadata.value.pageSize == pageSize
  }

  /** The page size that is set first: the one already known, that of the main file, or that
      of the oldest generation that has one. */
  ghost function FirstSize(bucket: Bucket, gens: seq<nat>, known: Option<nat>): nat
    requires gens != []
  {
    var last := bucket(gens[|gens| - 1]);
    if known.Some? then known.value
    else if last.mainDb.Some? then last.mainDb.value.pageSize
    else OldestSize(bucket, gens, |gens|)
  }

  ghost function OldestSize(bucket: Bucket, gens: seq<nat>, k: nat): nat
    requires k <= |gens|
  {
    if k == 0 then 0
    else if bucket(gens[k - 1]).metadata.Some? then bucket(gens[k - 1]).metadata.value.pageSize
    else OldestSize(bucket, gens, k - 1)
  }

  /** Sets the page size; false when another one was set before. */
  method SetPageSize(known: Option<nat>, pageSize: nat) returns (ok: bool, known': Option<nat>)
    ensures ok <==> known.None? || known.value == pageSize
    ensures ok ==> known' == Some(pageSize)
  {
    if known.Some? && known.value != pageSize {
      return false, known;
    }
    return true, Some(pageSize);
  }

  /** Restores the stack, the oldest generation first.  It succeeds if and only if all page
      sizes agree, all objects can be read to the end and, where checksums are verified, none is
      bad; then it gives the rebuilt database. */
  method RestoreFrom(bucket: Bucket, gens: seq<nat>, known: Option<nat>, lastFrame: nat, tooLate: nat -> bool,
                     verifyCrc: bool, swapAfterPages: nat, swaps: nat -> (nat, bool))
    returns (ok: bool, db: DbFile)
    requires gens != [] && FirstSize(bucket, gens, known) % 8 == 0
    ensures var pageSize := FirstSize(bucket, gens, known);
      && (ok ==> db == Rebuilt(bucket, gens, 0, pageSize, lastFrame, tooLate))
      && (ok <==>
            && OnePageSize(bucket, gens, pageSize)
            && forall k: nat :: k < |gens| ==> Restorable(bucket, gens, k, pageSize, lastFrame, tooLate, verifyCrc))
  {
    hide Rebuilt, Restorable;
    ghost var size := FirstSize(bucket, gens, known);
    var oldest, pageSize := bucket(gens[|gens| - 1]), known;
    db := [];
    if oldest.mainDb.Some? {
      db := oldest.mainDb.value.file;
      ok, pageSize := SetPageSize(known, oldest.mainDb.value.pageSize);
      if !ok {
        return;
      }
    }
    NothingRebuilt(bucket, gens, size, lastFrame, tooLate);
    var k := |gens|;
    while k > 0
      invariant 0 <= k <= |gens|
      invariant pageSize == Some(size) || (pageSize == None && size == OldestSize(bucket, gens, k))
      invariant oldest.mainDb.Some? ==> oldest.mainDb.value.pageSize == size
      invariant SizesAgree(bucket, gens, k, size)
      invariant db == Rebuilt(bucket, gens, k, size, lastFrame, tooLate)
      invariant forall i: nat :: k <= i < |gens| ==> Restorable(bucket, gens, i, size, lastFrame, tooLate, verifyCrc)
    {
      k := k - 1;
      var g := bucket(gens[k]);
      if g.metadata.Some? {
        ok, pageSize := SetPageSize(pageSize, g.metadata.value.pageSize);
        if !ok {
          return;
        }
      }
      ok, db := RestoreOne(bucket, gens, k, size, lastFrame, tooLate, verifyCrc, swapAfterPages, swaps, db);
      if !ok {
        return;
      }
    }
    return true, db;
  }

  lemma NothingRebuilt(bucket: Bucket, gens: seq<nat>, pageSize: nat, lastFrame: nat, tooLate: nat -> bool)
    requires gens != []
    ensures Rebuilt(bucket, gens, |gens|, pageSize, lastFrame, tooLate) == Base(bucket, gens)
  {
  }

  /** Restores one generation of the stack. */
  method RestoreOne(bucket: Bucket, gens: seq<nat>, k: nat, ghost pageSize: nat, lastFrame: nat, tooLate: nat -> bool,
                    verifyCrc: bool, swapAfterPages: nat, swaps: nat -> (nat, bool), db: DbFile)
    returns (ok: bool, db': DbFile)
    requires k < |gens| && pageSize % 8 == 0
    requires bucket(gens[k]).metadata.Some? ==> bucket(gens[k]).metadata.value.pageSize == pageSize
    requires db == Rebuilt(bucket, gens, k + 1, pageSize, lastFrame, tooLate)
    ensures ok <==> Restorable(bucket, gens, k, pageSize, lastFrame, tooLate, verifyCrc)
    ensures ok ==> db' == Rebuilt(bucket, gens, k, pageSize, lastFrame, tooLate)
  {
    hide Collect, Recovered, GoodFrames, CommittedLen, Chained;
    var g, limits := bucket(gens[k]), LimitsAt(k, lastFrame, tooLate);
    if g.metadata.None? {
      NothingToRecover(db, pageSize);
      return true, db;
    }
    var m := g.metadata.value;
    var applied: bool;
    AllGood(FramesOf(g, pageSize, limits), verifyCrc, m.checksum, pageSize);
    ok, applied, db' := RestoreWal(g.listing, m.pageSize, limits, m.checksum, verifyCrc, swapAfterPages, swaps, db);
  }

  /** The objects of the generation can be read to the end, and no checksum is bad. */
  ghost predicate Restorable(bucket: Bucket, gens: seq<nat>, k: nat, pageSize: nat, lastFrame: nat,
                             tooLate: nat -> bool, verifyCrc: bool)
    requires k < |gens|
  {
    var g, limits := bucket(gens[k]), LimitsAt(k, lastFrame, tooLate);
    g.metadata.Some? ==>
      && Collect(g.listing, pageSize, 0, limits).1.Finished?
      && (verifyCrc ==> Chained(FramesOf(g, pageSize, limits), g.metadata.value.checksum, pageSize))
  }

  lemma NothingToRecover(db: DbFile, pageSize: nat)
    ensures Recovered(db, pageSize, []) == db
  {
  }
}
