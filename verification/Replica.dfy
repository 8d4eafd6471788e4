/** The replica: collecting frames into batches and injecting them
    (`sqld/src/replication/replica/replicator.rs`, `sqld/src/replication/replica/hook.rs`). */
module Replica {
  import opened Basics
  import opened Frames
  import opened Snapshot

  const MAX_REPLICA_REPLICATION_BUFFER_LEN: nat := 10_000_000 / 4096

  // ---------------------------------------------------------------- batch headers

  /** The largest frame number of a batch and the size carried by that frame.  The scan
      starts at frame number 0 and size 0, so frame 0 alone never carries a size. */
  function HeaderOf(frames: seq<Frame>): (nat, nat) {
    if frames == [] then (0, 0)
    else
      var last := frames[|frames| - 1];
      var h := HeaderOf(frames[..|frames| - 1]);
      if last.frameNo > h.0 then (last.frameNo, last.sizeAfter) else h
  }

  lemma {:induction false} HeaderIsLargest(frames: seq<Frame>, i: nat)
    requires i < |frames|
    requires forall j :: 0 <= j < |frames| && j != i ==> frames[j].frameNo < frames[i].frameNo
    ensures HeaderOf(frames) == if frames[i].frameNo == 0 then (0, 0) else (frames[i].frameNo, frames[i].sizeAfter)
  {
    var n := |frames| - 1;
    var front := frames[..n];
    if i == n {
      HeaderBound(front, frames[n].frameNo);
    } else {
      HeaderIsLargest(front, i);
    }
  }

  lemma {:induction false} HeaderBound(frames: seq<Frame>, n: nat)
    requires forall j :: 0 <= j < |frames| ==> frames[j].frameNo < n
    ensures frames == [] ==> HeaderOf(frames) == (0, 0)
    ensures HeaderOf(frames).0 < n || HeaderOf(frames) == (0, 0)
  {
    if frames != [] {
      HeaderBound(frames[..|frames| - 1], n);
    }
  }

  method MakePageHeader(frames: seq<Frame>)
    returns (pages: seq<(PageNo, Page)>, lastFrameNo: nat, sizeAfter: nat)
    ensures |pages| == |frames|
    ensures forall i :: 0 <= i < |frames| ==> pages[i] == (frames[i].pageNo, frames[i].data)
    ensures (lastFrameNo, sizeAfter) == HeaderOf(frames)
  {
    pages, lastFrameNo, sizeAfter := [], 0, 0;
    var i := 0;
    while i < |frames|
      invariant 0 <= i <= |frames| == |pages| + |frames| - i
      invariant forall j :: 0 <= j < i ==> pages[j] == (frames[j].pageNo, frames[j].data)
      invariant (lastFrameNo, sizeAfter) == HeaderOf(frames[..i])
    {
      assert frames[..i + 1][..i] == frames[..i];
      if frames[i].frameNo > lastFrameNo {
        lastFrameNo := frames[i].frameNo;
        sizeAfter := frames[i].sizeAfter;
      }
      pages := pages + [(frames[i].pageNo, frames[i].data)];
      i := i + 1;
    }
    assert frames[..i] == frames;
  }

  // ---------------------------------------------------------------- the injector

  /** `db` is the committed database; `txn` holds its pages as the open transaction sees
      them while `isTxn`; `applied` is the last frame number given to `post_commit`. */
  datatype Injector = Injector(db: Db, isTxn: bool, txn: map<PageNo, Page>, applied: Option<nat>) {

    function Working(): map<PageNo, Page> {
      if isTxn then txn else db.pages
    }

    /** The first frame the replica asks for. */
    function NextOffset(): nat {
      if applied.Some? then applied.value + 1 else 0
    }
  }

  function InjectorOver(db: Db): Injector {
    Injector(db, false, map[], None)
  }

  function FreshInjector(): Injector {
    InjectorOver(EmptyDb)
  }

  /** `inject_pages`, with a write-ahead log that accepts the frames. */
  function Inject(inj: Injector, frames: seq<Frame>): Injector {
    var (last, size) := HeaderOf(frames);
    var pages := ApplyPages(inj.Working(), frames);
    if size != 0 then Injector(Db(pages, size), false, pages, Some(last))
    else inj.(isTxn := true, txn := pages)
  }

  datatype Injection = Injected | NotInjected | Panicked

  class InjectorHookCtx {
    var db: Db
    var isTxn: bool
    var txn: map<PageNo, Page>
    var preCommitFrameNo: Option<nat>
    var applied: Option<nat>

    function View(): Injector
      reads this
    {
      Injector(db, isTxn, txn, applied)
    }

    /** The first frame to ask for: one after the last frame given to `post_commit`. */
    function NextOffset(): nat
      reads this
    {
      View().NextOffset()
    }

    /** Starts over a database, empty or left by an earlier process.  What that process applied
        is not looked up: the watch starts without a frame number. */
    constructor (db: Db)
      ensures View() == InjectorOver(db)
    {
      this.db, isTxn, txn, preCommitFrameNo, applied := db, false, map[], None, None;
    }

    /** Writes one page header list through the hook, as the original frames call does. */
    method Append(pages: seq<(PageNo, Page)>, ghost frames: seq<Frame>)
      requires isTxn
      requires |pages| == |frames|
      requires forall i :: 0 <= i < |frames| ==> pages[i] == (frames[i].pageNo, frames[i].data)
      modifies this
      ensures txn == ApplyPages(old(txn), frames)
      ensures db == old(db) && isTxn && preCommitFrameNo == old(preCommitFrameNo) && applied == old(applied)
    {
      var i := 0;
      while i < |pages|
        invariant 0 <= i <= |pages|
        invariant txn == ApplyPages(old(txn), frames[..i])
        invariant db == old(db) && isTxn && preCommitFrameNo == old(preCommitFrameNo) && applied == old(applied)
      {
        assert frames[..i + 1][..i] == frames[..i];
        txn := txn[pages[i].0 := pages[i].1];
        i := i + 1;
      }
      assert frames[..i] == frames;
    }

    /** Injects a batch; `walOk` is the outcome of the original frames call.  When that fails,
        the transaction stays open with the pages it had, and nothing counts as applied.  `r` is
        `Panicked` when the assertion in `post_commit` fires. */
    method InjectPages(frames: seq<Frame>, walOk: bool) returns (r: Injection)
      modifies this
      ensures r == if walOk then Injected else NotInjected
      ensures walOk ==> View() == Inject(old(View()), frames)
      ensures !walOk ==> View() == old(View()).(isTxn := true, txn := old(View().Working()))
    {
      var pages, lastFrameNo, sizeAfter := MakePageHeader(frames);
      if !isTxn {
        isTxn, txn := true, db.pages;
      }
      if sizeAfter != 0 {
        preCommitFrameNo := Some(lastFrameNo);
      }
      if !walOk {
        return NotInjected;
      }
      Append(pages, frames);
      if sizeAfter != 0 {
        if preCommitFrameNo != Some(lastFrameNo) {
          return Panicked;
        }
        db := Db(txn, sizeAfter);
        applied := Some(lastFrameNo);
        isTxn := false;
      }
      return Injected;
    }
  }

  // ---------------------------------------------------------------- pages of an open transaction

  /** The pages `w` are those after the frames below `lo`, except perhaps for pages that the
      frames `[lo, hi)` write (left over from an earlier connection). */
  ghost predicate Agrees(h: seq<Frame>, lo: nat, hi: nat, w: map<PageNo, Page>) {
    && lo <= hi <= |h|
    && forall p: PageNo :: LastData(h[lo..hi], p).None? ==> Lookup(w, p) == LastData(h[..lo], p)
  }

  lemma LookupReplay(h: seq<Frame>, p: PageNo)
    ensures Lookup(ApplyPages(map[], h), p) == LastData(h, p)
  {
    ApplyLookup(map[], h, p);
  }

  /** With nothing left over, the pages are exactly those of the history. */
  lemma AgreesExactly(h: seq<Frame>, n: nat, w: map<PageNo, Page>)
    requires n <= |h|
    ensures Agrees(h, n, n, w) <==> w == ApplyPages(map[], h[..n])
  {
    assert h[n..n] == [];
    forall p: PageNo
      ensures Lookup(ApplyPages(map[], h[..n]), p) == LastData(h[..n], p)
    {
      LookupReplay(h[..n], p);
    }
    if Agrees(h, n, n, w) {
      SameLookups(w, ApplyPages(map[], h[..n]));
    }
  }

  /** Applying the next frames moves `lo` forward over them. */
  lemma AgreesForward(h: seq<Frame>, lo: nat, hi: nat, m: nat, w: map<PageNo, Page>)
    requires Agrees(h, lo, hi, w) && lo <= m <= |h|
    ensures Agrees(h, m, if hi < m then m else hi, ApplyPages(w, h[lo..m]))
  {
    var hi' := if hi < m then m else hi;
    forall p: PageNo | LastData(h[m..hi'], p).None?
      ensures Lookup(ApplyPages(w, h[lo..m]), p) == LastData(h[..m], p)
    {
      ApplyLookup(w, h[lo..m], p);
      SplitLast(h, 0, lo, m, p);
      SplitLast(h, lo, m, hi', p);
      SplitLast(h, lo, hi, hi', p);
    }
  }

  lemma SplitLast(h: seq<Frame>, a: nat, b: nat, c: nat, p: PageNo)
    requires a <= b <= c <= |h|
    ensures LastData(h[a..c], p) == if LastData(h[b..c], p).Some? then LastData(h[b..c], p) else LastData(h[a..b], p)
  {
    assert h[a..c] == h[a..b] + h[b..c];
    LastDataConcat(h[a..b], h[b..c], p);
  }

  /** Reconnecting moves `lo` back to the start of the transaction. */
  lemma AgreesBack(h: seq<Frame>, k: nat, lo: nat, hi: nat, w: map<PageNo, Page>)
    requires Agrees(h, lo, hi, w) && k <= lo
    ensures Agrees(h, k, hi, w)
  {
    forall p: PageNo | LastData(h[k..hi], p).None?
      ensures Lookup(w, p) == LastData(h[..k], p)
    {
      SplitLast(h, k, lo, hi, p);
      SplitLast(h, 0, k, lo, p);
    }
  }

  lemma AgreesGrows(h: seq<Frame>, g: seq<Frame>, lo: nat, hi: nat, w: map<PageNo, Page>)
    requires Agrees(h, lo, hi, w) && h <= g
    ensures Agrees(g, lo, hi, w)
  {
    assert h[lo..hi] == g[lo..hi] && h[..lo] == g[..lo];
  }

  // ---------------------------------------------------------------- injecting ranges of the history

  /** No frame of `[k, hi)` commits when injected last in its batch. */
  ghost predicate NoCommit(h: seq<Frame>, k: nat, hi: nat) {
    hi <= |h| && forall i :: k <= i < hi ==> h[i].sizeAfter == 0 || i == 0
  }

  /** Between batches: the committed database is the history up to a transaction, and the
      frames injected since then, perhaps more than once, have left nothing to undo. */
  ghost predicate InjectorInv(h: seq<Frame>, inj: Injector, lo: nat) {
    var k := inj.NextOffset();
    && k <= lo <= |h|
    && inj.db == Replay(h[..k])
    && (inj.applied.Some? ==> inj.applied.value > 0 && h[k - 1].sizeAfter != 0)
    && (!inj.isTxn ==> lo == k)
    && (exists hi :: Agrees(h, lo, hi, inj.Working()) && NoCommit(h, k, hi))
  }

  lemma RangeHeader(h: seq<Frame>, a: nat, b: nat)
    requires IsHistory(h) && a < b <= |h|
    ensures HeaderOf(h[a..b]) == if b == 1 then (0, 0) else (b - 1, h[b - 1].sizeAfter)
  {
    HeaderIsLargest(h[a..b], b - 1 - a);
  }

  lemma SizeOfReplay(h: seq<Frame>, n: nat)
    requires 0 < n <= |h| && h[n - 1].sizeAfter != 0
    ensures Replay(h[..n]) == Db(ApplyPages(map[], h[..n]), h[n - 1].sizeAfter)
  {
  }

  /** Injecting the frames `[lo, b)`, where `b` is a commit or the transaction goes on. */
  lemma InjectRange(h: seq<Frame>, inj: Injector, lo: nat, b: nat)
    requires IsHistory(h) && InjectorInv(h, inj, lo) && lo < b <= |h|
    requires h[b - 1].sizeAfter != 0 || NoCommit(h, inj.NextOffset(), b)
    ensures InjectorInv(h, Inject(inj, h[lo..b]), b)
    ensures h[b - 1].sizeAfter != 0 && b > 1 ==> Inject(inj, h[lo..b]).applied == Some(b - 1)
    ensures h[b - 1].sizeAfter == 0 || b == 1 ==> Inject(inj, h[lo..b]).applied == inj.applied
  {
    hide Agrees;
    var hi: nat :| Agrees(h, lo, hi, inj.Working()) && NoCommit(h, inj.NextOffset(), hi);
    hide InjectorInv, Inject;
    if h[b - 1].sizeAfter != 0 && b > 1 {
      InjectCommits(h, inj, lo, hi, b);
    } else {
      InjectExtends(h, inj, lo, hi, b);
    }
  }

  lemma InjectCommits(h: seq<Frame>, inj: Injector, lo: nat, hi: nat, b: nat)
    requires IsHistory(h) && InjectorInv(h, inj, lo) && lo < b <= |h|
    requires Agrees(h, lo, hi, inj.Working()) && NoCommit(h, inj.NextOffset(), hi)
    requires h[b - 1].sizeAfter != 0 && b > 1
    ensures InjectorInv(h, Inject(inj, h[lo..b]), b)
    ensures Inject(inj, h[lo..b]).applied == Some(b - 1)
  {
    var inj' := Inject(inj, h[lo..b]);
    assert hi <= b && inj.NextOffset() <= lo;
    hide Agrees, HeaderOf, InjectorInv;
    RangeHeader(h, lo, b);
    AgreesForward(h, lo, hi, b, inj.Working());
    AgreesExactly(h, b, inj'.db.pages);
    SizeOfReplay(h, b);
    CommittedInv(h, inj', b);
  }

  lemma CommittedInv(h: seq<Frame>, inj: Injector, b: nat)
    requires 1 < b <= |h| && h[b - 1].sizeAfter != 0
    requires !inj.isTxn && inj.applied == Some(b - 1) && inj.db == Replay(h[..b])
    ensures InjectorInv(h, inj, b)
  {
    AgreesExactly(h, b, inj.db.pages);
    assert Agrees(h, b, b, inj.Working()) && NoCommit(h, b, b);
  }

  lemma InjectExtends(h: seq<Frame>, inj: Injector, lo: nat, hi: nat, b: nat)
    requires IsHistory(h) && InjectorInv(h, inj, lo) && lo < b <= |h|
    requires Agrees(h, lo, hi, inj.Working()) && NoCommit(h, inj.NextOffset(), hi)
    requires NoCommit(h, inj.NextOffset(), b)
    requires h[b - 1].sizeAfter == 0 || b == 1
    ensures InjectorInv(h, Inject(inj, h[lo..b]), b)
    ensures Inject(inj, h[lo..b]).applied == inj.applied
  {
    hide Agrees, HeaderOf;
    var inj' := Inject(inj, h[lo..b]);
    RangeHeader(h, lo, b);
    AgreesForward(h, lo, hi, b, inj.Working());
    var hi' := if hi < b then b else hi;
    assert Agrees(h, b, hi', inj'.Working()) && NoCommit(h, inj.NextOffset(), hi');
  }

  /** A replica that has been given a whole history has applied all of it if and only if that is
      more than one frame: a first transaction of frame 0 alone stays open until the next one. */
  lemma WholeHistoryApplied(h: seq<Frame>, inj: Injector)
    requires h != [] && h[|h| - 1].sizeAfter != 0 && InjectorInv(h, inj, |h|)
    ensures inj.applied == Some(|h| - 1) <==> |h| > 1
    ensures |h| > 1 ==> inj.db == Replay(h)
  {
    var hi: nat :| Agrees(h, |h|, hi, inj.Working()) && NoCommit(h, inj.NextOffset(), hi);
    assert hi == |h|;
    if |h| > 1 {
      assert inj.NextOffset() == |h|;
      assert h[..|h|] == h;
    }
  }

  /** A snapshot read from the position `k` injects exactly as the frames `[k, t)` do. */
  lemma SnapshotInjectsRange(h: seq<Frame>, inj: Injector, fs: seq<Frame>, s: nat, t: nat, k: nat)
    requires IsHistory(h) && IsSnapshot(fs, h, s, t) && s <= k < t
    ensures Inject(inj, FramesIterFrom(fs, k)) == Inject(inj, h[k..t])
  {
    assert t <= |h|;
    hide IsSnapshot, FramesIterFrom, HeaderOf, ApplyPages;
    SnapshotPages(inj.Working(), h, fs, s, t, k);
    SnapshotHeader(h, fs, s, t, k);
  }

  lemma SnapshotHeader(h: seq<Frame>, fs: seq<Frame>, s: nat, t: nat, k: nat)
    requires IsHistory(h) && IsSnapshot(fs, h, s, t) && s <= k < t <= |h|
    ensures HeaderOf(FramesIterFrom(fs, k)) == HeaderOf(h[k..t])
  {
    hide FramesIterFrom, HeaderOf, Newest;
    var r := FramesIterFrom(fs, k);
    FirstIsEnd(fs, h, s, t);
    IterFromIsPrefix(fs, k);
    assert fs[0] in r && r[0] == fs[0];
    RangeHeader(h, k, t);
    HeaderIsLargest(r, 0);
  }

  lemma InjectorGrows(h: seq<Frame>, g: seq<Frame>, inj: Injector, lo: nat)
    requires InjectorInv(h, inj, lo) && h <= g
    ensures InjectorInv(g, inj, lo)
  {
    var k := inj.NextOffset();
    var hi: nat :| Agrees(h, lo, hi, inj.Working()) && NoCommit(h, k, hi);
    AgreesGrows(h, g, lo, hi, inj.Working());
    assert g[..k] == h[..k];
    assert NoCommit(g, k, hi);
  }

  lemma InjectorBack(h: seq<Frame>, inj: Injector, lo: nat)
    requires InjectorInv(h, inj, lo)
    ensures InjectorInv(h, inj, inj.NextOffset())
  {
    var k := inj.NextOffset();
    var hi: nat :| Agrees(h, lo, hi, inj.Working()) && NoCommit(h, k, hi);
    AgreesBack(h, k, lo, hi, inj.Working());
  }
}
