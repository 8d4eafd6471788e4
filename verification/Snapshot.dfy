/** Snapshot files: page-deduplicated ranges of the replication log, newest frame first
    (`sqld/src/replication/snapshot.rs`). */
module Snapshot {
  import opened Basics
  import opened Frames

  /** The frame range in the name of a snapshot file, both ends inclusive. */
  datatype Name = Name(start: nat, end: nat)

  datatype SnapshotFile = SnapshotFile(name: Name, sizeAfter: nat, frames: seq<Frame>)

  // ---------------------------------------------------------------- what a snapshot is

  /** No frame of `h` after `n` and below `t` rewrites the page of frame `n`. */
  ghost predicate Newest(h: seq<Frame>, n: nat, t: nat)
    requires n < t <= |h|
  {
    forall j :: n < j < t ==> h[j].pageNo != h[n].pageNo
  }

  ghost predicate Descending(fs: seq<Frame>) {
    forall i, j :: 0 <= i < j < |fs| ==> fs[i].frameNo > fs[j].frameNo
  }

  ghost predicate DescendsBelow(fs: seq<Frame>, bound: nat) {
    && Descending(fs)
    && (fs != [] ==> fs[0].frameNo < bound)
  }

  /** `fs` lists frames of `h` in `[s, t)`, newest first, and misses none that still
      decides its page at `t`.  Both a reversed log and a snapshot are such lists. */
  ghost predicate Covers(fs: seq<Frame>, h: seq<Frame>, s: nat, t: nat) {
    && s <= t <= |h|
    && Descending(fs)
    && (forall i :: 0 <= i < |fs| ==> s <= fs[i].frameNo < t && fs[i] == h[fs[i].frameNo])
    && (forall n :: s <= n < t && Newest(h, n, t) ==> h[n] in fs)
  }

  /** A snapshot of `[s, t)`: exactly the newest frame of every page written there. */
  ghost predicate IsSnapshot(fs: seq<Frame>, h: seq<Frame>, s: nat, t: nat) {
    && Covers(fs, h, s, t)
    && (forall i :: 0 <= i < |fs| ==> Newest(h, fs[i].frameNo, t))
  }

  /** A snapshot file that tells the truth about the history `h`.  The header keeps size 0
      when frame 0 is the only frame, see `SizeAfterCompaction`. */
  ghost predicate Faithful(f: SnapshotFile, h: seq<Frame>) {
    && f.name.start <= f.name.end < |h|
    && IsSnapshot(f.frames, h, f.name.start, f.name.end + 1)
    && f.sizeAfter == (if f.name.end == 0 then 0 else h[f.name.end].sizeAfter)
  }

  // ---------------------------------------------------------------- deduplication

  ghost function PagesOf(fs: seq<Frame>): set<PageNo> {
    set i | 0 <= i < |fs| :: fs[i].pageNo
  }

  /** The frames of `fs` whose page is in no earlier frame. */
  ghost function Dedup(fs: seq<Frame>): seq<Frame> {
    if fs == [] then []
    else
      var front := fs[..|fs| - 1];
      var last := fs[|fs| - 1];
      if last.pageNo in PagesOf(front) then Dedup(front) else Dedup(front) + [last]
  }

  ghost predicate FirstOf(fs: seq<Frame>, i: nat)
    requires i < |fs|
  {
    forall j :: 0 <= j < i ==> fs[j].pageNo != fs[i].pageNo
  }

  lemma {:induction false} DedupKeeps(fs: seq<Frame>, i: nat)
    requires i < |fs| && FirstOf(fs, i)
    ensures fs[i] in Dedup(fs)
  {
    var front := fs[..|fs| - 1];
    if i < |front| {
      assert FirstOf(front, i);
      DedupKeeps(front, i);
    } else {
      assert fs[i].pageNo !in PagesOf(front);
    }
  }

  lemma {:induction false} DedupOnly(fs: seq<Frame>, f: Frame) returns (i: nat)
    requires f in Dedup(fs)
    ensures i < |fs| && fs[i] == f && FirstOf(fs, i)
  {
    var front := fs[..|fs| - 1];
    if f in Dedup(front) {
      i := DedupOnly(front, f);
      assert FirstOf(front, i);
    } else {
      i := |fs| - 1;
      assert forall j :: 0 <= j < i ==> front[j].pageNo in PagesOf(front);
    }
  }

  lemma {:induction false} DedupDescends(fs: seq<Frame>)
    requires Descending(fs)
    ensures Descending(Dedup(fs))
    ensures forall i :: 0 <= i < |Dedup(fs)| ==> fs[|fs| - 1].frameNo <= Dedup(fs)[i].frameNo
  {
    if fs != [] {
      DedupDescends(fs[..|fs| - 1]);
    }
  }

  /** The newest frame in `[n, t)` for the page of frame `n`. */
  lemma {:induction false} LatestWrite(h: seq<Frame>, n: nat, t: nat) returns (m: nat)
    requires n < t <= |h|
    ensures n <= m < t && h[m].pageNo == h[n].pageNo && Newest(h, m, t)
    decreases t - n
  {
    if j :| n < j < t && h[j].pageNo == h[n].pageNo {
      m := LatestWrite(h, j, t);
    } else {
      m := n;
    }
  }

  /** Deduplicating any covering list gives the snapshot of its range.  This is why
      compaction and every nesting of merges end alike. */
  lemma DedupIsSnapshot(fs: seq<Frame>, h: seq<Frame>, s: nat, t: nat)
    requires IsHistory(h) && Covers(fs, h, s, t)
    ensures IsSnapshot(Dedup(fs), h, s, t)
  {
    var d := Dedup(fs);
    DedupDescends(fs);
    forall i | 0 <= i < |d|
      ensures s <= d[i].frameNo < t && d[i] == h[d[i].frameNo] && Newest(h, d[i].frameNo, t)
    {
      var k := DedupOnly(fs, d[i]);
      KeptIsNewest(fs, h, s, t, k);
    }
    forall n | s <= n < t && Newest(h, n, t)
      ensures h[n] in d
    {
      var k :| 0 <= k < |fs| && fs[k] == h[n];
      assert forall j :: 0 <= j < k ==> n < fs[j].frameNo < t && fs[j] == h[fs[j].frameNo];
      DedupKeeps(fs, k);
    }
  }

  lemma KeptIsNewest(fs: seq<Frame>, h: seq<Frame>, s: nat, t: nat, k: nat)
    requires IsHistory(h) && Covers(fs, h, s, t)
    requires k < |fs| && FirstOf(fs, k)
    ensures Newest(h, fs[k].frameNo, t)
  {
    var n := fs[k].frameNo;
    forall j | n < j < t
      ensures h[j].pageNo != h[n].pageNo
    {
      var m := LatestWrite(h, j, t);
      var i :| 0 <= i < |fs| && fs[i] == h[m];
      assert fs[i].frameNo == m && i < k;
    }
  }

  // ---------------------------------------------------------------- reading a snapshot

  /** The frames of a snapshot from the newest one down to `k`. */
  function FramesIterFrom(fs: seq<Frame>, k: nat): seq<Frame> {
    if fs == [] || fs[0].frameNo < k then []
    else [fs[0]] + FramesIterFrom(fs[1..], k)
  }

  lemma {:induction false} IterFromIsPrefix(fs: seq<Frame>, k: nat)
    requires Descending(fs)
    ensures FramesIterFrom(fs, k) <= fs
    ensures forall f :: f in fs ==> (f in FramesIterFrom(fs, k) <==> f.frameNo >= k)
    ensures Descending(FramesIterFrom(fs, k))
  {
    if fs == [] || fs[0].frameNo < k {
      assert forall f :: f in fs ==> f.frameNo < k;
    } else {
      var rest := fs[1..];
      assert forall i :: 0 <= i < |rest| ==> rest[i] == fs[i + 1];
      IterFromIsPrefix(rest, k);
      assert fs == [fs[0]] + rest;
      assert FramesIterFrom(fs, k) == [fs[0]] + FramesIterFrom(rest, k);
      hide FramesIterFrom;
      PrefixBehind(fs, rest, FramesIterFrom(rest, k), FramesIterFrom(fs, k));
    }
  }

  lemma PrefixBehind(fs: seq<Frame>, rest: seq<Frame>, r: seq<Frame>, rs: seq<Frame>)
    requires fs != [] && fs == [fs[0]] + rest && rs == [fs[0]] + r && r <= rest && Descending(fs)
    ensures rs <= fs && Descending(rs)
  {
    assert forall i :: 0 <= i < |rs| ==> rs[i] == fs[i];
  }

  /** A snapshot read from `k` decides every page as the frames `k, k+1, ..` do. */
  lemma IterFromDecides(fs: seq<Frame>, h: seq<Frame>, s: nat, t: nat, k: nat, p: PageNo)
    requires IsHistory(h) && IsSnapshot(fs, h, s, t)
    requires s <= k <= t
    ensures t <= |h| && LastData(FramesIterFrom(fs, k), p) == LastData(h[k..t], p)
  {
    hide FramesIterFrom, LastData, Newest, Descending;
    LastDataSome(h[k..t], p);
    if Writes(h[k..t], p) {
      var i :| 0 <= i < |h[k..t]| && h[k..t][i].pageNo == p;
      IterFromWritten(fs, h, s, t, k, k + i);
    } else {
      IterFromUnwritten(fs, h, s, t, k, p);
    }
  }

  lemma IterFromWritten(fs: seq<Frame>, h: seq<Frame>, s: nat, t: nat, k: nat, n: nat)
    requires IsHistory(h) && IsSnapshot(fs, h, s, t)
    requires s <= k <= n < t <= |h|
    ensures LastData(FramesIterFrom(fs, k), h[n].pageNo) == LastData(h[k..t], h[n].pageNo)
  {
    hide FramesIterFrom, IsSnapshot, LastData;
    var m := LatestWrite(h, n, t);
    LastDataIsLast(h[k..t], h[n].pageNo, m - k);
    IterFromHolds(fs, h, s, t, k, m);
  }

  lemma IterFromUnwritten(fs: seq<Frame>, h: seq<Frame>, s: nat, t: nat, k: nat, p: PageNo)
    requires Covers(fs, h, s, t) && s <= k <= t <= |h| && !Writes(h[k..t], p)
    ensures LastData(FramesIterFrom(fs, k), p).None?
  {
    hide FramesIterFrom, Covers, LastData;
    IterFromInRange(fs, h, s, t, k);
    var r := FramesIterFrom(fs, k);
    LastDataSome(r, p);
    forall j | 0 <= j < |r|
      ensures r[j].pageNo != p
    {
      var i :| 0 <= i < |h[k..t]| && h[k..t][i] == r[j];
    }
  }

  lemma IterFromInRange(fs: seq<Frame>, h: seq<Frame>, s: nat, t: nat, k: nat)
    requires Covers(fs, h, s, t) && s <= k <= t
    ensures forall j :: 0 <= j < |FramesIterFrom(fs, k)| ==> FramesIterFrom(fs, k)[j] in h[k..t]
  {
    var r := FramesIterFrom(fs, k);
    IterFromIsPrefix(fs, k);
    forall j | 0 <= j < |r|
      ensures r[j] in h[k..t]
    {
      assert r[j] == fs[j] && r[j] in r;
      assert h[k..t][r[j].frameNo - k] == r[j];
    }
  }

  lemma IterFromHolds(fs: seq<Frame>, h: seq<Frame>, s: nat, t: nat, k: nat, m: nat)
    requires IsHistory(h) && IsSnapshot(fs, h, s, t)
    requires s <= k <= m < t && Newest(h, m, t)
    ensures LastData(FramesIterFrom(fs, k), h[m].pageNo) == Some(h[m].data)
  {
    var r := FramesIterFrom(fs, k);
    IterFromIsPrefix(fs, k);
    assert h[m] in fs && h[m] in r;
    var j :| 0 <= j < |r| && r[j] == h[m];
    forall i | j < i < |r|
      ensures r[i].pageNo != h[m].pageNo
    {
      assert r[i] == fs[i] && r[j] == fs[j];
      assert Newest(h, fs[i].frameNo, t);
    }
    LastDataIsLast(r, h[m].pageNo, j);
  }

  /** The frames read from `k` have the effect of all frames `[k, t)`. */
  lemma SnapshotPages(w: map<PageNo, Page>, h: seq<Frame>, fs: seq<Frame>, s: nat, t: nat, k: nat)
    requires IsHistory(h) && IsSnapshot(fs, h, s, t) && s <= k <= t <= |h|
    ensures ApplyPages(w, FramesIterFrom(fs, k)) == ApplyPages(w, h[k..t])
  {
    hide IsHistory, IsSnapshot, FramesIterFrom, ApplyPages, LastData;
    forall p: PageNo
      ensures LastData(FramesIterFrom(fs, k), p) == LastData(h[k..t], p)
    {
      IterFromDecides(fs, h, s, t, k, p);
    }
    SameEffect(w, FramesIterFrom(fs, k), h[k..t]);
  }

  /** Resuming anywhere: for every snapshot of `[s, t)` and every `k` in it, applying the
      frames read from `k` to the pages after the frames below `k` gives the pages after
      all the frames below `t`, replayed one by one. */
  lemma ResumeAnywhere(m: map<PageNo, Page>, fs: seq<Frame>, h: seq<Frame>, s: nat, t: nat, k: nat)
    requires IsHistory(h) && IsSnapshot(fs, h, s, t)
    requires s <= k <= t
    ensures t <= |h| && ApplyPages(ApplyPages(m, h[..k]), FramesIterFrom(fs, k)) == ApplyPages(m, h[..t])
  {
    hide IsHistory, IsSnapshot, FramesIterFrom, ApplyPages;
    SnapshotInHistory(fs, h, s, t);
    SnapshotPages(ApplyPages(m, h[..k]), h, fs, s, t, k);
    ApplyTwoParts(m, h, k, t);
  }

  lemma SnapshotInHistory(fs: seq<Frame>, h: seq<Frame>, s: nat, t: nat)
    requires IsSnapshot(fs, h, s, t)
    ensures s <= t <= |h|
  {
  }

  lemma ApplyTwoParts(m: map<PageNo, Page>, h: seq<Frame>, k: nat, t: nat)
    requires k <= t <= |h|
    ensures ApplyPages(ApplyPages(m, h[..k]), h[k..t]) == ApplyPages(m, h[..t])
  {
    hide ApplyPages;
    ApplyConcat(m, h[..k], h[k..t]);
    assert h[..k] + h[k..t] == h[..t];
  }

  /** The newest frame of the range always comes first. */
  lemma FirstIsEnd(fs: seq<Frame>, h: seq<Frame>, s: nat, t: nat)
    requires IsHistory(h) && Covers(fs, h, s, t) && s < t
    ensures fs != [] && fs[0] == h[t - 1]
  {
    assert Newest(h, t - 1, t);
    var i :| 0 <= i < |fs| && fs[i] == h[t - 1];
    assert fs[0].frameNo < t && fs[0].frameNo >= fs[i].frameNo;
  }

  // ---------------------------------------------------------------- building a snapshot

  function LastFrameNo(fs: seq<Frame>): nat {
    if fs == [] then U64_MAX else fs[|fs| - 1].frameNo
  }

  /** The file that the builder makes of the frames `fs`, newest first. */
  ghost function FileOf(fs: seq<Frame>): SnapshotFile {
    SnapshotFile(
      Name(LastFrameNo(fs), if fs == [] then 0 else fs[0].frameNo),
      if fs == [] || fs[0].frameNo == 0 then 0 else fs[0].sizeAfter,
      Dedup(fs))
  }

  class SnapshotBuilder {
    var seenPages: set<PageNo>
    var startFrameNo: nat
    var endFrameNo: nat
    var sizeAfter: nat
    var written: seq<Frame>
    var lastSeenFrameNo: nat
    /** Every frame handed over so far. */
    ghost var taken: seq<Frame>

    ghost predicate Valid()
      reads this
    {
      && DescendsBelow(taken, U64_MAX)
      && seenPages == PagesOf(taken)
      && lastSeenFrameNo == LastFrameNo(taken)
      && SnapshotFile(Name(startFrameNo, endFrameNo), sizeAfter, written) == FileOf(taken)
    }

    constructor ()
      ensures Valid() && taken == []
    {
      seenPages, written, lastSeenFrameNo := {}, [], U64_MAX;
      startFrameNo, endFrameNo, sizeAfter := U64_MAX, 0, 0;
      taken := [];
    }

    /** One turn of the loop of `AppendFrames`. */
    method AppendFrame(frame: Frame) returns (ok: bool)
      requires Valid()
      modifies this
      ensures ok <==> DescendsBelow(old(taken) + [frame], U64_MAX)
      ensures ok ==> Valid() && taken == old(taken) + [frame]
    {
      hide PagesOf, Dedup, DescendsBelow;
      DescendsByOne(taken, frame);
      if !(frame.frameNo < lastSeenFrameNo) {
        return false;
      }
      DedupStep(taken, frame);
      lastSeenFrameNo := frame.frameNo;
      if frame.frameNo < startFrameNo {
        startFrameNo := frame.frameNo;
      }
      if frame.frameNo > endFrameNo {
        endFrameNo := frame.frameNo;
        sizeAfter := frame.sizeAfter;
      }
      if frame.pageNo !in seenPages {
        seenPages := seenPages + {frame.pageNo};
        written := written + [frame];
      }
      taken := taken + [frame];
      return true;
    }

    /** Appends frames.  `ok` is false exactly when the decreasing-order assertion fires. */
    method AppendFrames(frames: seq<Frame>) returns (ok: bool)
      requires Valid()
      modifies this
      ensures ok <==> DescendsBelow(old(taken) + frames, U64_MAX)
      ensures ok ==> Valid() && taken == old(taken) + frames
    {
      hide Valid, DescendsBelow;
      ghost var before := taken;
      var i := 0;
      AppendNext(before, frames, 0);
      while i < |frames|
        invariant 0 <= i <= |frames|
        invariant Valid() && taken == before + frames[..i]
      {
        AppendNext(before, frames, i);
        ok := AppendFrame(frames[i]);
        if !ok {
          return;
        }
        i := i + 1;
      }
      AppendNext(before, frames, i);
      BuilderDescends(this);
      ok := true;
    }

    /** The file; its name and header are those of the frames taken unless a merge has set them. */
    method Finish() returns (f: SnapshotFile)
      ensures Valid() ==> f == FileOf(taken)
      ensures f == SnapshotFile(Name(startFrameNo, endFrameNo), sizeAfter, written)
    {
      return SnapshotFile(Name(startFrameNo, endFrameNo), sizeAfter, written);
    }
  }

  lemma DescendsByOne(fs: seq<Frame>, f: Frame)
    requires DescendsBelow(fs, U64_MAX)
    ensures DescendsBelow(fs + [f], U64_MAX) <==> f.frameNo < LastFrameNo(fs)
    ensures fs != [] ==> LastFrameNo(fs) <= fs[0].frameNo
  {
    var g := fs + [f];
    if f.frameNo >= LastFrameNo(fs) && fs != [] {
      assert g[|fs| - 1].frameNo <= g[|fs|].frameNo;
    }
  }

  lemma AppendNext(before: seq<Frame>, frames: seq<Frame>, i: nat)
    requires i <= |frames|
    ensures before + frames[..0] == before && frames[..|frames|] == frames
    ensures i < |frames| ==> before + frames[..i] + [frames[i]] == before + frames[..i + 1]
    ensures i < |frames| && DescendsBelow(before + frames, U64_MAX) ==>
      DescendsBelow(before + frames[..i + 1], U64_MAX)
  {
    hide DescendsBelow;
    if i < |frames| {
      PrefixDescends(before + frames, |before| + i + 1);
      assert (before + frames)[..|before| + i + 1] == before + frames[..i + 1];
    }
  }

  lemma PrefixDescends(fs: seq<Frame>, n: nat)
    requires n <= |fs|
    ensures DescendsBelow(fs, U64_MAX) ==> DescendsBelow(fs[..n], U64_MAX)
  {
  }

  /** One more frame, as the builder takes it. */
  lemma DedupStep(fs: seq<Frame>, f: Frame)
    ensures PagesOf(fs + [f]) == PagesOf(fs) + {f.pageNo}
    ensures Dedup(fs + [f]) == Dedup(fs) + if f.pageNo in PagesOf(fs) then [] else [f]
  {
    var b := fs + [f];
    assert b[..|fs|] == fs;
    assert b[|fs|].pageNo in PagesOf(b);
    forall p | p in PagesOf(fs)
      ensures p in PagesOf(b)
    {
      var j :| 0 <= j < |fs| && fs[j].pageNo == p;
      assert b[j].pageNo == p;
    }
  }

  // ---------------------------------------------------------------- compaction

  /** A log read backwards, as the compactor reads it. */
  function Reversed(fs: seq<Frame>): (r: seq<Frame>)
    ensures |r| == |fs| && forall i :: 0 <= i < |fs| ==> r[i] == fs[|fs| - 1 - i]
  {
    if fs == [] then [] else [fs[|fs| - 1]] + Reversed(fs[..|fs| - 1])
  }

  /** Compacts a log, given newest frame first.  `None` is the panic of the builder. */
  method PerformCompaction(revFrames: seq<Frame>) returns (r: Option<SnapshotFile>)
    ensures r == if DescendsBelow(revFrames, U64_MAX) then Some(FileOf(revFrames)) else None
  {
    var builder := new SnapshotBuilder();
    assert [] + revFrames == revFrames;
    var ok := builder.AppendFrames(revFrames);
    if !ok {
      return None;
    }
    var f := builder.Finish();
    return Some(f);
  }

  /** Compacting the frames `[s, t)` of a history never panics and tells the truth. */
  lemma CompactionIsFaithful(h: seq<Frame>, s: nat, t: nat)
    requires IsHistory(h) && s < t <= |h| <= U64_MAX
    ensures DescendsBelow(Reversed(h[s..t]), U64_MAX)
    ensures FileOf(Reversed(h[s..t])).name == Name(s, t - 1)
    ensures Faithful(FileOf(Reversed(h[s..t])), h)
  {
    var r := Reversed(h[s..t]);
    ReversedCovers(h, s, t);
    DedupIsSnapshot(r, h, s, t);
    hide PagesOf, Dedup;
    FirstIsEnd(r, h, s, t);
    assert r[|r| - 1] == h[s];
  }

  /** The header of a compacted log has the size after its last frame if and only if that is
      not frame 0, or frame 0 does not end a transaction. */
  lemma SizeAfterCompaction(h: seq<Frame>, s: nat, t: nat)
    requires IsHistory(h) && s < t <= |h|
    ensures FileOf(Reversed(h[s..t])).sizeAfter == h[t - 1].sizeAfter <==> t > 1 || h[0].sizeAfter == 0
  {
    hide Reversed, Dedup;
    ReversedAt(h, s, t);
    assert Reversed(h[s..t])[0] == h[t - 1];
  }

  /** A log with one frame, which is a whole transaction, is compacted to a file without a size. */
  lemma FirstFrameLosesItsSize(data: Page)
    ensures var h := [Frame(0, 1, 1, data)];
      IsHistory(h) && h[0].sizeAfter == 1 && FileOf(Reversed(h)).sizeAfter == 0
  {
    var h := [Frame(0, 1, 1, data)];
    assert h[0..1] == h;
    SizeAfterCompaction(h, 0, 1);
    assert Reversed(h)[0] == h[0];
  }

  lemma ReversedCovers(h: seq<Frame>, s: nat, t: nat)
    requires IsHistory(h) && s <= t <= |h|
    ensures Covers(Reversed(h[s..t]), h, s, t)
  {
    hide Reversed, Newest;
    var r := Reversed(h[s..t]);
    ReversedAt(h, s, t);
    forall n | s <= n < t
      ensures h[n] in r
    {
      assert r[t - 1 - n] == h[n];
    }
  }

  lemma ReversedAt(h: seq<Frame>, s: nat, t: nat)
    requires IsHistory(h) && s <= t <= |h|
    ensures var r := Reversed(h[s..t]);
      |r| == t - s && forall i :: 0 <= i < |r| ==> r[i] == h[t - 1 - i] && r[i].frameNo == t - 1 - i
  {
    hide Reversed;
    var r := Reversed(h[s..t]);
    forall i | 0 <= i < |r|
      ensures r[i] == h[t - 1 - i]
    {
      assert r[i] == h[s..t][t - s - 1 - i];
    }
  }

  // ---------------------------------------------------------------- merging

  /** Ranges follow each other without gaps from `a` up to (not including) `b`. */
  ghost predicate Adjacent(names: seq<Name>, a: nat, b: nat) {
    if names == [] then a == b
    else
      && names[0].start == a
      && names[0].start <= names[0].end
      && Adjacent(names[1..], names[0].end + 1, b)
  }

  lemma {:induction false} AdjacentOrdered(xs: seq<Name>, a: nat, b: nat)
    requires Adjacent(xs, a, b)
    ensures a <= b
    ensures xs == [] <==> a == b
    ensures forall i :: 0 <= i < |xs| ==> a <= xs[i].start <= xs[i].end < b
    ensures xs != [] ==> xs[0].start == a && xs[|xs| - 1].end + 1 == b
  {
    if xs != [] {
      AdjacentOrdered(xs[1..], xs[0].end + 1, b);
      assert forall i :: 1 <= i < |xs| ==> xs[i] == xs[1..][i - 1];
    }
  }

  /** The files behind a list of names. */
  function Open(names: seq<Name>, dir: map<Name, SnapshotFile>): (files: seq<SnapshotFile>)
    requires forall i :: 0 <= i < |names| ==> names[i] in dir
    ensures |files| == |names| && forall i :: 0 <= i < |names| ==> files[i] == dir[names[i]]
  {
    seq(|names|, i requires 0 <= i < |names| => dir[names[i]])
  }

  /** All frames of the files, the newest file first. */
  function NewestFirst(files: seq<SnapshotFile>): seq<Frame> {
    if files == [] then [] else NewestFirst(files[1..]) + files[0].frames
  }

  ghost function MergedFile(names: seq<Name>, files: seq<SnapshotFile>): SnapshotFile
    requires names != []
  {
    FileOf(NewestFirst(files)).(name := Name(names[0].start, names[|names| - 1].end))
  }

  ghost predicate Mergeable(names: seq<Name>, dir: map<Name, SnapshotFile>) {
    && (forall i :: 0 <= i < |names| ==> names[i] in dir)
    && DescendsBelow(NewestFirst(Open(names, dir)), U64_MAX)
  }

  ghost predicate NoRepeats(names: seq<Name>) {
    forall i, j :: 0 <= i < j < |names| ==> names[i] != names[j]
  }

  function NameSet(names: seq<Name>): set<Name> {
    set name | name in names
  }

  /** Removes the named files; fails at the first that is not there. */
  method RemoveFiles(names: seq<Name>, dir: map<Name, SnapshotFile>)
    returns (ok: bool, dir': map<Name, SnapshotFile>)
    requires forall i :: 0 <= i < |names| ==> names[i] in dir
    ensures ok <==> NoRepeats(names)
    ensures ok ==> dir' == dir - NameSet(names)
  {
    dir' := dir;
    var i := 0;
    while i < |names|
      invariant 0 <= i <= |names| && NoRepeats(names[..i]) && dir' == dir - NameSet(names[..i])
    {
      assert names[..i + 1] == names[..i] + [names[i]];
      if names[i] !in dir' {
        assert names[i] in names[..i];
        return false, dir';
      }
      dir' := dir' - {names[i]};
      i := i + 1;
    }
    assert names[..i] == names;
    ok := true;
  }

  /** Merges the named snapshots, listed oldest first, and removes them.  `None` stands for a
      missing file or the panic of the builder, before which nothing in the directory changes,
      or for a file that is listed twice. */
  method MergeSnapshots(names: seq<Name>, dir: map<Name, SnapshotFile>)
    returns (r: Option<SnapshotFile>, dir': map<Name, SnapshotFile>)
    requires names != []
    ensures r.Some? <==> Mergeable(names, dir) && NoRepeats(names)
    ensures r.Some? ==>
      && r.value == MergedFile(names, Open(names, dir))
      && dir' == dir[r.value.name := r.value] - NameSet(names)
    ensures !Mergeable(names, dir) ==> dir' == dir
  {
    var f := MergeFrames(names, dir);
    if f.None? {
      return None, dir;
    }
    var ok;
    ok, dir' := RemoveFiles(names, dir[f.value.name := f.value]);
    r := if ok then f else None;
  }

  method MergeFrames(names: seq<Name>, dir: map<Name, SnapshotFile>) returns (r: Option<SnapshotFile>)
    requires names != []
    ensures r.Some? <==> Mergeable(names, dir)
    ensures r.Some? ==> r.value == MergedFile(names, Open(names, dir))
  {
    hide SnapshotBuilder.Valid, DescendsBelow, NewestFirst;
    var builder := new SnapshotBuilder();
    var i := |names|;
    NoFiles(names, dir);
    while i > 0
      invariant 0 <= i <= |names|
      invariant forall j :: i <= j < |names| ==> names[j] in dir
      invariant builder.Valid() && builder.taken == NewestFirst(Open(names[i..], dir))
    {
      i := i - 1;
      if names[i] !in dir {
        return None;
      }
      OneFileMore(names, dir, i);
      var ok := builder.AppendFrames(dir[names[i]].frames);
      if !ok {
        SomeDescend(names, dir, i);
        return None;
      }
    }
    assert names[0..] == names;
    BuilderDescends(builder);
    builder.startFrameNo := names[0].start;
    builder.endFrameNo := names[|names| - 1].end;
    var f := builder.Finish();
    return Some(f);
  }

  lemma NoFiles(names: seq<Name>, dir: map<Name, SnapshotFile>)
    ensures names[|names|..] == [] && NewestFirst(Open([], dir)) == []
  {
  }

  lemma OneFileMore(names: seq<Name>, dir: map<Name, SnapshotFile>, i: nat)
    requires i < |names| && forall j :: i <= j < |names| ==> names[j] in dir
    ensures NewestFirst(Open(names[i..], dir)) == NewestFirst(Open(names[i + 1..], dir)) + dir[names[i]].frames
  {
    var files, rest := Open(names[i..], dir), Open(names[i + 1..], dir);
    assert files[0] == dir[names[i]];
    assert files[1..] == rest by {
      assert forall j :: 0 <= j < |rest| ==> files[1..][j] == files[j + 1] == dir[names[i + 1 + j]] == rest[j];
    }
  }

  lemma BuilderDescends(b: SnapshotBuilder)
    requires b.Valid()
    ensures DescendsBelow(b.taken, U64_MAX)
    ensures FileOf(b.taken) == SnapshotFile(Name(b.startFrameNo, b.endFrameNo), b.sizeAfter, b.written)
  {
  }

  lemma SomeDescend(names: seq<Name>, dir: map<Name, SnapshotFile>, i: nat)
    requires i < |names| && forall j :: i <= j < |names| ==> names[j] in dir
    requires !DescendsBelow(NewestFirst(Open(names[i..], dir)), U64_MAX)
    ensures (forall j :: 0 <= j < |names| ==> names[j] in dir) ==>
      !DescendsBelow(NewestFirst(Open(names, dir)), U64_MAX)
  {
    hide NewestFirst, DescendsBelow;
    if forall j :: 0 <= j < |names| ==> names[j] in dir {
      OlderDescends(Open(names, dir), i);
      assert Open(names, dir)[i..] == Open(names[i..], dir);
    }
  }

  lemma {:induction false} OlderDescends(files: seq<SnapshotFile>, i: nat)
    requires i <= |files|
    ensures DescendsBelow(NewestFirst(files), U64_MAX) ==> DescendsBelow(NewestFirst(files[i..]), U64_MAX)
  {
    if i == 0 {
      assert files[0..] == files;
    } else {
      assert files[1..][i - 1..] == files[i..];
      OlderDescends(files[1..], i - 1);
      var n := |NewestFirst(files[1..])|;
      PrefixDescends(NewestFirst(files), n);
      assert NewestFirst(files)[..n] == NewestFirst(files[1..]);
    }
  }

  /** Merging adjacent truthful snapshots never panics, and gives the snapshot that
      compacting the whole range at once would have given. */
  lemma {:induction false} MergeIsFaithful(files: seq<SnapshotFile>, names: seq<Name>, h: seq<Frame>, a: nat, b: nat)
    requires files != [] && |names| == |files| && Adjacent(names, a, b)
    requires IsHistory(h) && |h| <= U64_MAX
    requires forall i :: 0 <= i < |files| ==> files[i].name == names[i] && Faithful(files[i], h)
    ensures a < b && Covers(NewestFirst(files), h, a, b)
    ensures DescendsBelow(NewestFirst(files), U64_MAX)
    ensures MergedFile(names, files).name == Name(a, b - 1)
    ensures Faithful(MergedFile(names, files), h)
  {
    hide Dedup, Covers, IsSnapshot, Adjacent, IsHistory, DescendsBelow, Faithful, FileOf, NewestFirst;
    AdjacentOrdered(names, a, b);
    MergedInRange(files[|files| - 1], h, b);
    var fs := NewestFirst(files);
    MergedCovers(files, names, h, a, b);
    CoversBelow(fs, h, a, b);
    CoveringFile(fs, h, a, b);
  }

  lemma CoversBelow(fs: seq<Frame>, h: seq<Frame>, a: nat, b: nat)
    requires IsHistory(h) && Covers(fs, h, a, b) && |h| <= U64_MAX
    ensures DescendsBelow(fs, U64_MAX)
  {
  }

  /** The file of frames that cover a range is truthful under the name of the range. */
  lemma CoveringFile(fs: seq<Frame>, h: seq<Frame>, a: nat, b: nat)
    requires IsHistory(h) && Covers(fs, h, a, b) && a < b <= |h|
    ensures Faithful(FileOf(fs).(name := Name(a, b - 1)), h)
  {
    hide Dedup, Covers, IsSnapshot;
    DedupIsSnapshot(fs, h, a, b);
    FirstIsEnd(fs, h, a, b);
  }

  lemma {:induction false} MergedCovers(files: seq<SnapshotFile>, names: seq<Name>, h: seq<Frame>, a: nat, b: nat)
    requires |names| == |files| && Adjacent(names, a, b) && b <= |h|
    requires IsHistory(h)
    requires forall i :: 0 <= i < |files| ==> files[i].name == names[i] && Faithful(files[i], h)
    ensures Covers(NewestFirst(files), h, a, b)
  {
    if files != [] {
      var mid := names[0].end + 1;
      AdjacentOrdered(names[1..], mid, b);
      MergedCovers(files[1..], names[1..], h, mid, b);
      CoversConcat(NewestFirst(files[1..]), files[0].frames, h, a, mid, b);
    }
  }

  lemma CoversConcat(x: seq<Frame>, y: seq<Frame>, h: seq<Frame>, a: nat, mid: nat, b: nat)
    requires IsHistory(h) && Covers(x, h, mid, b) && Covers(y, h, a, mid)
    ensures Covers(x + y, h, a, b)
  {
    forall n | a <= n < b && Newest(h, n, b)
      ensures h[n] in x + y
    {
      if n < mid {
        assert Newest(h, n, mid);
      }
    }
  }

  /** Merging and compacting agree: the merged file holds what one compaction of the whole
      range would hold. */
  lemma MergeIsCompaction(files: seq<SnapshotFile>, names: seq<Name>, h: seq<Frame>, a: nat, b: nat)
    requires files != [] && |names| == |files| && Adjacent(names, a, b)
    requires IsHistory(h) && |h| <= U64_MAX
    requires forall i :: 0 <= i < |files| ==> files[i].name == names[i] && Faithful(files[i], h)
    ensures a < b <= |h| && MergedFile(names, files) == FileOf(Reversed(h[a..b]))
  {
    hide FileOf, MergedFile, Faithful, Covers, IsHistory, Adjacent, Reversed, DescendsBelow;
    MergeIsFaithful(files, names, h, a, b);
    MergedInRange(MergedFile(names, files), h, b);
    CompactionIsFaithful(h, a, b);
    FaithfulIsUnique(MergedFile(names, files), FileOf(Reversed(h[a..b])), h);
  }

  lemma MergedInRange(f: SnapshotFile, h: seq<Frame>, b: nat)
    requires Faithful(f, h) && f.name.end + 1 == b
    ensures f.name.start < b <= |h|
  {
  }

  /** Truthful files of the same name are the same. */
  lemma FaithfulIsUnique(f: SnapshotFile, g: SnapshotFile, h: seq<Frame>)
    requires IsHistory(h) && Faithful(f, h) && Faithful(g, h) && f.name == g.name
    ensures f == g
  {
    hide IsSnapshot;
    SnapshotIsUnique(f.frames, g.frames, h, f.name.start, f.name.end + 1);
  }

  /** The same holds for merged files. */
  lemma SizeAfterMerge(files: seq<SnapshotFile>, names: seq<Name>, h: seq<Frame>, a: nat, b: nat)
    requires files != [] && |names| == |files| && Adjacent(names, a, b)
    requires IsHistory(h) && |h| <= U64_MAX
    requires forall i :: 0 <= i < |files| ==> files[i].name == names[i] && Faithful(files[i], h)
    ensures a < b <= |h|
    ensures MergedFile(names, files).sizeAfter == h[b - 1].sizeAfter <==> b > 1 || h[0].sizeAfter == 0
  {
    hide MergedFile, FileOf, Faithful, Adjacent, Reversed;
    MergeIsCompaction(files, names, h, a, b);
    SizeAfterCompaction(h, a, b);
  }

  /** A range has one snapshot. */
  lemma {:induction false} SnapshotIsUnique(x: seq<Frame>, y: seq<Frame>, h: seq<Frame>, s: nat, t: nat)
    requires IsHistory(h) && IsSnapshot(x, h, s, t) && IsSnapshot(y, h, s, t)
    ensures x == y
  {
    SameElements(x, y, h, s, t);
    SameElements(y, x, h, s, t);
    SameDescending(x, y);
  }

  lemma SameElements(x: seq<Frame>, y: seq<Frame>, h: seq<Frame>, s: nat, t: nat)
    requires IsHistory(h) && IsSnapshot(x, h, s, t) && IsSnapshot(y, h, s, t)
    ensures forall f :: f in x ==> f in y
  {
    forall f | f in x
      ensures f in y
    {
      var i :| 0 <= i < |x| && x[i] == f;
      assert Newest(h, x[i].frameNo, t);
    }
  }

  lemma {:induction false} SameDescending(x: seq<Frame>, y: seq<Frame>)
    requires Descending(x) && Descending(y)
    requires forall f :: f in x <==> f in y
    ensures x == y
  {
    if x == [] {
      assert forall i :: 0 <= i < |y| ==> y[i] in y;
    } else {
      assert x[0] in y && y != [] && y[0] in x;
      assert x[0] == y[0];
      forall f | f in x[1..]
        ensures f in y[1..]
      {
        assert f in x && f.frameNo < x[0].frameNo;
      }
      forall f | f in y[1..]
        ensures f in x[1..]
      {
        assert f in y && f.frameNo < y[0].frameNo;
      }
      SameDescending(x[1..], y[1..]);
    }
  }
}
