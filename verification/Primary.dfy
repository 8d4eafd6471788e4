/** The primary as a state machine: the writer, the compactor thread and the merger thread
    take steps in any order (`sqld/src/replication/primary/logger.rs`,
    `sqld/src/replication/snapshot.rs`).

One compaction finishes before the next one starts; see the README. */
module Primary {
  import opened Basics
  import opened Frames
  import opened Snapshot
  import opened LogFile

  const SNAPSHOT_SPACE_AMPLIFICATION_FACTOR: nat := 2
  const MAX_SNAPSHOT_NUMBER: nat := 32

  /** A snapshot as the merger knows it: its name and its number of frames. */
  datatype Entry = Entry(name: Name, size: nat)

  /** What the compactor sends to the merger. */
  datatype Message = Message(entry: Entry, dbPages: nat)

  /** Where the compactor thread stands with the log it was handed. */
  datatype Compactor =
    | Waiting
    | Building(log: LogView, dbPages: nat)
    | Persisted(log: LogView, message: Message)
    | Registered(log: LogView)

  /** Where the merger thread stands; `Removing` deletes the inputs one by one. */
  datatype Merger =
    | Idle
    | Merging
    | Removing(merged: Entry, removed: nat)

  /** `history` is every frame ever committed; the code does not keep it. */
  datatype State = State(
    history: seq<Frame>,
    log: LogView,
    notified: nat,
    version: nat,
    compactor: Compactor,
    dir: map<Name, SnapshotFile>,
    queue: seq<Message>,
    list: seq<Entry>,
    merger: Merger)

  datatype Step =
    | WriteFrames(pages: seq<WalPage>, sizeAfter: nat)
    | CommitLog
    | RollbackLog
    | Notify
    | StartCompaction
    | PersistSnapshot
    | RegisterSnapshot
    | RemoveOldLog
    | ReceiveMessage
    | PersistMerged
    | RemoveInput
    | FinishMerge

  function Names(entries: seq<Entry>): (names: seq<Name>)
    ensures |names| == |entries| && forall i :: 0 <= i < |entries| ==> names[i] == entries[i].name
  {
    seq(|entries|, i requires 0 <= i < |entries| => entries[i].name)
  }

  function QueueNames(queue: seq<Message>): (names: seq<Name>)
    ensures |names| == |queue| && forall i :: 0 <= i < |queue| ==> names[i] == queue[i].entry.name
  {
    seq(|queue|, i requires 0 <= i < |queue| => queue[i].entry.name)
  }

  function TotalSize(entries: seq<Entry>): nat {
    if entries == [] then 0 else TotalSize(entries[..|entries| - 1]) + entries[|entries| - 1].size
  }

  predicate ShouldMerge(entries: seq<Entry>, dbPages: nat) {
    || TotalSize(entries) >= SNAPSHOT_SPACE_AMPLIFICATION_FACTOR * dbPages
    || |entries| > MAX_SNAPSHOT_NUMBER
  }

  ghost predicate Init(s: State) {
    && IsHistory(s.history) && Closed(s.history) && |s.history| <= U64_MAX
    && s.log == LogView(0, s.history, [])
    && s.notified == |s.history|
    && s.compactor == Waiting && s.dir == map[] && s.queue == [] && s.list == [] && s.merger == Idle
  }

  /** SQLite hands over the pages of a transaction in one or more calls; only the call that
      commits carries a size, and nothing is written between it and its commit or rollback. */
  ghost predicate Enabled(s: State, step: Step) {
    match step
    case WriteFrames(pages, sizeAfter) =>
      && pages != []
      && (forall i :: 0 <= i < |pages| ==> pages[i].sizeAfter == 0)
      && (s.log.pending != [] ==> s.log.pending[|s.log.pending| - 1].sizeAfter == 0)
      && s.log.CommittedEnd() + |s.log.pending| + |pages| <= U64_MAX
    case CommitLog => s.log.pending != [] && s.log.pending[|s.log.pending| - 1].sizeAfter != 0
    case RollbackLog => true
    case Notify => s.notified < s.log.CommittedEnd()
    case StartCompaction => s.compactor.Waiting? && s.log.pending == [] && s.log.committed != []
    case PersistSnapshot => s.compactor.Building?
    case RegisterSnapshot => s.compactor.Persisted?
    case RemoveOldLog => s.compactor.Registered?
    case ReceiveMessage => s.merger.Idle? && s.queue != []
    case PersistMerged =>
      && s.merger.Merging? && s.list != []
      && (forall i :: 0 <= i < |s.list| ==> Names(s.list)[i] in s.dir)
    case RemoveInput => s.merger.Removing? && s.merger.removed < |s.list|
    case FinishMerge => s.merger.Removing? && s.merger.removed >= |s.list|
  }

  ghost function Next(s: State, step: Step): State
    requires Enabled(s, step)
  {
    match step
    case WriteFrames(pages, sizeAfter) => s.(log := s.log.PushAll(WithSize(pages, sizeAfter)))
    case CommitLog => s.(log := s.log.Commit(), history := s.history + s.log.pending)
    case RollbackLog => s.(log := s.log.Rollback())
    case Notify => s.(notified := s.log.CommittedEnd(), version := s.version + 1)
    case StartCompaction =>
      s.(compactor := Building(s.log, s.log.committed[|s.log.committed| - 1].sizeAfter), log := s.log.Successor())
    case PersistSnapshot =>
      var f := FileOf(Reversed(s.compactor.log.committed));
      s.(dir := s.dir[f.name := f],
         compactor := Persisted(s.compactor.log, Message(Entry(f.name, |f.frames|), s.compactor.dbPages)))
    case RegisterSnapshot =>
      s.(queue := s.queue + [s.compactor.message], compactor := Registered(s.compactor.log))
    case RemoveOldLog => s.(compactor := Waiting)
    case ReceiveMessage =>
      var list := s.list + [s.queue[0].entry];
      s.(list := list, queue := s.queue[1..],
         merger := if ShouldMerge(list, s.queue[0].dbPages) then Merging else Idle)
    case PersistMerged =>
      var f := MergedFile(Names(s.list), Open(Names(s.list), s.dir));
      s.(dir := s.dir[f.name := f], merger := Removing(Entry(f.name, |f.frames|), 0))
    case RemoveInput =>
      s.(dir := s.dir - {s.list[s.merger.removed].name},
         merger := s.merger.(removed := s.merger.removed + 1))
    case FinishMerge => s.(list := [s.merger.merged], merger := Idle)
  }

  ghost predicate IsRun(s: State, steps: seq<Step>)
    decreases |steps|
  {
    steps == [] || (Enabled(s, steps[0]) && IsRun(Next(s, steps[0]), steps[1..]))
  }

  ghost function After(s: State, steps: seq<Step>): State
    requires IsRun(s, steps)
    decreases |steps|
  {
    if steps == [] then s else After(Next(s, steps[0]), steps[1..])
  }

  // ---------------------------------------------------------------- when merges start

  /** The number of frames in the snapshots, counted from the oldest one. */
  ghost function FramesIn(entries: seq<Entry>): nat {
    if entries == [] then 0 else entries[0].size + FramesIn(entries[1..])
  }

  lemma {:induction false} TotalIsFramesIn(entries: seq<Entry>)
    ensures TotalSize(entries) == FramesIn(entries)
  {
    if entries != [] {
      var n := |entries| - 1;
      TotalIsFramesIn(entries[..n]);
      FramesInLast(entries);
    }
  }

  lemma {:induction false} FramesInLast(entries: seq<Entry>)
    requires entries != []
    ensures FramesIn(entries) == FramesIn(entries[..|entries| - 1]) + entries[|entries| - 1].size
  {
    var n := |entries| - 1;
    if n > 0 {
      FramesInLast(entries[1..]);
      assert entries[1..][..n - 1] == entries[..n][1..];
    }
  }

  /** A merge starts when the snapshots hold at least twice as many frames as the database has
      pages, or when there are more than 32 of them; otherwise the merger goes on waiting. */
  lemma MergeDecision(s: State)
    requires Enabled(s, ReceiveMessage)
    ensures var s' := Next(s, ReceiveMessage);
      && s'.list == s.list + [s.queue[0].entry] && s'.queue == s.queue[1..]
      && (s'.merger.Merging? <==> FramesIn(s'.list) >= 2 * s.queue[0].dbPages || |s'.list| > 32)
      && (!s'.merger.Merging? ==> s'.merger.Idle?)
  {
    TotalIsFramesIn(Next(s, ReceiveMessage).list);
  }

  /** There are never more than 33 snapshots to merge, and at most 32 stay. */
  ghost predicate FewSnapshots(s: State) {
    |s.list| <= 33 && (s.merger.Idle? ==> |s.list| <= 32)
  }

  lemma {:induction false} SnapshotsStayFew(s: State, steps: seq<Step>)
    requires FewSnapshots(s) && IsRun(s, steps)
    ensures FewSnapshots(After(s, steps))
    decreases |steps|
  {
    if steps != [] {
      StaysFew(s, steps[0]);
      hide Enabled, Next;
      SnapshotsStayFew(Next(s, steps[0]), steps[1..]);
    }
  }

  lemma StaysFew(s: State, step: Step)
    requires FewSnapshots(s) && Enabled(s, step)
    ensures FewSnapshots(Next(s, step))
  {
    hide FileOf, MergedFile, Reversed, TotalSize;
  }

  /** The merge about to start, if any, has at least two inputs. */
  ghost predicate MergesSeveral(s: State) {
    s.merger.Merging? ==> |s.list| >= 2
  }

  ghost predicate AlwaysMergesSeveral(s: State, steps: seq<Step>)
    requires IsRun(s, steps)
    decreases |steps|
  {
    && MergesSeveral(s)
    && (steps != [] ==> AlwaysMergesSeveral(Next(s, steps[0]), steps[1..]))
  }

  // ---------------------------------------------------------------- the invariant

  /** A transaction ends right before frame `n`. */
  ghost predicate Boundary(h: seq<Frame>, n: nat) {
    n <= |h| && (n > 0 ==> h[n - 1].sizeAfter != 0)
  }

  ghost predicate LogInv(s: State) {
    && IsHistory(s.history) && Boundary(s.history, |s.history|)
    && |s.history| + |s.log.pending| <= U64_MAX
    && Boundary(s.history, s.log.start)
    && s.log.committed == s.history[s.log.start..]
    && Numbered(s.log.pending, |s.history|)
    && s.notified <= |s.history|
    && (!s.compactor.Waiting? ==>
          && s.compactor.log.start < s.log.start
          && s.compactor.log.committed == s.history[s.compactor.log.start..s.log.start])
  }

  /** The snapshots that count, oldest first: known to the merger, queued for it, or just
      written by the compactor. */
  ghost function Chain(s: State): seq<Name> {
    Names(s.list) + QueueNames(s.queue) + Unregistered(s)
  }

  ghost function Unregistered(s: State): seq<Name> {
    if s.compactor.Persisted? then [s.compactor.message.entry.name] else []
  }

  /** Where the chain of snapshots must end. */
  ghost function ChainEnd(s: State): nat {
    if s.compactor.Building? then s.compactor.log.start else s.log.start
  }

  /** The ranges of the chain are nonempty, sorted and adjacent, from frame 0 up to the log. */
  ghost predicate Ordered(s: State) {
    && Adjacent(Chain(s), 0, ChainEnd(s))
    && (!s.merger.Idle? ==> s.list != [])
    && (s.merger.Removing? ==>
          && s.merger.removed <= |s.list|
          && s.merger.merged.name == Name(s.list[0].name.start, s.list[|s.list| - 1].name.end))
  }

  /** Every file in the directory tells the truth and ends on a transaction. */
  ghost predicate DirInv(s: State) {
    forall n :: n in s.dir ==>
      s.dir[n].name == n && Faithful(s.dir[n], s.history) && Boundary(s.history, n.end + 1)
  }

  /** What holds in every run. */
  ghost predicate Base(s: State) {
    LogInv(s) && Ordered(s) && DirInv(s)
  }

  ghost function RemovedInputs(s: State): nat {
    if s.merger.Removing? then s.merger.removed else 0
  }

  /** The chain is on disk, except for merge inputs that the merged file replaces. */
  ghost predicate OnDisk(s: State) {
    && (!s.merger.Idle? ==> |s.list| >= 2)
    && (s.merger.Removing? ==> s.merger.merged.name in s.dir)
    && (forall i :: RemovedInputs(s) <= i < |Chain(s)| ==> Chain(s)[i] in s.dir)
  }

  /** The directory holds nothing but the chain, less the inputs already removed, and the
      merged file. */
  ghost predicate NothingElse(s: State) {
    forall n :: n in s.dir ==>
      || (s.merger.Removing? && n == s.merger.merged.name)
      || (exists i :: RemovedInputs(s) <= i < |Chain(s)| && Chain(s)[i] == n)
  }

  /** What holds as long as every merge has at least two inputs. */
  ghost predicate Inv(s: State) {
    Base(s) && OnDisk(s) && NothingElse(s)
  }

  /** Frame `n` can be read from the log, from the log being compacted, or from a snapshot. */
  ghost predicate Covered(s: State, n: nat) {
    || s.log.start <= n < s.log.CommittedEnd()
    || (!s.compactor.Waiting? && s.compactor.log.start <= n < s.compactor.log.CommittedEnd())
    || InSnapshot(s, n)
  }

  ghost predicate InSnapshot(s: State, n: nat) {
    exists name :: name in s.dir && name.start <= n <= name.end
  }

  // ---------------------------------------------------------------- adjacent ranges

  lemma {:induction false} AdjacentFind(xs: seq<Name>, a: nat, b: nat, n: nat) returns (i: nat)
    requires Adjacent(xs, a, b) && a <= n < b
    ensures i < |xs| && xs[i].start <= n <= xs[i].end
  {
    if n <= xs[0].end {
      i := 0;
    } else {
      i := AdjacentFind(xs[1..], xs[0].end + 1, b, n);
      i := i + 1;
    }
  }

  lemma {:induction false} AdjacentSplit(xs: seq<Name>, ys: seq<Name>, a: nat, b: nat) returns (m: nat)
    requires Adjacent(xs + ys, a, b)
    ensures Adjacent(xs, a, m) && Adjacent(ys, m, b)
  {
    if xs == [] {
      assert xs + ys == ys;
      m := a;
    } else {
      assert (xs + ys)[1..] == xs[1..] + ys;
      m := AdjacentSplit(xs[1..], ys, xs[0].end + 1, b);
    }
  }

  lemma {:induction false} AdjacentJoin(xs: seq<Name>, ys: seq<Name>, a: nat, m: nat, b: nat)
    requires Adjacent(xs, a, m) && Adjacent(ys, m, b)
    ensures Adjacent(xs + ys, a, b)
  {
    if xs == [] {
      assert xs + ys == ys;
    } else {
      assert (xs + ys)[1..] == xs[1..] + ys;
      AdjacentJoin(xs[1..], ys, xs[0].end + 1, m, b);
    }
  }

  lemma AdjacentOne(n: Name)
    requires n.start <= n.end
    ensures Adjacent([n], n.start, n.end + 1)
  {
  }

  lemma {:induction false} AdjacentDistinct(xs: seq<Name>, a: nat, b: nat, i: nat, j: nat)
    requires Adjacent(xs, a, b) && i < j < |xs|
    ensures xs[i].end < xs[j].start
  {
    if i == 0 {
      AdjacentOrdered(xs[1..], xs[0].end + 1, b);
      assert xs[j] == xs[1..][j - 1];
    } else {
      AdjacentDistinct(xs[1..], xs[0].end + 1, b, i - 1, j - 1);
    }
  }

  // ---------------------------------------------------------------- the log and the directory

  lemma FaithfulGrows(f: SnapshotFile, h: seq<Frame>, more: seq<Frame>)
    requires Faithful(f, h)
    ensures Faithful(f, h + more)
  {
    var g := h + more;
    assert forall n :: 0 <= n < |h| ==> g[n] == h[n];
    var t := f.name.end + 1;
    assert forall n :: f.name.start <= n < t ==> Newest(g, n, t) == Newest(h, n, t);
  }

  lemma WriteKeepsLog(s: State, pages: seq<WalPage>, sizeAfter: nat)
    requires LogInv(s) && Enabled(s, WriteFrames(pages, sizeAfter))
    ensures LogInv(Next(s, WriteFrames(pages, sizeAfter)))
    ensures Next(s, WriteFrames(pages, sizeAfter)).log.start == s.log.start
  {
    var sized := WithSize(pages, sizeAfter);
    var log := s.log.PushAll(sized);
    PushAllFrame(s.log, sized);
    forall i | 0 <= i < |log.pending|
      ensures log.pending[i].frameNo == |s.history| + i
    {
      if i < |s.log.pending| {
        assert log.pending[i] == log.pending[..|s.log.pending|][i];
      } else {
        var page := sized[i - |s.log.pending|];
        assert log.pending[i] == Frame(|s.history| + i, page.pageNo, page.sizeAfter, page.data);
      }
    }
  }

  lemma LogPreserved(s: State, step: Step)
    requires LogInv(s) && Enabled(s, step)
    ensures LogInv(Next(s, step))
  {
    hide FileOf, MergedFile, Reversed, IsHistory;
    match step
    case WriteFrames(pages, sizeAfter) => WriteKeepsLog(s, pages, sizeAfter);
    case CommitLog => CommitKeepsLog(s);
    case StartCompaction => StartKeepsLog(s);
    case _ =>
  }

  lemma CommitKeepsLog(s: State)
    requires LogInv(s) && Enabled(s, CommitLog)
    ensures LogInv(Next(s, CommitLog))
  {
    var h, g := s.history, s.history + s.log.pending;
    assert g[s.log.start..] == h[s.log.start..] + s.log.pending;
    assert forall i :: 0 <= i < |h| ==> g[i] == h[i];
    if !s.compactor.Waiting? {
      var a := s.compactor.log.start;
      assert g[a..s.log.start] == h[a..s.log.start];
    }
  }

  lemma StartKeepsLog(s: State)
    requires LogInv(s) && Enabled(s, StartCompaction)
    ensures LogInv(Next(s, StartCompaction))
  {
    hide IsHistory;
    var h := s.history;
    assert s.log.CommittedEnd() == |h|;
    assert h[s.log.start..|h|] == h[s.log.start..] && h[|h|..] == [];
  }

  /** Steps that leave the snapshots and the start of the log alone. */
  ghost predicate Quiet(step: Step) {
    step.WriteFrames? || step.CommitLog? || step.RollbackLog? || step.Notify?
  }

  lemma QuietStep(s: State, step: Step)
    requires LogInv(s) && Enabled(s, step) && Quiet(step)
    ensures var s' := Next(s, step);
      && s'.compactor == s.compactor && s'.dir == s.dir && s'.queue == s.queue && s'.list == s.list
      && s'.merger == s.merger && s'.log.start == s.log.start
  {
    if step.WriteFrames? {
      WriteKeepsLog(s, step.pages, step.sizeAfter);
    }
  }

  lemma CommitKeepsDir(s: State)
    requires DirInv(s) && Enabled(s, CommitLog)
    ensures DirInv(Next(s, CommitLog))
  {
    var s' := Next(s, CommitLog);
    forall n | n in s'.dir
      ensures s'.dir[n].name == n && Faithful(s'.dir[n], s'.history) && Boundary(s'.history, n.end + 1)
    {
      FaithfulGrows(s.dir[n], s.history, s.log.pending);
    }
  }

  /** The compactor's file is truthful and covers exactly the compacted log. */
  lemma PersistKeepsDir(s: State)
    requires LogInv(s) && DirInv(s) && Enabled(s, PersistSnapshot)
    ensures DirInv(Next(s, PersistSnapshot))
    ensures s.compactor.log.start < s.log.start
    ensures FileOf(Reversed(s.compactor.log.committed)).name == Name(s.compactor.log.start, s.log.start - 1)
  {
    hide FileOf, Faithful;
    CompactionIsFaithful(s.history, s.compactor.log.start, s.log.start);
  }

  lemma ListEnd(s: State) returns (m: nat)
    requires Ordered(s) && s.list != []
    ensures Adjacent(Names(s.list), 0, m) && 0 < m <= ChainEnd(s)
    ensures m == s.list[|s.list| - 1].name.end + 1 && s.list[0].name.start == 0
  {
    hide Adjacent;
    var rest := QueueNames(s.queue) + Unregistered(s);
    assert Chain(s) == Names(s.list) + rest;
    hide Chain, ChainEnd, QueueNames;
    m := AdjacentSplit(Names(s.list), rest, 0, ChainEnd(s));
    AdjacentOrdered(Names(s.list), 0, m);
    AdjacentOrdered(rest, m, ChainEnd(s));
  }

  /** The inputs of a merge are adjacent from frame 0 on, truthful, and end on a transaction. */
  lemma MergeInputs(s: State) returns (m: nat)
    requires Base(s) && Enabled(s, PersistMerged)
    ensures 0 < m <= |s.history| && IsHistory(s.history) && |s.history| <= U64_MAX && Boundary(s.history, m)
    ensures Adjacent(Names(s.list), 0, m)
    ensures m == s.list[|s.list| - 1].name.end + 1 && s.list[0].name.start == 0
    ensures forall i :: 0 <= i < |s.list| ==>
      s.dir[Names(s.list)[i]].name == Names(s.list)[i] && Faithful(s.dir[Names(s.list)[i]], s.history)
  {
    hide Faithful, Ordered, Adjacent, Names, IsHistory;
    NameAt(s.list);
    m := ListEnd(s);
    ChainEndInHistory(s);
    assert Names(s.list)[|s.list| - 1] in s.dir;
  }

  lemma NameAt(entries: seq<Entry>)
    ensures forall i :: 0 <= i < |entries| ==> Names(entries)[i] == entries[i].name
  {
  }

  lemma ChainEndInHistory(s: State)
    requires LogInv(s)
    ensures ChainEnd(s) <= |s.history| <= U64_MAX && IsHistory(s.history)
  {
    hide IsHistory;
  }

  lemma MergeKeepsDir(s: State)
    requires Base(s) && Enabled(s, PersistMerged)
    ensures DirInv(Next(s, PersistMerged))
    ensures MergedFile(Names(s.list), Open(Names(s.list), s.dir)).name
         == Name(s.list[0].name.start, s.list[|s.list| - 1].name.end)
  {
    hide Faithful, MergedFile, LogInv, Ordered, Names, Boundary;
    MergedTellsTheTruth(s);
  }

  lemma MergedTellsTheTruth(s: State)
    requires Base(s) && Enabled(s, PersistMerged)
    ensures var f := MergedFile(Names(s.list), Open(Names(s.list), s.dir));
      && f.name == Name(s.list[0].name.start, s.list[|s.list| - 1].name.end)
      && Faithful(f, s.history) && Boundary(s.history, f.name.end + 1)
  {
    hide Base, Adjacent, Faithful, MergedFile, Boundary, IsHistory;
    var names := Names(s.list);
    var m := MergeInputs(s);
    MergeIsFaithful(Open(names, s.dir), names, s.history, 0, m);
  }

  lemma DirPreserved(s: State, step: Step)
    requires Base(s) && Enabled(s, step)
    ensures DirInv(Next(s, step))
  {
    match step
    case CommitLog => CommitKeepsDir(s);
    case PersistSnapshot => PersistKeepsDir(s);
    case PersistMerged => MergeKeepsDir(s);
    case _ => hide Faithful, FileOf, MergedFile, LogInv, Ordered, Boundary;
  }

  // ---------------------------------------------------------------- the chain

  /** What a step does to the chain: nothing, unless the compactor appends its file or the
      merger replaces its list by the merged file. */
  lemma ChainOfStep(s: State, step: Step)
    requires LogInv(s) && Enabled(s, step) && !step.FinishMerge?
    ensures Chain(Next(s, step)) == Chain(s)
      + if step.PersistSnapshot? then [FileOf(Reversed(s.compactor.log.committed)).name] else []
    ensures ChainEnd(Next(s, step)) == if step.PersistSnapshot? then s.log.start else ChainEnd(s)
  {
    hide FileOf, MergedFile, Reversed;
    if Quiet(step) {
      QuietStep(s, step);
    } else if step.ReceiveMessage? {
      ReceiveKeepsChain(s);
    }
  }

  lemma ReceiveKeepsChain(s: State)
    requires Enabled(s, ReceiveMessage)
    ensures Chain(Next(s, ReceiveMessage)) == Chain(s)
    ensures ChainEnd(Next(s, ReceiveMessage)) == ChainEnd(s)
  {
    hide ShouldMerge, Names, QueueNames;
    var a, x, b := Names(s.list), s.queue[0].entry.name, QueueNames(s.queue[1..]);
    assert Names(s.list + [s.queue[0].entry]) == a + [x];
    assert QueueNames(s.queue) == [x] + b;
    assert (a + [x]) + b + Unregistered(s) == a + ([x] + b) + Unregistered(s);
  }

  lemma FinishChain(s: State) returns (rest: seq<Name>)
    requires Enabled(s, FinishMerge)
    ensures Chain(s) == Names(s.list) + rest
    ensures Chain(Next(s, FinishMerge)) == [s.merger.merged.name] + rest
    ensures ChainEnd(Next(s, FinishMerge)) == ChainEnd(s)
  {
    rest := QueueNames(s.queue) + Unregistered(s);
  }

  lemma FinishKeepsOrder(s: State)
    requires Ordered(s) && Enabled(s, FinishMerge)
    ensures Ordered(Next(s, FinishMerge))
  {
    hide Adjacent, Chain, ChainEnd;
    var rest := FinishChain(s);
    var m := AdjacentSplit(Names(s.list), rest, 0, ChainEnd(s));
    AdjacentOrdered(Names(s.list), 0, m);
    AdjacentOne(s.merger.merged.name);
    AdjacentJoin([s.merger.merged.name], rest, 0, m, ChainEnd(s));
  }

  lemma OrderPreserved(s: State, step: Step)
    requires Base(s) && Enabled(s, step)
    ensures Ordered(Next(s, step))
  {
    hide Adjacent, Chain, ChainEnd, FileOf, MergedFile, LogInv, DirInv;
    if step.FinishMerge? {
      FinishKeepsOrder(s);
    } else {
      ChainOfStep(s, step);
      assert Chain(s) + [] == Chain(s);
      if step.PersistSnapshot? {
        PersistKeepsDir(s);
        ChainEndsAtLog(s);
        var n := Name(s.compactor.log.start, s.log.start - 1);
        AdjacentOne(n);
        AdjacentJoin(Chain(s), [n], 0, ChainEnd(s), s.log.start);
      } else if step.PersistMerged? {
        MergeKeepsDir(s);
      } else if step.ReceiveMessage? {
        hide ShouldMerge;
      }
    }
  }

  lemma ChainEndsAtLog(s: State)
    requires s.compactor.Building?
    ensures ChainEnd(s) == s.compactor.log.start
  {
  }

  lemma BasePreserved(s: State, step: Step)
    requires Base(s) && Enabled(s, step)
    ensures Base(Next(s, step))
  {
    hide LogInv, Ordered, DirInv, Next, Enabled;
    LogPreserved(s, step);
    OrderPreserved(s, step);
    DirPreserved(s, step);
  }

  lemma BaseHistory(s: State)
    requires Base(s)
    ensures IsHistory(s.history)
  {
  }

  lemma BaseFile(s: State, name: Name)
    requires Base(s) && name in s.dir
    ensures s.dir[name].name == name && Faithful(s.dir[name], s.history) && Boundary(s.history, name.end + 1)
  {
    hide LogInv, Ordered, Faithful;
  }

  // ---------------------------------------------------------------- what is on disk

  lemma ListInChain(s: State)
    ensures |s.list| <= |Chain(s)|
    ensures forall i :: 0 <= i < |s.list| ==> Chain(s)[i] == s.list[i].name
  {
  }

  /** With two inputs or more the merged file has a name of its own. */
  lemma MergedIsNew(s: State, i: nat)
    requires Ordered(s) && s.merger.Removing? && |s.list| >= 2 && i < |s.list|
    ensures s.merger.merged.name != s.list[i].name
    ensures s.merger.merged.name.start <= s.list[i].name.start
    ensures s.list[i].name.end <= s.merger.merged.name.end
  {
    hide Adjacent, Chain, ChainEnd;
    var last := |s.list| - 1;
    ListInChain(s);
    AdjacentOrdered(Chain(s), 0, ChainEnd(s));
    AdjacentDistinct(Chain(s), 0, ChainEnd(s), 0, last);
    if 0 < i {
      AdjacentDistinct(Chain(s), 0, ChainEnd(s), 0, i);
    }
    if i < last {
      AdjacentDistinct(Chain(s), 0, ChainEnd(s), i, last);
    }
  }

  lemma RemoveKeepsDisk(s: State)
    requires Ordered(s) && OnDisk(s) && Enabled(s, RemoveInput)
    ensures OnDisk(Next(s, RemoveInput))
  {
    hide Adjacent;
    var s' := Next(s, RemoveInput);
    var i := s.merger.removed;
    assert Chain(s') == Chain(s);
    ListInChain(s);
    hide Chain, ChainEnd;
    forall j | i < j < |Chain(s)|
      ensures Chain(s)[j] in s'.dir
    {
      AdjacentDistinct(Chain(s), 0, ChainEnd(s), i, j);
      AdjacentOrdered(Chain(s), 0, ChainEnd(s));
    }
    MergedIsNew(s, i);
  }

  lemma FinishKeepsDisk(s: State)
    requires Ordered(s) && OnDisk(s) && NothingElse(s) && Enabled(s, FinishMerge)
    ensures OnDisk(Next(s, FinishMerge)) && NothingElse(Next(s, FinishMerge))
  {
    hide Adjacent, Chain, ChainEnd;
    var s' := Next(s, FinishMerge);
    var rest := FinishChain(s);
    forall j | 0 <= j < |Chain(s')|
      ensures Chain(s')[j] in s'.dir
    {
      if j > 0 {
        assert Chain(s')[j] == rest[j - 1] == Chain(s)[|s.list| + j - 1];
      }
    }
    forall n | n in s'.dir
      ensures exists i :: 0 <= i < |Chain(s')| && Chain(s')[i] == n
    {
      if n == s.merger.merged.name {
        assert Chain(s')[0] == n;
      } else {
        var i :| |s.list| <= i < |Chain(s)| && Chain(s)[i] == n;
        assert Chain(s')[1 + i - |s.list|] == n;
      }
    }
  }

  lemma PersistKeepsDisk(s: State)
    requires Base(s) && OnDisk(s) && NothingElse(s) && Enabled(s, PersistSnapshot)
    ensures OnDisk(Next(s, PersistSnapshot)) && NothingElse(Next(s, PersistSnapshot))
  {
    hide LogInv, DirInv, FileOf, Chain, ChainEnd, Reversed;
    var s' := Next(s, PersistSnapshot);
    ChainOfStep(s, PersistSnapshot);
    var n := FileOf(Reversed(s.compactor.log.committed)).name;
    assert s'.dir.Keys == s.dir.Keys + {n};
    ListInChain(s);
    forall m | m in s'.dir && !(s'.merger.Removing? && m == s'.merger.merged.name)
      ensures exists i :: RemovedInputs(s') <= i < |Chain(s')| && Chain(s')[i] == m
    {
      if m in s.dir {
        var i :| RemovedInputs(s) <= i < |Chain(s)| && Chain(s)[i] == m;
        assert Chain(s')[i] == m;
      } else {
        assert Chain(s')[|Chain(s)|] == m;
      }
    }
  }

  /** Steps that leave the directory and the merger's progress alone. */
  lemma SameDisk(s: State, s': State)
    requires OnDisk(s) && NothingElse(s) && Chain(s') == Chain(s) && s'.dir == s.dir
    requires s'.merger.Removing? <==> s.merger.Removing?
    requires s.merger.Removing? ==> s'.merger == s.merger && s'.list == s.list
    requires !s'.merger.Idle? ==> |s'.list| >= 2
    ensures OnDisk(s') && NothingElse(s')
  {
    hide Chain;
    assert RemovedInputs(s') == RemovedInputs(s);
  }

  lemma MergeKeepsDisk(s: State)
    requires Base(s) && OnDisk(s) && NothingElse(s) && Enabled(s, PersistMerged)
    ensures OnDisk(Next(s, PersistMerged)) && NothingElse(Next(s, PersistMerged))
  {
    hide LogInv, DirInv, MergedFile, ChainEnd;
    MergeKeepsDir(s);
    assert Chain(Next(s, PersistMerged)) == Chain(s);
    hide Chain;
  }

  lemma RemoveKeepsNothingElse(s: State)
    requires Ordered(s) && NothingElse(s) && Enabled(s, RemoveInput)
    ensures NothingElse(Next(s, RemoveInput))
  {
    assert Chain(Next(s, RemoveInput)) == Chain(s);
    ListInChain(s);
    hide Chain, ChainEnd, Adjacent;
  }

  lemma DiskPreserved(s: State, step: Step)
    requires Inv(s) && Enabled(s, step) && MergesSeveral(Next(s, step))
    ensures OnDisk(Next(s, step)) && NothingElse(Next(s, step))
  {
    hide LogInv, Ordered, DirInv, OnDisk, NothingElse, FileOf, MergedFile, Chain, ShouldMerge;
    match step
    case PersistSnapshot => PersistKeepsDisk(s);
    case PersistMerged => MergeKeepsDisk(s);
    case RemoveInput => RemoveKeepsDisk(s); RemoveKeepsNothingElse(s);
    case FinishMerge => FinishKeepsDisk(s);
    case _ =>
      ChainOfStep(s, step);
      if Quiet(step) {
        QuietStep(s, step);
      }
      SeveralInputs(s);
      SameDisk(s, Next(s, step));
  }

  lemma SeveralInputs(s: State)
    requires OnDisk(s)
    ensures !s.merger.Idle? ==> |s.list| >= 2
  {
  }

  lemma StepPreserves(s: State, step: Step)
    requires Inv(s) && Enabled(s, step) && MergesSeveral(Next(s, step))
    ensures Inv(Next(s, step))
  {
    hide Base, OnDisk, NothingElse, Next, Enabled;
    BasePreserved(s, step);
    DiskPreserved(s, step);
  }

  // ---------------------------------------------------------------- runs

  /** Every committed frame can be read from somewhere. */
  lemma EveryFrameCovered(s: State, n: nat)
    requires Inv(s) && n < |s.history|
    ensures Covered(s, n)
  {
    if n < ChainEnd(s) {
      ChainReadable(s, n);
    }
  }

  lemma ChainReadable(s: State, n: nat)
    requires Inv(s) && n < ChainEnd(s)
    ensures InSnapshot(s, n)
  {
    hide LogInv, DirInv, NothingElse, Adjacent, Chain, ChainEnd;
    var i := AdjacentFind(Chain(s), 0, ChainEnd(s), n);
    ListInChain(s);
    if i < RemovedInputs(s) {
      MergedIsNew(s, i);
      assert s.merger.merged.name in s.dir;
    } else {
      assert Chain(s)[i] in s.dir;
    }
  }

  /** A frame that has left the log is in a snapshot, or will be as soon as the compactor has
      written the one that it is building. */
  lemma SnapshotTurnsUp(s: State, n: nat)
    requires Inv(s) && n < s.log.start
    ensures InSnapshot(s, n) || (s.compactor.Building? && InSnapshot(Next(s, PersistSnapshot), n))
  {
    if n < ChainEnd(s) {
      hide Inv, InSnapshot;
      ChainReadable(s, n);
    } else {
      assert Enabled(s, PersistSnapshot);
      hide Ordered, LogInv, DirInv, OnDisk, NothingElse, ChainEnd, Next, InSnapshot;
      BasePreserved(s, PersistSnapshot);
      PersistKeepsDisk(s);
      ChainOfStep(s, PersistSnapshot);
      ChainReadable(Next(s, PersistSnapshot), n);
    }
  }

  lemma InitInv(s: State)
    requires Init(s)
    ensures Inv(s)
  {
    assert Chain(s) == [];
    hide Chain, Faithful;
    assert LogInv(s) && Ordered(s) && DirInv(s);
    hide LogInv, Ordered, DirInv;
  }

  lemma {:induction false} RunKeepsBase(s: State, steps: seq<Step>)
    requires Base(s) && IsRun(s, steps)
    ensures Base(After(s, steps))
    decreases |steps|
  {
    hide Base, Next, Enabled;
    if steps != [] {
      BasePreserved(s, steps[0]);
      RunKeepsBase(Next(s, steps[0]), steps[1..]);
    }
  }

  lemma {:induction false} RunPreserves(s: State, steps: seq<Step>)
    requires Inv(s) && IsRun(s, steps) && AlwaysMergesSeveral(s, steps)
    ensures Inv(After(s, steps))
    decreases |steps|
  {
    hide Inv, Next, Enabled;
    if steps != [] {
      StepPreserves(s, steps[0]);
      RunPreserves(Next(s, steps[0]), steps[1..]);
    }
  }

  /** In every run, whatever the merges do: the log holds exactly the committed frames from
      its start on, the snapshot ranges are nonempty, sorted and adjacent up to the log, and
      every snapshot file tells the truth and ends on a transaction. */
  lemma SnapshotsTellTheTruth(s: State, steps: seq<Step>)
    requires Init(s) && IsRun(s, steps)
    ensures Base(After(s, steps))
  {
    InitInv(s);
    RunKeepsBase(s, steps);
  }

  /** In every run in which every merge has at least two inputs, after every step, every
      frame committed so far can be read from the log, from the log under compaction, or
      from a snapshot. */
  lemma PrimaryIsSafe(s: State, steps: seq<Step>)
    requires Init(s) && IsRun(s, steps) && AlwaysMergesSeveral(s, steps)
    ensures Inv(After(s, steps))
    ensures forall n :: 0 <= n < |After(s, steps).history| ==> Covered(After(s, steps), n)
  {
    InitInv(s);
    hide Inv;
    RunPreserves(s, steps);
    var s' := After(s, steps);
    forall n | 0 <= n < |s'.history|
      ensures Covered(s', n)
    {
      EveryFrameCovered(s', n);
    }
  }

  /** The assertions of the compactor never fire: it reads its frames in decreasing order
      and is handed a size other than 0. */
  lemma CompactorNeverPanics(s: State)
    requires Base(s)
    ensures !s.compactor.Waiting? ==> DescendsBelow(Reversed(s.compactor.log.committed), U64_MAX)
    ensures Enabled(s, StartCompaction) ==> s.log.committed[|s.log.committed| - 1].sizeAfter != 0
  {
    hide DirInv, Ordered, Faithful, FileOf;
    if !s.compactor.Waiting? {
      CompactionIsFaithful(s.history, s.compactor.log.start, s.log.start);
    }
  }

  /** The merger never panics or fails: it finds its inputs on disk and reads their frames
      in decreasing order. */
  lemma MergerNeverPanics(s: State)
    requires Inv(s) && s.merger.Merging?
    ensures Enabled(s, PersistMerged)
    ensures DescendsBelow(NewestFirst(Open(Names(s.list), s.dir)), U64_MAX)
  {
    MergerFindsInputs(s);
    hide Base, OnDisk, NothingElse;
    MergeReadsInOrder(s);
  }

  lemma MergeReadsInOrder(s: State)
    requires Base(s) && Enabled(s, PersistMerged)
    ensures DescendsBelow(NewestFirst(Open(Names(s.list), s.dir)), U64_MAX)
  {
    hide Base, Adjacent, Faithful, MergedFile;
    var m := MergeInputs(s);
    var names := Names(s.list);
    MergeIsFaithful(Open(names, s.dir), names, s.history, 0, m);
  }

  lemma MergerFindsInputs(s: State)
    requires Inv(s) && s.merger.Merging?
    ensures Enabled(s, PersistMerged)
  {
    ListInChain(s);
    hide LogInv, DirInv, NothingElse, Chain;
    forall i | 0 <= i < |s.list|
      ensures Names(s.list)[i] in s.dir
    {
      assert Chain(s)[i] == Names(s.list)[i];
    }
  }

  // ---------------------------------------------------------------- single-input merges

  /** What is left of a merge when `k` inputs are still to be removed. */
  function Removals(k: nat): seq<Step> {
    if k == 0 then [FinishMerge] else [RemoveInput] + Removals(k - 1)
  }

  /** All the steps of a merge of `k` inputs. */
  function MergeSteps(k: nat): seq<Step> {
    [PersistMerged] + Removals(k)
  }

  /** A merge that runs to its end leaves every merged frame in a snapshot if and only if it
      had at least two inputs.  With one input the merged file takes the name of its input,
      and removing the input removes the merged file. */
  lemma MergeKeepsFrames(s0: State, s: State)
    requires Inv(s0) && Enabled(s0, ReceiveMessage) && s == Next(s0, ReceiveMessage) && s.merger.Merging?
    ensures s.list != [] && IsRun(s, MergeSteps(|s.list|))
    ensures (forall n :: 0 <= n <= s.list[|s.list| - 1].name.end
                         ==> InSnapshot(After(s, MergeSteps(|s.list|)), n))
            <==> |s.list| >= 2
  {
    hide Inv;
    if |s.list| >= 2 {
      StepPreserves(s0, ReceiveMessage);
      SeveralInputsKeep(s);
    } else {
      OneInputLoses(s0, s);
    }
  }

  lemma {:induction false} RemovalsKeepInv(s: State, k: nat)
    requires Inv(s) && s.merger.Removing? && s.merger.removed + k == |s.list|
    ensures IsRun(s, Removals(k)) && Inv(After(s, Removals(k)))
    ensures After(s, Removals(k)).merger == Idle
    ensures ChainEnd(After(s, Removals(k))) == ChainEnd(s)
    decreases k
  {
    hide Inv;
    if k == 0 {
      StepPreserves(s, FinishMerge);
      assert Removals(0)[1..] == [];
      assert After(s, Removals(0)) == Next(s, FinishMerge);
    } else {
      StepPreserves(s, RemoveInput);
      RemovalsKeepInv(Next(s, RemoveInput), k - 1);
      assert Removals(k)[1..] == Removals(k - 1);
    }
  }

  lemma SeveralInputsKeep(s: State)
    requires Inv(s) && s.merger.Merging?
    ensures s.list != [] && IsRun(s, MergeSteps(|s.list|))
    ensures forall n :: 0 <= n <= s.list[|s.list| - 1].name.end ==> InSnapshot(After(s, MergeSteps(|s.list|)), n)
  {
    LastInputBelowEnd(s);
    MergerFindsInputs(s);
    MergePersisted(s);
    hide Inv, Next, Enabled;
    StepPreserves(s, PersistMerged);
    var s1 := Next(s, PersistMerged);
    RemovalsKeepInv(s1, |s.list|);
    assert MergeSteps(|s.list|)[1..] == Removals(|s.list|);
    var s2 := After(s1, Removals(|s.list|));
    forall n | 0 <= n <= s.list[|s.list| - 1].name.end
      ensures InSnapshot(s2, n)
    {
      ChainReadable(s2, n);
    }
  }

  lemma MergePersisted(s: State)
    requires Enabled(s, PersistMerged)
    ensures var s' := Next(s, PersistMerged);
      && s'.merger.Removing? && s'.merger.removed == 0 && s'.list == s.list && ChainEnd(s') == ChainEnd(s)
  {
    hide MergedFile;
  }

  lemma LastInputBelowEnd(s: State)
    requires Inv(s) && !s.merger.Idle?
    ensures s.list != [] && s.list[|s.list| - 1].name.end < ChainEnd(s)
  {
    hide LogInv, DirInv, Chain, ChainEnd, NothingElse, Adjacent;
    var m := ListEnd(s);
  }

  lemma OneInputLoses(s0: State, s: State)
    requires Inv(s0) && Enabled(s0, ReceiveMessage) && s == Next(s0, ReceiveMessage) && s.merger.Merging?
    requires |s.list| == 1
    ensures IsRun(s, MergeSteps(1))
    ensures !InSnapshot(After(s, MergeSteps(1)), 0)
  {
    hide Inv, IsRun, After, Next, Enabled;
    FirstReceived(s0, s);
    FirstOnDisk(s0);
    PersistOnlyInput(s);
    RemoveOnlyInput(Next(s, PersistMerged), Removals(1));
    RunFirst(s, PersistMerged, Removals(1));
  }

  lemma FirstReceived(s0: State, s: State)
    requires Enabled(s0, ReceiveMessage) && s == Next(s0, ReceiveMessage) && |s.list| == 1
    ensures s0.merger.Idle? && s0.list == [] && s0.queue != []
    ensures s.dir == s0.dir && s.list[0].name == s0.queue[0].entry.name
  {
    hide ShouldMerge;
  }

  lemma PersistOnlyInput(s: State)
    requires s.merger.Merging? && |s.list| == 1 && s.list[0].name in s.dir
    ensures Enabled(s, PersistMerged)
    ensures Next(s, PersistMerged).dir.Keys == s.dir.Keys
    ensures Next(s, PersistMerged).list == s.list
    ensures Next(s, PersistMerged).merger.Removing? && Next(s, PersistMerged).merger.removed == 0
    ensures var s' := Next(s, PersistMerged);
      s'.history == s.history && s'.log == s.log && s'.compactor == s.compactor
  {
    MergedNameOf(Names(s.list), Open(Names(s.list), s.dir));
    hide MergedFile;
  }

  lemma RemoveOnlyInput(s: State, steps: seq<Step>)
    requires s.merger.Removing? && s.merger.removed == 0 && |s.list| == 1 && steps == Removals(1)
    ensures IsRun(s, steps)
    ensures After(s, steps).dir == s.dir - {s.list[0].name}
    ensures var s' := After(s, steps);
      s'.history == s.history && s'.log == s.log && s'.compactor == s.compactor && s'.merger == Idle
  {
    var s' := Next(s, RemoveInput);
    assert steps[1..] == Removals(0) && Removals(0)[1..] == [];
    assert After(s', Removals(0)) == Next(s', FinishMerge);
  }

  /** Before its first merge, the merger's next file is the only one that reaches frame 0. */
  lemma FirstOnDisk(s: State)
    requires Inv(s) && s.merger.Idle? && s.list == [] && s.queue != []
    ensures s.queue[0].entry.name in s.dir
    ensures forall n :: n in s.dir && n != s.queue[0].entry.name ==> n.start > 0
  {
    hide Adjacent, DirInv, LogInv;
    var first := s.queue[0].entry.name;
    assert Chain(s)[0] == first;
    hide Chain, ChainEnd;
    AdjacentOrdered(Chain(s), 0, ChainEnd(s));
    forall n | n in s.dir && n != first
      ensures n.start > 0
    {
      var i :| 0 <= i < |Chain(s)| && Chain(s)[i] == n;
      AdjacentDistinct(Chain(s), 0, ChainEnd(s), 0, i);
    }
  }

  lemma MergedNameOf(names: seq<Name>, files: seq<SnapshotFile>)
    requires names != []
    ensures MergedFile(names, files).name == Name(names[0].start, names[|names| - 1].end)
  {
  }

  lemma RunFirst(s: State, step: Step, rest: seq<Step>)
    requires Enabled(s, step) && IsRun(Next(s, step), rest)
    ensures IsRun(s, [step] + rest) && After(s, [step] + rest) == After(Next(s, step), rest)
  {
    assert ([step] + rest)[1..] == rest;
  }

  lemma RunNone(s: State)
    ensures IsRun(s, []) && After(s, []) == s
  {
  }

  lemma {:induction false} RunJoin(s: State, a: seq<Step>, b: seq<Step>)
    requires IsRun(s, a) && IsRun(After(s, a), b)
    ensures IsRun(s, a + b) && After(s, a + b) == After(After(s, a), b)
    decreases |a|
  {
    hide Enabled, Next;
    if a == [] {
      assert a + b == b;
    } else {
      RunJoin(Next(s, a[0]), a[1..], b);
      RunFirst(s, a[0], a[1..] + b);
      assert a + b == [a[0]] + (a[1..] + b);
    }
  }

  /** A transaction that writes pages 1 and 2, and one that writes page 1 and leaves only it. */
  const GROW_AND_SHRINK: seq<Frame> := [Frame(0, 1, 0, []), Frame(1, 2, 2, []), Frame(2, 1, 1, [])]

  /** A transaction is written in one call and committed. */
  lemma CommitTransaction(s: State, pages: seq<WalPage>, size: nat, fs: seq<Frame>) returns (steps: seq<Step>)
    requires s.log == LogView(0, s.history, []) && |s.history| + |pages| <= U64_MAX
    requires pages != [] && size != 0 && forall i :: 0 <= i < |pages| ==> pages[i].sizeAfter == 0
    requires |fs| == |pages|
    requires forall i :: 0 <= i < |pages| ==>
      fs[i] == Frame(|s.history| + i, pages[i].pageNo, if i == |pages| - 1 then size else 0, pages[i].data)
    ensures IsRun(s, steps)
    ensures After(s, steps) == s.(history := s.history + fs, log := LogView(0, s.history + fs, []))
  {
    hide IsRun, After;
    var write := WriteFrames(pages, size);
    PushAllFrame(s.log, WithSize(pages, size));
    var s1 := Next(s, write);
    assert s1.log == LogView(0, s.history, fs);
    var s2 := Next(s1, CommitLog);
    hide Next, Enabled;
    RunNone(s2);
    RunFirst(s1, CommitLog, []);
    RunFirst(s, write, [CommitLog] + []);
    steps := [write] + ([CommitLog] + []);
  }

  lemma GrowAndShrink(s: State) returns (steps: seq<Step>)
    requires s == State([], LogView(0, [], []), 0, 0, Waiting, map[], [], [], Idle)
    ensures IsRun(s, steps)
    ensures After(s, steps) == s.(history := GROW_AND_SHRINK, log := LogView(0, GROW_AND_SHRINK, []))
  {
    hide IsRun, After;
    var h := GROW_AND_SHRINK;
    steps := CommitTransaction(s, [WalPage(1, 0, []), WalPage(2, 0, [])], 2, h[..2]);
    assert [] + h[..2] == h[..2];
    var more := CommitTransaction(After(s, steps), [WalPage(1, 0, [])], 1, h[2..]);
    assert h[..2] + h[2..] == h;
    RunJoin(s, steps, more);
    steps := steps + more;
  }

  /** Its snapshot has two pages, twice the size of the database. */
  lemma ShrunkSnapshot()
    ensures var h := GROW_AND_SHRINK; FileOf(Reversed(h)) == SnapshotFile(Name(0, 2), 1, [h[2], h[1]])
  {
    var h := GROW_AND_SHRINK;
    assert Reversed(h) == [h[2], h[1], h[0]];
    assert [h[2], h[1], h[0]] == [h[2], h[1]] + [h[0]] && [h[2], h[1]] == [h[2]] + [h[1]] && [h[2]] == [] + [h[2]];
    DedupStep([], h[2]);
    DedupStep([h[2]], h[1]);
    DedupStep([h[2], h[1]], h[0]);
    assert PagesOf([]) == {};
  }

  /** The log is compacted, and its snapshot reaches the merger, which merges it at once. */
  lemma CompactAndReceive(s: State) returns (steps: seq<Step>)
    requires s.log == LogView(0, GROW_AND_SHRINK, []) && s.history == GROW_AND_SHRINK
    requires s.compactor == Waiting && s.dir == map[] && s.queue == [] && s.list == [] && s.merger == Idle
    ensures IsRun(s, steps)
    ensures var s' := After(s, steps);
      && s'.merger.Merging? && |s'.list| == 1 && s'.dir.Keys == {s'.list[0].name}
      && s'.history == GROW_AND_SHRINK && s'.log.start == 3 && s'.compactor.Waiting?
  {
    hide FileOf, MergedFile, Reversed, IsRun, After, TotalSize;
    var h := GROW_AND_SHRINK;
    ShrunkSnapshot();
    var e := Entry(Name(0, 2), 2);
    var s0 := Next(s, StartCompaction);
    assert s0.compactor == Building(LogView(0, h, []), 1) && s0.log.start == 3;
    var s1 := Next(s0, PersistSnapshot);
    assert s1.compactor == Persisted(LogView(0, h, []), Message(e, 1));
    assert s1.dir == map[e.name := FileOf(Reversed(h))];
    var s2 := Next(s1, RegisterSnapshot);
    assert s2.queue == [Message(e, 1)];
    var s3 := Next(s2, RemoveOldLog);
    var s4 := ReceiveOne(s3, e);
    assert s4.dir.Keys == {e.name};
    hide Next, Enabled;
    RunNone(s4);
    RunFirst(s3, ReceiveMessage, []);
    steps := [ReceiveMessage] + [];
    RunFirst(s2, RemoveOldLog, steps);
    steps := [RemoveOldLog] + steps;
    RunFirst(s1, RegisterSnapshot, steps);
    steps := [RegisterSnapshot] + steps;
    RunFirst(s0, PersistSnapshot, steps);
    steps := [PersistSnapshot] + steps;
    RunFirst(s, StartCompaction, steps);
    steps := [StartCompaction] + steps;
  }

  lemma ReceiveOne(s: State, e: Entry) returns (s': State)
    requires s.queue == [Message(e, 1)] && s.list == [] && s.merger == Idle && e.size == 2
    ensures Enabled(s, ReceiveMessage) && s' == Next(s, ReceiveMessage)
    ensures s'.merger.Merging? && s'.list == [e]
    ensures s'.dir == s.dir && s'.history == s.history && s'.log == s.log && s'.compactor == s.compactor
  {
    assert [] + [e] == [e] && TotalSize([e]) == TotalSize([e][..0]) + 2;
    s' := Next(s, ReceiveMessage);
  }

  /** Frames do get lost: a database that grows to two pages and shrinks to one is compacted, its
      only snapshot is merged with nothing and removed, and then frame 0, committed long ago, is
      nowhere to be found. */
  lemma SingleMergeLosesFrames() returns (s: State, steps: seq<Step>)
    ensures Init(s) && s.history == [] && IsRun(s, steps)
    ensures var s' := After(s, steps); |s'.history| == 3 && !Covered(s', 0) && s'.merger == Idle
  {
    hide IsRun, After, Next, Enabled;
    s := State([], LogView(0, [], []), 0, 0, Waiting, map[], [], [], Idle);
    steps := GrowAndShrink(s);
    var s1 := After(s, steps);
    var more := CompactAndReceive(s1);
    RunJoin(s, steps, more);
    steps := steps + more;
    var s2 := After(s, steps);
    PersistOnlyInput(s2);
    RemoveOnlyInput(Next(s2, PersistMerged), Removals(1));
    RunFirst(s2, PersistMerged, Removals(1));
    RunJoin(s, steps, MergeSteps(1));
    steps := steps + MergeSteps(1);
  }
}
