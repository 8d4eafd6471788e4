/** What the merger is told about the snapshots, and what that means for the decision to merge
    (`sqld/src/replication/snapshot.rs`). */
module MergeAccounts {
  import opened Basics
  import opened Frames
  import opened Snapshot
  import opened LogFile
  import opened Primary

  /** The size of a snapshot is the number of different pages written in its range. */
  ghost predicate RightEntry(h: seq<Frame>, e: Entry) {
    e.name.start <= e.name.end < |h| && e.size == |PagesOf(h[e.name.start..e.name.end + 1])|
  }

  /** A message about a new snapshot carries the size of the database after its last frame. */
  ghost predicate RightMessage(h: seq<Frame>, m: Message) {
    RightEntry(h, m.entry) && m.dbPages == h[m.entry.name.end].sizeAfter
  }

  ghost predicate Accounts(s: State) {
    && (forall i :: 0 <= i < |s.list| ==> RightEntry(s.history, s.list[i]))
    && (forall i :: 0 <= i < |s.queue| ==> RightMessage(s.history, s.queue[i]))
    && (s.merger.Removing? ==> RightEntry(s.history, s.merger.merged))
    && match s.compactor
       case Building(log, dbPages) =>
         log.committed != [] && dbPages == log.committed[|log.committed| - 1].sizeAfter
       case Persisted(_, message) => RightMessage(s.history, message)
       case _ => true
  }

  // ---------------------------------------------------------------- the number of pages

  lemma {:induction false} DedupCount(fs: seq<Frame>)
    ensures |Dedup(fs)| == |PagesOf(fs)|
  {
    if fs == [] {
      assert PagesOf(fs) == {};
    } else {
      var n := |fs| - 1;
      var front, last := fs[..n], fs[n];
      DedupCount(front);
      assert fs == front + [last];
      DedupStep(front, last);
      PagesMore(front, last);
    }
  }

  lemma PagesMore(fs: seq<Frame>, f: Frame)
    ensures PagesOf(fs + [f]) == PagesOf(fs) + {f.pageNo}
  {
    var g := fs + [f];
    assert forall i :: 0 <= i < |fs| ==> g[i] == fs[i];
    assert g[|fs|] == f;
    forall p | p in PagesOf(fs) + {f.pageNo}
      ensures p in PagesOf(g)
    {
      if p in PagesOf(fs) {
        var i :| 0 <= i < |fs| && fs[i].pageNo == p;
        assert g[i].pageNo == p;
      }
    }
  }

  lemma PagesReversed(fs: seq<Frame>)
    ensures PagesOf(Reversed(fs)) == PagesOf(fs)
  {
    var r := Reversed(fs);
    forall p
      ensures p in PagesOf(r) <==> p in PagesOf(fs)
    {
      if p in PagesOf(fs) {
        var i :| 0 <= i < |fs| && fs[i].pageNo == p;
        assert r[|fs| - 1 - i].pageNo == p;
      }
      if p in PagesOf(r) {
        var i :| 0 <= i < |r| && r[i].pageNo == p;
        assert fs[|fs| - 1 - i].pageNo == p;
      }
    }
  }

  lemma CompactedCount(fs: seq<Frame>)
    ensures |FileOf(Reversed(fs)).frames| == |PagesOf(fs)|
  {
    hide Dedup, PagesOf, Reversed;
    DedupCount(Reversed(fs));
    PagesReversed(fs);
  }

  // ---------------------------------------------------------------- every run

  lemma EntryGrows(h: seq<Frame>, g: seq<Frame>, e: Entry)
    requires RightEntry(h, e) && h <= g
    ensures RightEntry(g, e)
  {
    assert h[e.name.start..e.name.end + 1] == g[e.name.start..e.name.end + 1];
  }

  lemma AccountsGrow(s: State, h: seq<Frame>)
    requires Accounts(s) && s.history <= h
    ensures Accounts(s.(history := h))
  {
    hide RightEntry;
    forall e | RightEntry(s.history, e)
      ensures RightEntry(h, e)
    {
      EntryGrows(s.history, h, e);
    }
    forall m | RightMessage(s.history, m)
      ensures RightMessage(h, m)
    {
      InHistory(s.history, m.entry);
    }
  }

  lemma InHistory(h: seq<Frame>, e: Entry)
    requires RightEntry(h, e)
    ensures e.name.end < |h|
  {
  }

  lemma CompactedEntry(s: State)
    requires Base(s) && Accounts(s) && s.compactor.Building?
    ensures var f := FileOf(Reversed(s.compactor.log.committed));
      RightMessage(s.history, Message(Entry(f.name, |f.frames|), s.compactor.dbPages))
  {
    hide Ordered, DirInv, FileOf, PagesOf, Reversed, Faithful, DescendsBelow;
    var h, a, b := s.history, s.compactor.log.start, s.log.start;
    CompactionIsFaithful(h, a, b);
    CompactedCount(h[a..b]);
    assert h[a..b][b - a - 1] == h[b - 1];
  }

  lemma MergedEntry(s: State)
    requires Base(s) && Enabled(s, PersistMerged)
    ensures var f := MergedFile(Names(s.list), Open(Names(s.list), s.dir));
      RightEntry(s.history, Entry(f.name, |f.frames|))
  {
    hide Base, Adjacent, Faithful, MergedFile, Boundary, IsHistory, FileOf, PagesOf, Reversed, DescendsBelow, Covers;
    var names, h := Names(s.list), s.history;
    var m := MergeInputs(s);
    MergeIsFaithful(Open(names, s.dir), names, h, 0, m);
    MergeIsCompaction(Open(names, s.dir), names, h, 0, m);
    CompactedCount(h[0..m]);
  }

  lemma StepAccounts(s: State, step: Step)
    requires Base(s) && Accounts(s) && Enabled(s, step)
    ensures Accounts(Next(s, step))
  {
    hide Base, RightEntry, FileOf, MergedFile, Reversed, ShouldMerge;
    match step
    case CommitLog => AccountsGrow(s, s.history + s.log.pending);
    case PersistSnapshot => CompactedEntry(s);
    case PersistMerged => MergedEntry(s);
    case _ =>
  }

  /** In every run the merger knows of every snapshot the number of different pages written in
      its range, and is told the size of the database after it. */
  lemma {:induction false} AlwaysAccounts(s: State, steps: seq<Step>)
    requires Base(s) && Accounts(s) && IsRun(s, steps)
    ensures Base(After(s, steps)) && Accounts(After(s, steps))
    decreases |steps|
  {
    hide Base, Accounts, Enabled, Next;
    if steps != [] {
      BasePreserved(s, steps[0]);
      StepAccounts(s, steps[0]);
      AlwaysAccounts(Next(s, steps[0]), steps[1..]);
    }
  }

  /** The number of page versions that the snapshots hold. */
  ghost function Versions(h: seq<Frame>, entries: seq<Entry>): nat
    requires forall i :: 0 <= i < |entries| ==> RightEntry(h, entries[i])
  {
    if entries == [] then 0
    else
      var name := entries[0].name;
      assert RightEntry(h, entries[0]);
      |PagesOf(h[name.start..name.end + 1])| + Versions(h, entries[1..])
  }

  lemma {:induction false} VersionsAreFrames(h: seq<Frame>, entries: seq<Entry>)
    requires forall i :: 0 <= i < |entries| ==> RightEntry(h, entries[i])
    ensures FramesIn(entries) == Versions(h, entries)
  {
    if entries != [] {
      VersionsAreFrames(h, entries[1..]);
    }
  }

  /** In every run: when a message about a snapshot is taken, a merge starts if and only if the
      snapshots hold at least twice as many page versions as the database has pages after the
      last of them, or are more than 32. */
  lemma MergesWhenWorthIt(s: State, steps: seq<Step>)
    requires Init(s) && IsRun(s, steps) && Enabled(After(s, steps), ReceiveMessage)
    ensures var s1 := After(s, steps); var s2 := Next(s1, ReceiveMessage);
      var last := s2.list[|s2.list| - 1].name.end;
      && (forall i :: 0 <= i < |s2.list| ==> RightEntry(s2.history, s2.list[i]))
      && (s2.merger.Merging? <==>
            Versions(s2.history, s2.list) >= 2 * s2.history[last].sizeAfter || |s2.list| > 32)
  {
    hide RightEntry, IsRun, After, Base, ShouldMerge, FramesIn, Versions;
    InitInv(s);
    InitAccounts(s);
    AlwaysAccounts(s, steps);
    var s1 := After(s, steps);
    var s2 := Next(s1, ReceiveMessage);
    InHistory(s1.history, s1.queue[0].entry);
    MergeDecision(s1);
    VersionsAreFrames(s2.history, s2.list);
  }

  lemma InitAccounts(s: State)
    requires Init(s)
    ensures Accounts(s)
  {
  }
}
