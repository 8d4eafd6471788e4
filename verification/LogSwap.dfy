/** Handing a full log over to the compactor, file by file
    (`sqld/src/replication/primary/logger.rs`, `sqld/src/replication/snapshot.rs`).

The new log is put in place before the old one is handed over, and only the handing over waits
for the compactor.  So the file `temp_log`, which becomes the new log, may still be the log that
the compactor reads.  `Primary` models the runs in which it is not. */
module LogSwap {
  import opened Basics
  import opened Frames

  /** An open log file with its header in memory. */
  datatype Handle = Handle(inode: nat, start: nat, count: nat) {
    function End(): nat { start + count }
  }

  /** The writer, which holds the lock on the log from opening `temp_log` to the hand-over. */
  datatype Caller = Idle | Opened(inode: nat) | Sending(full: Handle) | Panicked

  /** The compactor's thread: waiting for a log, reading it, or done with the snapshot. */
  datatype Thread = Ready | Busy(log: Handle) | Saved | Exited

  /** `disk` has the body of every file, also of removed ones that are still open; `wallog` and
      `temp` are what the two names stand for; `lost` says that a log was not taken. */
  datatype Files = Files(
    history: seq<Frame>,
    disk: map<nat, seq<Frame>>,
    wallog: nat,
    temp: Option<nat>,
    log: Handle,
    caller: Caller,
    thread: Thread,
    snapshots: seq<seq<Frame>>,
    lost: bool)

  datatype Step =
    | Append(frames: seq<Frame>)
    | OpenTemp(inode: nat)
    | Exchange
    | HandOver
    | HandOverFails
    | Compact
    | RemoveTemp

  ghost predicate Init(s: Files) {
    && s.history == [] && s.disk == map[0 := []] && s.wallog == 0 && s.temp == None
    && s.log == Handle(0, 0, 0) && s.caller == Idle && s.thread == Ready && s.snapshots == [] && !s.lost
  }

  /** A file that `OpenTemp` creates has a new inode. */
  ghost predicate Enabled(s: Files, step: Step) {
    match step
    case Append(frames) => s.caller.Idle? && frames != [] && s.log.inode in s.disk
    case OpenTemp(inode) => s.caller.Idle? && s.log.count > 0 && (s.temp.None? ==> inode !in s.disk)
    case Exchange => s.caller.Opened?
    case HandOver => s.caller.Sending? && s.thread.Ready?
    case HandOverFails => s.caller.Sending? && s.thread.Exited?
    case Compact => s.thread.Busy? && s.thread.log.inode in s.disk
    case RemoveTemp => s.thread.Saved?
  }

  /** The body with the frames written from slot `at` on. */
  function WriteAt(body: seq<Frame>, at: nat, frames: seq<Frame>): seq<Frame> {
    Upto(body, at) + frames + if at + |frames| < |body| then body[at + |frames|..] else []
  }

  function Upto(body: seq<Frame>, n: nat): seq<Frame> {
    if n <= |body| then body[..n] else body
  }

  ghost function Next(s: Files, step: Step): Files
    requires Enabled(s, step)
  {
    match step
    case Append(frames) =>
      s.(history := s.history + frames,
         disk := s.disk[s.log.inode := WriteAt(s.disk[s.log.inode], s.log.count, frames)],
         log := s.log.(count := s.log.count + |frames|))
    case OpenTemp(inode) =>
      if s.temp.Some? then s.(caller := Opened(s.temp.value))
      else s.(disk := s.disk[inode := []], temp := Some(inode), caller := Opened(inode))
    case Exchange =>
      if s.temp.None? then s.(caller := Panicked)
      else s.(temp := Some(s.wallog), wallog := s.temp.value,
              log := Handle(s.caller.inode, s.log.End(), 0), caller := Sending(s.log))
    case HandOver => s.(thread := Busy(s.caller.full), caller := Idle)
    case HandOverFails => s.(caller := Idle, lost := true)
    case Compact =>
      s.(snapshots := s.snapshots + [Upto(s.disk[s.thread.log.inode], s.thread.log.count)], thread := Saved)
    case RemoveTemp =>
      if s.temp.Some? then s.(temp := None, thread := Ready) else s.(thread := Exited)
  }

  ghost predicate IsRun(s: Files, steps: seq<Step>)
    decreases |steps|
  {
    steps == [] || (Enabled(s, steps[0]) && IsRun(Next(s, steps[0]), steps[1..]))
  }

  ghost function After(s: Files, steps: seq<Step>): Files
    requires IsRun(s, steps)
    decreases |steps|
  {
    if steps == [] then s else After(Next(s, steps[0]), steps[1..])
  }

  // ---------------------------------------------------------------- what every run keeps

  function Flat(parts: seq<seq<Frame>>): seq<Frame> {
    if parts == [] then [] else Flat(parts[..|parts| - 1]) + parts[|parts| - 1]
  }

  /** The file behind a handle holds the frames that the handle stands for. */
  ghost predicate Holds(s: Files, h: Handle) {
    && h.End() <= |s.history| && h.inode in s.disk && h.count <= |s.disk[h.inode]|
    && s.disk[h.inode][..h.count] == s.history[h.start..h.End()]
  }

  /** The first frame that has not been read by the compactor, or is not to be. */
  ghost function Waiting(s: Files): nat {
    if s.caller.Sending? then s.caller.full.start else s.log.start
  }

  ghost function Unread(s: Files): nat {
    if s.thread.Busy? then s.thread.log.start else Waiting(s)
  }

  /** The file of the writer's log, and the file that a compaction is about to use. */
  ghost predicate CallerInv(s: Files) {
    && Holds(s, s.log) && s.log.End() == |s.history| && s.wallog == s.log.inode
    && (s.temp.Some? ==> s.temp.value in s.disk && s.temp.value != s.wallog)
    && match s.caller
       case Opened(inode) => inode in s.disk && inode != s.wallog && (s.temp.Some? ==> s.temp == Some(inode))
       case Sending(full) =>
         Holds(s, full) && full.End() == s.log.start && s.log.count == 0 && full.inode != s.log.inode
       case _ => true
  }

  /** The log that the compactor reads is not written to, although the writer may have put its
      new log into the same file. */
  ghost predicate ThreadInv(s: Files) {
    && (s.thread.Busy? ==>
          && Holds(s, s.thread.log) && s.thread.log.End() == Waiting(s)
          && (s.thread.log.inode == s.log.inode ==> s.caller.Sending?))
    && (s.lost ==> s.thread.Exited?)
    && (!s.lost ==> Unread(s) <= |s.history| && Flat(s.snapshots) == s.history[..Unread(s)])
  }

  ghost predicate FilesInv(s: Files) {
    CallerInv(s) && ThreadInv(s)
  }

  lemma {:induction false} InitHolds(s: Files)
    requires Init(s)
    ensures FilesInv(s) && InTurn(s)
  {
    hide Flat, Holds, CallerInv, ThreadInv;
    InitHasFile(s);
    InitReadsNothing(s);
  }

  lemma {:induction false} InitHasFile(s: Files)
    requires s.history == [] && s.log.inode in s.disk && s.wallog == s.log.inode && s.temp.None?
    requires s.log.start == 0 && s.log.count == 0 && s.caller.Idle?
    ensures CallerInv(s)
  {
    hide Flat, Holds;
    HoldsNothing(s, s.log);
  }

  lemma {:induction false} InitReadsNothing(s: Files)
    requires Init(s)
    ensures ThreadInv(s)
  {
    hide Flat, Holds;
    FlatNone();
    assert Unread(s) == 0;
    assert s.history[..0] == [];
  }

  lemma FlatNone()
    ensures Flat([]) == []
  {
  }

  lemma HoldsNothing(s: Files, h: Handle)
    requires h.count == 0 && h.start <= |s.history| && h.inode in s.disk
    ensures Holds(s, h)
  {
    assert s.disk[h.inode][..0] == [] == s.history[h.start..h.start];
  }

  lemma FlatMore(parts: seq<seq<Frame>>, part: seq<Frame>)
    ensures Flat(parts + [part]) == Flat(parts) + part
  {
    assert (parts + [part])[..|parts|] == parts;
  }

  lemma WrittenBody(body: seq<Frame>, at: nat, frames: seq<Frame>)
    requires at <= |body|
    ensures |WriteAt(body, at, frames)| >= at + |frames|
    ensures WriteAt(body, at, frames)[..at + |frames|] == body[..at] + frames
  {
  }

  lemma StillHolds(s: Files, s': Files, h: Handle)
    requires Holds(s, h) && s.history <= s'.history
    requires h.inode in s'.disk && s'.disk[h.inode] == s.disk[h.inode]
    ensures Holds(s', h)
  {
  }

  lemma AppendKeeps(s: Files, frames: seq<Frame>)
    requires FilesInv(s) && Enabled(s, Append(frames))
    ensures FilesInv(Next(s, Append(frames)))
  {
    hide WriteAt, Flat, Holds;
    var s' := Next(s, Append(frames));
    AppendedLog(s, frames);
    if s.thread.Busy? {
      HandleOnDisk(s, s.thread.log);
      StillHolds(s, s', s.thread.log);
    }
    if !s.lost {
      assert s'.history[..Unread(s)] == s.history[..Unread(s)];
    }
  }

  lemma AppendedLog(s: Files, frames: seq<Frame>)
    requires Holds(s, s.log) && s.log.End() == |s.history| && Enabled(s, Append(frames))
    ensures Holds(Next(s, Append(frames)), Next(s, Append(frames)).log)
  {
    hide WriteAt;
    WrittenBody(s.disk[s.log.inode], s.log.count, frames);
    var h, start := s.history + frames, s.log.start;
    assert h[start..] == s.history[start..] + frames;
  }

  lemma OpenKeeps(s: Files, inode: nat)
    requires FilesInv(s) && Enabled(s, OpenTemp(inode))
    ensures FilesInv(Next(s, OpenTemp(inode)))
  {
    hide Flat, Holds;
    var s' := Next(s, OpenTemp(inode));
    HandleOnDisk(s, s.log);
    StillHolds(s, s', s.log);
    if s.thread.Busy? {
      HandleOnDisk(s, s.thread.log);
      StillHolds(s, s', s.thread.log);
    }
  }

  lemma HandleOnDisk(s: Files, h: Handle)
    requires Holds(s, h)
    ensures h.inode in s.disk && h.End() <= |s.history|
  {
  }

  lemma ExchangeKeeps(s: Files)
    requires FilesInv(s) && Enabled(s, Exchange)
    ensures FilesInv(Next(s, Exchange))
  {
    hide Flat, Holds;
    var s' := Next(s, Exchange);
    HandleOnDisk(s, s.log);
    StillHolds(s, s', s.log);
    if s.temp.Some? {
      HoldsNothing(s', s'.log);
    }
    if s.thread.Busy? {
      HandleOnDisk(s, s.thread.log);
      StillHolds(s, s', s.thread.log);
    }
  }

  lemma CompactKeeps(s: Files)
    requires FilesInv(s) && Enabled(s, Compact)
    ensures FilesInv(Next(s, Compact))
  {
    hide Flat;
    var s', h := Next(s, Compact), s.thread.log;
    FlatMore(s.snapshots, s.disk[h.inode][..h.count]);
    assert s.history[..h.start] + s.history[h.start..h.End()] == s.history[..h.End()];
  }

  /** Every step keeps the invariant, also when compactions overlap. */
  lemma StepKeeps(s: Files, step: Step)
    requires FilesInv(s) && Enabled(s, step)
    ensures FilesInv(Next(s, step))
  {
    match step
    case Append(frames) => AppendKeeps(s, frames);
    case OpenTemp(inode) => OpenKeeps(s, inode);
    case Exchange => ExchangeKeeps(s);
    case Compact => CompactKeeps(s);
    case _ =>
  }

  lemma {:induction false} RunKeeps(s: Files, steps: seq<Step>)
    requires FilesInv(s) && IsRun(s, steps)
    ensures FilesInv(After(s, steps))
    decreases |steps|
  {
    hide FilesInv, Enabled, Next;
    if steps != [] {
      StepKeeps(s, steps[0]);
      RunKeeps(Next(s, steps[0]), steps[1..]);
    }
  }

  /** In every run, also with overlapping compactions, as long as every log is taken: the
      snapshots hold the history up to the log that the compactor reads or that waits for it,
      and the open files hold the rest. */
  lemma {:induction false} NothingIsLost(s: Files, steps: seq<Step>)
    requires Init(s) && IsRun(s, steps) && !After(s, steps).lost
    ensures var s' := After(s, steps);
      && Unread(s') <= Waiting(s') <= s'.log.start <= |s'.history|
      && Flat(s'.snapshots) == s'.history[..Unread(s')]
      && (s'.thread.Busy? ==> Holds(s', s'.thread.log) && s'.thread.log.End() == Waiting(s'))
      && (s'.caller.Sending? ==> Holds(s', s'.caller.full) && s'.caller.full.End() == s'.log.start)
      && Holds(s', s'.log) && s'.log.End() == |s'.history|
  {
    hide Init, IsRun, After, Holds, Flat, FilesInv, InTurn;
    InitHolds(s);
    RunKeeps(s, steps);
    Remains(After(s, steps));
  }

  lemma Remains(s: Files)
    requires FilesInv(s) && !s.lost
    ensures
      && Unread(s) <= Waiting(s) <= s.log.start <= |s.history|
      && Flat(s.snapshots) == s.history[..Unread(s)]
      && (s.thread.Busy? ==> Holds(s, s.thread.log) && s.thread.log.End() == Waiting(s))
      && (s.caller.Sending? ==> Holds(s, s.caller.full) && s.caller.full.End() == s.log.start)
      && Holds(s, s.log) && s.log.End() == |s.history|
  {
    hide Holds, Flat;
  }

  // ---------------------------------------------------------------- one compaction at a time

  /** Each compaction starts when the compactor waits for one. */
  ghost predicate OneAtATime(s: Files, steps: seq<Step>)
    requires IsRun(s, steps)
    decreases |steps|
  {
    steps != [] ==> (steps[0].OpenTemp? ==> s.thread.Ready?) && OneAtATime(Next(s, steps[0]), steps[1..])
  }

  /** The file `temp_log` is there exactly while a compaction is under way. */
  ghost predicate InTurn(s: Files) {
    && !s.lost && !s.caller.Panicked? && !s.thread.Exited?
    && (s.caller.Opened? || s.caller.Sending? ==> s.thread.Ready?)
    && (s.temp.Some? <==> !s.caller.Idle? || !s.thread.Ready?)
  }

  lemma {:induction false} StaysInTurn(s: Files, steps: seq<Step>)
    requires InTurn(s) && IsRun(s, steps) && OneAtATime(s, steps)
    ensures InTurn(After(s, steps))
    decreases |steps|
  {
    if steps != [] {
      StaysInTurn(Next(s, steps[0]), steps[1..]);
    }
  }

  lemma RunNone(s: Files)
    ensures IsRun(s, []) && After(s, []) == s && OneAtATime(s, [])
  {
  }

  /** One more step in front, not one that starts a compaction. */
  lemma RunFirst(s: Files, step: Step, rest: seq<Step>)
    requires Enabled(s, step) && IsRun(Next(s, step), rest)
    requires OneAtATime(Next(s, step), rest) && (step.OpenTemp? ==> s.thread.Ready?)
    ensures IsRun(s, [step] + rest) && After(s, [step] + rest) == After(Next(s, step), rest)
    ensures OneAtATime(s, [step] + rest)
  {
    hide Enabled, Next;
    assert ([step] + rest)[1..] == rest;
  }

  /** Whatever follows, one compaction at a time, the compactor goes on. */
  ghost predicate GoesOn(s: Files) {
    forall steps :: IsRun(s, steps) && OneAtATime(s, steps) ==> InTurn(After(s, steps))
  }

  /** A compaction that starts while another is under way: the compactor removes the newer log
      in place of its own, finds nothing to remove afterwards, and exits. */
  lemma OverlapEnds(s: Files, inode: nat) returns (steps: seq<Step>)
    requires FilesInv(s) && InTurn(s) && Enabled(s, OpenTemp(inode)) && !s.thread.Ready?
    ensures var s1 := Next(s, OpenTemp(inode));
      && IsRun(s1, steps) && OneAtATime(s1, steps)
      && After(s1, steps).thread.Exited? && After(s1, steps).caller.Idle? && !After(s1, steps).lost
      && After(s1, steps).history == s.history && After(s1, steps).log.start == |s.history|
  {
    hide IsRun, After, OneAtATime, Flat;
    var s1 := Next(s, OpenTemp(inode));
    var s2 := Next(s1, Exchange);
    var s3 := if s2.thread.Busy? then Next(s2, Compact) else s2;
    var s4 := Next(s3, RemoveTemp);
    var s5 := Next(s4, HandOver);
    var s6 := Next(s5, Compact);
    var s7 := Next(s6, RemoveTemp);
    RunNone(s7);
    RunFirst(s6, RemoveTemp, []);
    steps := [RemoveTemp] + [];
    RunFirst(s5, Compact, steps);
    steps := [Compact] + steps;
    RunFirst(s4, HandOver, steps);
    steps := [HandOver] + steps;
    RunFirst(s3, RemoveTemp, steps);
    steps := [RemoveTemp] + steps;
    if s2.thread.Busy? {
      RunFirst(s2, Compact, steps);
      steps := [Compact] + steps;
    }
    RunFirst(s1, Exchange, steps);
    steps := [Exchange] + steps;
  }

  /** From any state that compactions one at a time lead to: the compactor goes on after a
      compaction starts if and only if it was waiting for one. */
  lemma {:induction false} SafeToCompact(s0: Files, before: seq<Step>, inode: nat)
    requires Init(s0) && IsRun(s0, before) && OneAtATime(s0, before)
    requires Enabled(After(s0, before), OpenTemp(inode))
    ensures var s := After(s0, before); GoesOn(Next(s, OpenTemp(inode))) <==> s.thread.Ready?
  {
    hide Init, IsRun, After, OneAtATime, FilesInv;
    InitHolds(s0);
    RunKeeps(s0, before);
    StaysInTurn(s0, before);
    var s := After(s0, before);
    var s1 := Next(s, OpenTemp(inode));
    if s.thread.Ready? {
      assert InTurn(s1);
      forall steps | IsRun(s1, steps) && OneAtATime(s1, steps)
        ensures InTurn(After(s1, steps))
      {
        StaysInTurn(s1, steps);
      }
    } else {
      var steps := OverlapEnds(s, inode);
      assert !InTurn(After(s1, steps));
    }
  }

  // ---------------------------------------------------------------- a failing case

  /** Once the compactor has exited, the next log is lost: its frames are in no snapshot and in
      no open file. */
  lemma NextLogIsLost(s: Files, frames: seq<Frame>, inode: nat) returns (steps: seq<Step>)
    requires FilesInv(s) && s.thread.Exited? && s.caller.Idle? && s.log.count == 0 && !s.lost
    requires frames != [] && inode !in s.disk
    ensures IsRun(s, steps)
    ensures var s' := After(s, steps);
      && s'.lost && s'.thread.Exited? && s'.caller.Idle? && s'.history == s.history + frames
      && Flat(s'.snapshots) == s.history && s'.log.start == |s'.history|
  {
    hide IsRun, After, OneAtATime, Flat, WriteAt;
    assert s.history[..|s.history|] == s.history;
    var s1 := Next(s, Append(frames));
    var s2 := Next(s1, OpenTemp(inode));
    var s3 := Next(s2, Exchange);
    var s4 := Next(s3, HandOverFails);
    JustRun4(s, Append(frames), OpenTemp(inode), Exchange, HandOverFails);
    steps := [Append(frames), OpenTemp(inode), Exchange, HandOverFails];
  }

  lemma JustRun4(s: Files, a: Step, b: Step, c: Step, d: Step)
    requires Enabled(s, a) && Enabled(Next(s, a), b) && Enabled(Next(Next(s, a), b), c)
    requires Enabled(Next(Next(Next(s, a), b), c), d)
    ensures IsRun(s, [a, b, c, d]) && After(s, [a, b, c, d]) == Next(Next(Next(Next(s, a), b), c), d)
  {
    hide Enabled, Next, IsRun, After;
    var s1, s2, s3 := Next(s, a), Next(Next(s, a), b), Next(Next(Next(s, a), b), c);
    RunNone(Next(s3, d));
    OneMore(s3, d, []);
    OneMore(s2, c, [d] + []);
    OneMore(s1, b, [c] + ([d] + []));
    OneMore(s, a, [b] + ([c] + ([d] + [])));
    assert [a] + ([b] + ([c] + ([d] + []))) == [a, b, c, d];
  }

  lemma {:induction false} RunJoin(s: Files, a: seq<Step>, b: seq<Step>)
    requires IsRun(s, a) && IsRun(After(s, a), b)
    ensures IsRun(s, a + b) && After(s, a + b) == After(After(s, a), b)
    decreases |a|
  {
    hide Enabled, Next;
    if a == [] {
      assert a + b == b;
    } else {
      RunJoin(Next(s, a[0]), a[1..], b);
      assert (a + b)[0] == a[0] && (a + b)[1..] == a[1..] + b;
    }
  }

  /** One frame is handed over to the compactor, and another one written meanwhile. */
  lemma CompactOne(s: Files, f0: seq<Frame>, f1: seq<Frame>) returns (steps: seq<Step>)
    requires s == Files([], map[0 := []], 0, None, Handle(0, 0, 0), Idle, Ready, [], false)
    requires |f0| == 1 && |f1| == 1
    ensures IsRun(s, steps)
    ensures var s' := After(s, steps);
      && FilesInv(s') && InTurn(s') && Enabled(s', OpenTemp(2)) && s'.thread.Busy? && s'.history == f0 + f1
  {
    hide IsRun, After, Flat, FilesInv;
    steps := [Append(f0), OpenTemp(1), Exchange, HandOver];
    JustRun4(s, Append(f0), OpenTemp(1), Exchange, HandOver);
    var s1 := After(s, steps);
    assert s1.history == f0 && s1.log == Handle(1, 1, 0) && s1.temp == Some(0) && s1.caller.Idle? && s1.thread.Busy?;
    InitHolds(s);
    RunKeeps(s, steps);
    var s2 := Next(s1, Append(f1));
    StepKeeps(s1, Append(f1));
    RunNone(s2);
    OneMore(s1, Append(f1), []);
    RunJoin(s, steps, [Append(f1)] + []);
    steps := steps + ([Append(f1)] + []);
  }

  /** Three transactions of one frame each, compacted one by one, the second while the first is
      under way: the frame of the third is gone. */
  lemma OverlapLosesFrames() returns (s: Files, steps: seq<Step>)
    ensures Init(s) && IsRun(s, steps)
    ensures var s' := After(s, steps);
      && |s'.history| == 3 && s'.log.start == 3 && s'.thread.Exited? && s'.caller.Idle?
      && Flat(s'.snapshots) == s'.history[..2]
  {
    hide IsRun, After, OneAtATime, Flat, FilesInv, InTurn, Enabled, Next;
    s := Files([], map[0 := []], 0, None, Handle(0, 0, 0), Idle, Ready, [], false);
    var f0, f1, f2 := [Frame(0, 1, 1, [])], [Frame(1, 1, 1, [])], [Frame(2, 1, 1, [])];
    steps := CompactOne(s, f0, f1);
    var s2 := After(s, steps);
    StepKeeps(s2, OpenTemp(2));
    var s3 := Next(s2, OpenTemp(2));
    var second := OverlapEnds(s2, 2);
    RunKeeps(s3, second);
    OneMore(s2, OpenTemp(2), second);
    var s4 := After(s3, second);
    Exit(s4);
    var inode := NewInode(s4);
    var third := NextLogIsLost(s4, f2, inode);
    second := [OpenTemp(2)] + second;
    RunJoin(s2, second, third);
    RunJoin(s, steps, second + third);
    steps := steps + (second + third);
    assert (s4.history + f2)[..2] == s4.history;
  }

  lemma OneMore(s: Files, step: Step, rest: seq<Step>)
    requires Enabled(s, step) && IsRun(Next(s, step), rest)
    ensures IsRun(s, [step] + rest) && After(s, [step] + rest) == After(Next(s, step), rest)
  {
    hide Enabled, Next;
    assert ([step] + rest)[1..] == rest;
  }

  lemma Exit(s: Files)
    requires FilesInv(s) && s.log.start == |s.history|
    ensures s.log.count == 0
  {
  }

  lemma NewInode(s: Files) returns (inode: nat)
    ensures inode !in s.disk
  {
    inode := Above(s.disk.Keys);
  }

  lemma Above(inodes: set<nat>) returns (inode: nat)
    ensures forall i :: i in inodes ==> i < inode
  {
    if inodes == {} {
      inode := 0;
    } else {
      var i :| i in inodes;
      var j := Above(inodes - {i});
      inode := if i < j then j else i + 1;
      assert forall x :: x in inodes ==> x == i || x in inodes - {i};
    }
  }
}
