/** Forking a database: rebuilding its data file from a mix of log frames and snapshots while
    the primary goes on (`sqld/src/namespace/fork.rs`). */
module Fork {
  import opened Basics
  import opened Frames
  import opened Snapshot
  import opened LogFile
  import opened Primary

  /** `obs(t)` is the primary at the `t`-th time the fork looks at it.  Any steps of the
      primary may lie between two looks. */
  ghost predicate IsObserved(obs: nat -> State) {
    && (forall t: nat :: Base(obs(t)))
    && (forall t: nat, u: nat :: t <= u ==> obs(t).history <= obs(u).history)
  }

  /** `find(t, n)` is the outcome of looking for a snapshot of frame `n` again and again from
      time `t` on: the time of success and the file found, or `None` if none ever turns up. */
  ghost predicate IsFound(obs: nat -> State, find: (nat, nat) -> Option<(nat, Name)>) {
    forall t: nat, n: nat :: find(t, n).Some? ==>
      var (u, name) := find(t, n).value;
      t <= u && name in obs(u).dir && name.start <= n <= name.end
  }

  /** The data file after the frames below `next` of the history at time `t`. */
  ghost predicate IsReplayed(obs: nat -> State, t: nat, next: nat, data: map<PageNo, Page>) {
    next <= |obs(t).history| && data == ApplyPages(map[], obs(t).history[..next])
  }

  lemma LaterReplayed(obs: nat -> State, t: nat, u: nat, next: nat, data: map<PageNo, Page>)
    requires IsObserved(obs) && IsReplayed(obs, t, next, data) && t <= u
    ensures IsReplayed(obs, u, next, data)
    ensures Boundary(obs(t).history, next) ==> Boundary(obs(u).history, next)
  {
    assert obs(t).history <= obs(u).history;
    assert obs(t).history[..next] == obs(u).history[..next];
  }

  lemma OneFrameReplayed(obs: nat -> State, t: nat, next: nat, data: map<PageNo, Page>)
    requires IsObserved(obs) && IsReplayed(obs, t, next, data) && obs(t).log.Read(next).Found?
    ensures var frame := obs(t).log.Read(next).frame;
      frame.frameNo == next && IsReplayed(obs, t, next + 1, data[frame.pageNo := frame.data])
  {
    assert Base(obs(t));
    var h := obs(t).history;
    assert h[..next + 1][..next] == h[..next];
  }

  lemma WholeLogReplayed(obs: nat -> State, t: nat, next: nat, data: map<PageNo, Page>)
    requires IsObserved(obs) && IsReplayed(obs, t, next, data) && obs(t).log.Read(next).Ahead?
    ensures next == |obs(t).history| && Boundary(obs(t).history, next) && obs(0).notified <= next
  {
    assert Base(obs(t)) && Base(obs(0)) && obs(0).history <= obs(t).history;
  }

  /** All the frames read from a snapshot bring the data file to the end of the snapshot. */
  lemma SnapshotReplayed(obs: nat -> State, t: nat, next: nat, data: map<PageNo, Page>, name: Name)
    requires IsObserved(obs) && IsReplayed(obs, t, next, data)
    requires name in obs(t).dir && name.start <= next <= name.end
    ensures var frames := FramesIterFrom(obs(t).dir[name].frames, next);
      && frames != [] && frames[0].frameNo == name.end && Descending(frames)
      && IsReplayed(obs, t, name.end + 1, ApplyPages(data, frames))
      && Boundary(obs(t).history, name.end + 1)
  {
    hide Base, ApplyPages, FramesIterFrom, Faithful, Descending;
    BaseHistory(obs(t));
    BaseFile(obs(t), name);
    SnapshotRead(obs(t).dir[name], obs(t).history, next);
  }

  lemma SnapshotRead(f: SnapshotFile, h: seq<Frame>, k: nat)
    requires IsHistory(h) && Faithful(f, h) && f.name.start <= k <= f.name.end
    ensures var frames := FramesIterFrom(f.frames, k);
      && frames != [] && frames[0].frameNo == f.name.end && Descending(frames)
      && ApplyPages(ApplyPages(map[], h[..k]), frames) == ApplyPages(map[], h[..f.name.end + 1])
  {
    var t := f.name.end + 1;
    assert IsSnapshot(f.frames, h, f.name.start, t) && Covers(f.frames, h, f.name.start, t);
    hide IsSnapshot, Covers, ApplyPages, FramesIterFrom;
    ResumeAnywhere(map[], f.frames, h, f.name.start, t, k);
    FirstIsEnd(f.frames, h, f.name.start, t);
    CoversDescends(f.frames, h, f.name.start, t);
    IterFromIsPrefix(f.frames, k);
    assert f.frames[0] in FramesIterFrom(f.frames, k);
  }

  lemma CoversDescends(fs: seq<Frame>, h: seq<Frame>, s: nat, t: nat)
    requires Covers(fs, h, s, t)
    ensures Descending(fs)
  {
  }

  function Max(a: nat, b: nat): nat { if a < b then b else a }

  /** Writes the frames of a snapshot, newest first. */
  method WriteSnapshot(frames: seq<Frame>, next: nat, data: map<PageNo, Page>)
    returns (next': nat, data': map<PageNo, Page>)
    requires frames != [] && Descending(frames) && next <= frames[0].frameNo
    ensures next' == frames[0].frameNo + 1
    ensures data' == ApplyPages(data, frames)
  {
    next', data' := next, data;
    var i := 0;
    while i < |frames|
      invariant 0 <= i <= |frames|
      invariant next' == if i == 0 then next else frames[0].frameNo + 1
      invariant data' == ApplyPages(data, frames[..i])
    {
      assert frames[..i + 1][..i] == frames[..i];
      next' := Max(next', frames[i].frameNo + 1);
      data' := data'[frames[i].pageNo := frames[i].data];
      i := i + 1;
    }
    assert frames[..i] == frames;
  }

  /** How a fork ends: with its data file, with an error, after which nothing is kept, or not
      within the given number of looks at the log. */
  datatype Outcome = Forked | Failed | Unfinished

  /** Forks the database, looking at the log at most `turns` times; `broken(t)` says that reading
      the log or a snapshot fails at time `t`.  Whatever the primary does meanwhile, the data file
      is the replay of all frames below `next`.  When the fork ends, that is a transaction
      boundary at or past the last frame announced when it began; it ends unless a snapshot never
      turns up or `turns` frames were not enough. */
  method TryFork(obs: nat -> State, find: (nat, nat) -> Option<(nat, Name)>, broken: nat -> bool, turns: nat)
    returns (r: Outcome, data: map<PageNo, Page>, next: nat, at: nat)
    requires IsObserved(obs) && IsFound(obs, find)
    ensures r.Failed? ==> broken(at)
    ensures !r.Failed? ==> IsReplayed(obs, at, next, data)
    ensures r.Forked? ==> obs(0).notified <= next && Boundary(obs(at).history, next)
    ensures r.Unfinished? ==> turns <= next || (next < obs(at).log.start && find(at, next).None?)
  {
    hide Base, ApplyPages, FramesIterFrom;
    var endFrameNo := obs(0).notified;
    data, next, at := map[], 0, 0;
    var left := turns;
    StartReplayed(obs);
    while next < endFrameNo
      invariant IsReplayed(obs, at, next, data)
      invariant Boundary(obs(at).history, next)
      invariant turns <= next + left || endFrameNo <= next
      decreases endFrameNo - next
    {
      ghost var segmentStart := next;
      var streaming := true;
      while streaming
        invariant IsReplayed(obs, at, next, data)
        invariant segmentStart <= next && (turns <= next + left || (!streaming && endFrameNo <= next))
        invariant !streaming ==> segmentStart < next && Boundary(obs(at).history, next)
        decreases left, streaming
      {
        if left == 0 {
          return Unfinished, data, next, at;
        }
        LaterReplayed(obs, at, at + 1, next, data);
        at, left := at + 1, left - 1;
        if broken(at) {
          return Failed, data, next, at;
        }
        match obs(at).log.Read(next) {
          case Found(frame) =>
            OneFrameReplayed(obs, at, next, data);
            next := Max(next, frame.frameNo + 1);
            data := data[frame.pageNo := frame.data];
          case SnapshotRequired =>
            if find(at, next).None? {
              return Unfinished, data, next, at;
            }
            var (u, name) := find(at, next).value;
            LaterReplayed(obs, at, u, next, data);
            at := u;
            if broken(at) {
              return Failed, data, next, at;
            }
            SnapshotReplayed(obs, at, next, data, name);
            next, data := WriteSnapshot(FramesIterFrom(obs(at).dir[name].frames, next), next, data);
            streaming := false;
          case Ahead =>
            WholeLogReplayed(obs, at, next, data);
            streaming := false;
        }
      }
    }
    r := Forked;
  }

  lemma StartReplayed(obs: nat -> State)
    ensures IsReplayed(obs, 0, 0, map[]) && Boundary(obs(0).history, 0)
  {
    assert obs(0).history[..0] == [];
  }
}
