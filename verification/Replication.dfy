/** The whole replication protocol: the primary with its threads, one frame stream, one
    replica, and one connection of the replica that writes through the primary
    (`sqld/src/replication/replica/replicator.rs`, `sqld/src/connection/write_proxy.rs`). */
module Replication {
  import opened Basics
  import opened Frames
  import opened Snapshot
  import opened LogFile
  import opened Primary
  import opened FrameStream
  import opened Replica
  import opened WriteProxy

  /** The replica's side of a stream: the frames taken from it so far and the ones not yet
      handed to the injector. */
  datatype Link = Link(stream: Stream, taken: nat, buffer: seq<Frame>)

  /** `lastWrite` is the frame number of the last write of the proxied connection, `None`
      standing for the largest `u64`; `answered` is what the primary announced with its last
      answer. */
  datatype System = System(
    primary: State,
    link: Option<Link>,
    injector: Injector,
    lastWrite: Option<nat>,
    answered: nat)

  datatype Action =
    | PrimaryAction(step: Step)
    | StreamAction(poll: StreamStep)
    | Connect
    | Disconnect
    | TakeFrame
    | LoadSnapshot(name: Name)
    | AnswerWrite

  ghost predicate InitSystem(y: System) {
    && Init(y.primary) && y.link == None && y.injector == FreshInjector()
    && y.lastWrite == None && y.answered == 0
  }

  ghost predicate Can(y: System, a: Action) {
    match a
    case PrimaryAction(step) => Enabled(y.primary, step)
    case StreamAction(poll) => y.link.Some? && CanStep(y.primary, y.link.value.stream, poll)
    case Connect => true
    case Disconnect => true
    case TakeFrame => y.link.Some? && y.link.value.taken < |y.link.value.stream.out|
    case LoadSnapshot(name) =>
      && y.link.Some? && y.link.value.stream.failed && y.link.value.taken == |y.link.value.stream.out|
      && name in y.primary.dir && name.start <= y.injector.NextOffset() <= name.end
    case AnswerWrite => true
  }

  /** Whether the frames collected so far are handed to the injector. */
  predicate Flushes(buffer: seq<Frame>)
    requires buffer != []
  {
    buffer[|buffer| - 1].sizeAfter != 0 || |buffer| > MAX_REPLICA_REPLICATION_BUFFER_LEN
  }

  /** Frames are handed over at the end of a transaction, and else when 2442 of them have come. */
  lemma FlushesWhen(buffer: seq<Frame>)
    requires buffer != []
    ensures Flushes(buffer) <==> buffer[|buffer| - 1].sizeAfter != 0 || |buffer| >= 2442
  {
    assert MAX_REPLICA_REPLICATION_BUFFER_LEN == 2441;
  }

  /** What the replica holds after a frame of the stream: the frames still buffered, and the
      injector. */
  function Receive(buffer: seq<Frame>, inj: Injector, frame: Frame): (seq<Frame>, Injector) {
    var buffer' := buffer + [frame];
    if Flushes(buffer') then ([], Inject(inj, buffer')) else (buffer', inj)
  }

  ghost function Take(y: System): System
    requires Can(y, TakeFrame)
  {
    var link := y.link.value;
    var (buffer, injector) := Receive(link.buffer, y.injector, link.stream.out[link.taken]);
    y.(link := Some(Link(link.stream, link.taken + 1, buffer)), injector := injector)
  }

  ghost function Act(y: System, a: Action): System
    requires Can(y, a)
  {
    match a
    case PrimaryAction(step) => y.(primary := Next(y.primary, step))
    case StreamAction(poll) =>
      y.(link := Some(y.link.value.(stream := StepStream(y.primary, y.link.value.stream, poll))))
    case Connect =>
      y.(link := Some(Link(OpenStream(y.primary, y.injector.NextOffset(), true, None), 0, [])))
    case Disconnect => y.(link := None)
    case TakeFrame => Take(y)
    case LoadSnapshot(name) =>
      y.(link := None,
         injector := Inject(y.injector, FramesIterFrom(y.primary.dir[name].frames, y.injector.NextOffset())))
    case AnswerWrite =>
      y.(lastWrite := UpdateLastWrite(y.lastWrite, y.primary.notified), answered := y.primary.notified)
  }

  // ---------------------------------------------------------------- the replica's loop

  /** What arrives on the replica's connection: a frame, bytes that are none, the demand to load
      a snapshot, or another error. */
  datatype Message = FrameMessage(frame: Frame) | Undecodable | NeedSnapshot | Failure

  /** The replica after a connection, and whether the connection ended without an error.
      `snapshot` gives the frames that the primary sends for a requested offset, or nothing if
      that request fails.  A snapshot replaces the frames in the buffer. */
  function Replicated(buffer: seq<Frame>, inj: Injector, messages: seq<Message>,
                      snapshot: nat -> Option<seq<Frame>>): (Injector, bool)
    decreases |messages|
  {
    if messages == [] then (inj, true)
    else
      match messages[0]
      case FrameMessage(frame) =>
        var (buffer', inj') := Receive(buffer, inj, frame);
        Replicated(buffer', inj', messages[1..], snapshot)
      case NeedSnapshot =>
        var frames := snapshot(inj.NextOffset());
        if frames.None? then (inj, false)
        else Replicated([], Inject(inj, frames.value), messages[1..], snapshot)
      case _ => (inj, false)
  }

  /** `replicate`: true when the stream ended, false when something failed. */
  method Replicate(ctx: InjectorHookCtx, messages: seq<Message>, snapshot: nat -> Option<seq<Frame>>)
    returns (ok: bool)
    modifies ctx
    ensures (ctx.View(), ok) == Replicated([], old(ctx.View()), messages, snapshot)
    ensures ok ==> Failure !in messages && Undecodable !in messages
    ensures !ok ==> Failure in messages || Undecodable in messages || snapshot(ctx.NextOffset()).None?
  {
    hide Inject;
    var buffer: seq<Frame> := [];
    var i := 0;
    assert messages[0..] == messages;
    while i < |messages|
      invariant 0 <= i <= |messages| && Failure !in messages[..i] && Undecodable !in messages[..i]
      invariant Replicated([], old(ctx.View()), messages, snapshot)
             == Replicated(buffer, ctx.View(), messages[i..], snapshot)
    {
      assert messages[i..][1..] == messages[i + 1..];
      assert messages[..i + 1] == messages[..i] + [messages[i]];
      match messages[i] {
        case FrameMessage(frame) =>
          buffer := buffer + [frame];
          if frame.sizeAfter != 0 || |buffer| > MAX_REPLICA_REPLICATION_BUFFER_LEN {
            var _ := ctx.InjectPages(buffer, true);
            buffer := [];
          }
        case NeedSnapshot =>
          buffer := [];
          var frames := snapshot(ctx.NextOffset());
          if frames.None? {
            return false;
          }
          var _ := ctx.InjectPages(frames.value, true);
        case _ =>
          assert messages[i] in messages;
          return false;
      }
      i := i + 1;
    }
    assert messages[..i] == messages;
    return true;
  }

  /** The loop takes the frames of a stream one by one, as the steps of the system do. */
  lemma {:induction false} LoopTakesFrames(y: System, n: nat, rest: seq<Message>, snapshot: nat -> Option<seq<Frame>>)
    requires y.link.Some? && y.link.value.taken + n <= |y.link.value.stream.out|
    ensures var actions := seq(n, _ => TakeFrame);
      && IsSystemRun(y, actions)
      && var y' := AfterActions(y, actions);
      && y'.primary == y.primary && y'.link.Some?
      && y'.link.value.stream == y.link.value.stream && y'.link.value.taken == y.link.value.taken + n
      && Replicated(y.link.value.buffer, y.injector, FramesAhead(y.link.value, n) + rest, snapshot)
         == Replicated(y'.link.value.buffer, y'.injector, rest, snapshot)
    decreases n
  {
    hide Receive;
    var actions := seq(n, _ => TakeFrame);
    var messages := FramesAhead(y.link.value, n);
    if n == 0 {
      assert messages + rest == rest;
    } else {
      assert Can(y, TakeFrame);
      var y1 := Act(y, TakeFrame);
      LoopTakesFrames(y1, n - 1, rest, snapshot);
      assert actions[1..] == seq(n - 1, _ => TakeFrame);
      assert (messages + rest)[1..] == FramesAhead(y1.link.value, n - 1) + rest;
    }
  }

  /** The messages of the next `n` frames of a stream. */
  function FramesAhead(link: Link, n: nat): seq<Message>
    requires link.taken + n <= |link.stream.out|
  {
    seq(n, i requires 0 <= i < n => FrameMessage(link.stream.out[link.taken + i]))
  }

  /** A demand for a snapshot leaves the replica as taking the remaining frames and then loading
      the snapshot do; whatever follows meets an empty buffer. */
  lemma LoopLoadsSnapshot(y: System, n: nat, name: Name, rest: seq<Message>, snapshot: nat -> Option<seq<Frame>>)
    requires y.link.Some? && y.link.value.stream.failed
    requires y.link.value.taken + n == |y.link.value.stream.out|
    requires name in y.primary.dir
    requires forall k: nat {:trigger snapshot(k)} :: name.start <= k <= name.end ==>
      snapshot(k) == Some(FramesIterFrom(y.primary.dir[name].frames, k))
    ensures var takes := seq(n, _ => TakeFrame);
      && IsSystemRun(y, takes)
      && var offset := AfterActions(y, takes).injector.NextOffset();
      name.start <= offset <= name.end ==>
        && IsSystemRun(y, takes + [LoadSnapshot(name)])
        && Replicated(y.link.value.buffer, y.injector, FramesAhead(y.link.value, n) + ([NeedSnapshot] + rest), snapshot)
           == Replicated([], AfterActions(y, takes + [LoadSnapshot(name)]).injector, rest, snapshot)
  {
    hide Receive, Inject, FramesIterFrom;
    var takes := seq(n, _ => TakeFrame);
    LoopTakesFrames(y, n, [NeedSnapshot] + rest, snapshot);
    var y1 := AfterActions(y, takes);
    if name.start <= y1.injector.NextOffset() <= name.end {
      var y2 := Act(y1, LoadSnapshot(name));
      hide IsSystemRun, AfterActions, Can, Act;
      ActNone(y2);
      ActFirst(y1, LoadSnapshot(name), []);
      ActJoin(y, takes, [LoadSnapshot(name)] + []);
      assert [LoadSnapshot(name)] + [] == [LoadSnapshot(name)];
      assert ([NeedSnapshot] + rest)[1..] == rest;
      assert Can(y1, LoadSnapshot(name));
    }
  }

  ghost predicate IsSystemRun(y: System, actions: seq<Action>)
    decreases |actions|
  {
    actions == [] || (Can(y, actions[0]) && IsSystemRun(Act(y, actions[0]), actions[1..]))
  }

  ghost function AfterActions(y: System, actions: seq<Action>): System
    requires IsSystemRun(y, actions)
    decreases |actions|
  {
    if actions == [] then y else AfterActions(Act(y, actions[0]), actions[1..])
  }

  // ---------------------------------------------------------------- the invariant

  /** The first frame that has not been injected on this connection. */
  ghost function Position(y: System): int {
    if y.link.None? then y.injector.NextOffset()
    else y.link.value.stream.offset + y.link.value.taken - |y.link.value.buffer|
  }

  ghost predicate LinkInv(p: State, link: Link) {
    && StreamInv(p, link.stream)
    && |link.buffer| <= link.taken <= |link.stream.out|
    && link.buffer == link.stream.out[link.taken - |link.buffer|..link.taken]
    && (forall i :: 0 <= i < |link.buffer| ==> link.buffer[i].sizeAfter == 0)
    && |link.buffer| <= 2441
  }

  ghost predicate SystemInv(y: System) {
    && Base(y.primary)
    && (y.link.Some? ==> LinkInv(y.primary, y.link.value))
    && Position(y) >= 0
    && InjectorInv(y.primary.history, y.injector, Position(y))
    && (y.lastWrite.Some? ==> y.answered <= y.lastWrite.value <= |y.primary.history|)
  }

  lemma InitHolds(y: System)
    requires InitSystem(y)
    ensures SystemInv(y)
  {
    InitInv(y.primary);
    var h := y.primary.history;
    assert h[..0] == [];
    AgreesExactly(h, 0, map[]);
    assert Agrees(h, 0, 0, y.injector.Working()) && NoCommit(h, 0, 0);
  }

  lemma OpenSince(h: seq<Frame>, inj: Injector, lo: nat)
    requires InjectorInv(h, inj, lo)
    ensures NoCommit(h, inj.NextOffset(), lo)
  {
    var hi: nat :| Agrees(h, lo, hi, inj.Working()) && NoCommit(h, inj.NextOffset(), hi);
  }

  lemma LinkKept(p: State, step: Step, link: Link)
    requires LogInv(p) && Enabled(p, step) && LinkInv(p, link)
    ensures LinkInv(Next(p, step), link)
  {
    hide LogInv, Enabled, Next, StreamInv;
    PrimaryKeepsStream(p, step, link.stream);
  }

  lemma PrimaryActs(y: System, step: Step)
    requires SystemInv(y) && Enabled(y.primary, step)
    ensures SystemInv(Act(y, PrimaryAction(step)))
  {
    hide Ordered, DirInv, LogInv, Enabled, Next, InjectorInv, LinkInv;
    var p' := Next(y.primary, step);
    BasePreserved(y.primary, step);
    HistoryGrows(y.primary, step);
    if y.link.Some? {
      LinkKept(y.primary, step, y.link.value);
    }
    InjectorGrows(y.primary.history, p'.history, y.injector, Position(y));
  }

  lemma LinkSteps(p: State, link: Link, poll: StreamStep)
    requires LogInv(p) && LinkInv(p, link) && CanStep(p, link.stream, poll)
    ensures LinkInv(p, link.(stream := StepStream(p, link.stream, poll)))
    ensures StepStream(p, link.stream, poll).offset == link.stream.offset
  {
    hide LogInv, StreamInv;
    StreamPreserves(p, link.stream, poll);
    OutGrows(p, link.stream, poll);
    hide StepStream;
    var out, out' := link.stream.out, StepStream(p, link.stream, poll).out;
    assert out[link.taken - |link.buffer|..link.taken] == out'[link.taken - |link.buffer|..link.taken];
  }

  lemma StreamActs(y: System, poll: StreamStep)
    requires SystemInv(y) && Can(y, StreamAction(poll))
    ensures SystemInv(Act(y, StreamAction(poll)))
  {
    hide Ordered, DirInv, LogInv, InjectorInv, LinkInv, StepStream;
    LinkSteps(y.primary, y.link.value, poll);
  }

  lemma OutGrows(p: State, st: Stream, poll: StreamStep)
    requires CanStep(p, st, poll)
    ensures st.out <= StepStream(p, st, poll).out
    ensures StepStream(p, st, poll).offset == st.offset
  {
  }

  lemma ConnectActs(y: System, a: Action)
    requires SystemInv(y) && (a.Connect? || a.Disconnect?)
    ensures SystemInv(Act(y, a))
  {
    hide Ordered, DirInv, LogInv, InjectorInv, LinkInv;
    InjectorBack(y.primary.history, y.injector, Position(y));
    if a.Connect? {
      FreshLink(y.primary, y.injector.NextOffset());
    }
  }

  lemma FreshLink(p: State, offset: nat)
    requires LogInv(p)
    ensures LinkInv(p, Link(OpenStream(p, offset, true, None), 0, []))
  {
    hide LogInv, StreamInv;
    OpenInv(p, offset, true, None);
  }

  /** The frame just taken extends the buffer to a range of the history. */
  lemma BufferIsRange(p: State, link: Link)
    requires LinkInv(p, link) && link.taken < |link.stream.out|
    ensures var lo := link.stream.offset + link.taken - |link.buffer|;
      var b := link.stream.offset + link.taken + 1;
      && b <= |p.history|
      && link.buffer + [link.stream.out[link.taken]] == p.history[lo..b]
      && (forall i :: lo <= i < b - 1 ==> p.history[i].sizeAfter == 0)
  {
    var h, out, offset := p.history, link.stream.out, link.stream.offset;
    var n := link.taken - |link.buffer|;
    SliceMore(out, n, link.taken);
    SliceOfSlice(h, offset, offset + |out|, n, link.taken + 1);
    forall i | offset + n <= i < offset + link.taken
      ensures h[i].sizeAfter == 0
    {
      assert h[i] == out[i - offset] == link.buffer[i - offset - n];
    }
  }

  lemma SliceMore(out: seq<Frame>, n: nat, m: nat)
    requires n <= m < |out|
    ensures out[n..m] + [out[m]] == out[n..m + 1]
  {
  }

  lemma SliceOfSlice(h: seq<Frame>, a: nat, b: nat, i: nat, j: nat)
    requires a <= b <= |h| && i <= j <= b - a
    ensures h[a..b][i..j] == h[a + i..a + j]
  {
    var x, y := h[a..b][i..j], h[a + i..a + j];
    assert |x| == |y|;
    forall m | 0 <= m < |x|
      ensures x[m] == y[m]
    {
      assert x[m] == h[a..b][i + m] == h[a + i + m];
    }
  }

  /** Handing a batch of streamed frames to the injector. */
  lemma FlushInjects(h: seq<Frame>, inj: Injector, lo: nat, b: nat)
    requires IsHistory(h) && InjectorInv(h, inj, lo) && lo < b <= |h|
    requires forall i :: lo <= i < b - 1 ==> h[i].sizeAfter == 0
    ensures InjectorInv(h, Inject(inj, h[lo..b]), b)
    ensures inj.NextOffset() <= Inject(inj, h[lo..b]).NextOffset()
  {
    OpenSince(h, inj, lo);
    assert inj.NextOffset() <= lo;
    hide InjectorInv, Inject;
    if h[b - 1].sizeAfter == 0 {
      assert NoCommit(h, inj.NextOffset(), b);
    }
    InjectRange(h, inj, lo, b);
  }

  lemma TakenLink(p: State, link: Link, keep: bool)
    requires LinkInv(p, link) && link.taken < |link.stream.out|
    requires keep ==> link.stream.out[link.taken].sizeAfter == 0 && |link.buffer| < 2441
    ensures LinkInv(p, Link(link.stream, link.taken + 1,
                            if keep then link.buffer + [link.stream.out[link.taken]] else []))
  {
    hide StreamInv;
    var n := link.taken - |link.buffer|;
    assert link.buffer + [link.stream.out[link.taken]] == link.stream.out[n..link.taken + 1];
  }

  lemma TakeActs(y: System)
    requires SystemInv(y) && Can(y, TakeFrame)
    ensures SystemInv(Act(y, TakeFrame))
    ensures y.injector.NextOffset() <= Act(y, TakeFrame).injector.NextOffset()
  {
    hide Base, InjectorInv, LinkInv, Inject;
    var link := y.link.value;
    var buffer := link.buffer + [link.stream.out[link.taken]];
    FlushesWhen(buffer);
    TakenLink(y.primary, link, !Flushes(buffer));
    if Flushes(buffer) {
      TakeInjects(y);
    }
  }

  lemma TakeInjects(y: System)
    requires SystemInv(y) && Can(y, TakeFrame)
    ensures var buffer := y.link.value.buffer + [y.link.value.stream.out[y.link.value.taken]];
      && InjectorInv(y.primary.history, Inject(y.injector, buffer), Position(y) + |buffer|)
      && y.injector.NextOffset() <= Inject(y.injector, buffer).NextOffset()
  {
    hide Base, InjectorInv, LinkInv, Inject;
    var link := y.link.value;
    var lo := Position(y);
    BufferIsRange(y.primary, link);
    BaseHistory(y.primary);
    FlushInjects(y.primary.history, y.injector, lo, lo + |link.buffer| + 1);
  }

  /** Handing a snapshot, read from the next frame on, to the injector. */
  lemma LoadInjects(h: seq<Frame>, inj: Injector, lo: nat, f: SnapshotFile)
    requires IsHistory(h) && InjectorInv(h, inj, lo)
    requires Faithful(f, h) && Boundary(h, f.name.end + 1) && f.name.start <= inj.NextOffset() <= f.name.end
    ensures var inj' := Inject(inj, FramesIterFrom(f.frames, inj.NextOffset()));
      InjectorInv(h, inj', inj'.NextOffset()) && inj.NextOffset() <= inj'.NextOffset()
  {
    var k, t := inj.NextOffset(), f.name.end + 1;
    assert IsSnapshot(f.frames, h, f.name.start, t) && h[t - 1].sizeAfter != 0;
    hide InjectorInv, Inject, IsSnapshot, Faithful;
    InjectorBack(h, inj, lo);
    SnapshotInjectsRange(h, inj, f.frames, f.name.start, t, k);
    InjectRange(h, inj, k, t);
    InjectorBack(h, Inject(inj, h[k..t]), t);
  }

  lemma LoadActs(y: System, name: Name)
    requires SystemInv(y) && Can(y, LoadSnapshot(name))
    ensures SystemInv(Act(y, LoadSnapshot(name)))
    ensures y.injector.NextOffset() <= Act(y, LoadSnapshot(name)).injector.NextOffset()
  {
    hide Base, InjectorInv, Faithful, Inject, LinkInv, FramesIterFrom;
    BaseHistory(y.primary);
    BaseFile(y.primary, name);
    LoadInjects(y.primary.history, y.injector, Position(y), y.primary.dir[name]);
  }

  lemma ActionPreserves(y: System, a: Action)
    requires SystemInv(y) && Can(y, a)
    ensures SystemInv(Act(y, a))
    ensures y.injector.NextOffset() <= Act(y, a).injector.NextOffset()
    ensures y.lastWrite.Some? ==> Act(y, a).lastWrite.Some? && y.lastWrite.value <= Act(y, a).lastWrite.value
  {
    hide Base, LinkInv, InjectorInv;
    match a
    case PrimaryAction(step) => PrimaryActs(y, step);
    case StreamAction(poll) => StreamActs(y, poll);
    case Connect => ConnectActs(y, a);
    case Disconnect => ConnectActs(y, a);
    case TakeFrame => TakeActs(y);
    case LoadSnapshot(name) => LoadActs(y, name);
    case AnswerWrite => NotifiedIsCommitted(y.primary);
  }

  lemma NotifiedIsCommitted(p: State)
    requires Base(p)
    ensures p.notified <= |p.history| <= U64_MAX
  {
    hide Ordered, DirInv, IsHistory;
  }

  /** In every run, at most 2441 frames of a transaction that has not ended wait in the buffer. */
  lemma BufferIsBounded(y: System, actions: seq<Action>)
    requires InitSystem(y) && IsSystemRun(y, actions) && AfterActions(y, actions).link.Some?
    ensures var buffer := AfterActions(y, actions).link.value.buffer;
      |buffer| <= 2441 && forall i :: 0 <= i < |buffer| ==> buffer[i].sizeAfter == 0
  {
    InitHolds(y);
    hide Base, InjectorInv, StreamInv;
    ActionsPreserve(y, actions);
  }

  lemma {:induction false} ActionsPreserve(y: System, actions: seq<Action>)
    requires SystemInv(y) && IsSystemRun(y, actions)
    ensures SystemInv(AfterActions(y, actions))
    ensures y.injector.NextOffset() <= AfterActions(y, actions).injector.NextOffset()
    ensures y.lastWrite.Some? ==>
      && AfterActions(y, actions).lastWrite.Some?
      && y.lastWrite.value <= AfterActions(y, actions).lastWrite.value
    decreases |actions|
  {
    hide SystemInv, Can, Act;
    if actions != [] {
      ActionPreserves(y, actions[0]);
      ActionsPreserve(Act(y, actions[0]), actions[1..]);
    }
  }

  // ---------------------------------------------------------------- main theorems

  /** In every run of the protocol, with any interleaving of commits, rollbacks, compactions,
      merges, batches, partial batches, dropped streams, reconnections and snapshot loads: the
      last frame given to `post_commit` ends a transaction, and the replica's committed
      database is the primary's history replayed frame by frame up to it. */
  lemma ReplicaFollowsPrimary(y: System, actions: seq<Action>)
    requires InitSystem(y) && IsSystemRun(y, actions)
    ensures var y' := AfterActions(y, actions);
      match y'.injector.applied
      case None => y'.injector.db == EmptyDb
      case Some(f) =>
        && f < |y'.primary.history| && y'.primary.history[f].sizeAfter != 0
        && y'.injector.db == Replay(y'.primary.history[..f + 1])
  {
    InitHolds(y);
    ActionsPreserve(y, actions);
    var y' := AfterActions(y, actions);
    hide Base, LinkInv, InjectorInv;
    AppliedMeans(y'.primary.history, y'.injector, Position(y'));
  }

  lemma AppliedMeans(h: seq<Frame>, inj: Injector, lo: nat)
    requires InjectorInv(h, inj, lo)
    ensures inj.NextOffset() <= |h| && inj.db == Replay(h[..inj.NextOffset()])
    ensures inj.applied == None ==> inj.db == EmptyDb
    ensures inj.applied.Some? ==> h[inj.applied.value].sizeAfter != 0
  {
    assert h[..0] == [];
  }

  /** Reads on a replica are monotone: between any two points of a run the committed database
      only moves forward in the primary's history. */
  lemma ReplicaNeverGoesBack(y: System, before: seq<Action>, after: seq<Action>)
    requires InitSystem(y) && IsSystemRun(y, before) && IsSystemRun(AfterActions(y, before), after)
    ensures AfterActions(y, before).injector.NextOffset()
         <= AfterActions(AfterActions(y, before), after).injector.NextOffset()
  {
    InitHolds(y);
    hide SystemInv;
    ActionsPreserve(y, before);
    ActionsPreserve(AfterActions(y, before), after);
  }

  /** When a replica has been given the whole history of the primary, it has applied all of it
      unless that is frame 0 alone. */
  lemma ReplicaCatchesUp(y: System, actions: seq<Action>)
    requires InitSystem(y) && IsSystemRun(y, actions)
    requires var y' := AfterActions(y, actions);
      y'.primary.history != [] && Position(y') == |y'.primary.history|
    ensures var y' := AfterActions(y, actions);
      && (y'.injector.applied == Some(|y'.primary.history| - 1) <==> |y'.primary.history| > 1)
      && (|y'.primary.history| > 1 ==> y'.injector.db == Replay(y'.primary.history))
  {
    InitHolds(y);
    ActionsPreserve(y, actions);
    var y' := AfterActions(y, actions);
    BaseHistory(y'.primary);
    HistoryEnds(y'.primary);
    hide Base, LinkInv, InjectorInv;
    WholeHistoryApplied(y'.primary.history, y'.injector);
  }

  lemma HistoryEnds(p: State)
    requires Base(p)
    ensures p.history != [] ==> p.history[|p.history| - 1].sizeAfter != 0
  {
    hide Ordered, DirInv;
  }

  // ---------------------------------------------------------------- reading one's own writes

  /** `wait_replication_sync` lets the reader go: the watch starts at the largest `u64` and
      then carries the last applied frame number. */
  ghost predicate WaitReturns(y: System) {
    y.lastWrite == None || y.injector.applied == None || y.injector.applied.value >= y.lastWrite.value
  }

  /** A connection that is let go sees every frame the primary had announced when it answered
      this connection's last write if and only if the replica has applied a batch since it
      started, or nothing was announced; and what it sees is a state of the primary. */
  lemma ReadsOwnWrites(y: System, actions: seq<Action>)
    requires InitSystem(y) && IsSystemRun(y, actions)
    requires WaitReturns(AfterActions(y, actions))
    requires AfterActions(y, actions).lastWrite.Some?
    ensures var y' := AfterActions(y, actions);
      && (y'.answered <= y'.injector.NextOffset() <==> y'.injector.applied.Some? || y'.answered == 0)
      && y'.injector.NextOffset() <= |y'.primary.history|
      && y'.injector.db == Replay(y'.primary.history[..y'.injector.NextOffset()])
  {
    InitHolds(y);
    ActionsPreserve(y, actions);
    var y' := AfterActions(y, actions);
    hide Base, LinkInv, InjectorInv;
    AppliedMeans(y'.primary.history, y'.injector, Position(y'));
  }

  /** The frames that the reader waits for have been applied, and yet it is let go if and only if
      a later one has been applied too: the announced number is one past the last frame. */
  lemma WaitsForOneMoreFrame(y: System, actions: seq<Action>)
    requires InitSystem(y) && IsSystemRun(y, actions)
    requires var y' := AfterActions(y, actions);
      y'.lastWrite.Some? && y'.injector.applied.Some? && y'.lastWrite.value <= y'.injector.NextOffset()
    ensures var y' := AfterActions(y, actions);
      && y'.injector.NextOffset() <= |y'.primary.history|
      && (WaitReturns(y') <==> y'.injector.NextOffset() != y'.lastWrite.value)
  {
    InitHolds(y);
    ActionsPreserve(y, actions);
    var y' := AfterActions(y, actions);
    hide Base, LinkInv, InjectorInv;
    AppliedMeans(y'.primary.history, y'.injector, Position(y'));
  }

  ghost predicate CommitsNothing(actions: seq<Action>) {
    forall i :: 0 <= i < |actions| ==> actions[i] != PrimaryAction(CommitLog)
  }

  lemma {:induction false} HistoryStays(y: System, actions: seq<Action>)
    requires IsSystemRun(y, actions) && CommitsNothing(actions)
    ensures AfterActions(y, actions).primary.history == y.primary.history
    decreases |actions|
  {
    if actions != [] {
      assert actions[0] != PrimaryAction(CommitLog);
      HistoryKept(y, actions[0]);
      hide Can, Act;
      HistoryStays(Act(y, actions[0]), actions[1..]);
    }
  }

  lemma HistoryKept(y: System, a: Action)
    requires Can(y, a) && a != PrimaryAction(CommitLog)
    ensures Act(y, a).primary.history == y.primary.history
  {
    hide Inject, StepStream, FileOf, MergedFile;
  }

  /** A reader that waits for everything committed is not let go before something else is. */
  lemma WaitsUntilNextCommit(y: System, before: seq<Action>, after: seq<Action>)
    requires InitSystem(y) && IsSystemRun(y, before) && IsSystemRun(AfterActions(y, before), after)
    requires CommitsNothing(after)
    requires var y1 := AfterActions(y, before);
      y1.injector.applied.Some? && y1.lastWrite == Some(|y1.primary.history|)
    ensures !WaitReturns(AfterActions(AfterActions(y, before), after))
  {
    InitHolds(y);
    hide SystemInv;
    ActionsPreserve(y, before);
    var y1 := AfterActions(y, before);
    ActionsPreserve(y1, after);
    HistoryStays(y1, after);
    StillBehind(AfterActions(y1, after));
  }

  lemma StillBehind(y: System)
    requires SystemInv(y)
    ensures y.injector.NextOffset() <= |y.primary.history|
  {
    hide Base, LinkInv, InjectorInv;
    AppliedMeans(y.primary.history, y.injector, Position(y));
  }

  // ---------------------------------------------------------------- two runs

  lemma ActNone(y: System)
    ensures IsSystemRun(y, []) && AfterActions(y, []) == y
  {
  }

  lemma ActFirst(y: System, a: Action, rest: seq<Action>)
    requires Can(y, a) && IsSystemRun(Act(y, a), rest)
    ensures IsSystemRun(y, [a] + rest) && AfterActions(y, [a] + rest) == AfterActions(Act(y, a), rest)
  {
    hide Can, Act;
    assert ([a] + rest)[1..] == rest;
  }

  lemma {:induction false} ActJoin(y: System, a: seq<Action>, b: seq<Action>)
    requires IsSystemRun(y, a) && IsSystemRun(AfterActions(y, a), b)
    ensures IsSystemRun(y, a + b) && AfterActions(y, a + b) == AfterActions(AfterActions(y, a), b)
    decreases |a|
  {
    hide Can, Act;
    if a == [] {
      assert a + b == b;
    } else {
      ActJoin(Act(y, a[0]), a[1..], b);
      ActFirst(y, a[0], a[1..] + b);
      assert a + b == [a[0]] + (a[1..] + b);
    }
  }

  /** A run of the primary is a run of the system. */
  lemma {:induction false} PrimaryRun(y: System, steps: seq<Step>) returns (actions: seq<Action>)
    requires IsRun(y.primary, steps)
    ensures IsSystemRun(y, actions) && AfterActions(y, actions) == y.(primary := After(y.primary, steps))
    decreases |steps|
  {
    hide Enabled, Next;
    if steps == [] {
      actions := [];
      ActNone(y);
    } else {
      var y1 := y.(primary := Next(y.primary, steps[0]));
      actions := PrimaryRun(y1, steps[1..]);
      assert Can(y, PrimaryAction(steps[0])) && Act(y, PrimaryAction(steps[0])) == y1;
      ActFirst(y, PrimaryAction(steps[0]), actions);
      actions := [PrimaryAction(steps[0])] + actions;
    }
  }

  /** The primary has written two transactions and answered the connection that sent them. */
  ghost predicate Answered(y: System) {
    && y.primary.history == GROW_AND_SHRINK && y.primary.log == LogView(0, GROW_AND_SHRINK, [])
    && y.primary.notified == 3 && y.lastWrite == Some(3) && y.answered == 3
    && y.injector == FreshInjector() && y.link == None
  }

  lemma WriteAndAnswer() returns (y: System, actions: seq<Action>)
    ensures InitSystem(y) && y.primary.history == [] && IsSystemRun(y, actions)
    ensures Answered(AfterActions(y, actions))
  {
    hide IsRun, After, Next, Enabled, IsSystemRun, AfterActions;
    var p := State([], LogView(0, [], []), 0, 0, Waiting, map[], [], [], Idle);
    y := System(p, None, FreshInjector(), None, 0);
    var steps := GrowAndShrink(p);
    actions := PrimaryRun(y, steps);
    var y1 := AfterActions(y, actions);
    var more := NotifyAndAnswer(y1);
    ActJoin(y, actions, more);
    actions := actions + more;
  }

  lemma NotifyAndAnswer(y: System) returns (actions: seq<Action>)
    requires y.primary.history == GROW_AND_SHRINK && y.primary.log == LogView(0, GROW_AND_SHRINK, [])
    requires y.primary.notified == 0 && y.lastWrite == None && y.link == None && y.injector == FreshInjector()
    ensures IsSystemRun(y, actions) && Answered(AfterActions(y, actions))
  {
    hide IsSystemRun, AfterActions;
    var y1 := Act(y, PrimaryAction(Notify));
    var y2 := Act(y1, AnswerWrite);
    ActNone(y2);
    ActFirst(y1, AnswerWrite, []);
    ActFirst(y, PrimaryAction(Notify), [AnswerWrite] + []);
    actions := [PrimaryAction(Notify)] + ([AnswerWrite] + []);
  }

  /** A first read that misses its own write: the primary writes two transactions and answers, and
      the replica, which has applied nothing, lets the reader go at once. */
  lemma FirstReadMayMissWrites() returns (y: System, actions: seq<Action>)
    ensures InitSystem(y) && y.primary.history == [] && IsSystemRun(y, actions)
    ensures var y' := AfterActions(y, actions);
      && WaitReturns(y') && y'.lastWrite.Some?
      && y'.answered > y'.injector.NextOffset()
      && y'.injector.db != Replay(y'.primary.history)
  {
    hide IsSystemRun, AfterActions;
    y, actions := WriteAndAnswer();
    assert Replay(GROW_AND_SHRINK).size == 1 && EmptyDb.size == 0;
  }

  /** A stream that is about to read the next frame of the log, all earlier ones being taken. */
  ghost predicate AtNextFrame(y: System) {
    && y.link.Some?
    && var st := y.link.value.stream;
    && st.phase == WaitingFrame(None) && st.maxFrames == None
    && y.link.value.taken == |st.out| && y.primary.log.start <= st.current < y.primary.log.CommittedEnd()
  }

  /** The next frame is read, handed out and taken. */
  lemma DeliverOne(y: System) returns (actions: seq<Action>)
    requires AtNextFrame(y)
    ensures IsSystemRun(y, actions)
    ensures var y', link := AfterActions(y, actions), y.link.value;
      var frame := y.primary.log.committed[link.stream.current - y.primary.log.start];
      && y'.primary == y.primary && y'.lastWrite == y.lastWrite && y'.link.Some?
      && (y'.link.value.buffer, y'.injector) == Receive(link.buffer, y.injector, frame)
      && y'.link.value.stream.current == link.stream.current + 1
      && (link.stream.current + 1 < y.primary.log.CommittedEnd() ==> AtNextFrame(y'))
  {
    hide IsSystemRun, AfterActions, Receive;
    var y1 := Act(y, StreamAction(ReadFrame));
    var y2 := Act(y1, StreamAction(PollFrame));
    var y3 := Act(y2, TakeFrame);
    hide Act, Can;
    ActNone(y3);
    ActFirst(y2, TakeFrame, []);
    actions := [TakeFrame] + [];
    ActFirst(y1, StreamAction(PollFrame), actions);
    actions := [StreamAction(PollFrame)] + actions;
    ActFirst(y, StreamAction(ReadFrame), actions);
    actions := [StreamAction(ReadFrame)] + actions;
  }

  lemma OpenAndStart(y: System) returns (actions: seq<Action>)
    requires y.primary.log.start == 0 && y.primary.log.committed != [] && y.injector.applied == None
    ensures IsSystemRun(y, actions)
    ensures var y' := AfterActions(y, actions);
      && AtNextFrame(y') && y'.link.value.stream.current == 0 && y'.link.value.buffer == []
      && y'.primary == y.primary && y'.lastWrite == y.lastWrite && y'.injector == y.injector
  {
    hide IsSystemRun, AfterActions;
    var y1 := Act(y, Connect);
    var y2 := Act(y1, StreamAction(PollStart));
    ActNone(y2);
    ActFirst(y1, StreamAction(PollStart), []);
    ActFirst(y, Connect, [StreamAction(PollStart)] + []);
    actions := [Connect] + ([StreamAction(PollStart)] + []);
  }

  /** What the replica holds after several frames. */
  function ReceiveAll(inj: Injector, frames: seq<Frame>): (seq<Frame>, Injector) {
    if frames == [] then ([], inj)
    else
      var (buffer, inj') := ReceiveAll(inj, frames[..|frames| - 1]);
      Receive(buffer, inj', frames[|frames| - 1])
  }

  /** A replica that has applied nothing connects and takes the first `n` frames of the log. */
  lemma {:induction false} DeliverFirst(y: System, n: nat) returns (actions: seq<Action>)
    requires y.primary.log.start == 0 && n <= |y.primary.log.committed| != 0 && y.injector.applied == None
    ensures IsSystemRun(y, actions)
    ensures var y' := AfterActions(y, actions);
      && y'.primary == y.primary && y'.lastWrite == y.lastWrite && y'.link.Some?
      && (y'.link.value.buffer, y'.injector) == ReceiveAll(y.injector, y.primary.log.committed[..n])
      && y'.link.value.stream.current == n
      && (n < |y.primary.log.committed| ==> AtNextFrame(y'))
    decreases n
  {
    hide IsSystemRun, AfterActions, Receive;
    if n == 0 {
      actions := OpenAndStart(y);
    } else {
      actions := DeliverFirst(y, n - 1);
      var more := DeliverOne(AfterActions(y, actions));
      ActJoin(y, actions, more);
      actions := actions + more;
      assert y.primary.log.committed[..n][..n - 1] == y.primary.log.committed[..n - 1];
    }
  }

  /** What the replica makes of the two transactions, and of the first of them. */
  lemma ThreeFrames(inj: Injector)
    ensures ReceiveAll(inj, GROW_AND_SHRINK[..2]).1.applied == Some(1)
    ensures ReceiveAll(inj, GROW_AND_SHRINK[..3]).1.applied == Some(2)
  {
    hide ApplyPages;
    var h := GROW_AND_SHRINK;
    assert h[..1][..0] == [] && h[..2][..1] == h[..1] && h[..3][..2] == h[..2];
    assert [] + [h[0]] == [h[0]] && [h[0]] + [h[1]] == [h[0], h[1]] && [] + [h[2]] == [h[2]];
    assert [h[0], h[1]][..1] == [h[0]] && [h[0]][..0] == [] && [h[2]][..0] == [];
    assert HeaderOf([h[0]]) == (0, 0);
    assert HeaderOf([h[0], h[1]]) == (1, 2);
    assert HeaderOf([h[2]]) == (2, 1);
    assert ReceiveAll(inj, h[..1]) == ([h[0]], inj);
    assert ReceiveAll(inj, h[..2]).0 == [];
  }

  /** A replica applies both transactions. */
  lemma ApplyBoth() returns (y: System, actions: seq<Action>)
    ensures InitSystem(y) && y.primary.history == [] && IsSystemRun(y, actions)
    ensures var y' := AfterActions(y, actions);
      && y'.primary.history == GROW_AND_SHRINK && y'.primary.log == LogView(0, GROW_AND_SHRINK, [])
      && y'.injector.applied == Some(2) && y'.lastWrite == Some(3)
  {
    hide IsSystemRun, AfterActions, ReceiveAll;
    y, actions := WriteAndAnswer();
    var y0 := AfterActions(y, actions);
    ThreeFrames(y0.injector);
    var more := DeliverFirst(y0, 3);
    ActJoin(y, actions, more);
    actions := actions + more;
  }

  /** A reader that waits for nothing: its frames are all applied, and it is let go only after
      somebody commits something else. */
  lemma ReaderMayWaitInVain() returns (y: System, actions: seq<Action>)
    ensures InitSystem(y) && y.primary.history == [] && IsSystemRun(y, actions)
    ensures var y' := AfterActions(y, actions);
      && y'.injector.applied == Some(2) && |y'.primary.history| == 3 && y'.lastWrite == Some(3)
      && forall more :: IsSystemRun(y', more) && CommitsNothing(more) ==> !WaitReturns(AfterActions(y', more))
  {
    hide IsSystemRun, AfterActions, CommitsNothing, WaitReturns;
    y, actions := ApplyBoth();
    var y' := AfterActions(y, actions);
    forall more | IsSystemRun(y', more) && CommitsNothing(more)
      ensures !WaitReturns(AfterActions(y', more))
    {
      WaitsUntilNextCommit(y, actions, more);
    }
  }

  // ---------------------------------------------------------------- the code of the wait

  /** The watch starts at the largest `u64` and then carries the last applied frame number. */
  function Watched(applied: Option<nat>): nat {
    if applied.None? then U64_MAX else applied.value
  }

  /** A waiting connection is let go in exactly the states in which the value it watches covers
      its last write. */
  lemma WaitIsTheLoop(y: System)
    requires SystemInv(y)
    ensures WaitReturns(y) <==> y.lastWrite.None? || y.lastWrite.value <= Watched(y.injector.applied)
  {
    hide LinkInv, InjectorInv;
    NotifiedIsCommitted(y.primary);
  }
}
