/** The stream that serves log frames to replicas and forks
    (`sqld/src/replication/primary/frame_stream.rs`).

Each step is one arm of the polling function, or the blocking read that it starts; the
primary may take any number of steps in between. */
module FrameStream {
  import opened Basics
  import opened Frames
  import opened LogFile
  import opened Primary

  datatype Phase =
    | Start
    | WaitingFrameNo(seen: nat)
    | WaitingFrame(result: Option<ReadResult>)
    | Done

  /** `offset` is the first frame asked for and `out` the frames handed out so far; `readEnd` is
      where the committed frames ended at the last read, or when the stream was opened; `failed`
      says that the stream ended because a snapshot is required. */
  datatype Stream = Stream(
    offset: nat,
    current: nat,
    maxAvailable: nat,
    phase: Phase,
    waitForMore: bool,
    produced: nat,
    maxFrames: Option<nat>,
    out: seq<Frame>,
    readEnd: nat,
    failed: bool)

  datatype StreamStep = PollStart | ReadFrame | PollFrame | PollFrameNo

  function OpenStream(p: State, offset: nat, waitForMore: bool, maxFrames: Option<nat>): Stream {
    Stream(offset, offset, p.notified, Start, waitForMore, 0, maxFrames, [], p.log.CommittedEnd(), false)
  }

  /** `transition_state_next_frame` */
  function NextFrame(st: Stream): Stream {
    if st.phase.Done? then st
    else if st.maxFrames == Some(st.produced) then st.(phase := Done)
    else st.(phase := WaitingFrame(None))
  }

  /** The watch channel wakes a sleeper once its version moves past the one it has seen. */
  ghost predicate CanStep(p: State, st: Stream, step: StreamStep) {
    match step
    case PollStart => st.phase.Start?
    case ReadFrame => st.phase == WaitingFrame(None)
    case PollFrame => st.phase.WaitingFrame? && st.phase.result.Some?
    case PollFrameNo => st.phase.WaitingFrameNo? && p.version > st.phase.seen
  }

  ghost function StepStream(p: State, st: Stream, step: StreamStep): Stream
    requires CanStep(p, st, step)
  {
    match step
    case PollStart => NextFrame(st)
    case ReadFrame => st.(phase := WaitingFrame(Some(p.log.Read(st.current))), readEnd := p.log.CommittedEnd())
    case PollFrameNo => NextFrame(st.(maxAvailable := p.notified))
    case PollFrame =>
      match st.phase.result.value
      case Found(frame) =>
        NextFrame(st.(current := st.current + 1, produced := st.produced + 1, out := st.out + [frame]))
      case SnapshotRequired => st.(phase := Done, failed := true)
      case Ahead =>
        if !st.waitForMore then st.(phase := Done)
        else if p.notified > st.maxAvailable then NextFrame(st.(maxAvailable := p.notified))
        else st.(phase := WaitingFrameNo(p.version))
  }

  /** What one poll of the stream returns. */
  datatype Poll = Pending | Ready(item: Item)
  datatype Item = Yielded(frame: Frame) | NeedsSnapshot | Ended | LoggerClosed

  ghost predicate IsPolls(p: State, st: Stream, polls: seq<StreamStep>)
    decreases |polls|
  {
    polls == [] || (CanStep(p, st, polls[0]) && IsPolls(p, StepStream(p, st, polls[0]), polls[1..]))
  }

  ghost function AfterPolls(p: State, st: Stream, polls: seq<StreamStep>): Stream
    requires IsPolls(p, st, polls)
    decreases |polls|
  {
    if polls == [] then st else AfterPolls(p, StepStream(p, st, polls[0]), polls[1..])
  }

  class LogStream {
    const offset: nat
    var current: nat
    var maxAvailable: nat
    var phase: Phase
    const waitForMore: bool
    var produced: nat
    const maxFrames: Option<nat>
    ghost var out: seq<Frame>
    ghost var readEnd: nat
    ghost var failed: bool

    ghost function View(): Stream
      reads this
    {
      Stream(offset, current, maxAvailable, phase, waitForMore, produced, maxFrames, out, readEnd, failed)
    }

    constructor (notified: nat, offset: nat, waitForMore: bool, maxFrames: Option<nat>, ghost p: State)
      requires p.notified == notified
      ensures View() == OpenStream(p, offset, waitForMore, maxFrames)
      ensures this.offset == current == offset && maxAvailable == notified && phase == Start && produced == 0
      ensures this.waitForMore == waitForMore && this.maxFrames == maxFrames
    {
      this.offset, current, maxAvailable, phase := offset, offset, notified, Start;
      this.waitForMore, produced, this.maxFrames := waitForMore, 0, maxFrames;
      out, readEnd, failed := [], p.log.CommittedEnd(), false;
    }

    method TransitionStateNextFrame()
      modifies this
      ensures View() == NextFrame(old(View()))
    {
      if phase.Done? {
        return;
      }
      if maxFrames == Some(produced) {
        phase := Done;
        return;
      }
      phase := WaitingFrame(None);
    }

    /** The blocking read that the stream has started returns. */
    method CompleteRead(log: LogView, ghost p: State)
      requires phase == WaitingFrame(None) && log == p.log
      modifies this
      ensures View() == StepStream(p, old(View()), ReadFrame)
    {
      phase, readEnd := WaitingFrame(Some(log.Read(current))), log.CommittedEnd();
    }

    /** One poll, with the announcement and its version as the watch channel shows them.  It
        takes steps of the stream until it has an item; it is pending only while a read is
        under way or while nothing new was announced.  It ends the stream only at the maximum
        number of frames or, unless it is to wait for more, at the end of the log.  Once the
        logger is `closed` a poll takes no step and fails. */
    method PollNext(closed: bool, notified: nat, version: nat, ghost p: State)
      returns (r: Poll, ghost polls: seq<StreamStep>)
      requires p.notified == notified && p.version == version
      modifies this
      ensures IsPolls(p, old(View()), polls) && View() == AfterPolls(p, old(View()), polls)
      ensures r.Pending? ==> phase == WaitingFrame(None) || (phase.WaitingFrameNo? && version <= phase.seen)
      ensures r.Pending? ==> out == old(out) && (phase.WaitingFrameNo? ==> waitForMore || old(phase).WaitingFrameNo?)
      ensures r.Ready? ==>
        match r.item
        case Yielded(frame) => out == old(out) + [frame]
        case NeedsSnapshot => failed && phase.Done? && out == old(out)
        case Ended =>
          && phase.Done? && out == old(out)
          && (|| old(phase).Done? || maxFrames == Some(produced)
              || (!waitForMore && old(phase) == WaitingFrame(Some(Ahead))))
        case LoggerClosed => polls == []
      ensures r == Ready(LoggerClosed) <==> closed
      ensures !closed && waitForMore && old(phase) == WaitingFrame(Some(Ahead)) && notified <= old(maxAvailable) ==>
        phase == WaitingFrameNo(version)
    {
      polls := [];
      if closed {
        return Ready(LoggerClosed), polls;
      }
      match phase {
        case Start =>
          polls := [PollStart];
          PollsOne(p, View(), PollStart);
          TransitionStateNextFrame();
        case WaitingFrameNo(seen) =>
          if version <= seen {
            return Pending, polls;
          }
          polls := [PollFrameNo];
          PollsOne(p, View(), PollFrameNo);
          maxAvailable := notified;
          TransitionStateNextFrame();
        case WaitingFrame(None) =>
          return Pending, polls;
        case WaitingFrame(Some(result)) =>
          polls := [PollFrame];
          PollsOne(p, View(), PollFrame);
          match result {
            case Found(frame) =>
              current, produced := current + 1, produced + 1;
              out := out + [frame];
              TransitionStateNextFrame();
              return Ready(Yielded(frame)), polls;
            case SnapshotRequired =>
              phase, failed := Done, true;
              return Ready(NeedsSnapshot), polls;
            case Ahead =>
              if !waitForMore {
                phase := Done;
                return Ready(Ended), polls;
              }
              if notified > maxAvailable {
                maxAvailable := notified;
                TransitionStateNextFrame();
              } else {
                phase := WaitingFrameNo(version);
                return Pending, polls;
              }
          }
        case Done =>
          return Ready(Ended), polls;
      }
      r := if phase.Done? then Ready(Ended) else Pending;
    }
  }

  lemma PollsOne(p: State, st: Stream, poll: StreamStep)
    requires CanStep(p, st, poll)
    ensures IsPolls(p, st, [poll]) && AfterPolls(p, st, [poll]) == StepStream(p, st, poll)
  {
    assert [poll][1..] == [];
  }

  /** The stream sleeps: no read is under way and no wake-up is due. */
  ghost predicate Asleep(p: State, st: Stream) {
    st.phase.WaitingFrameNo? && p.version == st.phase.seen
  }

  ghost predicate Delivered(p: State, st: Stream) {
    && st.current == st.offset + |st.out|
    && (st.out != [] ==> st.current <= |p.history| && st.out == p.history[st.offset..st.current])
  }

  ghost predicate StreamInv(p: State, st: Stream) {
    && Delivered(p, st)
    && st.produced == |st.out|
    && (st.maxFrames.Some? ==> st.produced <= st.maxFrames.value)
    && (st.maxFrames.Some? && st.phase.WaitingFrame? ==> st.produced < st.maxFrames.value)
    && st.maxAvailable <= |p.history|
    && (st.phase.WaitingFrame? && st.phase.result.Some? ==>
          match st.phase.result.value
          case Found(frame) => st.current < |p.history| && frame == p.history[st.current]
          case Ahead => st.maxAvailable <= st.current && st.readEnd <= st.current
          case SnapshotRequired => st.current < p.log.start)
    && (st.phase.WaitingFrameNo? ==>
          && st.waitForMore
          && st.phase.seen <= p.version && (p.version == st.phase.seen ==> p.notified <= st.current))
    && st.readEnd <= |p.history|
    && (st.phase.Done? ==> EndsRightly(st))
    && (st.failed ==> st.phase.Done? && st.current < p.log.start)
  }

  /** The reasons for which a stream ends: a snapshot is required, it has handed out as many
      frames as it may, or it is not to wait and its last read was behind the committed frames. */
  ghost predicate EndsRightly(st: Stream) {
    st.failed || st.maxFrames == Some(|st.out|) || (!st.waitForMore && st.readEnd <= st.current)
  }

  lemma OpenInv(p: State, offset: nat, waitForMore: bool, maxFrames: Option<nat>)
    requires LogInv(p)
    ensures StreamInv(p, OpenStream(p, offset, waitForMore, maxFrames))
  {
  }

  lemma ReadIsHistory(p: State, n: nat)
    requires LogInv(p)
    ensures p.log.CommittedEnd() == |p.history| && p.notified <= |p.history|
    ensures p.log.Read(n) == if n < p.log.start then SnapshotRequired
                             else if n >= |p.history| then Ahead
                             else Found(p.history[n])
  {
  }

  /** Every step of the stream keeps its invariant, whatever the primary did before. */
  lemma StreamPreserves(p: State, st: Stream, step: StreamStep)
    requires LogInv(p) && StreamInv(p, st) && CanStep(p, st, step)
    ensures StreamInv(p, StepStream(p, st, step))
  {
    hide LogInv;
    ReadIsHistory(p, st.current);
    if step.PollFrame? && st.phase.result.value.Found? {
      FoundPreserves(p, st);
    }
  }

  /** With nothing new announced since it last looked, a stream at the end of the log sleeps. */
  lemma SleepsAtTheEnd(p: State, st: Stream)
    requires CanStep(p, st, PollFrame) && st.phase.result.value == Ahead && st.waitForMore
    ensures Asleep(p, StepStream(p, st, PollFrame)) <==> p.notified <= st.maxAvailable
    ensures !Asleep(p, StepStream(p, st, PollFrame)) ==>
      StepStream(p, st, PollFrame).maxAvailable == p.notified > st.maxAvailable
  {
  }

  /** After a wake-up the stream has seen the announcement. */
  lemma WakesUp(p: State, st: Stream)
    requires CanStep(p, st, PollFrameNo)
    ensures StepStream(p, st, PollFrameNo).maxAvailable == p.notified
    ensures StepStream(p, st, PollFrameNo).phase == WaitingFrame(None) || st.maxFrames == Some(st.produced)
  {
  }

  lemma FoundPreserves(p: State, st: Stream)
    requires StreamInv(p, st) && CanStep(p, st, PollFrame) && st.phase.result.value.Found?
    ensures StreamInv(p, StepStream(p, st, PollFrame))
  {
    OneMoreDelivered(p.history, st.offset, st.out);
  }

  lemma OneMoreDelivered(h: seq<Frame>, offset: nat, out: seq<Frame>)
    requires offset + |out| < |h|
    requires out != [] ==> out == h[offset..offset + |out|]
    ensures out + [h[offset + |out|]] == h[offset..offset + |out| + 1]
  {
    assert h[offset..offset + |out| + 1] == h[offset..offset + |out|] + [h[offset + |out|]];
    if out == [] {
      assert h[offset..offset] == [];
    }
  }

  /** The primary only ever appends to its history, and changes what it has announced only
      together with the version of the announcement. */
  lemma HistoryGrows(p: State, step: Step)
    requires LogInv(p) && Enabled(p, step)
    ensures p.history <= Next(p, step).history && p.log.start <= Next(p, step).log.start
    ensures Next(p, step).version >= p.version
    ensures Next(p, step).version == p.version ==> Next(p, step).notified == p.notified
  {
    hide LogInv;
    if step.WriteFrames? {
      PushAllFrame(p.log, WithSize(step.pages, step.sizeAfter));
    }
  }

  /** Every step of the primary keeps the invariant of every stream. */
  lemma PrimaryKeepsStream(p: State, step: Step, st: Stream)
    requires LogInv(p) && Enabled(p, step) && StreamInv(p, st)
    ensures StreamInv(Next(p, step), st)
  {
    HistoryGrows(p, step);
    hide LogInv, Enabled, Next;
    var p' := Next(p, step);
    assert st.out != [] ==> p.history[st.offset..st.current] == p'.history[st.offset..st.current];
  }

  // ---------------------------------------------------------------- interleaved runs

  datatype Event = OfPrimary(step: Step) | OfStream(poll: StreamStep)

  ghost predicate IsInterleaving(p: State, st: Stream, events: seq<Event>)
    decreases |events|
  {
    events != [] ==>
      match events[0]
      case OfPrimary(step) => Enabled(p, step) && IsInterleaving(Next(p, step), st, events[1..])
      case OfStream(poll) => CanStep(p, st, poll) && IsInterleaving(p, StepStream(p, st, poll), events[1..])
  }

  ghost function AfterEvents(p: State, st: Stream, events: seq<Event>): (State, Stream)
    requires IsInterleaving(p, st, events)
    decreases |events|
  {
    if events == [] then (p, st)
    else
      match events[0]
      case OfPrimary(step) => AfterEvents(Next(p, step), st, events[1..])
      case OfStream(poll) => AfterEvents(p, StepStream(p, st, poll), events[1..])
  }

  lemma ReadsLater(p: State, st: Stream, poll: StreamStep)
    requires LogInv(p) && StreamInv(p, st) && CanStep(p, st, poll)
    ensures st.readEnd <= StepStream(p, st, poll).readEnd
  {
    ReadIsHistory(p, st.current);
  }

  lemma {:induction false} InterleavingPreserves(p: State, st: Stream, events: seq<Event>)
    requires Base(p) && StreamInv(p, st) && IsInterleaving(p, st, events)
    ensures var (p', st') := AfterEvents(p, st, events); Base(p') && StreamInv(p', st')
    ensures AfterEvents(p, st, events).1.offset == st.offset
    ensures AfterEvents(p, st, events).1.maxFrames == st.maxFrames
    ensures AfterEvents(p, st, events).1.waitForMore == st.waitForMore
    ensures st.readEnd <= AfterEvents(p, st, events).1.readEnd
    decreases |events|
  {
    hide Ordered, DirInv, LogInv, StreamInv, Enabled, Next;
    if events != [] {
      match events[0]
      case OfPrimary(step) =>
        BasePreserved(p, step);
        PrimaryKeepsStream(p, step, st);
        InterleavingPreserves(Next(p, step), st, events[1..]);
      case OfStream(poll) =>
        StreamPreserves(p, st, poll);
        ReadsLater(p, st, poll);
        InterleavingPreserves(p, StepStream(p, st, poll), events[1..]);
    }
  }

  /** Under every interleaving with writes, commits, rollbacks, compactions and merges: the
      frames handed out are exactly the committed frames from the requested one on, in order
      and without gaps, at most as many as asked for; and a stream that sleeps has missed
      nothing, for no frame announced so far stands at its position; a stream that neither
      sleeps nor has ended can always make a step.  Only a stream that is to wait for more
      sleeps; one that ends needs a snapshot, or has handed out as many frames as asked for, or
      is not to wait and has handed out all frames that were committed when it was opened.  It
      needs a snapshot only if the next frame has left the log. */
  lemma StreamIsFaithful(p: State, offset: nat, waitForMore: bool, maxFrames: Option<nat>, events: seq<Event>)
    requires Base(p) && IsInterleaving(p, OpenStream(p, offset, waitForMore, maxFrames), events)
    ensures var (p', st) := AfterEvents(p, OpenStream(p, offset, waitForMore, maxFrames), events);
      && st.current == offset + |st.out|
      && (st.out != [] ==> st.current <= |p'.history| && st.out == p'.history[offset..st.current])
      && (maxFrames.Some? ==> |st.out| <= maxFrames.value)
      && (Asleep(p', st) ==> p'.notified <= st.current)
      && (Asleep(p', st) || st.phase.Done? || exists poll :: CanStep(p', st, poll))
      && (st.phase.WaitingFrameNo? ==> waitForMore)
      && (st.failed ==> st.current < p'.log.start)
      && (st.phase.Done? ==>
            st.failed || maxFrames == Some(|st.out|) || (!waitForMore && |p.history| <= st.readEnd <= st.current))
  {
    OpenInv(p, offset, waitForMore, maxFrames);
    hide Base;
    InterleavingPreserves(p, OpenStream(p, offset, waitForMore, maxFrames), events);
    var (p', st) := AfterEvents(p, OpenStream(p, offset, waitForMore, maxFrames), events);
    assert Asleep(p', st) || st.phase.Done?
      || CanStep(p', st, PollStart) || CanStep(p', st, ReadFrame)
      || CanStep(p', st, PollFrame) || CanStep(p', st, PollFrameNo);
  }
}
