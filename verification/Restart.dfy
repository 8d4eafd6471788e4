/** A replica that is started again over the database of an earlier process
    (`sqld/src/replication/replica/replicator.rs`).

The frame number last applied is kept in a file, but the watch that decides which frame to
ask for starts without one, so the replica asks for the whole history again. */
module Restart {
  import opened Basics
  import opened Frames
  import opened Snapshot
  import opened LogFile
  import opened Primary
  import opened FrameStream
  import opened Replica
  import opened Replication

  /** The process ends and another one starts over its database. */
  ghost function Restarted(y: System): System {
    y.(link := None, injector := InjectorOver(y.injector.db))
  }

  ghost function RestartedFresh(y: System): System {
    y.(link := None, injector := FreshInjector())
  }

  // ---------------------------------------------------------------- simulation

  /** `b` started over `base` and then received what `a` received, which started over nothing. */
  ghost predicate Over(base: Db, a: Injector, b: Injector) {
    && b.applied == a.applied && b.isTxn == a.isTxn
    && b.Working() == base.pages + a.Working()
    && (a.applied.None? ==> a.db == EmptyDb)
    && b.db == if a.applied.None? then base else Db(base.pages + a.db.pages, a.db.size)
  }

  lemma {:induction false} ApplyOver(base: map<PageNo, Page>, pages: map<PageNo, Page>, frames: seq<Frame>)
    ensures ApplyPages(base + pages, frames) == base + ApplyPages(pages, frames)
  {
    if frames != [] {
      var n := |frames| - 1;
      ApplyOver(base, pages, frames[..n]);
    }
  }

  lemma InjectOver(base: Db, a: Injector, b: Injector, frames: seq<Frame>)
    requires Over(base, a, b)
    ensures Over(base, Inject(a, frames), Inject(b, frames))
  {
    hide ApplyPages, HeaderOf;
    ApplyOver(base.pages, a.Working(), frames);
  }

  lemma ReceiveOver(base: Db, a: Injector, b: Injector, buffer: seq<Frame>, frame: Frame)
    requires Over(base, a, b)
    ensures Receive(buffer, a, frame).0 == Receive(buffer, b, frame).0
    ensures Over(base, Receive(buffer, a, frame).1, Receive(buffer, b, frame).1)
  {
    hide Over, Inject;
    InjectOver(base, a, b, buffer + [frame]);
  }

  /** The two replicas can take the same steps, and stay alike. */
  lemma ActOver(base: Db, y: System, b: Injector, a: Action)
    requires Over(base, y.injector, b) && Can(y.(injector := b), a)
    ensures Can(y, a)
    ensures var z := Act(y.(injector := b), a);
      Over(base, Act(y, a).injector, z.injector) && z == Act(y, a).(injector := z.injector)
  {
    assert y.injector.NextOffset() == b.NextOffset();
    hide Over, Inject, Receive, StepStream, Next, Enabled, FramesIterFrom;
    match a
    case TakeFrame =>
      ReceiveOver(base, y.injector, b, y.link.value.buffer, y.link.value.stream.out[y.link.value.taken]);
    case LoadSnapshot(name) =>
      InjectOver(base, y.injector, b, FramesIterFrom(y.primary.dir[name].frames, b.NextOffset()));
    case _ =>
  }

  lemma {:induction false} RunOver(base: Db, y: System, b: Injector, actions: seq<Action>)
    requires Over(base, y.injector, b) && IsSystemRun(y.(injector := b), actions)
    ensures IsSystemRun(y, actions)
    ensures var z := AfterActions(y.(injector := b), actions);
      && Over(base, AfterActions(y, actions).injector, z.injector)
      && z == AfterActions(y, actions).(injector := z.injector)
    decreases |actions|
  {
    hide Over, Can, Act;
    if actions != [] {
      ActOver(base, y, b, actions[0]);
      var z := Act(y.(injector := b), actions[0]);
      RunOver(base, Act(y, actions[0]), z.injector, actions[1..]);
    }
  }

  // ---------------------------------------------------------------- many restarts

  /** One process after another: each runs its actions and ends, and the next starts over the
      database that it leaves. */
  ghost predicate IsLives(y: System, lives: seq<seq<Action>>)
    decreases |lives|, 0
  {
    lives == [] || (
      && IsLives(y, lives[..|lives| - 1])
      && IsSystemRun(Start(y, lives[..|lives| - 1]), lives[|lives| - 1]))
  }

  /** The state in which the process after the given ones starts. */
  ghost function Start(y: System, lives: seq<seq<Action>>): System
    requires IsLives(y, lives)
    decreases |lives|, 2
  {
    if lives == [] then y else Restarted(Now(y, lives))
  }

  /** The state that the last process has come to. */
  ghost function Now(y: System, lives: seq<seq<Action>>): System
    requires lives != [] && IsLives(y, lives)
    decreases |lives|, 1
  {
    AfterActions(Start(y, lives[..|lives| - 1]), lives[|lives| - 1])
  }

  /** How far each process that has applied something has come. */
  ghost function Positions(y: System, lives: seq<seq<Action>>): seq<nat>
    requires IsLives(y, lives)
    decreases |lives|
  {
    if lives == [] then []
    else Positions(y, lives[..|lives| - 1]) + Reached(Now(y, lives).injector)
  }

  ghost function Reached(inj: Injector): seq<nat> {
    if inj.applied.None? then [] else [inj.NextOffset()]
  }

  ghost predicate Within(h: seq<Frame>, ks: seq<nat>) {
    forall i :: 0 <= i < |ks| ==> Boundary(h, ks[i])
  }

  /** The history up to each of the positions, written one over the other. */
  ghost function Layers(h: seq<Frame>, ks: seq<nat>): Db
    requires Within(h, ks)
  {
    if ks == [] then EmptyDb
    else
      var k := ks[|ks| - 1];
      Db(Layers(h, ks[..|ks| - 1]).pages + Replay(h[..k]).pages, Replay(h[..k]).size)
  }

  lemma {:induction false} LayersGrow(h: seq<Frame>, g: seq<Frame>, ks: seq<nat>)
    requires Within(h, ks) && h <= g
    ensures Within(g, ks) && Layers(g, ks) == Layers(h, ks)
  {
    if ks != [] {
      LayersGrow(h, g, ks[..|ks| - 1]);
      var k := ks[|ks| - 1];
      assert Boundary(h, k) && h[..k] == g[..k];
    }
  }

  lemma LayersPush(h: seq<Frame>, ks: seq<nat>, k: nat)
    requires Within(h, ks) && Boundary(h, k)
    ensures Within(h, ks + [k])
    ensures Layers(h, ks + [k]) == Db(Layers(h, ks).pages + Replay(h[..k]).pages, Replay(h[..k]).size)
  {
    assert (ks + [k])[..|ks|] == ks;
  }

  /** The state is the start of a process over the layers `ks`. */
  ghost predicate StartsOver(z: System, ks: seq<nat>) {
    && SystemInv(RestartedFresh(z)) && z.link == None && z.injector == InjectorOver(z.injector.db)
    && Within(z.primary.history, ks) && z.injector.db == Layers(z.primary.history, ks)
  }

  lemma FreshHolds(y: System)
    requires SystemInv(y)
    ensures SystemInv(RestartedFresh(y))
  {
    hide Base, LinkInv;
    var h := y.primary.history;
    assert h[..0] == [];
    AgreesExactly(h, 0, map[]);
    assert Agrees(h, 0, 0, FreshInjector().Working()) && NoCommit(h, 0, 0);
  }

  /** One process adds its layer, if it applies anything. */
  lemma OneLife(z: System, ks: seq<nat>, actions: seq<Action>)
    requires StartsOver(z, ks) && IsSystemRun(z, actions)
    ensures var z' := AfterActions(z, actions);
      StartsOver(Restarted(z'), ks + Reached(z'.injector))
  {
    hide SystemInv, IsSystemRun, AfterActions, Over, Within, Layers, Boundary;
    var base := z.injector.db;
    FreshOver(base);
    RunOver(base, RestartedFresh(z), InjectorOver(base), actions);
    var z', made := AfterActions(z, actions), AfterActions(RestartedFresh(z), actions);
    ActionsPreserve(RestartedFresh(z), actions);
    FreshHolds(made);
    RunExtends(RestartedFresh(z), actions);
    LayersGrow(z.primary.history, made.primary.history, ks);
    InjectorMeans(made);
    OverMeans(base, made.injector, z'.injector);
    if made.injector.applied.None? {
      assert ks + [] == ks;
    } else {
      LayersPush(made.primary.history, ks, made.injector.NextOffset());
    }
  }

  /** Whatever the primary does and however often the replica is started again, its database is
      the history up to where each process has come, written one over the other. */
  lemma {:induction false} RestartedReplica(y: System, lives: seq<seq<Action>>)
    requires InitSystem(y) && IsLives(y, lives)
    ensures StartsOver(Start(y, lives), Positions(y, lives))
    ensures lives != [] ==>
      && Now(y, lives).primary == Start(y, lives).primary
      && Now(y, lives).injector.db == Layers(Now(y, lives).primary.history, Positions(y, lives))
    decreases |lives|
  {
    if lives == [] {
      InitHolds(y);
    } else {
      hide StartsOver, InitSystem, IsSystemRun, AfterActions;
      var n := |lives| - 1;
      RestartedReplica(y, lives[..n]);
      OneLife(Start(y, lives[..n]), Positions(y, lives[..n]), lives[n]);
      OverMeansLayers(Start(y, lives), Positions(y, lives));
    }
  }

  lemma OverMeansLayers(z: System, ks: seq<nat>)
    requires StartsOver(z, ks)
    ensures Within(z.primary.history, ks) && z.injector.db == Layers(z.primary.history, ks)
  {
  }

  lemma FreshOver(base: Db)
    ensures Over(base, FreshInjector(), InjectorOver(base))
  {
  }

  lemma OverMeans(base: Db, a: Injector, b: Injector)
    requires Over(base, a, b)
    ensures b.applied == a.applied
    ensures b.db == if a.applied.None? then base else Db(base.pages + a.db.pages, a.db.size)
  {
  }

  lemma InjectorMeans(y: System)
    requires SystemInv(y)
    ensures var k := y.injector.NextOffset();
      Boundary(y.primary.history, k) && k <= |y.primary.history| && y.injector.db == Replay(y.primary.history[..k])
  {
    hide Base, LinkInv;
  }

  lemma {:induction false} RunExtends(y: System, actions: seq<Action>)
    requires SystemInv(y) && IsSystemRun(y, actions)
    ensures y.primary.history <= AfterActions(y, actions).primary.history
    decreases |actions|
  {
    hide SystemInv, Can, Act;
    if actions != [] {
      ActExtends(y, actions[0]);
      ActionPreserves(y, actions[0]);
      RunExtends(Act(y, actions[0]), actions[1..]);
    }
  }

  lemma ActExtends(y: System, a: Action)
    requires SystemInv(y) && Can(y, a)
    ensures y.primary.history <= Act(y, a).primary.history
  {
    hide Inject, StepStream, Next, Enabled, LogInv, Ordered, DirInv, LinkInv, InjectorInv;
    if a.PrimaryAction? {
      HistoryGrows(y.primary, a.step);
    }
  }

  // ---------------------------------------------------------------- what readers see

  /** What a reader sees of a database: no page above the size that the last commit set. */
  ghost function Shown(db: Db): Db {
    Db(map p | p in db.pages && 1 <= p <= db.size :: db.pages[p], db.size)
  }

  /** How far the process has come that has applied something last. */
  ghost function LastOf(ks: seq<nat>): nat {
    if ks == [] then 0 else ks[|ks| - 1]
  }

  /** Within the size of the database at the last position, all pages written up to any of the
      positions are written up to the last one. */
  ghost predicate NoOldPages(h: seq<Frame>, ks: seq<nat>)
    requires Within(h, ks)
  {
    forall i, p: PageNo {:trigger Writes(h[..ks[i]], p)} ::
      0 <= i < |ks| && 1 <= p <= Replay(h[..LastOf(ks)]).size && Writes(h[..ks[i]], p) ==> Writes(h[..LastOf(ks)], p)
  }

  lemma ReplayedPages(h: seq<Frame>, p: PageNo)
    ensures p in Replay(h).pages <==> Writes(h, p)
  {
    ApplyLookup(map[], h, p);
    LastDataSome(h, p);
  }

  lemma {:induction false} LayeredPages(h: seq<Frame>, ks: seq<nat>, p: PageNo)
    requires Within(h, ks)
    ensures p in Layers(h, ks).pages <==> exists i :: 0 <= i < |ks| && Writes(h[..ks[i]], p)
  {
    hide Writes, Replay;
    if ks != [] {
      var n := |ks| - 1;
      LayeredPages(h, ks[..n], p);
      ReplayedPages(h[..ks[n]], p);
      assert forall i :: 0 <= i < n ==> ks[..n][i] == ks[i];
      if i :| 0 <= i < |ks| && Writes(h[..ks[i]], p) {
        assert i == n || Writes(h[..ks[..n][i]], p);
      }
    }
  }

  /** Readers see the history up to the last position and nothing else if and only if no page of
      an older layer shows through. */
  lemma ShowsHistory(h: seq<Frame>, ks: seq<nat>)
    requires Within(h, ks) && ks != []
    ensures Shown(Layers(h, ks)) == Shown(Replay(h[..LastOf(ks)])) <==> NoOldPages(h, ks)
  {
    hide Replay, Writes;
    var k := LastOf(ks);
    var db, made := Layers(h, ks), Replay(h[..k]);
    forall p: PageNo
      ensures p in made.pages <==> Writes(h[..k], p)
      ensures p in made.pages ==> p in db.pages && db.pages[p] == made.pages[p]
    {
      ReplayedPages(h[..k], p);
    }
    if NoOldPages(h, ks) {
      forall p: PageNo | p in db.pages && 1 <= p <= made.size
        ensures p in made.pages
      {
        LayeredPages(h, ks, p);
      }
      assert Shown(db).pages == Shown(made).pages;
    } else {
      var i, p: PageNo :| 0 <= i < |ks| && 1 <= p <= made.size && Writes(h[..ks[i]], p) && !Writes(h[..k], p);
      LayeredPages(h, ks, p);
      assert p in Shown(db).pages && p !in Shown(made).pages;
    }
  }

  /** Every transaction leaves a database all of whose pages have been written. */
  ghost predicate FillsItsSize(h: seq<Frame>) {
    forall n: nat, p: PageNo {:trigger Writes(h[..n], p)} ::
      Boundary(h, n) && 1 <= p <= Replay(h[..n]).size ==> Writes(h[..n], p)
  }

  /** No process but the last has come further than the last. */
  ghost predicate CaughtUp(ks: seq<nat>) {
    forall i :: 0 <= i < |ks| ==> ks[i] <= LastOf(ks)
  }

  lemma WritesMore(h: seq<Frame>, m: nat, k: nat, p: PageNo)
    requires m <= k <= |h| && Writes(h[..m], p)
    ensures Writes(h[..k], p)
  {
    var i :| 0 <= i < m && h[..m][i].pageNo == p;
    assert h[..k][i].pageNo == p;
  }

  lemma NothingShowsThrough(h: seq<Frame>, ks: seq<nat>)
    requires Within(h, ks) && (FillsItsSize(h) || CaughtUp(ks))
    ensures NoOldPages(h, ks)
  {
    hide Writes, Replay;
    if CaughtUp(ks) {
      forall i, p: PageNo | 0 <= i < |ks| && Writes(h[..ks[i]], p)
        ensures Writes(h[..LastOf(ks)], p)
      {
        assert Boundary(h, ks[|ks| - 1]);
        WritesMore(h, ks[i], LastOf(ks), p);
      }
    }
  }

  /** In every run, over any number of restarts, readers of the replica see the primary as it was
      after the last transaction applied, if and only if no page of an older layer shows through.
      None does once the replica has caught up, and none ever does if transactions write all
      pages of the database. */
  lemma ReadersSeeTransactions(y: System, lives: seq<seq<Action>>)
    requires InitSystem(y) && IsLives(y, lives) && lives != []
    ensures var h, ks, db := Now(y, lives).primary.history, Positions(y, lives), Now(y, lives).injector.db;
      && Within(h, ks) && Boundary(h, LastOf(ks))
      && (Shown(db) == Shown(Replay(h[..LastOf(ks)])) <==> NoOldPages(h, ks))
      && (FillsItsSize(h) || CaughtUp(ks) ==> Shown(db) == Shown(Replay(h[..LastOf(ks)])))
  {
    hide InitSystem, IsLives, Layers, FillsItsSize, CaughtUp, Replay, Shown, NoOldPages;
    RestartedReplica(y, lives);
    var h, ks := Now(y, lives).primary.history, Positions(y, lives);
    if ks == [] {
      NoLayers(h);
    } else {
      ShowsHistory(h, ks);
    }
    if FillsItsSize(h) || CaughtUp(ks) {
      NothingShowsThrough(h, ks);
    }
  }

  lemma NoLayers(h: seq<Frame>)
    ensures Within(h, []) && Layers(h, []) == Replay(h[..0]) && NoOldPages(h, [])
  {
    assert h[..0] == [];
  }

  // ---------------------------------------------------------------- two failing cases

  lemma TwoLives(y: System, before: seq<Action>, after: seq<Action>)
    requires IsSystemRun(y, before) && IsSystemRun(Restarted(AfterActions(y, before)), after)
    ensures IsLives(y, [before]) && Now(y, [before]) == AfterActions(y, before)
    ensures IsLives(y, [before, after])
    ensures Now(y, [before, after]) == AfterActions(Restarted(AfterActions(y, before)), after)
    ensures Positions(y, [before, after]) ==
      Reached(AfterActions(y, before).injector) + Reached(Now(y, [before, after]).injector)
  {
    hide IsSystemRun, AfterActions;
    assert [before][..0] == [] && [before, after][..1] == [before];
    assert IsLives(y, []) && Positions(y, []) == [];
    var first := Reached(Now(y, [before]).injector);
    assert Positions(y, [before]) == [] + first == first;
  }

  /** A restart takes readers back: the replica had applied both transactions of the primary, and
      after the restart it shows the first alone. */
  lemma RestartGoesBack() returns (y: System, before: seq<Action>, after: seq<Action>)
    ensures InitSystem(y) && IsLives(y, [before]) && IsLives(y, [before, after])
    ensures var h := GROW_AND_SHRINK;
      var y1, y2 := Now(y, [before]), Now(y, [before, after]);
      && y1.primary.history == y2.primary.history == h
      && Shown(y1.injector.db) == Shown(Replay(h))
      && Shown(y2.injector.db) == Shown(Replay(h[..2])) != Shown(Replay(h))
  {
    hide InitSystem, IsSystemRun, AfterActions, ReceiveAll, ApplyPages, IsLives, Positions, NoOldPages;
    y, before := ApplyBoth();
    var y1 := AfterActions(y, before);
    ThreeFrames(Restarted(y1).injector);
    after := DeliverFirst(Restarted(y1), 2);
    TwoLives(y, before, after);
    ApplyBothIsReplay(y, before);
    ReadersSeeTransactions(y, [before, after]);
    assert Positions(y, [before, after]) == [3, 2];
    FirstWritesBoth();
    var h := GROW_AND_SHRINK;
    assert Replay(h[..2]).size == 2 && Replay(h).size == 1;
  }

  lemma ApplyBothIsReplay(y: System, before: seq<Action>)
    requires InitSystem(y) && IsSystemRun(y, before)
    requires AfterActions(y, before).injector.applied == Some(|AfterActions(y, before).primary.history| - 1)
    ensures AfterActions(y, before).injector.db == Replay(AfterActions(y, before).primary.history)
  {
    hide SystemInv, IsSystemRun, AfterActions;
    InitHolds(y);
    ActionsPreserve(y, before);
    var y1 := AfterActions(y, before);
    InjectorMeans(y1);
    var h := y1.primary.history;
    assert h[..|h|] == h;
  }

  lemma FirstWritesBoth()
    ensures Within(GROW_AND_SHRINK, [3, 2]) && NoOldPages(GROW_AND_SHRINK, [3, 2])
  {
    var h := GROW_AND_SHRINK;
    assert h[..2][0].pageNo == 1 && h[..2][1].pageNo == 2 && h[2].pageNo == 1;
  }

  /** A transaction that leaves three pages and does not write page 2, and one that does. */
  const LATE_PAGE: seq<Frame> :=
    [Frame(0, 1, 0, []), Frame(1, 3, 3, []), Frame(2, 2, 0, []), Frame(3, 1, 3, [0x01])]

  lemma WriteLatePage() returns (y: System, actions: seq<Action>)
    ensures InitSystem(y) && y.primary.history == [] && IsSystemRun(y, actions)
    ensures var y' := AfterActions(y, actions);
      && y'.primary.history == LATE_PAGE && y'.primary.log == LogView(0, LATE_PAGE, [])
      && y'.link == None && y'.injector == FreshInjector()
  {
    hide IsRun, After, Enabled, Next, IsSystemRun, AfterActions;
    var h := LATE_PAGE;
    var p := State([], LogView(0, [], []), 0, 0, Waiting, map[], [], [], Idle);
    y := System(p, None, FreshInjector(), None, 0);
    var steps := CommitTransaction(p, [WalPage(1, 0, []), WalPage(3, 0, [])], 3, h[..2]);
    assert [] + h[..2] == h[..2] && h[..2] + h[2..] == h;
    var more := CommitTransaction(After(p, steps), [WalPage(2, 0, []), WalPage(1, 0, [0x01])], 3, h[2..]);
    RunJoin(p, steps, more);
    actions := PrimaryRun(y, steps + more);
  }

  lemma FourFrames(inj: Injector)
    ensures ReceiveAll(inj, LATE_PAGE[..2]).1.applied == Some(1)
    ensures ReceiveAll(inj, LATE_PAGE[..4]).1.applied == Some(3)
  {
    hide ApplyPages;
    var h := LATE_PAGE;
    assert h[..1][..0] == [] && h[..2][..1] == h[..1] && h[..3][..2] == h[..2] && h[..4][..3] == h[..3];
    assert [] + [h[0]] == [h[0]] && [h[0]] + [h[1]] == [h[0], h[1]];
    assert [] + [h[2]] == [h[2]] && [h[2]] + [h[3]] == [h[2], h[3]];
    assert [h[0], h[1]][..1] == [h[0]] && [h[0]][..0] == [] && [h[2], h[3]][..1] == [h[2]] && [h[2]][..0] == [];
    assert HeaderOf([h[0]]) == (0, 0);
    assert HeaderOf([h[0], h[1]]) == (1, 3);
    assert HeaderOf([h[2]]) == (2, 0);
    assert HeaderOf([h[2], h[3]]) == (3, 3);
    assert ReceiveAll(inj, h[..1]) == ([h[0]], inj);
    assert ReceiveAll(inj, h[..2]).0 == [];
    assert ReceiveAll(inj, h[..3]).0 == [h[2]];
  }

  /** A restart can show what no transaction of the primary has left: here the page that the
      second transaction has written among those of the first. */
  lemma RestartShowsMixture() returns (y: System, before: seq<Action>, after: seq<Action>)
    ensures InitSystem(y) && y.primary.history == [] && IsLives(y, [before, after])
    ensures var y' := Now(y, [before, after]);
      && y'.primary.history == LATE_PAGE
      && forall n: nat :: Boundary(LATE_PAGE, n) ==> Shown(y'.injector.db) != Shown(Replay(LATE_PAGE[..n]))
  {
    hide InitSystem, IsSystemRun, AfterActions, ReceiveAll, IsLives, Positions, Layers, Shown, Replay;
    y, before := WriteLatePage();
    var y1 := AfterActions(y, before);
    FourFrames(y1.injector);
    var more := DeliverFirst(y1, 4);
    ActJoin(y, before, more);
    before := before + more;
    var y2 := AfterActions(y, before);
    FourFrames(Restarted(y2).injector);
    after := DeliverFirst(Restarted(y2), 2);
    TwoLives(y, before, after);
    RestartedReplica(y, [before, after]);
    assert Positions(y, [before, after]) == [4, 2];
    Mixture();
  }

  lemma Mixture()
    ensures Within(LATE_PAGE, [4, 2])
    ensures forall n: nat :: Boundary(LATE_PAGE, n) ==>
      Shown(Layers(LATE_PAGE, [4, 2])) != Shown(Replay(LATE_PAGE[..n]))
  {
    var h := LATE_PAGE;
    LatePages();
    var db := Layers(h, [4, 2]);
    assert [4, 2][..1] == [4] && [4][..0] == [];
    forall n: nat | Boundary(h, n)
      ensures Shown(db) != Shown(Replay(h[..n]))
    {
      assert n == 0 || n == 2 || n == 4;
      if n == 0 {
        assert h[..0] == [];
        assert Shown(Replay(h[..0])).size == 0;
      } else if n == 2 {
        assert 2 in Shown(db).pages && 2 !in Shown(Replay(h[..2])).pages;
      } else {
        assert Shown(db).pages[1] != Shown(Replay(h[..4])).pages[1];
      }
    }
  }

  lemma LatePages()
    ensures Replay(LATE_PAGE[..2]) == Db(map[1 := [], 3 := []], 3)
    ensures Replay(LATE_PAGE[..4]) == Db(map[1 := [0x01], 3 := [], 2 := []], 3)
  {
    var h := LATE_PAGE;
    assert h[..1][..0] == [] && h[..2][..1] == h[..1] && h[..3][..2] == h[..2] && h[..4][..3] == h[..3];
    assert ApplyPages(map[], h[..1]) == map[1 := []];
    assert ApplyPages(map[], h[..2]) == map[1 := [], 3 := []];
    assert ApplyPages(map[], h[..3]) == map[1 := [], 3 := [], 2 := []];
  }
}
