/** The table of Hrana-over-HTTP streams (`sqld/src/hrana/http/stream.rs`).  The table is
    guarded by a mutex; every method is one locked section, and the clock is a parameter. */
module StreamTable {
  import opened Basics

  type StreamId = nat
  type ConnectionId = nat
  /** Nanoseconds on a clock that never goes back. */
  type Instant = nat

  const SECOND: nat := 1_000_000_000
  const EXPIRATION: nat := 10 * SECOND
  const CLEANUP: nat := 300 * SECOND

  datatype Stream = Stream(db: Option<ConnectionId>, sqls: map<int, string>, streamId: StreamId, batonSeq: nat)

  datatype Handle = Available(stream: Stream) | Acquired | Expired

  datatype Entry = Entry(id: StreamId, at: Instant)

  type Handles = map<StreamId, Handle>
  type Expiries = map<StreamId, Instant>

  // ---------------------------------------------------------------- the queues

  ghost predicate IsAvailable(handles: Handles, id: StreamId) {
    id in handles && handles[id].Available?
  }

  ghost predicate IsAcquired(handles: Handles, id: StreamId) {
    id in handles && handles[id].Acquired?
  }

  ghost predicate IsExpired(handles: Handles, id: StreamId) {
    id in handles && handles[id].Expired?
  }

  /** The stream waits for its cleanup. */
  ghost predicate HasEntry(cleanup: seq<Entry>, id: StreamId) {
    exists i :: 0 <= i < |cleanup| && cleanup[i].id == id
  }

  ghost predicate DistinctEntries(cleanup: seq<Entry>) {
    forall i, j :: 0 <= i < j < |cleanup| ==> cleanup[i].id != cleanup[j].id
  }

  /** An available stream is open and knows its id; it waits for its expiry.  An expired one waits for
      its cleanup, once.  Nothing else is queued. */
  ghost predicate Queued(handles: Handles, expire: Expiries, cleanup: seq<Entry>) {
    && (forall id :: IsAvailable(handles, id) ==> handles[id].stream.streamId == id && handles[id].stream.db.Some?)
    && (forall id :: id in expire <==> IsAvailable(handles, id))
    && (forall id :: HasEntry(cleanup, id) <==> IsExpired(handles, id))
    && DistinctEntries(cleanup)
  }

  lemma QueuedAcquire(handles: Handles, expire: Expiries, cleanup: seq<Entry>, id: StreamId)
    requires Queued(handles, expire, cleanup)
    requires id !in handles || handles[id].Available?
    ensures Queued(handles[id := Acquired], expire - {id}, cleanup)
  {
    var handles' := handles[id := Acquired];
    assert forall x :: IsAvailable(handles', x) <==> x != id && IsAvailable(handles, x);
    assert forall x :: IsExpired(handles', x) <==> IsExpired(handles, x);
  }

  lemma QueuedNew(handles: Handles, expire: Expiries, cleanup: seq<Entry>, id: StreamId)
    requires Queued(handles, expire, cleanup) && id !in handles
    ensures Queued(handles[id := Acquired], expire, cleanup)
  {
    assert id !in expire;
    assert expire - {id} == expire;
    QueuedAcquire(handles, expire, cleanup, id);
  }

  lemma QueuedStream(handles: Handles, expire: Expiries, cleanup: seq<Entry>, id: StreamId)
    requires Queued(handles, expire, cleanup) && IsAvailable(handles, id)
    ensures handles[id].stream.streamId == id && handles[id].stream.db.Some?
  {
  }

  lemma QueuedRelease(handles: Handles, expire: Expiries, cleanup: seq<Entry>, id: StreamId, s: Stream, at: Instant)
    requires Queued(handles, expire, cleanup)
    requires IsAcquired(handles, id) && s.streamId == id && s.db.Some?
    ensures Queued(handles[id := Available(s)], expire[id := at], cleanup)
  {
    var handles' := handles[id := Available(s)];
    assert forall x :: IsAvailable(handles', x) <==> x == id || IsAvailable(handles, x);
    assert forall x :: IsExpired(handles', x) <==> IsExpired(handles, x);
  }

  lemma QueuedRemove(handles: Handles, expire: Expiries, cleanup: seq<Entry>, id: StreamId)
    requires Queued(handles, expire, cleanup) && IsAcquired(handles, id)
    ensures Queued(handles - {id}, expire, cleanup)
  {
    var handles' := handles - {id};
    assert forall x :: IsAvailable(handles', x) <==> IsAvailable(handles, x);
    assert forall x :: IsExpired(handles', x) <==> IsExpired(handles, x);
  }

  lemma QueuedExpire(handles: Handles, expire: Expiries, cleanup: seq<Entry>, id: StreamId, at: Instant)
    requires Queued(handles, expire, cleanup) && id in expire
    ensures Queued(handles[id := Expired], expire - {id}, cleanup + [Entry(id, at)])
  {
    var handles' := handles[id := Expired];
    var cleanup' := cleanup + [Entry(id, at)];
    assert IsAvailable(handles, id) && !HasEntry(cleanup, id);
    assert forall x :: IsAvailable(handles', x) <==> x != id && IsAvailable(handles, x);
    assert forall x :: IsExpired(handles', x) <==> x == id || IsExpired(handles, x);
    assert cleanup'[|cleanup|].id == id;
    forall x
      ensures HasEntry(cleanup', x) <==> x == id || HasEntry(cleanup, x)
    {
      if HasEntry(cleanup, x) {
        var i :| 0 <= i < |cleanup| && cleanup[i].id == x;
        assert cleanup'[i].id == x;
      }
    }
  }

  lemma QueuedCleanup(handles: Handles, expire: Expiries, cleanup: seq<Entry>)
    requires Queued(handles, expire, cleanup) && cleanup != []
    ensures IsExpired(handles, cleanup[0].id)
    ensures Queued(handles - {cleanup[0].id}, expire, cleanup[1..])
  {
    var id := cleanup[0].id;
    var handles', cleanup' := handles - {id}, cleanup[1..];
    assert HasEntry(cleanup, id);
    assert forall x :: IsAvailable(handles', x) <==> IsAvailable(handles, x);
    assert forall x :: IsExpired(handles', x) <==> x != id && IsExpired(handles, x);
    forall x | HasEntry(cleanup', x)
      ensures x != id && HasEntry(cleanup, x)
    {
      var i :| 0 <= i < |cleanup'| && cleanup'[i].id == x;
      assert cleanup[i + 1].id == x;
    }
    forall x | x != id && HasEntry(cleanup, x)
      ensures HasEntry(cleanup', x)
    {
      var i :| 0 <= i < |cleanup| && cleanup[i].id == x;
      assert cleanup'[i - 1].id == x;
    }
  }

  // ---------------------------------------------------------------- times

  /** The next whole second after `instant`, counted from `base`. */
  function RoundupInstant(base: Instant, instant: Instant): (r: Instant)
    requires base <= instant
    ensures instant < r <= instant + SECOND
    ensures (r - base) % SECOND == 0
  {
    var durationS := (instant - base) / SECOND;
    base + (durationS + 1) * SECOND
  }

  lemma RoundupMonotone(base: Instant, a: Instant, b: Instant)
    requires base <= a <= b
    ensures RoundupInstant(base, a) <= RoundupInstant(base, b)
  {
    var x, y := (a - base) / SECOND, (b - base) / SECOND;
    assert x <= y;
  }

  /** Cleanups are in order, and none is later than a stream expired by `now` would get. */
  ghost predicate InOrder(cleanup: seq<Entry>, base: Instant, now: Instant)
    requires base <= now
  {
    && (forall i, j :: 0 <= i < j < |cleanup| ==> cleanup[i].at <= cleanup[j].at)
    && (forall i :: 0 <= i < |cleanup| ==> cleanup[i].at <= RoundupInstant(base, now + CLEANUP))
  }

  lemma InOrderLater(cleanup: seq<Entry>, base: Instant, now: Instant, later: Instant)
    requires base <= now <= later && InOrder(cleanup, base, now)
    ensures InOrder(cleanup, base, later)
  {
    hide RoundupInstant;
    RoundupMonotone(base, now + CLEANUP, later + CLEANUP);
  }

  lemma InOrderPush(cleanup: seq<Entry>, base: Instant, now: Instant, id: StreamId)
    requires base <= now && InOrder(cleanup, base, now)
    ensures InOrder(cleanup + [Entry(id, RoundupInstant(base, now + CLEANUP))], base, now)
  {
    hide RoundupInstant;
  }

  lemma InOrderPop(cleanup: seq<Entry>, base: Instant, now: Instant)
    requires base <= now && InOrder(cleanup, base, now) && cleanup != []
    ensures InOrder(cleanup[1..], base, now)
  {
    hide RoundupInstant;
  }

  /** Each released stream expires more than 10 and at most 11 seconds after its release. */
  ghost predicate ExpiresInTime(expire: Expiries, released: map<StreamId, Instant>) {
    forall id :: id in expire ==>
      id in released && released[id] + EXPIRATION < expire[id] <= released[id] + EXPIRATION + SECOND
  }

  /** No expiry is lost: a pump is owed, or the timer fires no later than any expiry. */
  ghost predicate TimerSet(expire: Expiries, wakerSet: bool, deadline: Instant, pumpOwed: bool) {
    && (pumpOwed <==> !wakerSet)
    && (!wakerSet || forall id :: id in expire ==> deadline <= expire[id])
  }

  lemma TimesWithout(expire: Expiries, released: map<StreamId, Instant>, id: StreamId,
                     wakerSet: bool, deadline: Instant, pumpOwed: bool)
    requires ExpiresInTime(expire, released) && TimerSet(expire, wakerSet, deadline, pumpOwed)
    ensures ExpiresInTime(expire - {id}, released) && TimerSet(expire - {id}, wakerSet, deadline, pumpOwed)
  {
  }

  /** A release sets the expiry; unless the timer fires early enough, the expiry task is woken. */
  lemma TimesRelease(expire: Expiries, released: map<StreamId, Instant>, id: StreamId, base: Instant, now: Instant,
                     wakerSet: bool, deadline: Instant, pumpOwed: bool)
    requires base <= now && ExpiresInTime(expire, released) && TimerSet(expire, wakerSet, deadline, pumpOwed)
    ensures var at := RoundupInstant(base, now + EXPIRATION);
      var woken := wakerSet && deadline > at;
      && ExpiresInTime(expire[id := at], released[id := now])
      && TimerSet(expire[id := at], wakerSet && !woken, deadline, pumpOwed || woken)
  {
    hide RoundupInstant;
  }

  lemma TimesPump(expire: Expiries, released: map<StreamId, Instant>, now: Instant, wakeupAt: Instant)
    requires ExpiresInTime(expire, released) && forall id :: id in NotDue(expire, now) ==> wakeupAt <= expire[id]
    ensures ExpiresInTime(NotDue(expire, now), released) && TimerSet(NotDue(expire, now), true, wakeupAt, false)
    ensures forall id :: id in NotDue(expire, now) ==> now < NotDue(expire, now)[id]
  {
  }

  // ---------------------------------------------------------------- what a pump does

  ghost predicate Due(expire: Expiries, id: StreamId, now: Instant) {
    id in expire && expire[id] <= now
  }

  ghost predicate CleanupDue(cleanup: seq<Entry>, id: StreamId, now: Instant) {
    exists i :: 0 <= i < |cleanup| && cleanup[i].id == id && cleanup[i].at <= now
  }

  /** The handles once the streams that left the queue `expire` for `expire'` are expired. */
  ghost function Marked(handles: Handles, expire: Expiries, expire': Expiries): Handles {
    map id | id in handles :: if id in expire && id !in expire' then Expired else handles[id]
  }

  /** A later state of the queue: entries that were due are gone. */
  ghost predicate Popped(expire: Expiries, expire': Expiries, now: Instant) {
    && (forall id :: id in expire' ==> id in expire && expire'[id] == expire[id])
    && (forall id :: id in expire && id !in expire' ==> Due(expire, id, now))
  }

  lemma MarkedStep(handles: Handles, expire: Expiries, expire': Expiries, now: Instant, id: StreamId)
    requires Popped(expire, expire', now) && id in expire' && expire'[id] <= now && id in handles
    ensures Popped(expire, expire' - {id}, now)
    ensures Marked(handles, expire, expire')[id := Expired] == Marked(handles, expire, expire' - {id})
  {
  }

  lemma MarkedNone(handles: Handles, expire: Expiries, now: Instant)
    ensures Popped(expire, expire, now) && Marked(handles, expire, expire) == handles
  {
  }

  ghost predicate IsEarliest(expire: Expiries, id: StreamId) {
    id in expire && forall x :: x in expire ==> expire[id] <= expire[x]
  }

  lemma EarliestExists(expire: Expiries)
    requires expire != map[]
    ensures exists id :: IsEarliest(expire, id)
    decreases |expire|
  {
    var id :| id in expire;
    var rest := expire - {id};
    if rest == map[] {
      assert forall x :: x in expire && x != id ==> x in rest;
      assert IsEarliest(expire, id);
    } else {
      EarliestExists(rest);
      var y :| IsEarliest(rest, y);
      assert forall x :: x in expire && x != id ==> x in rest;
      assert IsEarliest(expire, if expire[id] <= expire[y] then id else y);
    }
  }

  /** The entries that are not due yet. */
  ghost function NotDue(expire: Expiries, now: Instant): Expiries {
    map id | id in expire && expire[id] > now :: expire[id]
  }

  lemma NotDueValues(expire: Expiries, now: Instant)
    ensures forall id :: id in NotDue(expire, now) ==> id in expire && NotDue(expire, now)[id] == expire[id]
  {
  }

  lemma PoppedAll(expire: Expiries, expire': Expiries, now: Instant)
    requires Popped(expire, expire', now) && forall id :: id in expire' ==> expire'[id] > now
    ensures expire' == NotDue(expire, now)
  {
  }

  /** The handles without the streams whose cleanup is due. */
  ghost function Cleaned(handles: Handles, cleanup: seq<Entry>, now: Instant): Handles {
    map id | id in handles && !CleanupDue(cleanup, id, now) :: handles[id]
  }

  lemma CleanedStep(handles: Handles, cleanup: seq<Entry>, k: nat, now: Instant)
    requires k < |cleanup| && cleanup[k].at <= now
    ensures Cleaned(handles, cleanup[..k], now) - {cleanup[k].id} == Cleaned(handles, cleanup[..k + 1], now)
  {
    var a, b := cleanup[..k], cleanup[..k + 1];
    assert b[k] == cleanup[k];
    forall id
      ensures CleanupDue(b, id, now) <==> CleanupDue(a, id, now) || id == cleanup[k].id
    {
      if CleanupDue(a, id, now) {
        var i :| 0 <= i < |a| && a[i].id == id && a[i].at <= now;
        assert b[i] == a[i];
      }
    }
  }

  /** Entries that are not due do not matter. */
  lemma CleanedPrefix(handles: Handles, cleanup: seq<Entry>, k: nat, now: Instant)
    requires k <= |cleanup| && forall i :: k <= i < |cleanup| ==> cleanup[i].at > now
    ensures Cleaned(handles, cleanup[..k], now) == Cleaned(handles, cleanup, now)
  {
    forall id
      ensures CleanupDue(cleanup[..k], id, now) <==> CleanupDue(cleanup, id, now)
    {
      if CleanupDue(cleanup, id, now) {
        var i :| 0 <= i < |cleanup| && cleanup[i].id == id && cleanup[i].at <= now;
        assert cleanup[..k][i] == cleanup[i];
      }
    }
  }

  lemma CleanedNone(handles: Handles, now: Instant)
    ensures Cleaned(handles, [], now) == handles
  {
  }

  // ---------------------------------------------------------------- the life of a stream

  /** The batons of one stream: the first sequence number, those issued and those accepted. */
  datatype Life = Life(first: nat, issued: seq<nat>, accepted: seq<nat>)

  function Issue(life: Life, batonSeq: nat): Life {
    life.(issued := life.issued + [batonSeq])
  }

  /** The sequence number after `k` acquisitions. */
  function SeqAfter(first: nat, k: nat): nat {
    (first + k) % U64_RANGE
  }

  ghost predicate CountsUp(s: seq<nat>, first: nat) {
    forall k :: 0 <= k < |s| ==> s[k] == SeqAfter(first, k)
  }

  /** Batons count up from the first number; a stream in use has none outstanding, a released
      one has exactly the last one issued. */
  ghost predicate Lived(life: Life, inUse: bool, batonSeq: nat) {
    && CountsUp(life.issued, life.first)
    && CountsUp(life.accepted, life.first)
    && |life.issued| == |life.accepted| + (if inUse then 0 else 1)
    && batonSeq == SeqAfter(life.first, |life.accepted|)
  }

  lemma LivedAccept(life: Life, batonSeq: nat)
    requires Lived(life, false, batonSeq)
    ensures Lived(life.(accepted := life.accepted + [batonSeq]), true, (batonSeq + 1) % U64_RANGE)
  {
  }

  /** The baton that an available stream expects is the last one issued for it. */
  lemma LastIssued(life: Life, batonSeq: nat)
    requires Lived(life, false, batonSeq)
    ensures life.issued != [] && life.issued[|life.issued| - 1] == batonSeq
  {
  }

  lemma LivedIssue(life: Life, batonSeq: nat)
    requires Lived(life, true, batonSeq)
    ensures Lived(life.(issued := life.issued + [batonSeq]), false, batonSeq)
  {
  }

  /** Exactly the acquired streams are in use; every stream that can still be used has lived. */
  ghost predicate AllLived(handles: Handles, inUse: map<StreamId, nat>, lives: map<StreamId, Life>) {
    && (forall id :: id in inUse <==> IsAcquired(handles, id))
    && (forall id :: IsAvailable(handles, id) ==>
          id in lives && Lived(lives[id], false, handles[id].stream.batonSeq))
    && (forall id :: id in inUse ==> id in lives && Lived(lives[id], true, inUse[id]))
  }

  lemma AllLivedAccept(handles: Handles, inUse: map<StreamId, nat>, lives: map<StreamId, Life>, id: StreamId)
    requires AllLived(handles, inUse, lives) && IsAvailable(handles, id)
    ensures id in lives && Lived(lives[id], false, handles[id].stream.batonSeq)
    ensures var batonSeq := handles[id].stream.batonSeq;
      AllLived(handles[id := Acquired], inUse[id := (batonSeq + 1) % U64_RANGE],
               lives[id := lives[id].(accepted := lives[id].accepted + [batonSeq])])
  {
    hide Lived;
    var handles' := handles[id := Acquired];
    LivedAccept(lives[id], handles[id].stream.batonSeq);
    assert forall x :: IsAvailable(handles', x) <==> x != id && IsAvailable(handles, x);
    assert forall x :: IsAcquired(handles', x) <==> x == id || IsAcquired(handles, x);
  }

  lemma AllLivedNew(handles: Handles, inUse: map<StreamId, nat>, lives: map<StreamId, Life>, id: StreamId, first: nat)
    requires AllLived(handles, inUse, lives) && id !in handles && first < U64_RANGE
    ensures AllLived(handles[id := Acquired], inUse[id := first], lives[id := Life(first, [], [])])
  {
    assert Lived(Life(first, [], []), true, first);
    hide Lived;
    var handles' := handles[id := Acquired];
    assert forall x :: IsAvailable(handles', x) <==> IsAvailable(handles, x);
    assert forall x :: IsAcquired(handles', x) <==> x == id || IsAcquired(handles, x);
  }

  lemma AllLivedIssue(handles: Handles, inUse: map<StreamId, nat>, lives: map<StreamId, Life>, id: StreamId, s: Stream)
    requires AllLived(handles, inUse, lives) && id in inUse && s.batonSeq == inUse[id]
    ensures id in lives
    ensures AllLived(handles[id := Available(s)], inUse - {id},
                     lives[id := Issue(lives[id], s.batonSeq)])
  {
    hide Lived;
    var handles' := handles[id := Available(s)];
    LivedIssue(lives[id], s.batonSeq);
    assert forall x :: IsAvailable(handles', x) <==> x == id || IsAvailable(handles, x);
    assert forall x :: IsAcquired(handles', x) <==> x != id && IsAcquired(handles, x);
  }

  /** A stream that is closed, expired or cleaned up leaves the others as they are. */
  lemma AllLivedLess(handles: Handles, handles': Handles, inUse: map<StreamId, nat>, lives: map<StreamId, Life>,
                     id: StreamId)
    requires AllLived(handles, inUse, lives)
    requires handles' == handles - {id} || handles' == handles[id := Expired]
    ensures AllLived(handles', inUse - {id}, lives)
  {
    hide Lived;
    assert forall x :: IsAvailable(handles', x) <==> x != id && IsAvailable(handles, x);
    assert forall x :: IsAcquired(handles', x) <==> x != id && IsAcquired(handles, x);
  }

  lemma NotInUse(handles: Handles, inUse: map<StreamId, nat>, lives: map<StreamId, Life>, id: StreamId)
    requires AllLived(handles, inUse, lives) && (IsAvailable(handles, id) || IsExpired(handles, id))
    ensures inUse - {id} == inUse
  {
    assert !IsAcquired(handles, id);
  }

  /** Two acquisitions of one stream accept the same baton if and only if a multiple of 2^64
      acquisitions lies between them; so in fewer than 2^64 none is accepted twice. */
  lemma BatonAcceptedOnce(life: Life, inUse: bool, batonSeq: nat, i: nat, j: nat)
    requires Lived(life, inUse, batonSeq) && i < j < |life.accepted|
    ensures life.accepted[i] == life.accepted[j] <==> (j - i) % U64_RANGE == 0
    ensures |life.accepted| <= U64_RANGE ==> life.accepted[i] != life.accepted[j]
  {
    SeqRepeats(life.first, i, j);
  }

  lemma SeqRepeats(first: nat, i: nat, j: nat)
    requires i < j
    ensures SeqAfter(first, i) == SeqAfter(first, j) <==> (j - i) % U64_RANGE == 0
  {
    var a, b := (first + i) / U64_RANGE, (first + j) / U64_RANGE;
    assert first + i == a * U64_RANGE + SeqAfter(first, i);
    assert first + j == b * U64_RANGE + SeqAfter(first, j);
    if SeqAfter(first, i) == SeqAfter(first, j) {
      assert j - i == (b - a) * U64_RANGE;
    }
  }

  // ---------------------------------------------------------------- the table

  /** A request's hold on a stream; dropped when the stream is taken out of it. */
  class Guard {
    var stream: Option<Stream>

    constructor (s: Stream)
      ensures stream == Some(s)
    {
      stream := Some(s);
    }

    /** Closes the database connection; the table need not know. */
    method CloseDb(ghost table: ServerStreamState)
      requires table.Valid() && table.Live(this)
      modifies this
      ensures stream == Some(old(stream).value.(db := None))
      ensures table.Valid() && table.Live(this)
    {
      stream := Some(stream.value.(db := None));
    }
  }

  datatype AcquireResult = Granted(guard: Guard) | BatonInvalid | BatonReused | StreamExpired

  class ServerStreamState {
    var handles: Handles
    /** a priority queue: the earliest expiry is popped first */
    var expireQueue: Expiries
    var cleanupQueue: seq<Entry>
    var expireDeadline: Instant
    var expireWaker: bool
    const expireRoundBase: Instant

    /** the latest reading of the clock */
    ghost var lastNow: Instant
    /** the expiry task was woken and has not run yet */
    ghost var pumpOwed: bool
    /** the guard of every stream in use, and the sequence number it holds */
    ghost var held: map<StreamId, Guard>
    ghost var inUse: map<StreamId, nat>
    ghost var released: map<StreamId, Instant>
    ghost var lives: map<StreamId, Life>

    ghost predicate Timed()
      reads this`lastNow, this`cleanupQueue, this`expireQueue, this`released, this`expireWaker, this`expireDeadline,
        this`pumpOwed
    {
      && expireRoundBase <= lastNow
      && InOrder(cleanupQueue, expireRoundBase, lastNow)
      && ExpiresInTime(expireQueue, released)
      && TimerSet(expireQueue, expireWaker, expireDeadline, pumpOwed)
    }

    /** Each stream in use is held by the one guard that knows its id. */
    ghost predicate Guarded()
      reads this`held, this`inUse, held.Values
    {
      && held.Keys == inUse.Keys
      && (forall id :: id in held ==>
            && held[id].stream.Some?
            && held[id].stream.value.streamId == id
            && held[id].stream.value.batonSeq == inUse[id])
    }

    ghost predicate Valid()
      reads this, held.Values
    {
      Queued(handles, expireQueue, cleanupQueue) && Timed() && Guarded() && AllLived(handles, inUse, lives)
    }

    /** The guard is in use. */
    ghost predicate Live(g: Guard)
      reads this`held, g
    {
      g.stream.Some? && g.stream.value.streamId in held && held[g.stream.value.streamId] == g
    }

    constructor (now: Instant)
      ensures Valid() && handles == map[] && held == map[]
    {
      handles, expireQueue, cleanupQueue := map[], map[], [];
      expireDeadline, expireWaker, expireRoundBase := now, false, now;
      held, inUse, released, lives := map[], map[], map[], map[];
      lastNow, pumpOwed := now, true;
    }

    /** Looks up the stream of a baton.  A baton is accepted if and only if its stream is
        available and it is the last one issued for it. */
    method AcquireExisting(id: StreamId, batonSeq: nat) returns (r: AcquireResult)
      requires Valid()
      modifies this`handles, this`expireQueue, this`held, this`inUse, this`lives
      ensures Valid()
      ensures r.Granted? <==>
        old(IsAvailable(handles, id) && lives[id].issued != [] && lives[id].issued[|lives[id].issued| - 1] == batonSeq)
      ensures r.BatonInvalid? <==> id !in old(handles)
      ensures r.StreamExpired? <==> old(IsExpired(handles, id))
      ensures !r.Granted? ==> unchanged(this)
      ensures r.Granted? ==>
        && fresh(r.guard) && Live(r.guard)
        && r.guard.stream.value == old(handles)[id].stream.(batonSeq := (batonSeq + 1) % U64_RANGE)
        && held == old(held)[id := r.guard]
        && handles == old(handles)[id := Acquired]
        && lives == old(lives)[id := old(lives)[id].(accepted := old(lives)[id].accepted + [batonSeq])]
    {
      hide Queued, InOrder, ExpiresInTime, TimerSet, Lived, AllLived;
      if id !in handles {
        return BatonInvalid;
      }
      match handles[id] {
        case Acquired =>
          return BatonReused;
        case Expired =>
          return StreamExpired;
        case Available(stream) =>
          AllLivedAccept(handles, inUse, lives, id);
          LastIssued(lives[id], stream.batonSeq);
          if stream.batonSeq != batonSeq {
            return BatonReused;
          }
          var guard := Grant(id, batonSeq);
          return Granted(guard);
      }
    }

    method Grant(id: StreamId, batonSeq: nat) returns (guard: Guard)
      requires Valid() && IsAvailable(handles, id) && handles[id].stream.batonSeq == batonSeq
      requires id in lives
      modifies this`handles, this`expireQueue, this`held, this`inUse, this`lives
      ensures Valid()
      ensures fresh(guard) && Live(guard)
      ensures guard.stream.value == old(handles)[id].stream.(batonSeq := (batonSeq + 1) % U64_RANGE)
      ensures held == old(held)[id := guard]
      ensures handles == old(handles)[id := Acquired]
      ensures lives == old(lives)[id := old(lives)[id].(accepted := old(lives)[id].accepted + [batonSeq])]
    {
      hide Queued, Timed, Lived, AllLived, Guarded, IsAcquired, IsExpired;
      AllLivedAccept(handles, inUse, lives, id);
      QueuedStream(handles, expireQueue, cleanupQueue, id);
      QueuedAcquire(handles, expireQueue, cleanupQueue, id);
      var stream := handles[id].stream;
      guard := Hold(stream.(batonSeq := (stream.batonSeq + 1) % U64_RANGE));
      handles := handles[id := Acquired];
      UnmarkExpire(id);
      lives := lives[id := lives[id].(accepted := lives[id].accepted + [batonSeq])];
    }

    method UnmarkExpire(id: StreamId)
      requires Timed()
      modifies this`expireQueue
      ensures Timed() && expireQueue == old(expireQueue) - {id}
    {
      hide InOrder, ExpiresInTime, TimerSet;
      TimesWithout(expireQueue, released, id, expireWaker, expireDeadline, pumpOwed);
      expireQueue := expireQueue - {id};
    }

    /** The clock is read. */
    ghost method Tick(now: Instant)
      requires Timed() && lastNow <= now
      modifies this`lastNow
      ensures Timed() && lastNow == now && expireRoundBase <= now
    {
      hide InOrder, ExpiresInTime, TimerSet;
      InOrderLater(cleanupQueue, expireRoundBase, lastNow, now);
      lastNow := now;
    }

    /** Hands a stream to a request. */
    method Hold(s: Stream) returns (guard: Guard)
      requires Guarded()
      modifies this`held, this`inUse
      ensures Guarded() && fresh(guard) && guard.stream == Some(s) && Live(guard)
      ensures held == old(held)[s.streamId := guard] && inUse == old(inUse)[s.streamId := s.batonSeq]
    {
      guard := new Guard(s);
      held, inUse := held[s.streamId := guard], inUse[s.streamId := s.batonSeq];
    }

    /** Draws up to ten random ids until one is free; `None` stands for the panic. */
    method GenStreamId(random: nat -> StreamId) returns (id: Option<StreamId>)
      ensures id.Some? ==>
        exists i: nat :: i < 10 && id.value == random(i) && id.value !in handles &&
          forall j: nat :: j < i ==> random(j) in handles
      ensures id.None? <==> forall i: nat :: i < 10 ==> random(i) in handles
    {
      for i: nat := 0 to 10
        invariant forall j: nat :: j < i ==> random(j) in handles
      {
        if random(i) !in handles {
          return Some(random(i));
        }
      }
      return None;
    }

    /** Opens a new stream; `None` stands for the panic when no free id was drawn. */
    method AcquireNew(db: ConnectionId, random: nat -> StreamId, batonSeq: nat) returns (g: Option<Guard>)
      requires Valid() && batonSeq < U64_RANGE
      modifies this`handles, this`held, this`inUse, this`lives
      ensures Valid()
      ensures g.None? <==> forall i: nat :: i < 10 ==> random(i) in old(handles)
      ensures g.None? ==> unchanged(this)
      ensures g.Some? ==>
        && fresh(g.value) && Live(g.value)
        && var id := g.value.stream.value.streamId;
        && id !in old(handles) && g.value.stream.value == Stream(Some(db), map[], id, batonSeq)
        && held == old(held)[id := g.value] && handles == old(handles)[id := Acquired]
        && lives == old(lives)[id := Life(batonSeq, [], [])]
    {
      hide Queued, Timed, Lived, AllLived, Guarded, IsAvailable, IsAcquired, IsExpired;
      var id := GenStreamId(random);
      if id.None? {
        return None;
      }
      QueuedNew(handles, expireQueue, cleanupQueue, id.value);
      AllLivedNew(handles, inUse, lives, id.value, batonSeq);
      var guard := Hold(Stream(Some(db), map[], id.value, batonSeq));
      handles := handles[id.value := Acquired];
      lives := lives[id.value := Life(batonSeq, [], [])];
      return Some(guard);
    }

    /** Releases the guard.  Returns the baton for the next request, or `None` when the stream
        was closed. */
    method Release(g: Guard, now: Instant) returns (baton: Option<(StreamId, nat)>)
      requires Valid() && Live(g) && lastNow <= now
      modifies this, g
      ensures Valid() && g.stream.None? && lastNow == now
      ensures var s := old(g.stream.value);
        && held == old(held) - {s.streamId}
        && baton == (if s.db.Some? then Some((s.streamId, s.batonSeq)) else None)
        && (s.db.Some? ==>
              && handles == old(handles)[s.streamId := Available(s)]
              && released == old(released)[s.streamId := now]
              && lives == old(lives[s.streamId := Issue(lives[s.streamId], s.batonSeq)]))
        && (s.db.None? ==> handles == old(handles) - {s.streamId})
    {
      hide Queued, Timed, Lived, AllLived, Guarded;
      if g.stream.value.db.Some? {
        baton := Some((g.stream.value.streamId, g.stream.value.batonSeq));
        Drop(g, true, now);
      } else {
        baton := None;
        Drop(g, false, now);
      }
    }

    /** No expiry is lost: the waker slot is empty and a pump is owed, or the timer fires at or
        before every queued expiry; and each of these lies in the eleventh second after the
        release. */
    lemma NoExpiryIsLost()
      requires Valid()
      ensures (!expireWaker && pumpOwed) || (forall id :: id in expireQueue ==> expireDeadline <= expireQueue[id])
      ensures forall id :: IsAvailable(handles, id) ==>
        && id in released && id in expireQueue
        && released[id] + 10_000_000_000 < expireQueue[id] <= released[id] + 11_000_000_000
    {
    }

    /** The two checks of the destructor never fail: the stream of a live guard is there, and
        it is acquired. */
    lemma DropIsSafe(g: Guard)
      requires Valid() && Live(g)
      ensures IsAcquired(handles, g.stream.value.streamId)
      ensures g.stream.value.streamId in inUse && inUse[g.stream.value.streamId] == g.stream.value.batonSeq
      ensures g.stream.value.streamId in lives
    {
      hide Queued, Timed, Lived;
    }

    /** The destructor of a guard: the stream goes back to the table, or away. */
    method Drop(g: Guard, release: bool, now: Instant)
      requires Valid() && Live(g) && lastNow <= now
      requires release ==> g.stream.value.db.Some?
      modifies this, g
      ensures Valid() && g.stream.None? && lastNow == now
      ensures var s := old(g.stream.value);
        && held == old(held) - {s.streamId}
        && (release ==>
              && handles == old(handles)[s.streamId := Available(s)]
              && released == old(released)[s.streamId := now]
              && lives == old(lives[s.streamId := Issue(lives[s.streamId], s.batonSeq)]))
        && (!release ==>
              && handles == old(handles) - {s.streamId}
              && expireQueue == old(expireQueue) && released == old(released) && lives == old(lives))
    {
      hide Queued, Timed, Lived, AllLived, Guarded, RoundupInstant, IsAvailable, IsExpired;
      DropIsSafe(g);
      var s := g.stream.value;
      var id := s.streamId;
      Tick(now);
      if release {
        QueuedRelease(handles, expireQueue, cleanupQueue, id, s, RoundupInstant(expireRoundBase, now + EXPIRATION));
        AllLivedIssue(handles, inUse, lives, id, s);
        lives := lives[id := Issue(lives[id], s.batonSeq)];
        handles := handles[id := Available(s)];
        MarkExpire(id, now);
      } else {
        QueuedRemove(handles, expireQueue, cleanupQueue, id);
        AllLivedLess(handles, handles - {id}, inUse, lives, id);
        handles := handles - {id};
      }
      LetGo(g, id);
    }

    method LetGo(g: Guard, id: StreamId)
      requires Guarded() && Live(g) && id == g.stream.value.streamId
      modifies this`held, this`inUse, g
      ensures Guarded() && g.stream.None?
      ensures held == old(held) - {id} && inUse == old(inUse) - {id}
    {
      g.stream := None;
      held, inUse := held - {id}, inUse - {id};
    }

    method MarkExpire(id: StreamId, now: Instant)
      requires Timed() && lastNow == now && expireRoundBase <= now
      modifies this`expireQueue, this`expireWaker, this`pumpOwed, this`released
      ensures Timed()
      ensures expireQueue == old(expireQueue)[id := RoundupInstant(expireRoundBase, now + EXPIRATION)]
      ensures released == old(released)[id := now]
    {
      hide ExpiresInTime, TimerSet, RoundupInstant, InOrder;
      TimesRelease(expireQueue, released, id, expireRoundBase, now, expireWaker, expireDeadline, pumpOwed);
      var expireAt := RoundupInstant(expireRoundBase, now + EXPIRATION);
      if expireDeadline > expireAt {
        if expireWaker {
          expireWaker := false;
          pumpOwed := true;
        }
      }
      expireQueue := expireQueue[id := expireAt];
      released := released[id := now];
    }

    /** The stream with the earliest expiry. */
    method Peek() returns (id: StreamId)
      requires expireQueue != map[]
      ensures IsEarliest(expireQueue, id)
    {
      EarliestExists(expireQueue);
      id :| id in expireQueue && forall x :: x in expireQueue ==> expireQueue[id] <= expireQueue[x];
    }

    /** Expires the streams that are due; returns when the next one is. */
    method ExpireDue(now: Instant) returns (wakeupAt: Instant)
      requires Queued(handles, expireQueue, cleanupQueue) && AllLived(handles, inUse, lives)
      requires expireRoundBase <= now && InOrder(cleanupQueue, expireRoundBase, now)
      modifies this`handles, this`expireQueue, this`cleanupQueue
      ensures Queued(handles, expireQueue, cleanupQueue) && AllLived(handles, inUse, lives)
      ensures InOrder(cleanupQueue, expireRoundBase, now)
      ensures expireQueue == NotDue(old(expireQueue), now)
      ensures handles == Marked(old(handles), old(expireQueue), expireQueue)
      ensures old(cleanupQueue) <= cleanupQueue
      ensures forall i :: |old(cleanupQueue)| <= i < |cleanupQueue| ==>
        now + 300_000_000_000 < cleanupQueue[i].at <= now + 301_000_000_000
      ensures forall id :: id in expireQueue ==> wakeupAt <= expireQueue[id]
      ensures if expireQueue == map[] then wakeupAt == now + 60_000_000_000
              else exists id :: id in expireQueue && wakeupAt == expireQueue[id]
    {
      hide Queued, InOrder, AllLived, Marked, Popped, NotDue;
      MarkedNone(handles, expireQueue, now);
      wakeupAt := now + 60 * SECOND;
      while expireQueue != map[]
        invariant Queued(handles, expireQueue, cleanupQueue) && AllLived(handles, inUse, lives)
        invariant InOrder(cleanupQueue, expireRoundBase, now)
        invariant Popped(old(expireQueue), expireQueue, now)
        invariant handles == Marked(old(handles), old(expireQueue), expireQueue)
        invariant old(cleanupQueue) <= cleanupQueue
        invariant forall i :: |old(cleanupQueue)| <= i < |cleanupQueue| ==>
          now + CLEANUP < cleanupQueue[i].at <= now + CLEANUP + SECOND
        decreases |expireQueue|
      {
        var id := Peek();
        if expireQueue[id] > now {
          wakeupAt := expireQueue[id];
          break;
        }
        ExpireOne(id, now, old(handles), old(expireQueue));
      }
      PoppedAll(old(expireQueue), expireQueue, now);
    }

    /** Every stream in the queue is available: the arm that skips others is never taken. */
    method ExpireOne(id: StreamId, now: Instant, ghost handles0: Handles, ghost expire0: Expiries)
      requires Queued(handles, expireQueue, cleanupQueue) && AllLived(handles, inUse, lives)
      requires expireRoundBase <= now && InOrder(cleanupQueue, expireRoundBase, now)
      requires id in expireQueue && expireQueue[id] <= now
      requires Popped(expire0, expireQueue, now) && handles == Marked(handles0, expire0, expireQueue)
      modifies this`handles, this`expireQueue, this`cleanupQueue
      ensures Queued(handles, expireQueue, cleanupQueue) && AllLived(handles, inUse, lives)
      ensures InOrder(cleanupQueue, expireRoundBase, now)
      ensures Popped(expire0, expireQueue, now) && handles == Marked(handles0, expire0, expireQueue)
      ensures expireQueue == old(expireQueue) - {id}
      ensures cleanupQueue == old(cleanupQueue) + [Entry(id, RoundupInstant(expireRoundBase, now + CLEANUP))]
    {
      hide InOrder, AllLived, Popped, RoundupInstant;
      assert IsAvailable(handles, id);
      hide Queued;
      var cleanupAt := RoundupInstant(expireRoundBase, now + CLEANUP);
      QueuedExpire(handles, expireQueue, cleanupQueue, id, cleanupAt);
      AllLivedLess(handles, handles[id := Expired], inUse, lives, id);
      NotInUse(handles, inUse, lives, id);
      InOrderPush(cleanupQueue, expireRoundBase, now, id);
      MarkedStep(handles0, expire0, expireQueue, now, id);
      expireQueue := expireQueue - {id};
      handles := handles[id := Expired];
      cleanupQueue := cleanupQueue + [Entry(id, cleanupAt)];
    }

    /** Removes the streams whose cleanup is due; each of them is expired. */
    method CleanDue(now: Instant)
      requires Queued(handles, expireQueue, cleanupQueue) && AllLived(handles, inUse, lives)
      requires expireRoundBase <= now && InOrder(cleanupQueue, expireRoundBase, now)
      modifies this`handles, this`cleanupQueue
      ensures Queued(handles, expireQueue, cleanupQueue) && AllLived(handles, inUse, lives)
      ensures InOrder(cleanupQueue, expireRoundBase, now)
      ensures handles == Cleaned(old(handles), old(cleanupQueue), now)
      ensures forall i :: 0 <= i < |cleanupQueue| ==> now < cleanupQueue[i].at
    {
      hide Queued, AllLived, Cleaned, RoundupInstant;
      ghost var k := 0;
      CleanedNone(handles, now);
      while cleanupQueue != [] && cleanupQueue[0].at <= now
        invariant Queued(handles, expireQueue, cleanupQueue) && AllLived(handles, inUse, lives)
        invariant InOrder(cleanupQueue, expireRoundBase, now)
        invariant 0 <= k <= |old(cleanupQueue)| && cleanupQueue == old(cleanupQueue)[k..]
        invariant handles == Cleaned(old(handles), old(cleanupQueue)[..k], now)
        decreases |cleanupQueue|
      {
        var id := cleanupQueue[0].id;
        QueuedCleanup(handles, expireQueue, cleanupQueue);
        assert IsExpired(handles, id);
        AllLivedLess(handles, handles - {id}, inUse, lives, id);
        NotInUse(handles, inUse, lives, id);
        InOrderPop(cleanupQueue, expireRoundBase, now);
        CleanedStep(old(handles), old(cleanupQueue), k, now);
        cleanupQueue := cleanupQueue[1..];
        handles := handles - {id};
        k := k + 1;
      }
      CleanedPrefix(old(handles), old(cleanupQueue), k, now);
    }

    /** Expires and cleans up what is due, then sets the timer. */
    method PumpExpire(now: Instant)
      requires Valid() && lastNow <= now
      modifies this
      ensures Valid() && lastNow == now && expireWaker && !pumpOwed
      ensures expireQueue == NotDue(old(expireQueue), now)
      ensures handles == Cleaned(Marked(old(handles), old(expireQueue), expireQueue), old(cleanupQueue), now)
      ensures forall id :: id in expireQueue ==> now < expireQueue[id] && expireDeadline <= expireQueue[id]
      ensures if expireQueue == map[] then expireDeadline == now + 60_000_000_000
              else exists id :: id in expireQueue && expireDeadline == expireQueue[id]
      ensures forall i :: 0 <= i < |cleanupQueue| ==> now < cleanupQueue[i].at
      ensures held == old(held) && lives == old(lives) && released == old(released)
    {
      hide Queued, InOrder, AllLived, Cleaned, Marked, ExpiresInTime, TimerSet, NotDue, Guarded;
      InOrderLater(cleanupQueue, expireRoundBase, lastNow, now);
      lastNow := now;
      var wakeupAt := ExpireDue(now);
      ghost var handles1, cleanup1 := handles, cleanupQueue;
      CleanDue(now);
      CleanedPrefix(handles1, cleanup1, |old(cleanupQueue)|, now);
      assert cleanup1[..|old(cleanupQueue)|] == old(cleanupQueue);
      NotDueValues(old(expireQueue), now);
      TimesPump(old(expireQueue), released, now, wakeupAt);
      expireDeadline, expireWaker := wakeupAt, true;
      pumpOwed := false;
    }
  }
}
