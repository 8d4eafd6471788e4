/** The shadow log of the primary (`sqld/src/replication/primary/logger.rs`). */
module LogFile {
  import opened Basics
  import opened Frames
  import opened Snapshot

  /** A page on its way to the log; `sizeAfter` is 0 unless the page ends a transaction. */
  datatype WalPage = WalPage(pageNo: PageNo, sizeAfter: nat, data: Page)

  datatype ReadResult = Found(frame: Frame) | SnapshotRequired | Ahead

  /** What a log means: the first frame number, the committed frames, and the frames
      written by the transaction that is still open. */
  datatype LogView = LogView(start: nat, committed: seq<Frame>, pending: seq<Frame>) {

    function CommittedEnd(): nat { start + |committed| }

    function Push(page: WalPage): LogView {
      this.(pending := pending + [Frame(CommittedEnd() + |pending|, page.pageNo, page.sizeAfter, page.data)])
    }

    function PushAll(pages: seq<WalPage>): LogView {
      if pages == [] then this else PushAll(pages[..|pages| - 1]).Push(pages[|pages| - 1])
    }

    function Commit(): LogView {
      LogView(start, committed + pending, [])
    }

    function Rollback(): LogView {
      this.(pending := [])
    }

    function Read(frameNo: nat): ReadResult {
      if frameNo < start then SnapshotRequired
      else if frameNo >= CommittedEnd() then Ahead
      else Found(committed[frameNo - start])
    }

    /** The empty log that follows this one after a compaction. */
    function Successor(): LogView {
      LogView(CommittedEnd(), [], [])
    }
  }

  ghost predicate Numbered(fs: seq<Frame>, start: nat) {
    forall i :: 0 <= i < |fs| ==> fs[i].frameNo == start + i
  }

  /** The pages of one call of the frames hook: only the last carries the new size. */
  function WithSize(pages: seq<WalPage>, sizeAfter: nat): seq<WalPage> {
    if pages == [] then [] else pages[|pages| - 1 := pages[|pages| - 1].(sizeAfter := sizeAfter)]
  }

  // ---------------------------------------------------------------- checksums

  /** `CRC_64_GO_ISO` of a page, started from an earlier checksum. */
  type Digest = (nat, Page) -> nat

  function LastOr(first: nat, sums: seq<nat>): nat {
    if sums == [] then first else sums[|sums| - 1]
  }

  /** Each checksum is computed from the one before it, the first from `seed`. */
  ghost predicate Chained(digest: Digest, seed: nat, frames: seq<Frame>, sums: seq<nat>) {
    && |frames| == |sums|
    && forall i :: 0 <= i < |sums| ==> sums[i] == digest(LastOr(seed, sums[..i]), frames[i].data)
  }

  /** The checksums of a log: `start` is the one in the header, and `seed` the one that the first
      frame was computed from. */
  datatype Sums = Sums(start: nat, seed: nat, committed: seq<nat>, pending: seq<nat>) {

    function LastCommitted(): nat { LastOr(seed, committed) }

    function Last(): nat { LastOr(LastCommitted(), pending) }

    function Push(digest: Digest, data: Page): Sums {
      this.(pending := pending + [digest(Last(), data)])
    }

    function PushAll(digest: Digest, pages: seq<WalPage>): Sums {
      if pages == [] then this
      else PushAll(digest, pages[..|pages| - 1]).Push(digest, pages[|pages| - 1].data)
    }

    function Commit(): Sums {
      Sums(start, seed, committed + pending, [])
    }

    function Rollback(): Sums {
      this.(pending := [])
    }

    /** The log that follows after a compaction: the header continues the checksums, but the
        running checksum is the one that the new file was opened with. */
    function Successor(running: nat): Sums {
      Sums(LastCommitted(), running, [], [])
    }

    /** Opened again, an empty log starts from its header. */
    function Reopened(): Sums {
      Sums(start, if committed == [] then start else seed, committed, [])
    }
  }

  /** The digest of a page tells apart the checksums that it started from, as a CRC does. */
  ghost predicate TellsSeeds(digest: Digest) {
    forall a: nat, b: nat, data: Page :: digest(a, data) == digest(b, data) ==> a == b
  }

  /** The frames of a log pass the check from the header's checksum on if and only if they were
      computed from it. */
  lemma CheckDecides(digest: Digest, start: nat, seed: nat, frames: seq<Frame>, sums: seq<nat>)
    requires TellsSeeds(digest) && Chained(digest, seed, frames, sums)
    ensures Chained(digest, start, frames, sums) <==> start == seed || frames == []
  {
    if frames != [] {
      assert sums[0] == digest(LastOr(seed, sums[..0]), frames[0].data);
    }
    if Chained(digest, start, frames, sums) && frames != [] {
      assert sums[0] == digest(LastOr(start, sums[..0]), frames[0].data);
    }
  }

  /** The checksums do not run on over a compaction: the first frames written afterwards pass the
      check if and only if the log was opened again in between, or its last checksum was the one
      that the new file was opened with, which is 0 for a new file. */
  lemma {:induction false} CompactionCutsChecksums(
    digest: Digest, before: Sums, running: nat, reopened: bool, pages: seq<WalPage>, frames: seq<Frame>)
    requires TellsSeeds(digest) && pages != [] && before.pending == []
    requires |frames| == |pages| && forall i :: 0 <= i < |pages| ==> frames[i].data == pages[i].data
    ensures var empty := if reopened then before.Successor(running).Reopened() else before.Successor(running);
      var log := empty.PushAll(digest, pages).Commit();
      Chained(digest, log.start, frames, log.committed) <==> reopened || before.LastCommitted() == running
  {
    hide Chained, TellsSeeds, LastOr;
    var empty := if reopened then before.Successor(running).Reopened() else before.Successor(running);
    PushAllChained(digest, empty, pages, frames);
    var sums := empty.PushAll(digest, pages).pending;
    CheckDecides(digest, empty.start, empty.seed, frames, sums);
    assert [] + sums == sums;
  }

  /** A failing case: one page committed, the log compacted, and one page committed. */
  lemma SecondLogFailsCheck(digest: Digest, a: WalPage, b: WalPage, frame: Frame)
    requires TellsSeeds(digest) && digest(0, a.data) != 0 && frame.data == b.data
    ensures var first := Sums(0, 0, [], []).PushAll(digest, [a]).Commit();
      var second := first.Successor(0).PushAll(digest, [b]).Commit();
      !Chained(digest, second.start, [frame], second.committed)
  {
    hide Chained, TellsSeeds;
    var empty := Sums(0, 0, [], []);
    assert [a][..0] == [] && empty.PushAll(digest, []) == empty;
    var first := empty.PushAll(digest, [a]).Commit();
    assert first.committed == [digest(0, a.data)];
    CompactionCutsChecksums(digest, first, 0, false, [b], [frame]);
  }

  lemma {:induction false} PushAllChained(digest: Digest, s: Sums, pages: seq<WalPage>, frames: seq<Frame>)
    requires s.committed == [] && s.pending == [] && |frames| == |pages|
    requires forall i :: 0 <= i < |pages| ==> frames[i].data == pages[i].data
    ensures var r := s.PushAll(digest, pages);
      r.start == s.start && r.seed == s.seed && r.committed == [] && Chained(digest, s.seed, frames, r.pending)
  {
    if pages != [] {
      var n := |pages| - 1;
      PushAllChained(digest, s, pages[..n], frames[..n]);
      var r := s.PushAll(digest, pages[..n]);
      ChainedPush(digest, s.seed, frames[..n], r.pending, frames[n]);
      assert frames[..n] + [frames[n]] == frames;
    }
  }

  lemma ChainedPush(digest: Digest, seed: nat, frames: seq<Frame>, sums: seq<nat>, frame: Frame)
    requires Chained(digest, seed, frames, sums)
    ensures Chained(digest, seed, frames + [frame], sums + [digest(LastOr(seed, sums), frame.data)])
  {
    var more := sums + [digest(LastOr(seed, sums), frame.data)];
    forall i | 0 <= i < |more|
      ensures more[i] == digest(LastOr(seed, more[..i]), (frames + [frame])[i].data)
    {
      assert more[..i] == sums[..i];
      assert i == |sums| ==> sums[..i] == sums;
    }
  }

  /** One more frame passes the check if its checksum is the expected one, and else none will. */
  lemma CheckNext(digest: Digest, seed: nat, frames: seq<Frame>, sums: seq<nat>, i: nat)
    requires i < |frames| == |sums| && Chained(digest, seed, frames[..i], sums[..i])
    ensures digest(LastOr(seed, sums[..i]), frames[i].data) != sums[i] ==> !Chained(digest, seed, frames, sums)
    ensures digest(LastOr(seed, sums[..i]), frames[i].data) == sums[i] ==>
      Chained(digest, seed, frames[..i + 1], sums[..i + 1])
    ensures LastOr(seed, sums[..i + 1]) == sums[i]
  {
    assert frames[..i + 1] == frames[..i] + [frames[i]] && sums[..i + 1] == sums[..i] + [sums[i]];
    if digest(LastOr(seed, sums[..i]), frames[i].data) == sums[i] {
      ChainedPush(digest, seed, frames[..i], sums[..i], frames[i]);
    }
  }

  lemma ChainedPrefix(digest: Digest, seed: nat, frames: seq<Frame>, sums: seq<nat>, n: nat)
    requires Chained(digest, seed, frames, sums) && n <= |sums|
    ensures Chained(digest, seed, frames[..n], sums[..n])
  {
    forall i | 0 <= i < n
      ensures sums[..n][i] == digest(LastOr(seed, sums[..n][..i]), frames[..n][i].data)
    {
      assert sums[..n][..i] == sums[..i];
    }
  }

  // ---------------------------------------------------------------- the file

  /** The part of a header that stays the same. */
  datatype LogId = LogId(dbId: nat, version: nat, pageSize: int, sqldVersion: seq<nat>)

  datatype Header = Header(startFrameNo: nat, frameCount: nat, startChecksum: nat, id: LogId)

  /** The file of a log: empty, cut in its header, or a header and frames with their checksums. */
  datatype Disk = Empty | Cut | Stored(magicOk: bool, header: Header, slots: seq<Frame>, sums: seq<nat>) {

    /** A frame and its checksum are written together. */
    predicate Readable() {
      Empty? || (Stored? && magicOk && header.frameCount <= |slots| == |sums|)
    }

    /** The checksum that the next frame is computed from: the last committed one, or else the
        one in the header. */
    function Running(): nat
      requires Readable()
    {
      if Empty? then 0
      else if header.frameCount == 0 then header.startChecksum
      else sums[header.frameCount - 1]
    }

    ghost predicate Sound(digest: Digest, seed: nat) {
      && Stored? && magicOk && header.frameCount <= |slots| == |sums|
      && Numbered(slots[..header.frameCount], header.startFrameNo)
      && Chained(digest, seed, slots[..header.frameCount], sums[..header.frameCount])
    }

    /** What the file holds for whoever opens it. */
    ghost function Contents(): LogView
      requires Stored? && header.frameCount <= |slots|
    {
      LogView(header.startFrameNo, slots[..header.frameCount], [])
    }
  }

  lemma WriteSlot<T>(slots: seq<T>, n: nat, x: T)
    requires n <= |slots|
    ensures var slots' := WithSlot(slots, n, x);
      && |slots'| >= n + 1 && slots'[..n + 1] == slots[..n] + [x]
      && |slots'| == if n < |slots| then |slots| else n + 1
  {
  }

  lemma SplitSlots<T>(slots: seq<T>, k: nat, n: nat, slots': seq<T>, x: T)
    requires k <= n < |slots'| && n <= |slots| && slots'[..n + 1] == slots[..n] + [x]
    ensures slots'[..k] == slots[..k] && slots'[k..n + 1] == slots[k..n] + [x]
  {
    assert slots'[..k] == slots'[..n + 1][..k] && slots[..k] == slots[..n][..k];
    assert slots'[k..n + 1] == slots'[..n + 1][k..] && slots[k..n] == slots[..n][k..];
  }

  lemma JoinSlots<T>(slots: seq<T>, k: nat, n: nat)
    requires k <= n <= |slots|
    ensures slots[..n] == slots[..k] + slots[k..n] && slots[n..n] == [] && slots[..n] == slots[..n] + []
  {
  }

  lemma CommittedSlots(digest: Digest, seed: nat, start: nat, slots: seq<Frame>, sums: seq<nat>, k: nat, n: nat)
    requires k <= n <= |slots| == |sums|
    requires Numbered(slots[..n], start) && Chained(digest, seed, slots[..n], sums[..n])
    ensures Numbered(slots[..k], start) && Chained(digest, seed, slots[..k], sums[..k])
    ensures slots[k..k] == [] && sums[k..k] == []
  {
    hide Chained;
    assert slots[..n][..k] == slots[..k] && sums[..n][..k] == sums[..k];
    ChainedPrefix(digest, seed, slots[..n], sums[..n], k);
  }

  function WithSlot<T>(slots: seq<T>, n: nat, x: T): seq<T>
    requires n <= |slots|
  {
    if n < |slots| then slots[n := x] else slots + [x]
  }

  class LogFile {
    const digest: Digest
    /** the header, kept in memory */
    var startFrameNo: nat
    var frameCount: nat
    var startChecksum: nat
    var id: LogId
    var uncommittedFrameCount: nat
    var committedChecksum: nat
    var uncommittedChecksum: nat
    /** The header in the file, and its body, one slot per frame.  Slots at or above
        `frameCount + uncommittedFrameCount` are left over from a rollback. */
    var disk: Header
    var slots: seq<Frame>
    var sums: seq<nat>
    /** the checksum that the first frame is computed from */
    ghost var seed: nat

    ghost predicate Valid()
      reads this
    {
      && frameCount + uncommittedFrameCount <= |slots| == |sums|
      && Numbered(slots[..frameCount + uncommittedFrameCount], startFrameNo)
      && disk == Header(startFrameNo, frameCount, startChecksum, id)
      && Chained(digest, seed, slots[..frameCount + uncommittedFrameCount],
                 sums[..frameCount + uncommittedFrameCount])
      && committedChecksum == LastOr(seed, sums[..frameCount])
      && uncommittedChecksum == LastOr(seed, sums[..frameCount + uncommittedFrameCount])
    }

    ghost function View(): LogView
      reads this
      requires Valid()
    {
      LogView(startFrameNo, slots[..frameCount], slots[frameCount..frameCount + uncommittedFrameCount])
    }

    ghost function SumsView(): Sums
      reads this
      requires Valid()
    {
      Sums(startChecksum, seed, sums[..frameCount], sums[frameCount..frameCount + uncommittedFrameCount])
    }

    ghost function OnDisk(): Disk
      reads this
    {
      Stored(true, disk, slots, sums)
    }

    constructor (digest: Digest, id: LogId)
      ensures Valid() && View() == LogView(0, [], []) && SumsView() == Sums(0, 0, [], [])
      ensures this.digest == digest && OnDisk() == Stored(true, Header(0, 0, 0, id), [], [])
      ensures uncommittedFrameCount == 0 && committedChecksum == 0
    {
      this.digest, this.id := digest, id;
      startFrameNo, frameCount, startChecksum := 0, 0, 0;
      uncommittedFrameCount, committedChecksum, uncommittedChecksum := 0, 0, 0;
      disk, slots, sums, seed := Header(0, 0, 0, id), [], [], 0;
    }

    /** Opens the log kept in a file.  Opening fails exactly when the header is cut, the magic
        number is wrong or the last committed frame is missing.  The new log holds what was
        committed; a new file gets the identity `id`. */
    static method Open(digest: Digest, file: Disk, id: LogId, ghost seed: nat) returns (r: Result<LogFile, string>)
      requires file.Stored? ==> |file.slots| == |file.sums|
      ensures r.Ok? <==> file.Readable()
      ensures r.Ok? ==>
        && fresh(r.value) && r.value.digest == digest
        && r.value.uncommittedFrameCount == 0 && r.value.committedChecksum == file.Running()
      ensures r.Ok? && file.Empty? ==>
        && r.value.Valid() && r.value.View() == LogView(0, [], []) && r.value.SumsView() == Sums(0, 0, [], [])
        && r.value.OnDisk() == Stored(true, Header(0, 0, 0, id), [], [])
      ensures r.Ok? && file.Stored? ==> r.value.OnDisk() == file
      ensures r.Ok? && file.Sound(digest, seed) ==>
        && r.value.Valid() && r.value.View() == file.Contents()
        && r.value.SumsView()
           == Sums(file.header.startChecksum, seed, file.sums[..file.header.frameCount], []).Reopened()
    {
      hide Numbered, Chained, LastOr;
      if file.Cut? {
        return Err("failed to fill whole buffer");
      }
      var log := new LogFile(digest, id);
      if file.Empty? {
        return Ok(log);
      }
      if !file.magicOk {
        return Err("invalid replication log header");
      }
      if file.header.frameCount > |file.slots| {
        return Err("failed to fill whole buffer");
      }
      log.Load(file, seed);
      return Ok(log);
    }

    /** Takes over a file; the running checksum is that of the last committed frame, or else the
        one in the header. */
    method Load(file: Disk, ghost seed: nat)
      requires file.Stored? && file.Readable()
      modifies this
      ensures OnDisk() == file && uncommittedFrameCount == 0 && committedChecksum == file.Running()
      ensures file.Sound(digest, seed) ==>
        && Valid() && View() == file.Contents()
        && SumsView() == Sums(file.header.startChecksum, seed, file.sums[..file.header.frameCount], []).Reopened()
    {
      hide Numbered, Chained, LastOr;
      var n := file.header.frameCount;
      startFrameNo, frameCount, startChecksum := file.header.startFrameNo, n, file.header.startChecksum;
      id := file.header.id;
      disk, slots, sums := file.header, file.slots, file.sums;
      uncommittedFrameCount := 0;
      committedChecksum := if n == 0 then startChecksum else sums[n - 1];
      uncommittedChecksum := committedChecksum;
      this.seed := if n == 0 then startChecksum else seed;
      EmptyChain(digest, startChecksum, startFrameNo);
      OpenedSlots(file, n, this.seed);
    }

    method PushPage(page: WalPage)
      requires Valid()
      requires startFrameNo + frameCount + uncommittedFrameCount < U64_MAX
      modifies this
      ensures Valid() && View() == old(View()).Push(page) && id == old(id)
      ensures SumsView() == old(SumsView()).Push(digest, page.data)
    {
      hide Numbered, Chained, WithSlot, LastOr;
      var checksum := digest(uncommittedChecksum, page.data);
      var frame := Frame(startFrameNo + frameCount + uncommittedFrameCount,
                         page.pageNo, page.sizeAfter, page.data);
      var slot := frameCount + uncommittedFrameCount;
      ghost var fs, ss := slots[..slot], sums[..slot];
      WriteSlot(slots, slot, frame);
      WriteSlot(sums, slot, checksum);
      slots := WithSlot(slots, slot, frame);
      sums := WithSlot(sums, slot, checksum);
      uncommittedFrameCount := uncommittedFrameCount + 1;
      uncommittedChecksum := checksum;
      NumberedPush(fs, startFrameNo, frame);
      ChainedPush(digest, seed, fs, ss, frame);
      SplitSlots(old(slots), frameCount, slot, slots, frame);
      SplitSlots(old(sums), frameCount, slot, sums, checksum);
      LastSplit(seed, old(sums), frameCount, slot);
      LastPushed(seed, ss, checksum);
    }

    method WritePages(pages: seq<WalPage>)
      requires Valid()
      requires startFrameNo + frameCount + uncommittedFrameCount + |pages| <= U64_MAX
      modifies this
      ensures Valid() && View() == old(View()).PushAll(pages)
      ensures SumsView() == old(SumsView()).PushAll(digest, pages)
    {
      hide Numbered, Chained, LastOr;
      var i := 0;
      while i < |pages|
        invariant 0 <= i <= |pages|
        invariant Valid() && View() == old(View()).PushAll(pages[..i])
        invariant SumsView() == old(SumsView()).PushAll(digest, pages[..i])
        invariant startFrameNo + frameCount + uncommittedFrameCount + |pages| - i <= U64_MAX
      {
        PushPage(pages[i]);
        assert pages[..i + 1][..i] == pages[..i];
        i := i + 1;
      }
      assert pages[..i] == pages;
    }

    /** Writes the header, too. */
    method Commit()
      requires Valid()
      modifies this
      ensures Valid() && View() == old(View()).Commit() && SumsView() == old(SumsView()).Commit()
      ensures id == old(id)
    {
      hide Numbered, Chained, LastOr;
      frameCount := frameCount + uncommittedFrameCount;
      uncommittedFrameCount := 0;
      committedChecksum := uncommittedChecksum;
      disk := Header(startFrameNo, frameCount, startChecksum, id);
      JoinSlots(slots, old(frameCount), frameCount);
      JoinSlots(sums, old(frameCount), frameCount);
    }

    method Rollback()
      requires Valid()
      modifies this
      ensures Valid() && View() == old(View()).Rollback() && SumsView() == old(SumsView()).Rollback()
      ensures OnDisk() == old(OnDisk())
    {
      hide Numbered, Chained, LastOr;
      CommittedSlots(digest, seed, startFrameNo, slots, sums, frameCount, frameCount + uncommittedFrameCount);
      uncommittedFrameCount := 0;
      uncommittedChecksum := committedChecksum;
    }

    /** Reading never shows a frame that is pending or was rolled back. */
    method ReadFrame(frameNo: nat) returns (r: ReadResult)
      requires Valid()
      ensures r == View().Read(frameNo)
      ensures r.Found? ==> r.frame.frameNo == frameNo
    {
      hide Chained;
      if frameNo < startFrameNo {
        return SnapshotRequired;
      }
      if frameNo >= startFrameNo + frameCount {
        return Ahead;
      }
      assert slots[..frameCount + uncommittedFrameCount][frameNo - startFrameNo].frameNo == frameNo;
      return Found(slots[frameNo - startFrameNo]);
    }

    method RevFrames() returns (r: seq<Frame>)
      requires Valid()
      ensures r == Reversed(View().committed)
    {
      hide Chained, Numbered;
      r := [];
      var offset := frameCount;
      while offset != 0
        invariant 0 <= offset <= frameCount
        invariant |r| == frameCount - offset
        invariant forall i :: 0 <= i < |r| ==> r[i] == slots[frameCount - 1 - i]
      {
        offset := offset - 1;
        r := r + [slots[offset]];
      }
    }

    /** Recomputes the checksums of the committed frames, starting from the header's. */
    method ComputeChecksum() returns (r: Option<nat>)
      requires Valid()
      ensures r.Some? <==> Chained(digest, startChecksum, View().committed, SumsView().committed)
      ensures TellsSeeds(digest) ==> (r.Some? <==> startChecksum == seed || frameCount == 0)
      ensures r.Some? ==> r.value == LastOr(startChecksum, SumsView().committed)
    {
      hide Numbered, Chained, LastOr;
      ghost var fs, ss := slots[..frameCount], sums[..frameCount];
      CommittedSlots(digest, seed, startFrameNo, slots, sums, frameCount, frameCount + uncommittedFrameCount);
      if TellsSeeds(digest) {
        CheckDecides(digest, startChecksum, seed, fs, ss);
      }
      EmptyChain(digest, startChecksum, startFrameNo);
      var sum, i := startChecksum, 0;
      while i < frameCount
        invariant 0 <= i <= frameCount
        invariant sum == LastOr(startChecksum, ss[..i]) && Chained(digest, startChecksum, fs[..i], ss[..i])
      {
        var next := digest(sum, slots[i].data);
        CheckNext(digest, startChecksum, fs, ss, i);
        if next != sums[i] {
          return None;
        }
        sum, i := next, i + 1;
      }
      assert fs[..i] == fs && ss[..i] == ss;
      return Some(sum);
    }

    /** A log object that takes over the file of this one. */
    method Detach() returns (log: LogFile)
      requires Valid()
      ensures fresh(log) && log.digest == digest && log.Valid()
      ensures log.View() == View() && log.SumsView() == SumsView() && log.OnDisk() == OnDisk()
    {
      hide Valid, View, SumsView;
      log := new LogFile(digest, id);
      log.TakeOver(this);
    }

    method TakeOver(log: LogFile)
      requires log.Valid() && log.digest == digest && log != this
      modifies this
      ensures Valid() && View() == log.View() && SumsView() == log.SumsView() && OnDisk() == log.OnDisk()
    {
      hide Numbered, Chained, LastOr;
      startFrameNo, frameCount, startChecksum, id := log.startFrameNo, log.frameCount, log.startChecksum, log.id;
      uncommittedFrameCount := log.uncommittedFrameCount;
      committedChecksum, uncommittedChecksum := log.committedChecksum, log.uncommittedChecksum;
      disk, slots, sums, seed := log.disk, log.slots, log.sums, log.seed;
    }

    /** An empty log in a file with the given slots, which count as left over. */
    method Clear(header: Header, running: nat, slots: seq<Frame>, sums: seq<nat>)
      requires header.frameCount == 0 && |slots| == |sums|
      modifies this
      ensures Valid() && View() == LogView(header.startFrameNo, [], [])
      ensures SumsView() == Sums(header.startChecksum, running, [], []) && OnDisk() == Stored(true, header, slots, sums)
    {
      hide Numbered, Chained, LastOr;
      startFrameNo, frameCount, startChecksum, id := header.startFrameNo, 0, header.startChecksum, header.id;
      uncommittedFrameCount, committedChecksum, uncommittedChecksum := 0, running, running;
      disk, this.slots, this.sums, seed := header, slots, sums, running;
      EmptyChain(digest, running, startFrameNo);
      OpenedSlots(OnDisk(), 0, running);
    }

    /** Swaps this log for an empty one that starts where it ends; the old log goes to the
        compactor.  The caller has checked that no frame is pending.  `temp` is the file that
        becomes the new log, usually an empty one; if it cannot be opened nothing changes. */
    method DoCompaction(temp: Disk) returns (r: Result<LogFile, string>)
      requires Valid() && uncommittedFrameCount == 0
      requires temp.Stored? ==> |temp.slots| == |temp.sums|
      modifies this
      ensures r.Ok? <==> temp.Readable()
      ensures r.Err? ==> Valid() && View() == old(View()) && OnDisk() == old(OnDisk())
      ensures r.Ok? ==>
        && fresh(r.value) && r.value.digest == digest && r.value.Valid() && r.value.OnDisk() == old(OnDisk())
        && r.value.View() == old(View()) && r.value.SumsView() == old(SumsView())
        && Valid() && View() == old(View()).Successor() && id == old(id)
        && SumsView() == old(SumsView()).Successor(temp.Running())
    {
      hide Numbered, Chained, LastOr;
      var log := Open(digest, temp, id, 0);
      if log.Err? {
        return Err(log.error);
      }
      var newLog := log.value;
      var oldLog := Detach();
      Clear(Header(startFrameNo + frameCount, 0, committedChecksum, id),
            newLog.committedChecksum, newLog.slots, newLog.sums);
      return Ok(oldLog);
    }

    /** Fills the log, which is cut to nothing and gets a new identity first, with the pages of a
        data file. */
    method Recover(pages: seq<Page>, newId: LogId)
      requires |pages| < U32_RANGE
      modifies this
      ensures Valid() && View() == LogView(0, Recovered(pages), []) && disk.id == newId
    {
      hide Numbered, Chained, LastOr;
      Clear(Header(0, 0, 0, newId), 0, [], []);
      var i, pageNo := 0, 1;
      while i < |pages|
        invariant 0 <= i <= |pages| && pageNo == i + 1
        invariant Valid() && View() == LogView(0, Recovered(pages)[..i], []) && id == newId
      {
        PushPage(WalPage(pageNo, if i == |pages| - 1 then |pages| else 0, pages[i]));
        Commit();
        i, pageNo := i + 1, pageNo + 1;
      }
    }
  }

  /** A crash loses exactly what was not committed: whatever a log has been through, its file
      is sound and holds the committed frames. */
  lemma CrashIsRollback(log: LogFile)
    requires log.Valid()
    ensures log.OnDisk().Sound(log.digest, log.seed)
    ensures log.OnDisk().Contents() == log.View().Rollback()
  {
    hide Numbered, Chained;
    CommittedSlots(log.digest, log.seed, log.startFrameNo, log.slots, log.sums,
                   log.frameCount, log.frameCount + log.uncommittedFrameCount);
  }

  lemma OpenedSlots(file: Disk, n: nat, seed: nat)
    requires file.Stored? && n <= |file.slots| == |file.sums|
    ensures file.slots[n..n] == [] && file.sums[n..n] == []
    ensures n == 0 ==> file.slots[..n] == [] && file.sums[..n] == []
    ensures n > 0 ==> file.sums[..n] != [] && LastOr(seed, file.sums[..n]) == file.sums[n - 1]
  {
  }

  lemma EmptyChain(digest: Digest, seed: nat, start: nat)
    ensures Numbered([], start) && Chained(digest, seed, [], []) && LastOr(seed, []) == seed
  {
  }

  lemma NumberedPush(frames: seq<Frame>, start: nat, frame: Frame)
    requires Numbered(frames, start) && frame.frameNo == start + |frames|
    ensures Numbered(frames + [frame], start)
  {
  }

  lemma LastSplit(seed: nat, sums: seq<nat>, k: nat, n: nat)
    requires k <= n <= |sums|
    ensures LastOr(seed, sums[..n]) == LastOr(LastOr(seed, sums[..k]), sums[k..n])
  {
  }

  lemma LastPushed(seed: nat, sums: seq<nat>, sum: nat)
    ensures LastOr(seed, sums + [sum]) == sum
  {
  }

  /** The frames that stand for a data file: its pages in order, as one transaction. */
  function Recovered(pages: seq<Page>): seq<Frame> {
    seq(|pages|, i requires 0 <= i < |pages| =>
      Frame(i, i + 1, if i == |pages| - 1 then |pages| else 0, pages[i]))
  }

  /** The recovered log replays to the data file. */
  lemma RecoveredReplays(pages: seq<Page>)
    ensures IsHistory(Recovered(pages)) && Closed(Recovered(pages))
    ensures forall i :: 0 <= i < |pages| - 1 ==> Recovered(pages)[i].sizeAfter == 0
    ensures var db := Replay(Recovered(pages));
      && db.size == |pages|
      && (forall p: PageNo :: p in db.pages <==> 1 <= p <= |pages|)
      && (forall i :: 0 <= i < |pages| ==> db.pages[i + 1] == pages[i])
  {
    var h := Recovered(pages);
    RecoveredPages(pages, |pages|);
    assert h[..|pages|] == h;
  }

  lemma {:induction false} RecoveredPages(pages: seq<Page>, n: nat)
    requires n <= |pages|
    ensures var m := ApplyPages(map[], Recovered(pages)[..n]);
      && (forall p: PageNo :: p in m <==> 1 <= p <= n)
      && (forall i :: 0 <= i < n ==> m[i + 1] == pages[i])
  {
    if n > 0 {
      RecoveredPages(pages, n - 1);
      assert Recovered(pages)[..n][..n - 1] == Recovered(pages)[..n - 1];
    }
  }

  /** A rolled-back transaction leaves no trace: after any writes and a rollback, further
      writes and a commit give what they would have given without the rolled-back ones. */
  lemma RollbackLeavesNoTrace(v: LogView, lost: seq<WalPage>, kept: seq<WalPage>)
    requires v.pending == []
    ensures v.PushAll(lost).Rollback().PushAll(kept).Commit() == v.PushAll(kept).Commit()
  {
    PushAllFrame(v, lost);
  }

  lemma {:induction false} PushAllFrame(v: LogView, pages: seq<WalPage>)
    ensures v.PushAll(pages).start == v.start && v.PushAll(pages).committed == v.committed
    ensures |v.PushAll(pages).pending| == |v.pending| + |pages|
    ensures v.PushAll(pages).pending[..|v.pending|] == v.pending
    ensures forall i :: 0 <= i < |pages| ==>
      v.PushAll(pages).pending[|v.pending| + i]
      == Frame(v.CommittedEnd() + |v.pending| + i, pages[i].pageNo, pages[i].sizeAfter, pages[i].data)
  {
    if pages != [] {
      PushAllFrame(v, pages[..|pages| - 1]);
    }
  }
}
