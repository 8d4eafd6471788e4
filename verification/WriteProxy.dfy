/** A connection of a replica that writes through the primary and waits for its own writes
    (`sqld/src/connection/write_proxy.rs`). */
module WriteProxy {
  import opened Basics
  import opened Frames

  /** The frame number of the last write, once there is one. */
  function UpdateLastWrite(last: Option<nat>, frameNo: nat): Option<nat> {
    if last == None || frameNo > last.value then Some(frameNo) else last
  }

  class WriteProxyConnection {
    /** the largest `u64` until the first write */
    var lastWriteFrameNo: nat

    function LastWrite(): Option<nat>
      reads this
    {
      if lastWriteFrameNo == U64_MAX then None else Some(lastWriteFrameNo)
    }

    constructor ()
      ensures LastWrite() == None
    {
      lastWriteFrameNo := U64_MAX;
    }

    /** The primary has answered a write.  Once set, the number never decreases. */
    method UpdateLastWriteFrameNo(newFrameNo: nat)
      requires newFrameNo < U64_MAX
      modifies this
      ensures LastWrite() == UpdateLastWrite(old(LastWrite()), newFrameNo)
      ensures LastWrite().Some? && newFrameNo <= LastWrite().value
      ensures LastWrite() == Some(newFrameNo) || LastWrite() == old(LastWrite())
      ensures old(LastWrite()).Some? ==> old(LastWrite()).value <= LastWrite().value
    {
      if lastWriteFrameNo == U64_MAX || newFrameNo > lastWriteFrameNo {
        lastWriteFrameNo := newFrameNo;
      }
    }

    /** Waits for the replicator.  `watch` holds the values of the applied frame number as
        this connection gets to see them, until the replicator exits; `at` is the one that
        ended the wait. */
    method WaitReplicationSync(watch: seq<nat>) returns (ok: bool, at: nat)
      requires watch != []
      ensures LastWrite().None? ==> ok
      ensures LastWrite().Some? ==> (ok <==> exists i :: 0 <= i < |watch| && LastWrite().value <= watch[i])
      ensures ok && LastWrite().Some? ==>
        && at < |watch| && LastWrite().value <= watch[at]
        && forall i :: 0 <= i < at ==> watch[i] < LastWrite().value
    {
      at := 0;
      var currentFrameNo := lastWriteFrameNo;
      if currentFrameNo == U64_MAX {
        return true, 0;
      }
      var lastApplied := watch[0];
      while lastApplied < currentFrameNo
        invariant at < |watch| && lastApplied == watch[at]
        invariant forall i :: 0 <= i < at ==> watch[i] < currentFrameNo
        decreases |watch| - at
      {
        if at + 1 == |watch| {
          return false, at;
        }
        at := at + 1;
        lastApplied := watch[at];
      }
      return true, at;
    }
  }
}
