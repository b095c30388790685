// inner_pair_session (AsioNet/TestClient/inner_pair_session.h/.cpp): one end
// of a LAN pair link. It sends raw payloads through its session and reads
// back, frame by frame, what the session's inner logic stored in the shared
// ring buffer, keeping a header it has read until its payload is there.
//
// The session is not called: send returns what it hands to async_send.
// start and stop only drive executors, sockets and timers.

module InnerPairSessions {
  import opened NetUtils
  import opened Protocol
  import opened ReusableBuffer
  import opened SessionLogic
  import opened ParallelRing
  import opened AsyncSessions
  import opened InnerSessionLogics

  class InnerPairSession {
    const storage: RingBuffer
    var alreadyReadHead: Option<ProtocolHead>

    /** The session with a fresh TOTAL_CACHE_SIZE ring and no cached header. */
    constructor (initial: seq<byte>)
      requires |initial| == TOTAL_CACHE_SIZE
      ensures storage.Valid() && fresh(storage) && fresh(storage.buffer)
      ensures storage.capacity == TOTAL_CACHE_SIZE && storage.Contents() == [] && alreadyReadHead == None
    {
      storage := new RingBuffer(TOTAL_CACHE_SIZE, initial);
      alreadyReadHead := None;
    }

    /** The frame stream a reader sees: a cached header counts as its front. */
    ghost function Stream(): seq<byte>
      reads this, storage, storage.buffer
      requires storage.Valid()
    {
      (if alreadyReadHead.Some? then HeadBytes(alreadyReadHead.value) else []) + storage.Contents()
    }

    /** send: the data at offset prefix_size (11) of a pooled buffer, length as given. */
    method Send(data: seq<byte>, scratch: seq<byte>) returns (effects: seq<Effect>)
      requires |scratch| == ONCE_BUFFER_SIZE && INNER_PREFIX_SIZE + |data| <= ONCE_BUFFER_SIZE
      ensures |effects| == 1 && effects[0].Send?
      ensures var o := effects[0].msg;
              o.Fits() && o.offset == INNER_PREFIX_SIZE && o.length == |data| && o.Sent() == data
    {
      var buffer := new Buffer(ONCE_BUFFER_SIZE, scratch);
      buffer.offset := INNER_PREFIX_SIZE;
      CopyInto(buffer.bytes, buffer.offset, data);
      buffer.length := |data|;
      effects := [Effect.Send(Snapshot(buffer))];
    }

    /**
     * pick_msg as written. With no cached header it stops when the ring
     * holds exactly 11 bytes (empty(11) is a size_t equality); otherwise it
     * takes a pooled head, `pooled`, and reads 11 bytes over it, which leaves
     * it as it was when the ring is empty. The payload read fails only when
     * the ring is empty, keeping the header cached. On success the header and
     * the payload are written out, as `delivered`, and the cache is cleared.
     * Every path returns false.
     */
    method PickMsg(pooled: ProtocolHead) returns (ok: bool, delivered: Option<Frame>)
      requires storage.Valid() && storage.capacity > PROTO_HEAD_SIZE
      modifies this`alreadyReadHead, storage`readIndex
      ensures storage.Valid() && !ok
      ensures old(alreadyReadHead).None? && old(storage.Count()) == PROTO_HEAD_SIZE ==>
        delivered == None && alreadyReadHead == None && storage.readIndex == old(storage.readIndex)
      ensures old(alreadyReadHead).None? && old(storage.Count()) == 0 ==>
        delivered == None && alreadyReadHead == Some(pooled) && storage.readIndex == old(storage.readIndex)
      ensures old(alreadyReadHead).None? && old(storage.Count()) != 0 && old(storage.Count()) != PROTO_HEAD_SIZE ==>
        var h := ParseHead(old(storage.Slice(PROTO_HEAD_SIZE)));
        && delivered == Some(Frame(h, old(storage.Slice(PROTO_HEAD_SIZE + h.len))[PROTO_HEAD_SIZE..]))
        && alreadyReadHead == None
        && storage.readIndex == Slot(old(storage.readIndex), PROTO_HEAD_SIZE + h.len, storage.capacity)
      ensures old(alreadyReadHead).Some? && old(storage.Count()) == 0 ==>
        delivered == None && alreadyReadHead == old(alreadyReadHead) && storage.readIndex == old(storage.readIndex)
      ensures old(alreadyReadHead).Some? && old(storage.Count()) != 0 ==>
        var h := old(alreadyReadHead).value;
        && delivered == Some(Frame(h, old(storage.Slice(h.len))))
        && alreadyReadHead == None
        && storage.readIndex == Slot(old(storage.readIndex), h.len, storage.capacity)
    {
      ghost var r0 := storage.readIndex;
      if alreadyReadHead.None? {
        var stop := LoadHeadAsWritten(pooled);
        if stop {
          return false, None;
        }
        if old(storage.Count()) != 0 {
          var len := alreadyReadHead.value.len;
          SliceAfter(storage, r0, PROTO_HEAD_SIZE, len, old(storage.Slice(PROTO_HEAD_SIZE + len)));
          SlotAfterSlot(r0, PROTO_HEAD_SIZE, len, storage.capacity);
        }
      }
      delivered := TakeFrameAsWritten();
      ok := false;
    }

    /**
     * The header step of pick_msg as written, with no header cached: stop at
     * exactly 11 stored bytes, else read 11 bytes over the pooled head.
     */
    method LoadHeadAsWritten(pooled: ProtocolHead) returns (stop: bool)
      requires storage.Valid() && storage.capacity > PROTO_HEAD_SIZE && alreadyReadHead.None?
      modifies this`alreadyReadHead, storage`readIndex
      ensures storage.Valid()
      ensures stop <==> old(storage.Count()) == PROTO_HEAD_SIZE
      ensures stop ==> alreadyReadHead == None && storage.readIndex == old(storage.readIndex)
      ensures !stop && old(storage.Count()) == 0 ==>
        alreadyReadHead == Some(pooled) && storage.readIndex == old(storage.readIndex)
      ensures !stop && old(storage.Count()) != 0 ==>
        && alreadyReadHead == Some(ParseHead(old(storage.Slice(PROTO_HEAD_SIZE))))
        && storage.readIndex == Slot(old(storage.readIndex), PROTO_HEAD_SIZE, storage.capacity)
        && storage.Count() != 0
    {
      ghost var r0 := storage.readIndex;
      ghost var c0 := storage.Count();
      if storage.Empty(PROTO_HEAD_SIZE) {
        return true;
      }
      var got, raw := storage.TryRead(PROTO_HEAD_SIZE, false);
      alreadyReadHead := Some(if got then ParseHead(raw) else pooled);
      if got {
        SkipMissesWrite(r0, storage.writeIndex, c0, PROTO_HEAD_SIZE, storage.capacity);
        CountZeroIff(storage);
      }
      stop := false;
    }

    /**
     * The payload step of pick_msg as written: tryRead fails only on an
     * empty ring, keeping the header; otherwise the header and the bytes read
     * are handed out and the cache is cleared.
     */
    method TakeFrameAsWritten() returns (delivered: Option<Frame>)
      requires storage.Valid() && alreadyReadHead.Some?
      modifies this`alreadyReadHead, storage`readIndex
      ensures storage.Valid()
      ensures old(storage.Count()) == 0 ==>
        delivered == None && alreadyReadHead == old(alreadyReadHead) && storage.readIndex == old(storage.readIndex)
      ensures old(storage.Count()) != 0 ==>
        var h := old(alreadyReadHead).value;
        && delivered == Some(Frame(h, old(storage.Slice(h.len))))
        && alreadyReadHead == None
        && storage.readIndex == Slot(old(storage.readIndex), h.len, storage.capacity)
    {
      var h := alreadyReadHead.value;
      var got, data := storage.TryRead(h.len, false);
      if !got {
        return None;
      }
      delivered := Some(Frame(h, data));
      alreadyReadHead := None;
    }

    /**
     * pick_msg as evidently intended: a header is read once 11 bytes are
     * stored, its payload once all of it is stored, and success is reported.
     * The stream loses exactly the frame handed out, and nothing while that
     * frame is incomplete.
     */
    method PickMsgIntended() returns (ok: bool, delivered: Option<Frame>)
      requires storage.Valid()
      modifies this`alreadyReadHead, storage`readIndex
      ensures storage.Valid()
      ensures ok <==> HasFrame(old(Stream()))
      ensures ok ==> delivered == Some(FirstFrame(old(Stream()))) && Stream() == old(Stream())[FrameEnd(old(Stream()))..]
      ensures !ok ==> delivered == None && Stream() == old(Stream())
    {
      var ready := CacheHeadIntended();
      if !ready {
        return false, None;
      }
      var h := alreadyReadHead.value;
      ghost var c := storage.Contents();
      ghost var b := HeadBytes(h) + c;
      FrameAfterHead(h, c);
      if storage.Count() < h.len {
        return false, None;
      }
      var got, data := storage.TryRead(h.len, false);
      data := if got then data else [];
      assert data == c[..h.len] && storage.Contents() == b[FrameEnd(b)..];
      delivered := Some(Frame(h, data));
      alreadyReadHead := None;
      ok := true;
    }

    /** The header step of the intended pick_msg: keep a cached header, else read one once 11 bytes are stored. */
    method CacheHeadIntended() returns (ready: bool)
      requires storage.Valid()
      modifies this`alreadyReadHead, storage`readIndex
      ensures storage.Valid()
      ensures ready <==> old(alreadyReadHead).Some? || old(storage.Count()) >= PROTO_HEAD_SIZE
      ensures ready ==> alreadyReadHead.Some? && HeadBytes(alreadyReadHead.value) + storage.Contents() == old(Stream())
      ensures !ready ==> Stream() == old(Stream()) && |old(Stream())| < PROTO_HEAD_SIZE
    {
      if alreadyReadHead.Some? {
        return true;
      }
      if storage.Count() < PROTO_HEAD_SIZE {
        return false;
      }
      var _, raw := storage.TryRead(PROTO_HEAD_SIZE, false);
      alreadyReadHead := Some(ParseHead(raw));
      assert old(storage.Contents()) == raw + storage.Contents();
      ready := true;
    }
  }

  /**
   * pick_msg as written reports failure even when it hands out a frame: a
   * frame stored by the inner logic is written out and consumed, yet the
   * caller is told nothing was there.
   */
  method DeliveredButReportedFailedAsWritten(initial: seq<byte>, pooled: ProtocolHead, payload: seq<byte>)
    returns (session: InnerPairSession, ok: bool, delivered: Option<Frame>)
    requires |initial| == TOTAL_CACHE_SIZE && 0 < |payload| <= 0xFFFF
    ensures var h := WrapHead(payload, CMD_ROUTING_TRANSPARENT, false, 0);
      !ok && delivered == Some(Frame(h, payload))
    ensures session.storage.Valid() && session.storage.Contents() == []
  {
    session := new InnerPairSession(initial);
    var h := WrapHead(payload, CMD_ROUTING_TRANSPARENT, false, 0);
    AppendFrame(session.storage, h, payload);
    ghost var ring := session.storage;
    ghost var n := ring.Count();
    assert ring.Contents() == FrameBytes(h, payload);
    SliceIsContents(ring, PROTO_HEAD_SIZE);
    SliceIsContents(ring, n);
    assert ring.Slice(PROTO_HEAD_SIZE) == HeadBytes(h);
    assert HeadBytes(h) + [] == HeadBytes(h);
    ParseHeadBytes(h, []);
    assert ring.Slice(PROTO_HEAD_SIZE + h.len)[PROTO_HEAD_SIZE..] == payload;
    ok, delivered := session.PickMsg(pooled);
    CountZeroIff(ring);
  }

  /** The intended pick_msg hands the same frame out and says so. */
  method DeliveredAndReportedIntended(initial: seq<byte>, payload: seq<byte>)
    returns (session: InnerPairSession, ok: bool, delivered: Option<Frame>)
    requires |initial| == TOTAL_CACHE_SIZE && 0 < |payload| <= 0xFFFF
    ensures var h := WrapHead(payload, CMD_ROUTING_TRANSPARENT, false, 0);
      ok && delivered == Some(Frame(h, payload))
    ensures session.storage.Valid() && session.Stream() == []
  {
    session := new InnerPairSession(initial);
    var h := WrapHead(payload, CMD_ROUTING_TRANSPARENT, false, 0);
    AppendFrame(session.storage, h, payload);
    ghost var b := session.Stream();
    assert b == FrameBytes(h, payload) + [];
    StoredFrameReadBack(h, payload, []);
    ok, delivered := session.PickMsgIntended();
  }
}
