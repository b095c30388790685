// inner_session_logic (AsioNet/TestClient/inner_session_logic.h/.cpp): the
// logic of a LAN link between two peers of the same kind (SESSION_PAIR). It
// has no authentication and no sequence check. Every accepted frame is
// appended to a ring buffer shared with the inner_pair_session that reads
// it, as the raw header bytes followed by the payload.

module InnerSessionLogics {
  import opened NetUtils
  import opened Protocol
  import opened ProtoMask
  import opened ReusableBuffer
  import opened SessionLogic
  import opened ParallelRing
  import opened AsyncSessions

  /** prefix_size: room for a header in front of a payload. */
  const INNER_PREFIX_SIZE: nat := PROTO_HEAD_SIZE

  /**
   * A stream that starts with a header holds a complete frame exactly when
   * the announced payload follows; the frame is that header and payload,
   * and the stream goes on right after it.
   */
  lemma FrameAfterHead(h: ProtocolHead, rest: seq<byte>)
    ensures var b := HeadBytes(h) + rest;
      && (HasFrame(b) <==> |rest| >= h.len)
      && (HasFrame(b) ==> FirstFrame(b) == Frame(h, rest[..h.len]) && b[FrameEnd(b)..] == rest[h.len..])
  {
    var b := HeadBytes(h) + rest;
    ParseHeadBytes(h, rest);
    assert b[PROTO_HEAD_SIZE..] == rest;
  }

  /** A frame as try_copy_to_storage appends it is read back whole, whatever follows it. */
  lemma StoredFrameReadBack(h: ProtocolHead, payload: seq<byte>, rest: seq<byte>)
    requires h.len == |payload|
    ensures var b := FrameBytes(h, payload) + rest;
      HasFrame(b) && FirstFrame(b) == Frame(h, payload) && b[FrameEnd(b)..] == rest
  {
    FrameAfterHead(h, payload + rest);
    assert FrameBytes(h, payload) + rest == HeadBytes(h) + (payload + rest);
    assert (payload + rest)[..h.len] == payload && (payload + rest)[h.len..] == rest;
  }

  /** The two tryWrite calls of try_copy_to_storage, once the room is known to be there. */
  method AppendFrame(ring: RingBuffer, head: ProtocolHead, payload: seq<byte>)
    requires ring.Valid() && ring.Count() + PROTO_HEAD_SIZE + |payload| < ring.capacity
    modifies ring`writeIndex, ring.buffer
    ensures ring.Valid() && ring.readIndex == old(ring.readIndex)
    ensures ring.Contents() == old(ring.Contents()) + FrameBytes(head, payload)
  {
    ghost var c0 := ring.Contents();
    var written := ring.TryWrite(HeadBytes(head), PROTO_HEAD_SIZE);
    assert HeadBytes(head)[..PROTO_HEAD_SIZE] == HeadBytes(head);
    written := ring.TryWrite(payload, |payload|);
    assert payload[..|payload|] == payload;
    assert c0 + HeadBytes(head) + payload == c0 + FrameBytes(head, payload);
  }

  class InnerSessionLogic {
    var storage: RingBuffer

    /** A logic over the given storage; the source's constructor leaves it unset until share_storage. */
    constructor (storage: RingBuffer)
      ensures this.storage == storage
    {
      this.storage := storage;
    }

    /** share_storage: the ring buffer the pair session reads frames from. */
    method ShareStorage(s: RingBuffer)
      modifies this`storage
      ensures storage == s
    {
      storage := s;
    }

    /** get_session_type: a LAN pair link. */
    function SessionType(): (t: byte)
      ensures t == SESSION_PAIR
    {
      SESSION_PAIR
    }

    /** is_free_session: a pair session is never handed back to the free pool. */
    function IsFreeSession(): (free: bool)
      ensures !free
    {
      false
    }

    /**
     * unwrap_received_data on the received payload in `buffer`: a frame
     * whose mask does not verify, or that is empty, is refused; otherwise
     * its head.len bytes are copied to ret_block. The sequence number is not
     * looked at.
     */
    method Unwrap(buffer: Buffer, head: ProtocolHead, retBlock: Buffer) returns (ok: bool)
      requires buffer.Valid() && buffer.offset + head.len <= buffer.size
      requires retBlock.Valid() && retBlock.offset + head.len <= retBlock.size && retBlock.bytes != buffer.bytes
      modifies retBlock`length, retBlock.bytes
      ensures var payload := buffer.bytes[buffer.offset..buffer.offset + head.len];
        && (ok <==> head.len != 0 && GetMask(HeadBytes(head), payload, 0) == 0)
        && (ok ==> retBlock.length == head.len
                   && retBlock.bytes[..] == old(retBlock.bytes[..retBlock.offset]) + payload
                                            + old(retBlock.bytes[retBlock.offset + head.len..]))
        && (!ok ==> retBlock.length == old(retBlock.length) && retBlock.bytes[..] == old(retBlock.bytes[..]))
    {
      var payload := buffer.bytes[buffer.offset..buffer.offset + head.len];
      if GetMask(HeadBytes(head), payload, 0) != 0 {
        return false;
      }
      if head.len == 0 {
        return false;
      }
      CopyInto(retBlock.bytes, retBlock.offset, payload);
      retBlock.length := head.len;
      ok := true;
    }

    /**
     * wrap_to_send_data: a RoutingTransparent header with sequence number 0
     * and no compression, sealed over the payload and written to the start
     * of the buffer; offset and length move by 11.
     */
    method Wrap(buffer: Buffer) returns (head: ProtocolHead)
      requires buffer.Valid() && buffer.size <= ONCE_BUFFER_SIZE
      requires PROTO_HEAD_SIZE <= buffer.offset && buffer.offset + buffer.length <= buffer.size
      modifies buffer, buffer.bytes
      ensures head == WrapHead(old(buffer.View()), CMD_ROUTING_TRANSPARENT, false, 0)
      ensures buffer.Valid() && buffer.offset == old(buffer.offset) - PROTO_HEAD_SIZE
      ensures buffer.length == old(buffer.length) + PROTO_HEAD_SIZE
      ensures buffer.bytes[..] == HeadBytes(head) + old(buffer.bytes[PROTO_HEAD_SIZE..])
      ensures old(buffer.offset) == PROTO_HEAD_SIZE ==> buffer.View() == FrameBytes(head, old(buffer.View()))
    {
      head := PrependHead(buffer, CMD_ROUTING_TRANSPARENT, false, 0);
    }

    /**
     * try_copy_to_storage on the delivered payload in `data`: nothing is
     * written when the header and the payload do not fit; otherwise the
     * header's bytes and then the payload are appended.
     */
    method TryCopyToStorage(data: Buffer, head: ProtocolHead) returns (ok: bool)
      requires storage.Valid() && data.Valid() && data.offset + data.length <= data.size
      requires data.bytes != storage.buffer
      modifies storage`writeIndex, storage.buffer
      ensures storage.Valid() && storage.readIndex == old(storage.readIndex)
      ensures ok <==> old(storage.Count()) + PROTO_HEAD_SIZE + data.length < storage.capacity
      ensures ok ==> storage.Contents() == old(storage.Contents()) + FrameBytes(head, data.View())
      ensures !ok ==> storage.writeIndex == old(storage.writeIndex) && unchanged(storage.buffer)
    {
      if storage.Full(PROTO_HEAD_SIZE + data.length) {
        return false;
      }
      var payload := data.bytes[data.offset..data.offset + data.length];
      AppendFrame(storage, head, payload);
      assert payload == data.View();
      ok := true;
    }
  }

  /**
   * What the inner link does to one payload: the sender's wrap seals it, the
   * receiver's unwrap accepts it when it is not empty, and try_copy_to_storage
   * stores a frame the pair session reads back as that header and payload.
   */
  lemma WrappedPayloadStoredIntact(payload: seq<byte>, rest: seq<byte>)
    requires 0 < |payload| <= 0xFFFF
    ensures var h := WrapHead(payload, CMD_ROUTING_TRANSPARENT, false, 0);
      && h.len != 0 && GetMask(HeadBytes(h), payload, 0) == 0
      && GetCmd(h) == CMD_ROUTING_TRANSPARENT
      && var b := FrameBytes(h, payload) + rest;
         HasFrame(b) && FirstFrame(b) == Frame(h, payload) && b[FrameEnd(b)..] == rest
  {
    FifteenBits(CMD_ROUTING_TRANSPARENT);
    StoredFrameReadBack(WrapHead(payload, CMD_ROUTING_TRANSPARENT, false, 0), payload, rest);
  }
}
