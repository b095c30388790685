// server_session_logic (AsioNet/AsioNet/server_session_logic.h/.cpp): the
// gateway's end of a registered server's connection. Frames from the server
// carry a target client uid (or, for BroadCast, a list of them) in front of
// the payload; frames to the server are framed as RoutingTransparent.

module ServerSessionLogics {
  import opened NetUtils
  import opened Protocol
  import opened ProtoMask
  import opened ReusableBuffer
  import opened SessionLogic

  /** Where the server logic wants a received payload: 7, so that a 4-byte uid in front of it ends at 11. */
  const SERVER_PREFIX_SIZE: nat := PROTO_HEAD_SIZE - 4

  /** The big-endian u32 client uids of a broadcast: count of them after a 2-byte count at `at`. */
  function BroadcastTargets(block: seq<byte>, at: nat, count: nat): (r: seq<SessionUid>)
    requires at + 2 + 4 * count <= |block|
    ensures |r| == count
  {
    if count == 0 then [] else BroadcastTargets(block, at, count - 1) + [ReadUint32(block, at + 2 + 4 * (count - 1))]
  }

  /** Target i of a broadcast is the u32 whose big-endian bytes are the i-th four bytes of the list. */
  lemma {:induction false} BroadcastTargetsAreListed(block: seq<byte>, at: nat, count: nat)
    requires at + 2 + 4 * count <= |block|
    ensures forall i | 0 <= i < count :: BeBytes(BroadcastTargets(block, at, count)[i], 4) == block[at + 2 + 4 * i..at + 2 + 4 * i + 4]
  {
    if count > 0 {
      BroadcastTargetsAreListed(block, at, count - 1);
    }
  }

  /** One send_to_client_multi per target, all with the same head and message buffers. */
  function FanOut(targets: seq<SessionUid>, head: Outgoing, msg: Outgoing): (r: seq<Effect>)
    ensures |r| == |targets|
    ensures forall i {:trigger r[i]} | 0 <= i < |targets| :: r[i] == ToClientMulti(targets[i], head, msg)
  {
    if targets == [] then [] else FanOut(targets[..|targets| - 1], head, msg) + [ToClientMulti(targets[|targets| - 1], head, msg)]
  }

  /** One more listed target adds one send at the end of the fan-out. */
  lemma FanOutStep(block: seq<byte>, at: nat, i: nat, head: Outgoing, msg: Outgoing)
    requires at + 2 + 4 * (i + 1) <= |block|
    ensures FanOut(BroadcastTargets(block, at, i + 1), head, msg)
            == FanOut(BroadcastTargets(block, at, i), head, msg) + [ToClientMulti(ReadUint32(block, at + 2 + 4 * i), head, msg)]
  {
    var targets := BroadcastTargets(block, at, i + 1);
    assert targets[..i] == BroadcastTargets(block, at, i);
  }

  class ServerSessionLogic {
    var seqNo: u32
    var serverInfo: ServerInfo

    /** A logic as the pool hands it out, before inherit_logic fills it. */
    constructor ()
    {
    }

    /** inherit_logic: takes over the server info and the sequence number of the default logic. */
    method InheritLogic(info: ServerInfo, seqNo: u32)
      modifies this
      ensures serverInfo == info && this.seqNo == seqNo
    {
      serverInfo := info;
      this.seqNo := seqNo;
    }

    /** get_server_id: the server uid of the stored area, server id and platform. */
    function GetServerId(): (r: ServerId)
      reads this
      ensures r / 0x1_0000_0000_0000 == serverInfo.areaId && r / 0x1_0000_0000 % 0x1_0000 == serverInfo.serverId
      ensures r % 0x1_0000_0000 == StrHash(serverInfo.platform)
    {
      ServerUid(serverInfo.areaId, serverInfo.serverId, StrHash(serverInfo.platform))
    }

    /** get_session_type: the link type the server announced. */
    function SessionType(): byte
      reads this
    {
      serverInfo.linkType
    }

    /**
     * unwrap_received_data: the sequence number is advanced first and must
     * match; the mask must check; an empty (keep-alive) frame is not
     * delivered; otherwise the payload is copied to ret_block.
     */
    method Unwrap(buffer: Buffer, head: ProtocolHead, retBlock: Buffer) returns (ok: bool)
      requires buffer.Valid() && buffer.offset + head.len <= buffer.size
      requires retBlock.Valid() && retBlock.offset + head.len <= retBlock.size && retBlock.bytes != buffer.bytes
      modifies this`seqNo, retBlock`length, retBlock.bytes
      ensures seqNo == (old(seqNo) + 1) % 0x1_0000_0000
      ensures ok <==> head.seqNo == seqNo && head.len != 0
                      && GetMask(HeadBytes(head), buffer.bytes[buffer.offset..buffer.offset + head.len], 0) == 0
      ensures ok ==> retBlock.length == head.len
                     && retBlock.bytes[..] == old(retBlock.bytes[..retBlock.offset])
                                              + buffer.bytes[buffer.offset..buffer.offset + head.len]
                                              + old(retBlock.bytes[retBlock.offset + head.len..])
      ensures !ok ==> retBlock.length == old(retBlock.length) && retBlock.bytes[..] == old(retBlock.bytes[..])
    {
      seqNo := (seqNo + 1) % 0x1_0000_0000;
      if head.seqNo != seqNo {
        return false;
      }
      var payload := buffer.bytes[buffer.offset..buffer.offset + head.len];
      if GetMask(HeadBytes(head), payload, 0) != 0 {
        return false;
      }
      if head.len == 0 {
        return false;
      }
      CopyInto(retBlock.bytes, retBlock.offset, payload);
      retBlock.length := head.len;
      ok := true;
    }

    /**
     * try_copy_to_storage. A BroadCast payload is a 16-bit count, that many
     * client uids, then the message: the message is copied into a fresh
     * buffer whose length is never set, and each target gets a head buffer
     * whose length is never set either, so every fan-out send carries no
     * bytes. Any other payload starts with the target client uid, which is
     * stripped before the rest is sent to that client.
     */
    method TryCopyToStorage(data: Buffer, head: ProtocolHead, scratch: seq<byte>, tiny: seq<byte>)
      returns (ok: bool, effects: seq<Effect>)
      requires data.Valid() && data.size == ONCE_BUFFER_SIZE && data.offset + data.length <= data.size
      requires |scratch| == ONCE_BUFFER_SIZE && |tiny| == TINY_ONCE_BUFFER_SIZE
      requires GetCmd(head) == CMD_BROADCAST ==>
                 2 <= data.length && 2 + 4 * ReadUint16(data.bytes[..], data.offset) <= data.length
      requires GetCmd(head) != CMD_BROADCAST ==> 4 <= data.length
      modifies data`offset, data`length
      ensures ok && data.Valid()
      ensures GetCmd(head) == CMD_BROADCAST ==> data.offset == old(data.offset) && data.length == old(data.length)
      ensures GetCmd(head) == CMD_BROADCAST ==>
                effects == BroadcastAsWritten(data.bytes[..], data.offset, data.length, seqNo, scratch, tiny)
      ensures GetCmd(head) != CMD_BROADCAST ==>
                data.offset == old(data.offset) + 4 && data.length == old(data.length) - 4
                && effects == [ToClient(ReadUint32(data.bytes[..], old(data.offset)), Snapshot(data))]
    {
      if GetCmd(head) == CMD_BROADCAST {
        var block := data.bytes[..];
        effects := FanOutBroadcast(block, data.offset, data.length, seqNo, scratch, tiny);
        assert data.bytes[..] == block;
      } else {
        var target := ReadUint32(data.bytes[..], data.offset);
        data.offset := data.offset + 4;
        data.length := data.length - 4;
        effects := [ToClient(target, Snapshot(data))];
      }
      ok := true;
    }

    /**
     * The BroadCast branch of try_copy_to_storage on the `len` bytes at `at`:
     * the message after the target list goes into a fresh buffer whose
     * length stays 0, and each target gets its own head buffer.
     */
    method FanOutBroadcast(block: seq<byte>, at: nat, len: nat, seqNo: u32, scratch: seq<byte>, tiny: seq<byte>)
      returns (effects: seq<Effect>)
      requires at + len <= |block| <= |scratch| && |scratch| == ONCE_BUFFER_SIZE && |tiny| == TINY_ONCE_BUFFER_SIZE
      requires 2 <= len && 2 + 4 * ReadUint16(block, at) <= len
      ensures effects == BroadcastAsWritten(block, at, len, seqNo, scratch, tiny)
    {
      var count := ReadUint16(block, at);
      var rest := block[at + 2 + 4 * count..at + len];
      var body := BroadcastBodyBuffer(rest, scratch);
      effects := SendToTargets(block, at, count as nat, seqNo, tiny, body);
    }

    /** The fan-out loop of the BroadCast branch: per listed target, a fresh head buffer and one send. */
    method SendToTargets(block: seq<byte>, at: nat, count: nat, seqNo: u32, tiny: seq<byte>, body: Outgoing)
      returns (effects: seq<Effect>)
      requires at + 2 + 4 * count <= |block| && |tiny| == TINY_ONCE_BUFFER_SIZE
      ensures effects == FanOut(BroadcastTargets(block, at, count), BroadcastHeadAsWritten(seqNo, tiny), body)
    {
      effects := [];
      for i := 0 to count
        invariant effects == FanOut(BroadcastTargets(block, at, i), BroadcastHeadAsWritten(seqNo, tiny), body)
      {
        var uid := ReadUint32(block, at + 2 + 4 * i);
        var headBuffer := BroadcastHeadBuffer(seqNo, tiny);
        FanOutStep(block, at, i, headBuffer, body);
        effects := effects + [ToClientMulti(uid, headBuffer, body)];
      }
    }

    /** The broadcast message buffer: a pooled buffer with the message copied to its start and its length left at 0. */
    method BroadcastBodyBuffer(rest: seq<byte>, scratch: seq<byte>) returns (o: Outgoing)
      requires |rest| <= |scratch| == ONCE_BUFFER_SIZE
      ensures o == BroadcastBodyAsWritten(rest, scratch)
    {
      var mutableBuffer := new Buffer(ONCE_BUFFER_SIZE, scratch);
      CopyInto(mutableBuffer.bytes, 0, rest);
      o := Snapshot(mutableBuffer);
    }

    /**
     * One broadcast head buffer: a pooled tiny buffer with the header for
     * the (empty) message copied to its start and its length left at 0.
     */
    method BroadcastHeadBuffer(seqNo: u32, tiny: seq<byte>) returns (o: Outgoing)
      requires |tiny| == TINY_ONCE_BUFFER_SIZE
      ensures o == BroadcastHeadAsWritten(seqNo, tiny)
    {
      var headBuffer := new Buffer(TINY_ONCE_BUFFER_SIZE, tiny);
      var newHead := WrapHead([], CMD_ROUTING_TRANSPARENT, false, seqNo);
      var headBytes := HeadBytes(newHead);
      CopyInto(headBuffer.bytes, 0, headBytes);
      assert headBuffer.bytes[..] == headBytes + tiny[PROTO_HEAD_SIZE..];
      o := Snapshot(headBuffer);
    }

    /** wrap_to_send_data: a RoutingTransparent header with the current sequence number, put in front. */
    method Wrap(buffer: Buffer) returns (head: ProtocolHead)
      requires buffer.Valid() && buffer.size <= ONCE_BUFFER_SIZE
      requires PROTO_HEAD_SIZE <= buffer.offset && buffer.offset + buffer.length <= buffer.size
      modifies buffer, buffer.bytes
      ensures head == WrapHead(old(buffer.View()), CMD_ROUTING_TRANSPARENT, false, seqNo)
      ensures buffer.Valid() && buffer.offset == old(buffer.offset) - PROTO_HEAD_SIZE
      ensures buffer.length == old(buffer.length) + PROTO_HEAD_SIZE
      ensures buffer.bytes[..] == HeadBytes(head) + old(buffer.bytes[PROTO_HEAD_SIZE..])
      ensures old(buffer.offset) == PROTO_HEAD_SIZE ==> buffer.View() == FrameBytes(head, old(buffer.View()))
    {
      head := PrependHead(buffer, CMD_ROUTING_TRANSPARENT, false, seqNo);
    }

    /** kick_peer: asks the manager to kick the server peers of this session's type. */
    method KickPeer() returns (effects: seq<Effect>)
      ensures effects == [KickServerPeer(serverInfo.linkType)]
    {
      effects := [KickServerPeer(SessionType())];
    }

    /**
     * send_confirm_connect: [header][client uid][ip] in a fresh buffer sent
     * as is. The header's len is the whole buffer length, header included,
     * while the mask covers only the 8 bytes after the header.
     */
    method SendConfirmConnect(clientId: SessionUid, ip: u32, alive: bool, scratch: seq<byte>) returns (effects: seq<Effect>)
      requires |scratch| == ONCE_BUFFER_SIZE
      ensures !alive ==> effects == []
      ensures alive ==> effects == [SendMulti(None, ConfirmAsWritten(clientId, ip, seqNo, scratch))]
    {
      var buffer := new Buffer(ONCE_BUFFER_SIZE, scratch);
      var length := PackConnectConfirm(buffer.bytes, PROTO_HEAD_SIZE + 4, ip);
      ghost var b1 := buffer.bytes[..];
      buffer.length := length as nat + PROTO_HEAD_SIZE + 4;
      WriteUint32(buffer.bytes, PROTO_HEAD_SIZE, clientId);
      ghost var b2 := buffer.bytes[..];
      ConfirmLayout(scratch, ip, clientId, b1, b2);
      var payload := buffer.bytes[PROTO_HEAD_SIZE..PROTO_HEAD_SIZE + 8];
      var head := Sealed(GetAHead(FRAME_KEY, buffer.length, 0, CMD_CONNECTION_CONFIRM, false, seqNo), payload);
      var headBytes := HeadBytes(head);
      CopyInto(buffer.bytes, 0, headBytes);
      ghost var body := BeBytes(clientId, 4) + BeBytes(ip, 4);
      assert head == ConfirmHeadAsWritten(clientId, ip, seqNo);
      assert buffer.bytes[..] == headBytes + body + scratch[PROTO_HEAD_SIZE + 8..];
      if !alive {
        return [];
      }
      effects := [SendMulti(None, Snapshot(buffer))];
    }
  }

  /** The bytes of send_confirm_connect's buffer after the ip and then the uid are written. */
  lemma ConfirmLayout(scratch: seq<byte>, ip: u32, clientId: u32, b1: seq<byte>, b2: seq<byte>)
    requires |scratch| == ONCE_BUFFER_SIZE
    requires b1 == scratch[..15] + BeBytes(ip, 4) + scratch[19..]
    requires b2 == b1[..11] + BeBytes(clientId, 4) + b1[15..]
    ensures b2[11..19] == BeBytes(clientId, 4) + BeBytes(ip, 4)
    ensures b2[11..] == BeBytes(clientId, 4) + BeBytes(ip, 4) + scratch[19..]
  {
    assert b1[15..] == BeBytes(ip, 4) + scratch[19..];
  }

  /**
   * The sends of a BroadCast payload of `len` bytes at `at`, as written: one
   * per listed target, each with the empty-message head and the unsent body.
   */
  function BroadcastAsWritten(block: seq<byte>, at: nat, len: nat, seqNo: u32, scratch: seq<byte>, tiny: seq<byte>)
    : (r: seq<Effect>)
    requires at + len <= |block| <= |scratch| && |tiny| == TINY_ONCE_BUFFER_SIZE
    requires 2 <= len && 2 + 4 * ReadUint16(block, at) <= len
  {
    var count := ReadUint16(block, at);
    FanOut(BroadcastTargets(block, at, count), BroadcastHeadAsWritten(seqNo, tiny),
           BroadcastBodyAsWritten(block[at + 2 + 4 * count..at + len], scratch))
  }

  /** The head buffer of each broadcast send as written: a header for an empty payload, and length 0. */
  function BroadcastHeadAsWritten(seqNo: u32, tiny: seq<byte>): (o: Outgoing)
    requires |tiny| == TINY_ONCE_BUFFER_SIZE
    ensures |o.bytes| == TINY_ONCE_BUFFER_SIZE && o.Fits() && o.Sent() == []
    ensures o.bytes[..PROTO_HEAD_SIZE] == HeadBytes(WrapHead([], CMD_ROUTING_TRANSPARENT, false, seqNo))
  {
    Outgoing(0, 0, HeadBytes(WrapHead([], CMD_ROUTING_TRANSPARENT, false, seqNo)) + tiny[PROTO_HEAD_SIZE..])
  }

  /** The message buffer of each broadcast send as written: the message copied in, and length 0. */
  function BroadcastBodyAsWritten(rest: seq<byte>, scratch: seq<byte>): (o: Outgoing)
    requires |rest| <= |scratch|
    ensures |o.bytes| == |scratch| && o.Fits() && o.Sent() == [] && o.bytes[..|rest|] == rest
  {
    Outgoing(0, 0, rest + scratch[|rest|..])
  }

  /** As written, a broadcast reaches every listed client and puts no byte on any wire. */
  lemma BroadcastSendsNothing(targets: seq<SessionUid>, seqNo: u32, rest: seq<byte>, scratch: seq<byte>, tiny: seq<byte>)
    requires |rest| <= |scratch| && |tiny| == TINY_ONCE_BUFFER_SIZE
    ensures forall e | e in FanOut(targets, BroadcastHeadAsWritten(seqNo, tiny), BroadcastBodyAsWritten(rest, scratch)) ::
              e.ToClientMulti? && e.target in targets && MultiSent(e.head, e.msg) == []
  {
  }

  /** The broadcast the code evidently means: the header's len and both buffer lengths set. */
  function BroadcastIntended(targets: seq<SessionUid>, seqNo: u32, rest: seq<byte>, scratch: seq<byte>, tiny: seq<byte>)
    : (r: seq<Effect>)
    requires |rest| <= |scratch| && |rest| <= 0xFFFF && |tiny| == TINY_ONCE_BUFFER_SIZE
    ensures |r| == |targets|
    ensures forall i | 0 <= i < |targets| ::
              r[i].ToClientMulti? && r[i].target == targets[i] && r[i].head.Fits() && r[i].msg.Fits()
              && MultiSent(r[i].head, r[i].msg) == FrameBytes(WrapHead(rest, CMD_ROUTING_TRANSPARENT, false, seqNo), rest)
  {
    var h := WrapHead(rest, CMD_ROUTING_TRANSPARENT, false, seqNo);
    FanOut(targets, Outgoing(0, PROTO_HEAD_SIZE, HeadBytes(h) + tiny[PROTO_HEAD_SIZE..]), Outgoing(0, |rest|, rest + scratch[|rest|..]))
  }

  /** Every intended broadcast frame carries the message and passes the receiver's mask check. */
  lemma BroadcastIntendedVerifies(targets: seq<SessionUid>, seqNo: u32, rest: seq<byte>, scratch: seq<byte>, tiny: seq<byte>)
    requires |rest| <= |scratch| && |rest| <= 0xFFFF && |tiny| == TINY_ONCE_BUFFER_SIZE
    ensures forall e | e in BroadcastIntended(targets, seqNo, rest, scratch, tiny) ::
              e.ToClientMulti? && e.head.Fits() && e.msg.Fits()
              && var sent := MultiSent(e.head, e.msg);
                 |sent| >= PROTO_HEAD_SIZE && ParseHead(sent).len == |sent| - PROTO_HEAD_SIZE
                 && GetMask(sent[..PROTO_HEAD_SIZE], sent[PROTO_HEAD_SIZE..], 0) == 0
                 && sent[PROTO_HEAD_SIZE..] == rest
  {
    var h := WrapHead(rest, CMD_ROUTING_TRANSPARENT, false, seqNo);
    ParseHeadBytes(h, rest);
  }

  /** The buffer send_confirm_connect hands to the session. */
  function ConfirmAsWritten(clientId: SessionUid, ip: u32, seqNo: u32, scratch: seq<byte>): (o: Outgoing)
    requires |scratch| == ONCE_BUFFER_SIZE
    ensures o.Fits() && |o.Sent()| == PROTO_HEAD_SIZE + 8
  {
    var body := BeBytes(clientId, 4) + BeBytes(ip, 4);
    Outgoing(0, PROTO_HEAD_SIZE + 8, HeadBytes(ConfirmHeadAsWritten(clientId, ip, seqNo)) + body + scratch[PROTO_HEAD_SIZE + 8..])
  }

  /** The header send_confirm_connect writes: len 19 (the whole buffer), the mask over the uid and the ip. */
  function ConfirmHeadAsWritten(clientId: SessionUid, ip: u32, seqNo: u32): (h: ProtocolHead)
    ensures h.len == PROTO_HEAD_SIZE + 8 && GetCmd(h) == CMD_CONNECTION_CONFIRM && h.seqNo == seqNo
  {
    FifteenBits(CMD_CONNECTION_CONFIRM);
    Sealed(GetAHead(FRAME_KEY, PROTO_HEAD_SIZE + 8, 0, CMD_CONNECTION_CONFIRM, false, seqNo), BeBytes(clientId, 4) + BeBytes(ip, 4))
  }

  /**
   * As written, the confirm frame announces 19 payload bytes but only 8
   * follow its header, so a receiver waits for 11 bytes that belong to the
   * next frame.
   */
  lemma ConfirmLengthAsWritten(clientId: SessionUid, ip: u32, seqNo: u32, scratch: seq<byte>)
    requires |scratch| == ONCE_BUFFER_SIZE
    ensures var sent := ConfirmAsWritten(clientId, ip, seqNo, scratch).Sent();
            ParseHead(sent).len == PROTO_HEAD_SIZE + 8 && |sent| - PROTO_HEAD_SIZE == 8
  {
    var body := BeBytes(clientId, 4) + BeBytes(ip, 4);
    var head := ConfirmHeadAsWritten(clientId, ip, seqNo);
    var sent := ConfirmAsWritten(clientId, ip, seqNo, scratch).Sent();
    assert sent == HeadBytes(head) + body;
    ParseHeadBytes(head, body);
  }

  /** The header of a frame of two big-endian words, and the words, read back. */
  lemma TwoWordFrame(h: ProtocolHead, a: u32, b: u32)
    ensures var sent := FrameBytes(h, BeBytes(a, 4) + BeBytes(b, 4));
            ParseHead(sent) == h && ReadUint32(sent, PROTO_HEAD_SIZE) == a && ReadUint32(sent, PROTO_HEAD_SIZE + 4) == b
  {
    var body := BeBytes(a, 4) + BeBytes(b, 4);
    var sent := FrameBytes(h, body);
    ParseHeadBytes(h, body);
    assert sent[PROTO_HEAD_SIZE..PROTO_HEAD_SIZE + 4] == BeBytes(a, 4);
    assert sent[PROTO_HEAD_SIZE + 4..PROTO_HEAD_SIZE + 8] == BeBytes(b, 4);
    ReadUint32Of(sent, PROTO_HEAD_SIZE, a);
    ReadUint32Of(sent, PROTO_HEAD_SIZE + 4, b);
  }

  /** The confirm frame the code evidently means: len 8, the uid and the ip after the header. */
  function ConfirmIntended(clientId: SessionUid, ip: u32, seqNo: u32): (sent: seq<byte>)
    ensures |sent| == PROTO_HEAD_SIZE + 8 && ParseHead(sent).len == 8
    ensures GetCmd(ParseHead(sent)) == CMD_CONNECTION_CONFIRM
    ensures GetMask(sent[..PROTO_HEAD_SIZE], sent[PROTO_HEAD_SIZE..], 0) == 0
    ensures ReadUint32(sent, PROTO_HEAD_SIZE) == clientId && ReadUint32(sent, PROTO_HEAD_SIZE + 4) == ip
  {
    var body := BeBytes(clientId, 4) + BeBytes(ip, 4);
    var head := WrapHead(body, CMD_CONNECTION_CONFIRM, false, seqNo);
    TwoWordFrame(head, clientId, ip);
    FifteenBits(CMD_CONNECTION_CONFIRM);
    FrameBytes(head, body)
  }
}
