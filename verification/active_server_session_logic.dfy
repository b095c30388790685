// active_server_session_logic (AsioNet/TestClient/active_server_session_logic.h/.cpp):
// the game server's end of its connection to the gateway. It announces
// itself with an authentication request. It takes the first frame back as
// the gateway's verdict. From then on it delivers every frame except
// ConnectionConfirm notices, which record a client's address in the
// manager. Each delivered message is appended to a ring buffer shared with
// the manager, as a record of
//   client uid (4) | command (2) | length (2) | payload,
// all big-endian.

module ActiveServerSessionLogics {
  import opened NetUtils
  import opened Protocol
  import opened ProtoMask
  import opened ReusableBuffer
  import opened SessionLogic
  import opened DefaultSessionLogics
  import opened ParallelRing

  /** prefix_size: room for a header and a client uid in front of a received payload. */
  const ACTIVE_PREFIX_SIZE: nat := PROTO_HEAD_SIZE + 4

  /** The size of a record's fixed part: uid, command and length. */
  const RECORD_HEAD_SIZE: nat := 8

  /** The bytes try_copy_to_storage appends for one message. */
  function RecordBytes(uid: SessionUid, cmd: u16, payload: seq<byte>): (r: seq<byte>)
    requires |payload| <= 0xFFFF
    ensures |r| == RECORD_HEAD_SIZE + |payload| && r[RECORD_HEAD_SIZE..] == payload
    ensures ReadUint32(r, 0) == uid && ReadUint16(r, 4) == cmd && ReadUint16(r, 6) == |payload|
  {
    var r := BeBytes(uid, 4) + BeBytes(cmd, 2) + BeBytes(|payload|, 2) + payload;
    ReadUint32Of(r, 0, uid);
    ReadUint16Of(r, 4, cmd);
    ReadUint16Of(r, 6, |payload|);
    r
  }

  // -------------------------------------------------------------------
  // What unwrap_received_data makes of a frame.

  /** A rule turning the error code of the gateway's response into the new authentication state. */
  type VerdictRule = byte -> AuthenticationState

  /** check_verify_res as written: success is recorded as VerifyFailed, any other code as VerifySucc. */
  function VerdictAsWritten(ec: byte): AuthenticationState
  {
    if ec == EC_SUCCESS then VerifyFailed else VerifySucc
  }

  /** The verdict the code evidently means: VerifySucc exactly for success. */
  function VerdictIntended(ec: byte): AuthenticationState
  {
    if ec == EC_SUCCESS then VerifySucc else VerifyFailed
  }

  datatype Unwrapped =
    | Refused                                  // bad mask or an empty frame
    | Verdict(state: AuthenticationState)      // the frame read as the authentication response
    | Confirmed(client: SessionUid, ip: u32)   // a ConnectionConfirm, handed to the manager
    | Delivered(payload: seq<byte>)            // copied to ret_block

  /**
   * The outcome of unwrap_received_data on a frame whose header is `head`.
   * `block` is the received buffer from its offset on; the payload is its
   * first head.len bytes. The sequence number is not checked.
   */
  function UnwrapOutcome(rule: VerdictRule, state: AuthenticationState, head: ProtocolHead, block: seq<byte>): (u: Unwrapped)
    requires head.len <= |block|
    requires state != BeforeVerify && GetCmd(head) == CMD_CONNECTION_CONFIRM ==> 8 <= |block|
    ensures u.Refused? <==> head.len == 0 || GetMask(HeadBytes(head), block[..head.len], 0) != 0
    ensures u.Verdict? <==> !u.Refused? && state == BeforeVerify
    ensures u.Delivered? ==> state != BeforeVerify && GetCmd(head) != CMD_CONNECTION_CONFIRM && u.payload == block[..head.len]
  {
    if GetMask(HeadBytes(head), block[..head.len], 0) != 0 || head.len == 0 then Refused
    else if state == BeforeVerify then Verdict(rule(block[0]))
    else if GetCmd(head) == CMD_CONNECTION_CONFIRM then Confirmed(ReadUint32(block, 0), ReadUint32(block, 4))
    else Delivered(block[..head.len])
  }

  /**
   * After verification, whichever way it went, a frame wrapped as
   * RoutingTransparent around a non-empty payload is delivered intact.
   */
  lemma WrappedFrameDelivered(rule: VerdictRule, state: AuthenticationState, payload: seq<byte>, seqNo: u32, rest: seq<byte>)
    requires state != BeforeVerify && 0 < |payload| <= 0xFFFF
    ensures UnwrapOutcome(rule, state, WrapHead(payload, CMD_ROUTING_TRANSPARENT, false, seqNo), payload + rest)
            == Delivered(payload)
  {
    assert (payload + rest)[..|payload|] == payload;
  }

  /**
   * The gateway's echo as it sends it, framed under any command, is taken as
   * the verdict: as written, a success code leaves the game server
   * VerifyFailed and a failure code VerifySucc.
   */
  lemma EchoedVerdictInvertedAsWritten(ec: byte, rc4: Rc4Info, targetUid: SessionUid, linkType: byte, scratch: seq<byte>,
                                       cmd: u16, seqNo: u32, rest: seq<byte>)
    requires ValidRc4(rc4) && |scratch| == ONCE_BUFFER_SIZE
    ensures var p := EchoAsWritten(ec, rc4, targetUid, linkType, scratch).Sent();
            UnwrapOutcome(VerdictAsWritten, BeforeVerify, WrapHead(p, cmd, false, seqNo), p + rest)
            == Verdict(if ec == EC_SUCCESS then VerifyFailed else VerifySucc)
  {
    var p := EchoAsWritten(ec, rc4, targetUid, linkType, scratch).Sent();
    assert (p + rest)[..|p|] == p && (p + rest)[0] == ec;
  }

  /** With the intended rule the recorded state agrees with the gateway's verdict. */
  lemma EchoedVerdictKeptIntended(ec: byte, rc4: Rc4Info, targetUid: SessionUid, linkType: byte, scratch: seq<byte>,
                                  cmd: u16, seqNo: u32, rest: seq<byte>)
    requires ValidRc4(rc4) && |scratch| == ONCE_BUFFER_SIZE
    ensures var p := EchoAsWritten(ec, rc4, targetUid, linkType, scratch).Sent();
            UnwrapOutcome(VerdictIntended, BeforeVerify, WrapHead(p, cmd, false, seqNo), p + rest)
            == Verdict(if ec == EC_SUCCESS then VerifySucc else VerifyFailed)
  {
    var p := EchoAsWritten(ec, rc4, targetUid, linkType, scratch).Sent();
    assert (p + rest)[..|p|] == p && (p + rest)[0] == ec;
  }

  /**
   * A ConnectionConfirm as the gateway packs it (client uid, then address)
   * is handed to the manager with both values intact.
   */
  lemma ConfirmReadBack(rule: VerdictRule, state: AuthenticationState, client: SessionUid, ip: u32, seqNo: u32, rest: seq<byte>)
    requires state != BeforeVerify
    ensures var p := BeBytes(client, 4) + BeBytes(ip, 4);
            UnwrapOutcome(rule, state, WrapHead(p, CMD_CONNECTION_CONFIRM, false, seqNo), p + rest) == Confirmed(client, ip)
  {
    var p := BeBytes(client, 4) + BeBytes(ip, 4);
    var b := p + rest;
    assert b[..|p|] == p;
    ReadUint32Of(b, 0, client);
    ReadUint32Of(b, 4, ip);
  }

  // -------------------------------------------------------------------
  // The authentication request.

  /**
   * The buffer send_verify_authentication hands to async_send: the request
   * packed at offset 11 of a pooled buffer, with the platform string and the
   * NUL after it.
   */
  function AuthRequestOut(info: ServerInfo, scratch: seq<byte>): (o: Outgoing)
    requires |scratch| == ONCE_BUFFER_SIZE && PROTO_HEAD_SIZE + 8 + |info.platform| <= ONCE_BUFFER_SIZE
    ensures o.Fits() && o.offset == PROTO_HEAD_SIZE && o.length == 8 + |info.platform|
    ensures o.Sent() == AaaRequestBytes(info.areaId, info.serverId, ACTIVE_GAMESVR, info.platform + [0], |info.platform|)
  {
    var body := AaaRequestBytes(info.areaId, info.serverId, ACTIVE_GAMESVR, info.platform + [0], |info.platform|);
    var o := Outgoing(PROTO_HEAD_SIZE, |body|, scratch[..PROTO_HEAD_SIZE] + body + scratch[PROTO_HEAD_SIZE + |body|..]);
    assert o.bytes[PROTO_HEAD_SIZE..PROTO_HEAD_SIZE + |body|] == body;
    o
  }

  /**
   * The gateway decodes the request back to this server's area, id and
   * platform, under the ACTIVE_GAMESVR link type.
   */
  lemma AuthRequestAnnouncesServer(info: ServerInfo, scratch: seq<byte>)
    requires |scratch| == ONCE_BUFFER_SIZE && PROTO_HEAD_SIZE + 8 + |info.platform| <= ONCE_BUFFER_SIZE
    ensures var o := AuthRequestOut(info, scratch);
            UnpackAaaRequest(o.Sent(), o.length) == Some(AaaRequest(info.areaId, info.serverId, ACTIVE_GAMESVR,
                                                                    info.platform + [0], |info.platform|))
            && InfoOf(UnpackAaaRequest(o.Sent(), o.length).value) == info.(platform := info.platform + [0], linkType := ACTIVE_GAMESVR)
  {
    AaaRequestRoundTrip(info.areaId, info.serverId, ACTIVE_GAMESVR, info.platform + [0], |info.platform|);
  }

  // -------------------------------------------------------------------
  // The logic object.

  class ActiveServerSessionLogic {
    var authentication: AuthenticationState
    var seqNo: u32
    var serverInfo: ServerInfo
    var storage: RingBuffer

    /** A new logic: sequence number 0, not verified, sharing the given storage. */
    constructor (storage: RingBuffer)
      ensures authentication == BeforeVerify && seqNo == 0 && this.storage == storage
    {
      authentication := BeforeVerify;
      seqNo := 0;
      this.storage := storage;
    }

    /** reset: the state a pooled logic is handed out in. */
    method Reset()
      modifies this`seqNo, this`authentication
      ensures seqNo == 0 && authentication == BeforeVerify
    {
      seqNo := 0;
      authentication := BeforeVerify;
    }

    /** set_server_info. */
    method SetServerInfo(info: ServerInfo)
      modifies this`serverInfo
      ensures serverInfo == info
    {
      serverInfo := info;
    }

    /** share_storage: the ring buffer the manager reads records from. */
    method ShareStorage(s: RingBuffer)
      modifies this`storage
      ensures storage == s
    {
      storage := s;
    }

    /**
     * unwrap_received_data on the received payload in `buffer`. Nothing is
     * delivered before verification. The first accepted frame sets the
     * authentication state from its first byte. A ConnectionConfirm moves
     * the buffer past the client uid and returns the manager call.
     */
    method Unwrap(buffer: Buffer, head: ProtocolHead, retBlock: Buffer) returns (ok: bool, effects: seq<Effect>)
      requires buffer.Valid() && buffer.offset + head.len <= buffer.size
      requires authentication != BeforeVerify && GetCmd(head) == CMD_CONNECTION_CONFIRM ==> buffer.offset + 8 <= buffer.size
      requires retBlock.Valid() && retBlock.offset + head.len <= retBlock.size && retBlock.bytes != buffer.bytes
      modifies this`authentication, buffer`offset, buffer`length, retBlock`length, retBlock.bytes
      ensures var u := UnwrapOutcome(VerdictAsWritten, old(authentication), head, buffer.bytes[old(buffer.offset)..]);
        && ok == u.Delivered?
        && authentication == (if u.Verdict? then u.state else old(authentication))
        && effects == (if u.Confirmed? then [SetRemoteIp(u.client, u.ip)] else [])
        && (u.Confirmed? ==> buffer.offset == old(buffer.offset) + 4
                             && buffer.length == (if old(buffer.length) >= 4 then old(buffer.length) - 4
                                                  else old(buffer.length) + SIZE_T - 4))
        && (!u.Confirmed? ==> buffer.offset == old(buffer.offset) && buffer.length == old(buffer.length))
        && (ok ==> retBlock.length == head.len
                   && retBlock.bytes[..] == old(retBlock.bytes[..retBlock.offset]) + u.payload
                                            + old(retBlock.bytes[retBlock.offset + head.len..]))
        && (!ok ==> retBlock.length == old(retBlock.length) && retBlock.bytes[..] == old(retBlock.bytes[..]))
    {
      ghost var block := buffer.bytes[buffer.offset..];
      ghost var u := UnwrapOutcome(VerdictAsWritten, authentication, head, block);
      var payload := buffer.bytes[buffer.offset..buffer.offset + head.len];
      assert payload == block[..head.len];
      ok, effects := false, [];
      if GetMask(HeadBytes(head), payload, 0) != 0 || head.len == 0 {
        assert u.Refused?;
      } else if authentication == BeforeVerify {
        authentication := VerdictAsWritten(buffer.bytes[buffer.offset]);
        assert u == Verdict(authentication);
      } else if GetCmd(head) == CMD_CONNECTION_CONFIRM {
        ghost var bs := buffer.bytes[..];
        ghost var o := buffer.offset;
        assert block == bs[o..];
        var client := ReadUint32(buffer.bytes[buffer.offset..buffer.offset + 4], 0);
        ReadUint32Within(bs, o, 0);
        buffer.offset := buffer.offset + 4;
        buffer.length := if buffer.length >= 4 then buffer.length - 4 else buffer.length + SIZE_T - 4;
        var ip := ReadUint32(buffer.bytes[buffer.offset..buffer.offset + 4], 0);
        ReadUint32Within(bs, o, 4);
        assert u == Confirmed(client, ip);
        effects := [SetRemoteIp(client, ip)];
      } else {
        assert u == Delivered(payload);
        CopyInto(retBlock.bytes, retBlock.offset, payload);
        retBlock.length := head.len;
        ok := true;
      }
    }

    /**
     * wrap_to_send_data: the sequence number is raised first; the header
     * carries AuthenticationAAA before verification and RoutingTransparent
     * after it, never the compressed flag.
     */
    method Wrap(buffer: Buffer) returns (head: ProtocolHead)
      requires buffer.Valid() && buffer.size <= ONCE_BUFFER_SIZE
      requires PROTO_HEAD_SIZE <= buffer.offset && buffer.offset + buffer.length <= buffer.size
      modifies this`seqNo, buffer, buffer.bytes
      ensures seqNo == (old(seqNo) + 1) % 0x1_0000_0000
      ensures head == WrapHead(old(buffer.View()),
                               if authentication == BeforeVerify then CMD_AUTHENTICATION_AAA else CMD_ROUTING_TRANSPARENT,
                               false, seqNo)
      ensures buffer.Valid() && buffer.offset == old(buffer.offset) - PROTO_HEAD_SIZE
      ensures buffer.length == old(buffer.length) + PROTO_HEAD_SIZE
      ensures buffer.bytes[..] == HeadBytes(head) + old(buffer.bytes[PROTO_HEAD_SIZE..])
      ensures old(buffer.offset) == PROTO_HEAD_SIZE ==> buffer.View() == FrameBytes(head, old(buffer.View()))
    {
      var cmd := if authentication == BeforeVerify then CMD_AUTHENTICATION_AAA else CMD_ROUTING_TRANSPARENT;
      seqNo := (seqNo + 1) % 0x1_0000_0000;
      head := PrependHead(buffer, cmd, false, seqNo);
    }

    /**
     * send_verify_authentication: the request for this server's info goes
     * to the session, unless the session is gone.
     */
    method SendVerifyAuthentication(alive: bool, scratch: seq<byte>) returns (effects: seq<Effect>)
      requires |scratch| == ONCE_BUFFER_SIZE && PROTO_HEAD_SIZE + 8 + |serverInfo.platform| <= ONCE_BUFFER_SIZE
      ensures !alive ==> effects == []
      ensures alive ==> effects == [Send(AuthRequestOut(serverInfo, scratch))]
    {
      var sendBuffer := new Buffer(ONCE_BUFFER_SIZE, scratch);
      sendBuffer.offset := PROTO_HEAD_SIZE;
      var len := PackAaaRequest(sendBuffer.bytes, PROTO_HEAD_SIZE, serverInfo.areaId, serverInfo.serverId, ACTIVE_GAMESVR,
                                serverInfo.platform + [0], |serverInfo.platform|);
      sendBuffer.length := len;
      if !alive {
        return [];
      }
      effects := [Send(Snapshot(sendBuffer))];
    }

    /**
     * try_copy_to_storage on the delivered message in `data`. The leading
     * client uid is stripped, moving data's offset and length by 4. When the
     * 8-byte record head and the rest do not fit, nothing is written.
     * Otherwise the whole record is appended.
     */
    method TryCopyToStorage(data: Buffer, head: ProtocolHead) returns (ok: bool)
      requires storage.Valid() && data.Valid() && data.offset + data.length <= data.size
      requires 4 <= data.length <= 0xFFFF
      modifies data`offset, data`length, storage`writeIndex, storage.buffer
      ensures data.offset == old(data.offset) + 4 && data.length == old(data.length) - 4
      ensures storage.Valid() && storage.readIndex == old(storage.readIndex)
      ensures ok <==> old(storage.Count()) + 4 + old(data.length) < storage.capacity
      ensures ok ==> storage.Contents() == old(storage.Contents())
                     + RecordBytes(ReadUint32(old(data.View()), 0), GetCmd(head), old(data.View())[4..])
      ensures !ok ==> storage.writeIndex == old(storage.writeIndex) && unchanged(storage.buffer)
    {
      var message := data.bytes[data.offset..data.offset + data.length];
      var uid := ReadUint32(message, 0);
      data.offset := data.offset + 4;
      data.length := data.length - 4;
      if storage.Full(RECORD_HEAD_SIZE + data.length) {
        return false;
      }
      var payload := data.bytes[data.offset..data.offset + data.length];
      assert payload == message[4..];
      AppendRecord(storage, uid, GetCmd(head), payload);
      ok := true;
    }
  }
  /** The four tryWrite calls of try_copy_to_storage, once the room is known to be there. */
  method AppendRecord(ring: RingBuffer, uid: SessionUid, cmd: u16, payload: seq<byte>)
    requires ring.Valid() && |payload| <= 0xFFFF && ring.Count() + RECORD_HEAD_SIZE + |payload| < ring.capacity
    modifies ring`writeIndex, ring.buffer
    ensures ring.Valid() && ring.readIndex == old(ring.readIndex)
    ensures ring.Contents() == old(ring.Contents()) + RecordBytes(uid, cmd, payload)
  {
    ghost var c0 := ring.Contents();
    var written := ring.TryWrite(BeBytes(uid, 4), 4);
    assert BeBytes(uid, 4)[..4] == BeBytes(uid, 4);
    ghost var c1 := ring.Contents();
    assert c1 == c0 + BeBytes(uid, 4);
    written := ring.TryWrite(BeBytes(cmd, 2), 2);
    assert BeBytes(cmd, 2)[..2] == BeBytes(cmd, 2);
    ghost var c2 := ring.Contents();
    assert c2 == c1 + BeBytes(cmd, 2);
    written := ring.TryWrite(BeBytes(|payload|, 2), 2);
    assert BeBytes(|payload|, 2)[..2] == BeBytes(|payload|, 2);
    ghost var c3 := ring.Contents();
    assert c3 == c2 + BeBytes(|payload|, 2);
    written := ring.TryWrite(payload, |payload|);
    assert payload[..|payload|] == payload;
    assert ring.Contents() == c3 + payload;
    AppendInFour(c0, BeBytes(uid, 4), BeBytes(cmd, 2), BeBytes(|payload|, 2), payload);
  }

  /** Appending four pieces one after another appends their concatenation. */
  lemma AppendInFour<T>(c: seq<T>, a: seq<T>, b: seq<T>, d: seq<T>, e: seq<T>)
    ensures c + a + b + d + e == c + (a + b + d + e)
  {
  }
}
