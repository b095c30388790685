// default_session_logic (AsioNet/AsioNet/default_session_logic.h/.cpp): the
// logic every accepted connection starts with. It accepts exactly one
// authentication request, asks the manager for a verdict, echoes the
// result with the connection's rc4 material, and never delivers payload.
// On success the manager swaps it for a client or server logic, which
// inherits its state through trans_to_client / trans_to_server.

module DefaultSessionLogics {
  import opened NetUtils
  import opened Protocol
  import opened ProtoMask
  import opened ReusableBuffer
  import opened SafeRandoms
  import opened SessionLogic
  import opened ServerSessionLogics
  import opened ClientSessionLogics

  /** TransferError codes the echo carries (error_code.hpp is not part of this model; only their difference matters). */
  const EC_SUCCESS: byte := 0
  const EC_SERVER_NOT_FOUND: byte := 1

  /** prefix_size: the payload of a received frame is placed right after a header's worth of room. */
  const DEFAULT_PREFIX_SIZE: nat := PROTO_HEAD_SIZE

  /**
   * proxy_manager::verify_authentication as a default logic sees it: the
   * announced link type, the server uid computed from the request, this
   * session's uid and remote ip, and the target uid before the call go in;
   * the verdict and the target uid after the call come out.
   */
  type Verifier = (byte, ServerId, SessionUid, u32, SessionUid) -> (bool, SessionUid)

  /** The server_info a request announces. */
  function InfoOf(req: AaaRequest): ServerInfo
  {
    ServerInfo(req.serverId, req.areaId, req.platform, req.linkType)
  }

  /** The bytes authentication_aaa_response::pack writes for this logic's key material. */
  function ResponseOf(ec: byte, rc4: Rc4Info, targetUid: SessionUid, linkType: byte): (r: seq<byte>)
    requires ValidRc4(rc4)
    ensures |r| == RC4_KEY_LEN + 8 && r[0] == ec
  {
    AaaResponseBytes(ec, rc4.subtract as byte, rc4.modVt as byte, rc4.key, targetUid, linkType)
  }

  /**
   * The buffer echo_authentication_res sends: a pooled buffer whose offset
   * is set to 11, the response packed there, and its length raised by the
   * 20 bytes pack reports although it wrote 18.
   */
  function EchoAsWritten(ec: byte, rc4: Rc4Info, targetUid: SessionUid, linkType: byte, scratch: seq<byte>): (o: Outgoing)
    requires ValidRc4(rc4) && |scratch| == ONCE_BUFFER_SIZE
    ensures o.Fits() && o.offset == PROTO_HEAD_SIZE && o.length == RC4_KEY_LEN + 10 && o.Sent()[0] == ec
  {
    Outgoing(PROTO_HEAD_SIZE, RC4_KEY_LEN + 10,
             scratch[..PROTO_HEAD_SIZE] + ResponseOf(ec, rc4, targetUid, linkType)
             + scratch[PROTO_HEAD_SIZE + RC4_KEY_LEN + 8..])
  }

  /**
   * What the peer reads from the echo as written: the response followed by
   * two stale bytes; unpacked with the sent length, every field comes back
   * except the last key byte (and the link type, which unpack never reads).
   */
  lemma EchoReadBackAsWritten(ec: byte, rc4: Rc4Info, targetUid: SessionUid, linkType: byte, scratch: seq<byte>)
    requires ValidRc4(rc4) && |scratch| == ONCE_BUFFER_SIZE
    ensures var o := EchoAsWritten(ec, rc4, targetUid, linkType, scratch);
            o.Sent()[..RC4_KEY_LEN + 8] == ResponseOf(ec, rc4, targetUid, linkType)
            && UnpackAaaResponse(o.Sent(), o.length)
               == Some(AaaResponse(ec, rc4.subtract as byte, rc4.modVt as byte, rc4.key[..RC4_KEY_LEN - 1],
                                   RC4_KEY_LEN - 1, targetUid))
  {
    var o := EchoAsWritten(ec, rc4, targetUid, linkType, scratch);
    var tail := scratch[PROTO_HEAD_SIZE + RC4_KEY_LEN + 8..PROTO_HEAD_SIZE + RC4_KEY_LEN + 10];
    assert o.Sent() == ResponseOf(ec, rc4, targetUid, linkType) + tail;
    AaaResponseRoundTripAsWritten(ec, rc4.subtract as byte, rc4.modVt as byte, rc4.key, targetUid, linkType, tail);
  }

  /** The echo with the length pack actually writes. */
  function EchoIntended(ec: byte, rc4: Rc4Info, targetUid: SessionUid, linkType: byte, scratch: seq<byte>): (o: Outgoing)
    requires ValidRc4(rc4) && |scratch| == ONCE_BUFFER_SIZE
    ensures o.Fits() && o.Sent() == ResponseOf(ec, rc4, targetUid, linkType)
  {
    var o := EchoAsWritten(ec, rc4, targetUid, linkType, scratch).(length := RC4_KEY_LEN + 8);
    assert o.bytes[o.offset..o.offset + o.length] == ResponseOf(ec, rc4, targetUid, linkType);
    o
  }

  /** With the intended length the peer recovers the whole key and the link type. */
  lemma EchoReadBackIntended(ec: byte, rc4: Rc4Info, targetUid: SessionUid, linkType: byte, scratch: seq<byte>)
    requires ValidRc4(rc4) && |scratch| == ONCE_BUFFER_SIZE
    ensures var o := EchoIntended(ec, rc4, targetUid, linkType, scratch);
            UnpackAaaResponseIntended(o.Sent(), o.length)
            == Some((AaaResponse(ec, rc4.subtract as byte, rc4.modVt as byte, rc4.key, RC4_KEY_LEN, targetUid), linkType))
  {
    AaaResponseRoundTripIntended(ec, rc4.subtract as byte, rc4.modVt as byte, rc4.key, targetUid, linkType);
  }

  /** The server uid a request names: cal_server_uid of its area, server id and platform. */
  function RequestedServer(req: AaaRequest): (r: ServerId)
    ensures r / 0x1_0000_0000_0000 == req.areaId && r / 0x1_0000_0000 % 0x1_0000 == req.serverId
  {
    ServerUid(req.areaId, req.serverId, StrHash(req.platform))
  }

  /** The manager is consulted only for an AuthenticationAAA command; its verdict and the target uid it leaves. */
  function Verdict(req: AaaRequest, cmd: u16, sessionUid: SessionUid, ip: u32, target: SessionUid, verifier: Verifier)
    : (v: (bool, SessionUid))
    ensures cmd != CMD_AUTHENTICATION_AAA ==> v == (false, target)
  {
    if cmd != CMD_AUTHENTICATION_AAA then (false, target)
    else verifier(req.linkType, RequestedServer(req), sessionUid, ip, target)
  }

  /** What an authentication attempt leaves behind: its result, the state, the target uid and the sends. */
  datatype AuthOutcome = AuthOutcome(ok: bool, state: AuthenticationState, targetUid: SessionUid, effects: seq<Effect>)

  /**
   * verify_authentication followed by echo_authentication_res. A gone
   * session changes nothing and sends nothing. Otherwise the attempt always
   * leaves BEFORE_VERIFY, in VERIFY_SUCC exactly when it succeeds, and sends
   * one echo whose error code says which; only the failure echo kicks the
   * session. Only an AuthenticationAAA command the manager accepts succeeds.
   */
  function Authenticate(req: AaaRequest, cmd: u16, alive: bool, sessionUid: SessionUid, ip: u32,
                        state: AuthenticationState, target: SessionUid, rc4: Rc4Info, verifier: Verifier,
                        scratch: seq<byte>): (r: AuthOutcome)
    requires ValidRc4(rc4) && |scratch| == ONCE_BUFFER_SIZE
    ensures !alive ==> r == AuthOutcome(false, state, target, [])
    ensures alive ==> r.state != BeforeVerify && (r.ok <==> r.state == VerifySucc) && |r.effects| == 1
    ensures alive && r.ok ==> r.effects[0] == Send(EchoAsWritten(EC_SUCCESS, rc4, r.targetUid, req.linkType, scratch))
    ensures alive && !r.ok ==>
              r.effects[0] == SendThenKick(EchoAsWritten(EC_SERVER_NOT_FOUND, rc4, r.targetUid, req.linkType, scratch))
    ensures r.ok ==> cmd == CMD_AUTHENTICATION_AAA && verifier(req.linkType, RequestedServer(req), sessionUid, ip, target).0
    ensures alive && cmd != CMD_AUTHENTICATION_AAA ==> r.state == VerifyFailed && r.targetUid == target
  {
    if !alive then AuthOutcome(false, state, target, [])
    else
      var v := Verdict(req, cmd, sessionUid, ip, target, verifier);
      if v.0 then AuthOutcome(true, VerifySucc, v.1, [Send(EchoAsWritten(EC_SUCCESS, rc4, v.1, req.linkType, scratch))])
      else AuthOutcome(false, VerifyFailed, v.1, [SendThenKick(EchoAsWritten(EC_SERVER_NOT_FOUND, rc4, v.1, req.linkType, scratch))])
  }

  /** The request as unwrap hands it to verify_authentication: the payload from offset, its length cut to 16 bits. */
  function RequestIn(buffer: Buffer): Option<AaaRequest>
    reads buffer, buffer.bytes
    requires buffer.Valid()
  {
    UnpackAaaRequest(buffer.bytes[buffer.offset..], buffer.length % 0x1_0000)
  }

  class DefaultSessionLogic {
    var authentication: AuthenticationState
    var targetUid: SessionUid
    var rc4: Rc4Info
    var serverInfo: ServerInfo
    var seqNo: u32

    ghost predicate Valid()
      reads this
    {
      ValidRc4(rc4)
    }

    /** The constructor: sequence 0, BEFORE_VERIFY, and rc4 material drawn from the shared generator. */
    constructor (rng: SafeRandom)
      modifies rng
      ensures Valid() && seqNo == 0 && authentication == BeforeVerify
      ensures rc4 == Rc4From(old(rng.state)) && rng.state == Iterate(old(rng.state), RC4_KEY_LEN + 2)
    {
      seqNo := 0;
      authentication := BeforeVerify;
      new;
      rc4 := NewRc4Info(rng);
    }

    /** reset: back to BEFORE_VERIFY with target uid 0, sequence 0 and fresh rc4 material; server info is kept. */
    method Reset(rng: SafeRandom)
      modifies this, rng
      ensures Valid() && authentication == BeforeVerify && targetUid == 0 && seqNo == 0
      ensures rc4 == Rc4From(old(rng.state)) && rng.state == Iterate(old(rng.state), RC4_KEY_LEN + 2)
      ensures serverInfo == old(serverInfo)
    {
      authentication := BeforeVerify;
      targetUid := 0;
      rc4 := NewRc4Info(rng);
      seqNo := 0;
    }

    /** get_session_type */
    function SessionType(): byte
    {
      SINGLE_SESSION_BEGIN
    }

    /** is_free_session */
    function IsFreeSession(): bool
    {
      true
    }

    /** kick_peer: a default logic has no peer to kick. */
    method KickPeer() returns (effects: seq<Effect>)
      ensures effects == []
    {
      effects := [];
    }

    /** try_copy_to_storage: accepts everything (unwrap never delivers, so it is not reached). */
    method TryCopyToStorage(data: Buffer, head: ProtocolHead) returns (ok: bool)
      ensures ok
    {
      ok := true;
    }

    /**
     * echo_authentication_res: the response with this logic's rc4 material,
     * target uid and announced link type, in a pooled buffer at offset 11.
     * A failure echo kicks the session once sent.
     */
    method EchoAuthenticationRes(ec: byte, alive: bool, scratch: seq<byte>) returns (effects: seq<Effect>)
      requires Valid() && |scratch| == ONCE_BUFFER_SIZE
      ensures !alive ==> effects == []
      ensures alive && ec != EC_SUCCESS ==>
                effects == [SendThenKick(EchoAsWritten(ec, rc4, targetUid, serverInfo.linkType, scratch))]
      ensures alive && ec == EC_SUCCESS ==> effects == [Send(EchoAsWritten(ec, rc4, targetUid, serverInfo.linkType, scratch))]
    {
      var buffer := new Buffer(ONCE_BUFFER_SIZE, scratch);
      buffer.offset := DEFAULT_PREFIX_SIZE;
      var len := PackAaaResponse(buffer.bytes, buffer.offset, ec, rc4.subtract as byte, rc4.modVt as byte, rc4.key,
                                 RC4_KEY_LEN as u16, targetUid, serverInfo.linkType);
      buffer.length := buffer.length + len as nat;
      if !alive {
        return [];
      }
      var msg := Snapshot(buffer);
      assert msg == EchoAsWritten(ec, rc4, targetUid, serverInfo.linkType, scratch);
      if ec != EC_SUCCESS {
        effects := [SendThenKick(msg)];
      } else {
        effects := [Send(msg)];
      }
    }

    /**
     * verify_authentication: the request is unpacked and its server info
     * stored before anything else; then, if the session is still there,
     * the attempt settles as Authenticate says.
     */
    method VerifyAuthentication(buffer: Buffer, cmd: u16, alive: bool, sessionUid: SessionUid, ip: u32,
                                verifier: Verifier, scratch: seq<byte>)
      returns (ok: bool, effects: seq<Effect>)
      requires Valid() && buffer.Valid() && RequestIn(buffer).Some? && |scratch| == ONCE_BUFFER_SIZE
      modifies this`serverInfo, this`authentication, this`targetUid
      ensures Valid() && serverInfo == InfoOf(RequestIn(buffer).value)
      ensures AuthOutcome(ok, authentication, targetUid, effects)
              == Authenticate(RequestIn(buffer).value, cmd, alive, sessionUid, ip, old(authentication), old(targetUid),
                              rc4, verifier, scratch)
    {
      var req := UnpackAaaRequest(buffer.bytes[buffer.offset..], buffer.length % 0x1_0000).value;
      var serverUid := CalServerUid(req.areaId, req.serverId, req.platform);
      serverInfo := InfoOf(req);
      if !alive {
        return false, [];
      }
      var verdict := false;
      if cmd == CMD_AUTHENTICATION_AAA {
        var v := verifier(req.linkType, serverUid, sessionUid, ip, targetUid);
        verdict := v.0;
        targetUid := v.1;
      }
      if verdict {
        authentication := VerifySucc;
        effects := EchoAuthenticationRes(EC_SUCCESS, alive, scratch);
        return true, effects;
      }
      authentication := VerifyFailed;
      effects := EchoAuthenticationRes(EC_SERVER_NOT_FOUND, alive, scratch);
      ok := false;
    }

    /** Whether unwrap gets as far as verify_authentication, given the sequence number before the call. */
    ghost predicate ReachesVerify(buffer: Buffer, head: ProtocolHead, before: u32)
      reads this, buffer, buffer.bytes
      requires buffer.Valid() && buffer.offset + head.len <= buffer.size
    {
      head.seqNo == (before + 1) % 0x1_0000_0000
      && GetMask(HeadBytes(head), buffer.bytes[buffer.offset..buffer.offset + head.len], 0) == 0
      && authentication == BeforeVerify
    }

    /**
     * unwrap_received_data: the sequence number is advanced first and must
     * match, then the mask must check; a frame that passes both while
     * BEFORE_VERIFY is taken as the authentication request. Nothing is
     * ever delivered.
     */
    method Unwrap(buffer: Buffer, head: ProtocolHead, alive: bool, sessionUid: SessionUid, ip: u32,
                  verifier: Verifier, scratch: seq<byte>)
      returns (ok: bool, effects: seq<Effect>)
      requires Valid() && buffer.Valid() && buffer.offset + head.len <= buffer.size && |scratch| == ONCE_BUFFER_SIZE
      requires ReachesVerify(buffer, head, seqNo) ==> RequestIn(buffer).Some?
      modifies this`seqNo, this`serverInfo, this`authentication, this`targetUid
      ensures Valid() && !ok && seqNo == (old(seqNo) + 1) % 0x1_0000_0000
      ensures !old(ReachesVerify(buffer, head, seqNo)) ==>
                effects == [] && serverInfo == old(serverInfo) && authentication == old(authentication)
                && targetUid == old(targetUid)
      ensures old(ReachesVerify(buffer, head, seqNo)) ==>
                serverInfo == InfoOf(RequestIn(buffer).value)
                && var r := Authenticate(RequestIn(buffer).value, GetCmd(head), alive, sessionUid, ip, old(authentication),
                                         old(targetUid), rc4, verifier, scratch);
                   r == AuthOutcome(r.ok, authentication, targetUid, effects)
    {
      ghost var reaches := ReachesVerify(buffer, head, seqNo);
      seqNo := (seqNo + 1) % 0x1_0000_0000;
      effects := [];
      ok := false;
      if head.seqNo != seqNo {
        return;
      }
      var payload := buffer.bytes[buffer.offset..buffer.offset + head.len];
      if GetMask(HeadBytes(head), payload, 0) != 0 {
        return;
      }
      if authentication == BeforeVerify {
        assert reaches;
        var verified;
        verified, effects := VerifyAuthentication(buffer, GetCmd(head), alive, sessionUid, ip, verifier, scratch);
      }
    }

    /**
     * wrap_to_send_data: frames the buffer as AuthenticationAAA with the
     * current sequence number (not advanced), header at the start of the
     * storage, offset and length moved over it.
     */
    method Wrap(buffer: Buffer) returns (head: ProtocolHead)
      requires buffer.Valid() && buffer.size <= ONCE_BUFFER_SIZE
      requires PROTO_HEAD_SIZE <= buffer.offset && buffer.offset + buffer.length <= buffer.size
      modifies buffer, buffer.bytes
      ensures head == WrapHead(old(buffer.View()), CMD_AUTHENTICATION_AAA, false, seqNo)
      ensures GetCmd(head) == CMD_AUTHENTICATION_AAA && head.seqNo == seqNo
      ensures buffer.Valid() && buffer.offset == old(buffer.offset) - PROTO_HEAD_SIZE
      ensures buffer.length == old(buffer.length) + PROTO_HEAD_SIZE
      ensures buffer.bytes[..] == HeadBytes(head) + old(buffer.bytes[PROTO_HEAD_SIZE..])
      ensures old(buffer.offset) == PROTO_HEAD_SIZE ==> buffer.View() == FrameBytes(head, old(buffer.View()))
    {
      FifteenBits(CMD_AUTHENTICATION_AAA);
      head := PrependHead(buffer, CMD_AUTHENTICATION_AAA, false, seqNo);
    }

    /** trans_to_server: a server logic carrying this logic's server info and sequence number. */
    method TransToServer() returns (s: ServerSessionLogic)
      ensures fresh(s) && s.serverInfo == serverInfo && s.seqNo == seqNo
    {
      s := new ServerSessionLogic();
      s.InheritLogic(serverInfo, seqNo);
    }

    /** trans_to_client: a client logic carrying this logic's rc4 material, sequence number, server info and target. */
    method TransToClient() returns (c: ClientSessionLogic)
      ensures fresh(c) && c.rc4 == rc4 && c.seqNo == seqNo && c.serverInfo == serverInfo && c.targetUid == targetUid
    {
      c := new ClientSessionLogic();
      c.InheritLogic(rc4, seqNo, serverInfo, targetUid);
    }
  }
}
