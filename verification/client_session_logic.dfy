// client_session_logic (AsioNet/AsioNet/client_session_logic.h/.cpp): the
// gateway's end of an authenticated client's connection. Frames from the
// client are checked, decrypted and (when flagged) decompressed, then sent
// on to the client's server with the client's uid in front; frames to the
// client are compressed when that pays, encrypted and framed.

module ClientSessionLogics {
  import opened NetUtils
  import opened Protocol
  import opened ProtoMask
  import opened ReusableBuffer
  import opened SessionLogic

  /** Where the client logic wants a received payload: 15, room for a uid and a header in front. */
  const CLIENT_PREFIX_SIZE: nat := PROTO_HEAD_SIZE + 4

  // -------------------------------------------------------------------
  // The frame transformations, as values.

  /**
   * What unwrap_received_data makes of a frame whose payload is `payload`:
   * None when it refuses the frame (wrong sequence number, bad mask, or a
   * compressed payload the decompressor rejects), otherwise the message.
   */
  function UnwrapSpec(head: ProtocolHead, payload: seq<byte>, expectedSeq: u32, rc4: Rc4Info, crypt: Cipher, decompress: Codec)
    : (r: Option<seq<byte>>)
    requires |payload| == head.len
    ensures r.Some? ==> head.seqNo == expectedSeq && GetMask(HeadBytes(head), payload, 0) == 0
    ensures head.seqNo == expectedSeq && GetMask(HeadBytes(head), payload, 0) == 0 && !GetCompressed(head) ==>
              r.Some? && |r.value| == |payload|
    ensures head.len == 0 && r.Some? ==> r.value == []
  {
    if head.seqNo != expectedSeq || GetMask(HeadBytes(head), payload, 0) != 0 then None
    else if head.len == 0 then Some([])
    else if !GetCompressed(head) then Some(crypt(rc4, payload, false))
    else decompress(crypt(rc4, payload, false))
  }

  /** The outcome of wrap_to_send_data on a message. */
  datatype Wrapped = Unframed | Framed(head: ProtocolHead, payload: seq<byte>)

  /** Whether wrap_to_send_data sends the compressed form of msg. */
  predicate SendsCompressed(msg: seq<byte>, compress: Codec)
  {
    |msg| > K_SIZE_COMPRESS && compress(msg).Some? && 0 < |compress(msg).value| < |msg|
  }

  /**
   * wrap_to_send_data on a message: a message over 64 bytes is compressed,
   * and left as it is, unframed, when the compressor throws or yields
   * nothing; the compressed form is used when it is strictly shorter; the
   * chosen bytes are encrypted and framed as RoutingTransparent with the
   * compressed flag and the current sequence number.
   */
  function WrapSpec(msg: seq<byte>, rc4: Rc4Info, seqNo: u32, crypt: Cipher, compress: Codec): (w: Wrapped)
    requires |msg| <= 0xFFFF
    ensures w.Unframed? <==> |msg| > K_SIZE_COMPRESS && (compress(msg).None? || |compress(msg).value| == 0)
  {
    if |msg| > K_SIZE_COMPRESS && (compress(msg).None? || |compress(msg).value| == 0) then Unframed
    else
      var enc := crypt(rc4, ChosenBody(msg, compress), true);
      Framed(WrapHead(enc, CMD_ROUTING_TRANSPARENT, SendsCompressed(msg, compress), seqNo), enc)
  }

  /**
   * A wrapped message is a RoutingTransparent frame no longer than the
   * message, flagged compressed exactly when the compressed form is sent,
   * whose len and mask the receiving side accepts.
   */
  lemma WrapSpecFrames(msg: seq<byte>, rc4: Rc4Info, seqNo: u32, crypt: Cipher, compress: Codec)
    requires |msg| <= 0xFFFF
    ensures var w := WrapSpec(msg, rc4, seqNo, crypt, compress);
            w.Framed? ==> |w.payload| <= |msg| && w.head.len == |w.payload| && w.head.seqNo == seqNo
                          && GetCmd(w.head) == CMD_ROUTING_TRANSPARENT
                          && GetCompressed(w.head) == SendsCompressed(msg, compress)
                          && GetMask(HeadBytes(w.head), w.payload, 0) == 0
  {
    if !(|msg| > K_SIZE_COMPRESS && (compress(msg).None? || |compress(msg).value| == 0)) {
      var body := ChosenBody(msg, compress);
      var enc := crypt(rc4, body, true);
      assert |enc| == |body| <= |msg|;
      var h := WrapHead(enc, CMD_ROUTING_TRANSPARENT, SendsCompressed(msg, compress), seqNo);
      assert WrapSpec(msg, rc4, seqNo, crypt, compress) == Framed(h, enc);
      TransparentHead(enc, SendsCompressed(msg, compress), seqNo);
    }
  }

  /** The RoutingTransparent header of a payload: its len, sequence, command, flag and mask. */
  lemma TransparentHead(enc: seq<byte>, compressed: bool, seqNo: u32)
    requires |enc| <= 0xFFFF
    ensures var h := WrapHead(enc, CMD_ROUTING_TRANSPARENT, compressed, seqNo);
            h.len == |enc| && h.seqNo == seqNo && GetCmd(h) == CMD_ROUTING_TRANSPARENT
            && GetCompressed(h) == compressed && GetMask(HeadBytes(h), enc, 0) == 0
  {
    FifteenBits(CMD_ROUTING_TRANSPARENT);
  }

  /** The bytes wrap_to_send_data encrypts: the compressed form when it is used, the message otherwise. */
  function ChosenBody(msg: seq<byte>, compress: Codec): (b: seq<byte>)
    ensures |b| <= |msg|
  {
    if SendsCompressed(msg, compress) then compress(msg).value else msg
  }

  /**
   * A frame the client logic wraps is unwrapped back to the message by a
   * peer running the same steps with the same key and the next sequence
   * number, provided decryption undoes encryption and decompression undoes
   * compression.
   */
  lemma WrapUnwrapRoundTrip(msg: seq<byte>, rc4: Rc4Info, seqNo: u32, crypt: Cipher, compress: Codec, decompress: Codec)
    requires |msg| <= 0xFFFF
    requires forall s :: crypt(rc4, crypt(rc4, s, true), false) == s
    requires forall m | compress(m).Some? :: decompress(compress(m).value) == Some(m)
    ensures var w := WrapSpec(msg, rc4, seqNo, crypt, compress);
            w.Framed? ==> UnwrapSpec(w.head, w.payload, seqNo, rc4, crypt, decompress) == Some(msg)
  {
    var w := WrapSpec(msg, rc4, seqNo, crypt, compress);
    if w.Framed? {
      var body := ChosenBody(msg, compress);
      assert w.payload == crypt(rc4, body, true);
      assert crypt(rc4, w.payload, false) == body;
    }
  }

  /** The bytes try_copy_to_storage forwards as written: the uid goes in front but the length is not raised by 4. */
  function ForwardedAsWritten(uid: SessionUid, delivered: seq<byte>): (r: seq<byte>)
    ensures |r| == |delivered|
    ensures |delivered| >= 4 ==> r == BeBytes(uid, 4) + delivered[..|delivered| - 4]
  {
    (BeBytes(uid, 4) + delivered)[..|delivered|]
  }

  /** The bytes try_copy_to_storage evidently means to forward: the uid, then the whole message. */
  function ForwardedIntended(uid: SessionUid, delivered: seq<byte>): (r: seq<byte>)
    ensures |r| == |delivered| + 4 && ReadUint32(r, 0) == uid && r[4..] == delivered
  {
    ReadUint32Of(BeBytes(uid, 4) + delivered, 0, uid);
    BeBytes(uid, 4) + delivered
  }

  /** As written, every forwarded message is four bytes short of what the server should receive. */
  lemma ForwardDropsTail(uid: SessionUid, delivered: seq<byte>)
    ensures ForwardedAsWritten(uid, delivered) != ForwardedIntended(uid, delivered)
    ensures ForwardedAsWritten(uid, delivered) == ForwardedIntended(uid, delivered)[..|delivered|]
  {
  }

  /**
   * As written, a plain (uncompressed) non-empty client message the logic
   * accepts reaches the server as nothing at all: unwrap leaves it in the
   * receive buffer, so the fresh block handed on stays empty.
   */
  lemma PlainMessageLostAsWritten(head: ProtocolHead, payload: seq<byte>, expectedSeq: u32, rc4: Rc4Info,
                                  crypt: Cipher, decompress: Codec, uid: SessionUid)
    requires |payload| == head.len && head.len != 0 && !GetCompressed(head)
    requires UnwrapSpec(head, payload, expectedSeq, rc4, crypt, decompress).Some?
    ensures var m := UnwrapSpec(head, payload, expectedSeq, rc4, crypt, decompress).value;
            ForwardedAsWritten(uid, []) == [] && |ForwardedIntended(uid, m)| == 4 + |payload|
  {
  }

  /** The kick notice's head buffer as written: a header with len 0 and a mask over the uid, and length 0. */
  function KickHeadAsWritten(uid: SessionUid, seqNo: u32, tiny: seq<byte>): (o: Outgoing)
    requires |tiny| == TINY_ONCE_BUFFER_SIZE
    ensures o.Fits() && o.Sent() == [] && |o.bytes| == TINY_ONCE_BUFFER_SIZE
  {
    var head := Sealed(GetAHead(FRAME_KEY, 0, 0, CMD_KICK, false, seqNo), BeBytes(uid, 4));
    Outgoing(0, 0, HeadBytes(head) + tiny[PROTO_HEAD_SIZE..])
  }

  /** The kick notice's message buffer: the client uid, length 4. */
  function KickBody(uid: SessionUid, scratch: seq<byte>): (o: Outgoing)
    requires |scratch| == ONCE_BUFFER_SIZE
    ensures o.Fits() && o.Sent() == BeBytes(uid, 4)
  {
    Outgoing(0, 4, BeBytes(uid, 4) + scratch[4..])
  }

  /** As written, the server is sent the four uid bytes with no header in front of them. */
  lemma KickSendsBareUid(uid: SessionUid, seqNo: u32, tiny: seq<byte>, scratch: seq<byte>)
    requires |tiny| == TINY_ONCE_BUFFER_SIZE && |scratch| == ONCE_BUFFER_SIZE
    ensures MultiSent(KickHeadAsWritten(uid, seqNo, tiny), KickBody(uid, scratch)) == BeBytes(uid, 4)
    ensures |MultiSent(KickHeadAsWritten(uid, seqNo, tiny), KickBody(uid, scratch))| < PROTO_HEAD_SIZE
  {
  }

  /** The kick notice evidently intended: a Kick frame of len 4 carrying the uid, with a valid mask. */
  function KickIntended(uid: SessionUid, seqNo: u32): (sent: seq<byte>)
    ensures |sent| == PROTO_HEAD_SIZE + 4 && ParseHead(sent).len == 4 && GetCmd(ParseHead(sent)) == CMD_KICK
    ensures GetMask(sent[..PROTO_HEAD_SIZE], sent[PROTO_HEAD_SIZE..], 0) == 0
    ensures ReadUint32(sent, PROTO_HEAD_SIZE) == uid
  {
    var head := WrapHead(BeBytes(uid, 4), CMD_KICK, false, seqNo);
    OneWordFrame(head, uid);
    FifteenBits(CMD_KICK);
    FrameBytes(head, BeBytes(uid, 4))
  }

  /** The header of a frame of one big-endian word, and the word, read back. */
  lemma OneWordFrame(h: ProtocolHead, a: u32)
    ensures var sent := FrameBytes(h, BeBytes(a, 4));
            ParseHead(sent) == h && ReadUint32(sent, PROTO_HEAD_SIZE) == a
  {
    var sent := FrameBytes(h, BeBytes(a, 4));
    ParseHeadBytes(h, BeBytes(a, 4));
    ReadUint32Of(sent, PROTO_HEAD_SIZE, a);
  }

  // -------------------------------------------------------------------
  // The logic object.

  class ClientSessionLogic {
    var rc4: Rc4Info
    var seqNo: u32
    var serverInfo: ServerInfo
    var targetUid: SessionUid

    /** A logic as the pool hands it out, before inherit_logic fills it. */
    constructor ()
    {
    }

    /** inherit_logic: key, sequence number, server info and target server from the default logic. */
    method InheritLogic(rc4: Rc4Info, seqNo: u32, info: ServerInfo, target: SessionUid)
      modifies this
      ensures this.rc4 == rc4 && this.seqNo == seqNo && serverInfo == info && targetUid == target
    {
      this.rc4 := rc4;
      this.seqNo := seqNo;
      serverInfo := info;
      targetUid := target;
    }

    /** get_target_server_type: the link type of the server this client was routed to. */
    function TargetServerType(): byte
      reads this
    {
      serverInfo.linkType
    }

    /**
     * unwrap_received_data. The sequence number is advanced first. A frame
     * that passes the sequence and mask checks and is not empty is
     * decrypted in place; only a compressed one is written to ret_block
     * (the decompressor's output at ret_block's offset; output that does not
     * fit is treated like a decompressor exception).
     */
    method Unwrap(buffer: Buffer, head: ProtocolHead, retBlock: Buffer, crypt: Cipher, decompress: Codec) returns (ok: bool)
      requires buffer.Valid() && buffer.offset + head.len <= buffer.size
      requires retBlock.Valid() && retBlock.bytes != buffer.bytes
      modifies this`seqNo, buffer.bytes, retBlock`length, retBlock.bytes
      ensures seqNo == (old(seqNo) + 1) % 0x1_0000_0000
      ensures var payload := old(buffer.bytes[buffer.offset..buffer.offset + head.len]);
              var r := UnwrapSpec(head, payload, seqNo, rc4, crypt, decompress);
              && (ok <==> r.Some? && (head.len != 0 && GetCompressed(head) ==> retBlock.offset + |r.value| <= retBlock.size))
              && (buffer.bytes[..] ==
                    if head.seqNo == seqNo && GetMask(HeadBytes(head), payload, 0) == 0 && head.len != 0
                    then old(buffer.bytes[..buffer.offset]) + crypt(rc4, payload, false) + old(buffer.bytes[buffer.offset + head.len..])
                    else old(buffer.bytes[..]))
              && (if ok && head.len != 0 && GetCompressed(head)
                  then retBlock.length == |r.value|
                       && retBlock.bytes[..] == old(retBlock.bytes[..retBlock.offset]) + r.value
                                                + old(retBlock.bytes[retBlock.offset + |r.value|..])
                  else retBlock.length == old(retBlock.length) && retBlock.bytes[..] == old(retBlock.bytes[..]))
    {
      seqNo := (seqNo + 1) % 0x1_0000_0000;
      var payload := buffer.bytes[buffer.offset..buffer.offset + head.len];
      assert payload == old(buffer.bytes[buffer.offset..buffer.offset + head.len]);
      ghost var r := UnwrapSpec(head, payload, seqNo, rc4, crypt, decompress);
      if head.seqNo != seqNo || GetMask(HeadBytes(head), payload, 0) != 0 {
        ok := false;
        assert r.None?;
      } else if head.len == 0 {
        ok := true;
        assert r.Some?;
      } else {
        var plain := crypt(rc4, payload, false);
        CopyInto(buffer.bytes, buffer.offset, plain);
        ok := true;
        if GetCompressed(head) {
          var inflated := decompress(plain);
          assert r == inflated;
          if inflated.None? || retBlock.offset + |inflated.value| > retBlock.size {
            ok := false;
          } else {
            retBlock.Fill(inflated.value);
          }
        } else {
          assert r == Some(plain);
        }
      }
    }

    /**
     * The unwrap the code evidently means: as Unwrap, but an accepted
     * message always ends up in ret_block, compressed or not.
     */
    method UnwrapIntended(buffer: Buffer, head: ProtocolHead, retBlock: Buffer, crypt: Cipher, decompress: Codec)
      returns (ok: bool)
      requires buffer.Valid() && buffer.offset + head.len <= buffer.size
      requires retBlock.Valid() && retBlock.bytes != buffer.bytes
      modifies this`seqNo, buffer.bytes, retBlock`length, retBlock.bytes
      ensures seqNo == (old(seqNo) + 1) % 0x1_0000_0000
      ensures var r := UnwrapSpec(head, old(buffer.bytes[buffer.offset..buffer.offset + head.len]), seqNo, rc4, crypt, decompress);
              && (ok <==> r.Some? && retBlock.offset + |r.value| <= retBlock.size)
              && (ok ==> retBlock.Valid() && retBlock.offset + retBlock.length <= retBlock.size && retBlock.View() == r.value)
    {
      seqNo := (seqNo + 1) % 0x1_0000_0000;
      var payload := buffer.bytes[buffer.offset..buffer.offset + head.len];
      ghost var r := UnwrapSpec(head, payload, seqNo, rc4, crypt, decompress);
      if head.seqNo != seqNo || GetMask(HeadBytes(head), payload, 0) != 0 {
        return false;
      }
      var message: seq<byte> := [];
      if head.len != 0 {
        message := crypt(rc4, payload, false);
        CopyInto(buffer.bytes, buffer.offset, message);
        if GetCompressed(head) {
          var inflated := decompress(message);
          if inflated.None? {
            return false;
          }
          message := inflated.value;
        }
      }
      assert r == Some(message);
      if retBlock.offset + |message| > retBlock.size {
        return false;
      }
      retBlock.Fill(message);
      ok := true;
    }

    /**
     * wrap_to_send_data on a buffer whose message starts at 11. The
     * compressed form goes into a fresh pooled buffer (placed at offset 11,
     * the only placement the function's closing offset check allows).
     */
    method Wrap(buffer: Buffer, crypt: Cipher, compress: Codec, scratch: seq<byte>) returns (out: Buffer)
      requires buffer.Valid() && buffer.size == ONCE_BUFFER_SIZE && |scratch| == ONCE_BUFFER_SIZE
      requires buffer.offset == PROTO_HEAD_SIZE && buffer.offset + buffer.length <= buffer.size
      modifies buffer, buffer.bytes
      ensures var w := WrapSpec(old(buffer.View()), rc4, seqNo, crypt, compress);
              && (w.Unframed? ==> out == buffer && buffer.offset == old(buffer.offset) && buffer.length == old(buffer.length)
                                  && buffer.bytes[..] == old(buffer.bytes[..]))
              && (w.Framed? ==> out.Valid() && out.offset == 0 && out.length <= out.size
                                && out.View() == FrameBytes(w.head, w.payload))
              && (SendsCompressed(old(buffer.View()), compress) ==> fresh(out))
              && (!SendsCompressed(old(buffer.View()), compress) ==> out == buffer)
    {
      ghost var msg := buffer.View();
      assert |msg| <= 0xFFFF;
      ghost var w := WrapSpec(msg, rc4, seqNo, crypt, compress);
      var proceed, compressed;
      out, proceed, compressed := ChooseBody(buffer, compress, scratch);
      if proceed {
        Encrypt(out, crypt);
        var head := PrependHead(out, CMD_ROUTING_TRANSPARENT, compressed, seqNo);
        assert w == Framed(head, crypt(rc4, ChosenBody(msg, compress), true));
      }
    }

    /**
     * The compression step of wrap_to_send_data: a message over 64 bytes is
     * compressed; the caller stops when that fails or yields nothing, and
     * carries on with a fresh buffer holding the compressed form when it is
     * strictly shorter, with the message's own buffer otherwise.
     */
    method ChooseBody(buffer: Buffer, compress: Codec, scratch: seq<byte>) returns (out: Buffer, proceed: bool, compressed: bool)
      requires buffer.Valid() && buffer.size == ONCE_BUFFER_SIZE && |scratch| == ONCE_BUFFER_SIZE
      requires buffer.offset == PROTO_HEAD_SIZE && buffer.offset + buffer.length <= buffer.size
      ensures var msg := buffer.View();
              && (proceed <==> !(|msg| > K_SIZE_COMPRESS && (compress(msg).None? || |compress(msg).value| == 0)))
              && compressed == (proceed && SendsCompressed(msg, compress))
              && (compressed ==> fresh(out) && fresh(out.bytes))
              && (!compressed ==> out == buffer)
              && (proceed ==> out.Valid() && out.size == ONCE_BUFFER_SIZE && out.offset == PROTO_HEAD_SIZE
                              && out.offset + out.length <= out.size && out.View() == ChosenBody(msg, compress))
    {
      var msg := buffer.bytes[buffer.offset..buffer.offset + buffer.length];
      out, proceed, compressed := buffer, true, false;
      if buffer.length > K_SIZE_COMPRESS {
        var packed := compress(msg);
        if packed.None? || |packed.value| == 0 {
          return buffer, false, false;
        }
        if |packed.value| < buffer.length {
          out := new Buffer(ONCE_BUFFER_SIZE, scratch);
          CopyInto(out.bytes, PROTO_HEAD_SIZE, packed.value);
          out.offset := PROTO_HEAD_SIZE;
          out.length := |packed.value|;
          compressed := true;
        }
      }
    }

    /** rc4_crypt in encrypt mode over the buffer's message, in place. */
    method Encrypt(out: Buffer, crypt: Cipher)
      requires out.Valid() && out.offset + out.length <= out.size
      modifies out.bytes
      ensures out.View() == crypt(rc4, old(out.View()), true)
      ensures out.bytes[..out.offset] == old(out.bytes[..out.offset])
    {
      var enc := crypt(rc4, out.bytes[out.offset..out.offset + out.length], true);
      CopyInto(out.bytes, out.offset, enc);
    }

    /**
     * try_copy_to_storage: with the session gone, refuses; otherwise writes
     * the client uid at byte PROTO_HEAD_SIZE (11) of the buffer, moves the
     * offset back four bytes (the length stays) and sends the buffer to the
     * target server. The session hands over buffers whose message starts at
     * CLIENT_PREFIX_SIZE (15), so the uid lands just before the message.
     */
    method TryCopyToStorage(data: Buffer, alive: bool, uid: SessionUid) returns (ok: bool, effects: seq<Effect>)
      requires data.Valid() && 4 <= data.offset && data.offset + data.length <= data.size && CLIENT_PREFIX_SIZE <= data.size
      modifies data`offset, data.bytes
      ensures ok == alive
      ensures !alive ==> effects == [] && data.offset == old(data.offset) && data.bytes[..] == old(data.bytes[..])
      ensures alive ==> data.offset == old(data.offset) - 4 && data.length == old(data.length)
                        && data.bytes[..] == old(data.bytes[..PROTO_HEAD_SIZE]) + BeBytes(uid, 4) + old(data.bytes[CLIENT_PREFIX_SIZE..])
                        && effects == [ToServer(targetUid, Snapshot(data))] && Snapshot(data).Fits()
      ensures alive && old(data.offset) == CLIENT_PREFIX_SIZE ==>
                Snapshot(data).Sent() == ForwardedAsWritten(uid, old(data.View()))
    {
      if !alive {
        return false, [];
      }
      ghost var before := data.bytes[..];
      WriteUint32(data.bytes, PROTO_HEAD_SIZE, uid);
      if data.offset == CLIENT_PREFIX_SIZE {
        WrittenBefore(before, data.bytes[..], PROTO_HEAD_SIZE, BeBytes(uid, 4), data.length);
      }
      data.offset := data.offset - 4;
      effects := [ToServer(targetUid, Snapshot(data))];
      ok := true;
    }

    /**
     * The try_copy_to_storage the code evidently means: the length grows
     * with the uid in front. The uid goes just before the message, which is
     * byte PROTO_HEAD_SIZE for the messages the session hands over.
     */
    method TryCopyToStorageIntended(data: Buffer, alive: bool, uid: SessionUid) returns (ok: bool, effects: seq<Effect>)
      requires data.Valid() && 4 <= data.offset && data.offset + data.length <= data.size
      modifies data`offset, data`length, data.bytes
      ensures ok == alive
      ensures !alive ==> effects == [] && data.offset == old(data.offset) && data.bytes[..] == old(data.bytes[..])
      ensures alive ==> effects == [ToServer(targetUid, Snapshot(data))]
                        && Snapshot(data).Fits() && Snapshot(data).Sent() == ForwardedIntended(uid, old(data.View()))
    {
      if !alive {
        return false, [];
      }
      ghost var before := data.bytes[..];
      WriteUint32(data.bytes, data.offset - 4, uid);
      WrittenBefore(before, data.bytes[..], data.offset - 4, BeBytes(uid, 4), data.length);
      data.offset := data.offset - 4;
      data.length := data.length + 4;
      effects := [ToServer(targetUid, Snapshot(data))];
      ok := true;
    }

    /**
     * kick_peer: tells the target server that this client is gone. The uid
     * goes in a fresh buffer of length 4; a Kick header with len 0 and the
     * mask over those 4 bytes is copied into a tiny buffer whose length
     * stays 0; both go to the target server, nothing when the session is
     * gone.
     */
    method KickPeer(alive: bool, uid: SessionUid, tiny: seq<byte>, scratch: seq<byte>) returns (effects: seq<Effect>)
      requires |tiny| == TINY_ONCE_BUFFER_SIZE && |scratch| == ONCE_BUFFER_SIZE
      ensures !alive ==> effects == []
      ensures alive ==> effects == [ToServerMulti(targetUid, KickHeadAsWritten(uid, seqNo, tiny), KickBody(uid, scratch))]
    {
      var headBuffer := new Buffer(TINY_ONCE_BUFFER_SIZE, tiny);
      var dataBlock := new Buffer(ONCE_BUFFER_SIZE, scratch);
      if !alive {
        return [];
      }
      WriteUint32(dataBlock.bytes, dataBlock.offset, uid);
      dataBlock.length := 4;
      assert dataBlock.bytes[..] == BeBytes(uid, 4) + scratch[4..];
      var body := Snapshot(dataBlock);
      assert body == KickBody(uid, scratch);
      var head := Sealed(GetAHead(FRAME_KEY, 0, 0, CMD_KICK, false, seqNo), dataBlock.bytes[dataBlock.offset..dataBlock.offset + dataBlock.length]);
      var headBytes := HeadBytes(head);
      CopyInto(headBuffer.bytes, 0, headBytes);
      assert headBuffer.bytes[..] == headBytes + tiny[PROTO_HEAD_SIZE..];
      var first := Snapshot(headBuffer);
      assert first == KickHeadAsWritten(uid, seqNo, tiny);
      effects := [ToServerMulti(targetUid, first, body)];
    }
  }
}
