// The wire format of AsioNet/AsioNet/protocol.hpp: the 11-byte frame header
// (MSVC packed layout on a little-endian host), its command word, the frame
// packers and unpackers, and the three message bodies carried by frames.

module Protocol {
  import opened NetUtils
  import opened ProtoMask

  // protocol_cmd
  const CMD_L_CRITICAL_SI: u16 := 0x7e8d
  const CMD_AUTHENTICATION_AAA: u16 := 0x7e8e
  const CMD_HEARTBEAT: u16 := 0x7e8f
  const CMD_ROUTING_TRANSPARENT: u16 := 0x7e90
  const CMD_BROADCAST: u16 := 0x7e91
  const CMD_CONNECTION_CONFIRM: u16 := 0x7e92
  const CMD_KICK: u16 := 0x7e93
  const CMD_R_CRITICAL_SI: u16 := 0xFFFF

  const PROTO_HEAD_SIZE: nat := 11
  const FRAME_KEY: byte := 0x2e
  const K_SIZE_COMPRESS: nat := 64

  /** protocol_head: frame key, payload length, checksum mask, command word (top bit = compressed), sequence number. */
  datatype ProtocolHead = ProtocolHead(fk: byte, len: u16, mask: u16, cmdCompressedFlag: u16, seqNo: u32)

  /** The 11 bytes of a packed header as memcpy copies them on a little-endian host. */
  function HeadBytes(h: ProtocolHead): (r: seq<byte>)
    ensures |r| == PROTO_HEAD_SIZE
    ensures r[0] == h.fk
  {
    [h.fk] + LeBytes(h.len, 2) + LeBytes(h.mask, 2) + LeBytes(h.cmdCompressedFlag, 2) + LeBytes(h.seqNo, 4)
  }

  /** unpack_head: the header whose bytes begin b. */
  function ParseHead(b: seq<byte>): (h: ProtocolHead)
    requires |b| >= PROTO_HEAD_SIZE
    ensures HeadBytes(h) == b[..PROTO_HEAD_SIZE]
  {
    var h := ProtocolHead(b[0], ReadLe(b[1..3]), ReadLe(b[3..5]), ReadLe(b[5..7]), ReadLe(b[7..11]));
    LeBytesOfReadLe(b[1..3]);
    LeBytesOfReadLe(b[3..5]);
    LeBytesOfReadLe(b[5..7]);
    LeBytesOfReadLe(b[7..11]);
    assert b[..11] == [b[0]] + b[1..3] + b[3..5] + b[5..7] + b[7..11];
    h
  }

  /** Parsing the bytes of a header gives the header back. */
  lemma ParseHeadBytes(h: ProtocolHead, rest: seq<byte>)
    ensures ParseHead(HeadBytes(h) + rest) == h
  {
    var b := HeadBytes(h) + rest;
    assert b[1..3] == LeBytes(h.len, 2);
    assert b[3..5] == LeBytes(h.mask, 2);
    assert b[5..7] == LeBytes(h.cmdCompressedFlag, 2);
    assert b[7..11] == LeBytes(h.seqNo, 4);
    ReadLeOfLeBytes(h.len, 2);
    ReadLeOfLeBytes(h.mask, 2);
    ReadLeOfLeBytes(h.cmdCompressedFlag, 2);
    ReadLeOfLeBytes(h.seqNo, 4);
  }

  /** get_cmd: the low 15 bits of the command word. */
  function GetCmd(h: ProtocolHead): (c: u16)
    ensures c < 0x8000
  {
    h.cmdCompressedFlag % 0x8000
  }

  /** get_compressed: the top bit of the command word. */
  function GetCompressed(h: ProtocolHead): bool
  {
    h.cmdCompressedFlag >= 0x8000
  }

  /** get_a_head: a header whose command word carries cmd in 15 bits and the compressed flag on top. */
  function GetAHead(fk: byte, len: u16, mask: u16, cmd: u16, compressed: bool, seqNo: u32): (h: ProtocolHead)
    ensures GetCmd(h) == cmd % 0x8000 && GetCompressed(h) == compressed
    ensures h.fk == fk && h.len == len && h.mask == mask && h.seqNo == seqNo
  {
    ProtocolHead(fk, len, mask, (if compressed then 0x8000 else 0) + cmd % 0x8000, seqNo)
  }

  /** Every command except the sentinel RCriticalSI survives get_a_head / get_cmd unchanged. */
  lemma CommandsFitFifteenBits(fk: byte, len: u16, mask: u16, compressed: bool, seqNo: u32, cmd: u16)
    requires cmd in {CMD_L_CRITICAL_SI, CMD_AUTHENTICATION_AAA, CMD_HEARTBEAT, CMD_ROUTING_TRANSPARENT,
                     CMD_BROADCAST, CMD_CONNECTION_CONFIRM, CMD_KICK}
    ensures GetCmd(GetAHead(fk, len, mask, cmd, compressed, seqNo)) == cmd
    ensures GetCmd(GetAHead(fk, len, mask, CMD_R_CRITICAL_SI, compressed, seqNo)) != CMD_R_CRITICAL_SI
  {
  }

  /** A command below 0x8000 is its own 15-bit command field. */
  lemma FifteenBits(cmd: u16)
    requires cmd < 0x8000
    ensures cmd % 0x8000 == cmd
  {
  }

  /**
   * A header with its mask field filled in the way every wrap does it: the
   * mask computed over the header with a zero mask, then the payload.
   */
  function Sealed(h: ProtocolHead, payload: seq<byte>): (s: ProtocolHead)
    ensures s == h.(mask := s.mask)
  {
    h.(mask := GetMask(HeadBytes(h.(mask := 0)), payload, 0))
  }

  /** The mask field enters the word sum of a header exactly once, whatever its byte split. */
  lemma HeadWordSumMask(h: ProtocolHead)
    ensures WordSum(HeadBytes(h)) == WordSum(HeadBytes(h.(mask := 0))) + h.mask
    ensures WordSum(HeadBytes(h.(mask := 0))) <= 0xFFFF * PROTO_HEAD_SIZE
  {
    var b, z := HeadBytes(h), HeadBytes(h.(mask := 0));
    assert b[3..5] == LeBytes(h.mask, 2) == [h.mask % 0x100, h.mask / 0x100 % 0x100];
    assert z[3..5] == LeBytes(0, 2) == [0, 0];
    assert b[3] == h.mask % 0x100 && b[4] == h.mask / 0x100 % 0x100;
    assert z[3] == 0 && z[4] == 0;
    assert forall i | 0 <= i < PROTO_HEAD_SIZE && i != 3 && i != 4 :: b[i] == z[i];
    WordSum11(b);
    WordSum11(z);
  }

  lemma WordSum11(b: seq<byte>)
    requires |b| == PROTO_HEAD_SIZE
    ensures WordSum(b) == (b[0] as int) * 0x100 + b[1] + (b[2] as int) * 0x100 + b[3] + (b[4] as int) * 0x100 + b[5]
                        + (b[6] as int) * 0x100 + b[7] + (b[8] as int) * 0x100 + b[9] + (b[10] as int) * 0x100
  {
    assert WordSum(b[10..]) == (b[10] as int) * 0x100;
    assert WordSum(b[8..]) == (b[8] as int) * 0x100 + b[9] + WordSum(b[10..]) by { assert b[8..][2..] == b[10..]; }
    assert WordSum(b[6..]) == (b[6] as int) * 0x100 + b[7] + WordSum(b[8..]) by { assert b[6..][2..] == b[8..]; }
    assert WordSum(b[4..]) == (b[4] as int) * 0x100 + b[5] + WordSum(b[6..]) by { assert b[4..][2..] == b[6..]; }
    assert WordSum(b[2..]) == (b[2] as int) * 0x100 + b[3] + WordSum(b[4..]) by { assert b[2..][2..] == b[4..]; }
  }

  /**
   * The receiver's check: a frame whose header was sealed over its payload
   * (of at most 0xFFFF bytes, as the 16-bit length allows) re-checks to zero.
   */
  lemma SealedFrameVerifies(h: ProtocolHead, payload: seq<byte>)
    requires |payload| <= 0xFFFF
    ensures GetMask(HeadBytes(Sealed(h, payload)), payload, 0) == 0
  {
    var s := Sealed(h, payload);
    HeadWordSumMask(s);
    assert s.(mask := 0) == h.(mask := 0);
    MaskCancels(HeadBytes(h.(mask := 0)), HeadBytes(s), payload);
  }

  /** A header and its payload as they travel on the wire. */
  function FrameBytes(h: ProtocolHead, payload: seq<byte>): (r: seq<byte>)
    ensures |r| == PROTO_HEAD_SIZE + |payload|
    ensures r[..PROTO_HEAD_SIZE] == HeadBytes(h) && r[PROTO_HEAD_SIZE..] == payload
  {
    HeadBytes(h) + payload
  }

  /** pack (single message): header with frame key 0x2e and zero mask, then the message. */
  method Pack(retBlock: array<byte>, msg: seq<byte>, cmd: u16, seqNo: u32) returns (retLength: u16)
    requires |msg| < 0x1_0000 && PROTO_HEAD_SIZE + |msg| <= retBlock.Length
    modifies retBlock
    ensures retLength == (|msg| + PROTO_HEAD_SIZE) % 0x1_0000
    ensures retBlock[..PROTO_HEAD_SIZE + |msg|] == FrameBytes(GetAHead(FRAME_KEY, |msg|, 0, cmd, false, seqNo), msg)
    ensures retBlock[PROTO_HEAD_SIZE + |msg|..] == old(retBlock[PROTO_HEAD_SIZE + |msg|..])
  {
    var head := GetAHead(FRAME_KEY, |msg|, 0, cmd, false, seqNo);
    retLength := (|msg| + PROTO_HEAD_SIZE) % 0x1_0000;
    CopyInto(retBlock, 0, HeadBytes(head));
    CopyInto(retBlock, PROTO_HEAD_SIZE, msg);
  }

  /** unpack: the header and the length - 11 bytes that follow it. */
  function Unpack(origin: seq<byte>, length: u16): (r: (ProtocolHead, seq<byte>))
    requires PROTO_HEAD_SIZE <= length <= |origin|
    ensures FrameBytes(r.0, r.1) == origin[..length]
  {
    (ParseHead(origin), origin[PROTO_HEAD_SIZE..length])
  }

  /** What pack writes, unpack reads back. */
  lemma PackUnpack(h: ProtocolHead, msg: seq<byte>, rest: seq<byte>)
    requires PROTO_HEAD_SIZE + |msg| < 0x1_0000
    ensures Unpack(FrameBytes(h, msg) + rest, PROTO_HEAD_SIZE + |msg|) == (h, msg)
  {
    ParseHeadBytes(h, msg + rest);
    assert FrameBytes(h, msg) + rest == HeadBytes(h) + (msg + rest);
  }

  /** The total of the first n lengths. */
  function SumUpTo(lens: seq<nat>, n: nat): nat
    requires n <= |lens|
  {
    if n == 0 then 0 else SumUpTo(lens, n - 1) + lens[n - 1]
  }

  function Sum(lens: seq<nat>): nat
  {
    SumUpTo(lens, |lens|)
  }

  predicate PiecesFit(msgs: seq<seq<byte>>, lens: seq<nat>)
  {
    |msgs| == |lens| && forall i | 0 <= i < |lens| :: lens[i] <= |msgs[i]|
  }

  /** The first lens[i] bytes of each of the first n messages, in order. */
  function PiecesUpTo(msgs: seq<seq<byte>>, lens: seq<nat>, n: nat): (r: seq<byte>)
    requires PiecesFit(msgs, lens) && n <= |lens|
    ensures |r| == SumUpTo(lens, n)
  {
    if n == 0 then [] else PiecesUpTo(msgs, lens, n - 1) + msgs[n - 1][..lens[n - 1]]
  }

  function Pieces(msgs: seq<seq<byte>>, lens: seq<nat>): (r: seq<byte>)
    requires PiecesFit(msgs, lens)
    ensures |r| == Sum(lens)
  {
    PiecesUpTo(msgs, lens, |lens|)
  }

  /**
   * pack (several messages): the pieces side by side after the header; the
   * header length and the returned length are cut to 16 bits.
   */
  method PackMulti(retBlock: array<byte>, msgs: seq<seq<byte>>, lens: seq<nat>, cmd: u16, seqNo: u32)
    returns (retLength: u16)
    requires PiecesFit(msgs, lens)
    requires PROTO_HEAD_SIZE + Sum(lens) <= retBlock.Length
    modifies retBlock
    ensures retLength == (Sum(lens) + PROTO_HEAD_SIZE) % 0x1_0000
    ensures retBlock[..PROTO_HEAD_SIZE + Sum(lens)]
         == FrameBytes(GetAHead(FRAME_KEY, Sum(lens) % 0x1_0000, 0, cmd, false, seqNo), Pieces(msgs, lens))
    ensures retBlock[PROTO_HEAD_SIZE + Sum(lens)..] == old(retBlock[PROTO_HEAD_SIZE + Sum(lens)..])
  {
    var total := CopyPieces(retBlock, msgs, lens);
    var head := GetAHead(FRAME_KEY, total % 0x1_0000, 0, cmd, false, seqNo);
    retLength := (total + PROTO_HEAD_SIZE) % 0x1_0000;
    ghost var before := retBlock[..];
    CopyInto(retBlock, 0, HeadBytes(head));
    assert retBlock[..PROTO_HEAD_SIZE + total] == HeadBytes(head) + before[PROTO_HEAD_SIZE..PROTO_HEAD_SIZE + total];
  }

  /** The copy loop of pack: the pieces side by side from the end of the header, their total returned. */
  method CopyPieces(retBlock: array<byte>, msgs: seq<seq<byte>>, lens: seq<nat>) returns (total: nat)
    requires PiecesFit(msgs, lens)
    requires PROTO_HEAD_SIZE + Sum(lens) <= retBlock.Length
    modifies retBlock
    ensures total == Sum(lens)
    ensures retBlock[..] == old(retBlock[..PROTO_HEAD_SIZE]) + Pieces(msgs, lens) + old(retBlock[PROTO_HEAD_SIZE + total..])
  {
    ghost var base := retBlock[..];
    total := 0;
    var i := 0;
    while i < |lens|
      invariant 0 <= i <= |lens|
      invariant total == SumUpTo(lens, i) <= Sum(lens)
      invariant retBlock[..] == base[..PROTO_HEAD_SIZE] + PiecesUpTo(msgs, lens, i) + base[PROTO_HEAD_SIZE + total..]
    {
      SumUpToLe(lens, i + 1);
      var piece := msgs[i][..lens[i]];
      PutBytesAfter(retBlock, base, PROTO_HEAD_SIZE, PiecesUpTo(msgs, lens, i), PROTO_HEAD_SIZE + total, piece);
      total := total + lens[i];
      i := i + 1;
    }
  }

  /** Writing q right after prefix + p in a block that was base turns it into prefix + p + q + the rest of base. */
  lemma SpliceAfter(before: seq<byte>, base: seq<byte>, at: nat, p: seq<byte>, q: seq<byte>)
    requires at <= |base| && |before| == |base| && at + |p| + |q| <= |base|
    requires before == base[..at] + p + base[at + |p|..]
    ensures before[..at + |p|] + q + before[at + |p| + |q|..] == base[..at] + (p + q) + base[at + |p| + |q|..]
  {
    assert before[..at + |p|] == base[..at] + p;
    assert before[at + |p| + |q|..] == base[at + |p| + |q|..];
  }

  /** write_uint16 of v at pos, right after the bytes p already written from `at` over base. */
  method PutUint16After(block: array<byte>, ghost base: seq<byte>, at: nat, ghost p: seq<byte>, pos: nat, v: u16)
    requires |base| == block.Length && pos == at + |p| && pos + 2 <= |base|
    requires block[..] == base[..at] + p + base[pos..]
    modifies block
    ensures block[..] == base[..at] + (p + BeBytes(v, 2)) + base[pos + 2..]
  {
    ghost var before := block[..];
    WriteUint16(block, pos, v);
    SpliceAfter(before, base, at, p, BeBytes(v, 2));
  }

  /** write_uint32 of v at pos, right after the bytes p already written from `at` over base. */
  method PutUint32After(block: array<byte>, ghost base: seq<byte>, at: nat, ghost p: seq<byte>, pos: nat, v: u32)
    requires |base| == block.Length && pos == at + |p| && pos + 4 <= |base|
    requires block[..] == base[..at] + p + base[pos..]
    modifies block
    ensures block[..] == base[..at] + (p + BeBytes(v, 4)) + base[pos + 4..]
  {
    ghost var before := block[..];
    WriteUint32(block, pos, v);
    SpliceAfter(before, base, at, p, BeBytes(v, 4));
  }

  /** Copies q to pos, right after the bytes p already written from `at` over base. */
  method PutBytesAfter(block: array<byte>, ghost base: seq<byte>, at: nat, ghost p: seq<byte>, pos: nat, q: seq<byte>)
    requires |base| == block.Length && pos == at + |p| && pos + |q| <= |base|
    requires block[..] == base[..at] + p + base[pos..]
    modifies block
    ensures block[..] == base[..at] + (p + q) + base[pos + |q|..]
  {
    ghost var before := block[..];
    CopyInto(block, pos, q);
    SpliceAfter(before, base, at, p, q);
  }

  lemma {:induction false} SumUpToLe(lens: seq<nat>, n: nat)
    requires n <= |lens|
    ensures SumUpTo(lens, n) <= Sum(lens)
    decreases |lens| - n
  {
    if n < |lens| {
      SumUpToLe(lens, n + 1);
    }
  }

  // ---------------------------------------------------------------------
  // authentication_aaa_request

  lemma ReadUint16Of(b: seq<byte>, at: nat, v: u16)
    requires at + 2 <= |b| && b[at..at + 2] == BeBytes(v, 2)
    ensures ReadUint16(b, at) == v
  {
    ReadBeOfBeBytes(v, 2);
  }

  lemma ReadUint32Of(b: seq<byte>, at: nat, v: u32)
    requires at + 4 <= |b| && b[at..at + 4] == BeBytes(v, 4)
    ensures ReadUint32(b, at) == v
  {
    ReadBeOfBeBytes(v, 4);
  }

  /** Four bytes copied out of b from o + k read as the word at k of b from o on. */
  lemma ReadUint32Within(b: seq<byte>, o: nat, k: nat)
    requires o + k + 4 <= |b|
    ensures ReadUint32(b[o + k..o + k + 4], 0) == ReadUint32(b[o..], k)
  {
    assert b[o + k..o + k + 4][0..4] == b[o..][k..k + 4];
  }

  /**
   * A decoded request. `platform` is what unpack builds: platformLen + 1
   * characters, the last of which is the terminating NUL the sender copied.
   */
  datatype AaaRequest = AaaRequest(areaId: u16, serverId: u16, linkType: byte, platform: seq<byte>, platformLen: u16)

  /** The request body: area, server id (both big-endian), link type, platform with its NUL, platform length. */
  function AaaRequestBytes(areaId: u16, serverId: u16, linkType: byte, platform: seq<byte>, platformLen: u16): (r: seq<byte>)
    requires |platform| == platformLen + 1
    ensures |r| == 8 + platformLen
  {
    BeBytes(areaId, 2) + BeBytes(serverId, 2) + [linkType] + platform + BeBytes(platformLen, 2)
  }

  /** authentication_aaa_request::pack at ret_block + at: `platform` holds the platformLen characters and the NUL after them. */
  method PackAaaRequest(retBlock: array<byte>, at: nat, areaId: u16, serverId: u16, linkType: byte, platform: seq<byte>,
                        platformLen: u16)
    returns (retLength: u16)
    requires |platform| == platformLen + 1 && at + 8 + platformLen <= retBlock.Length
    modifies retBlock
    ensures retLength == (8 + platformLen) % 0x1_0000
    ensures retBlock[..] == old(retBlock[..at]) + AaaRequestBytes(areaId, serverId, linkType, platform, platformLen)
                            + old(retBlock[at + 8 + platformLen..])
  {
    retLength := (2 + 2 + 1 + platformLen + 1 + 2) % 0x1_0000;
    ghost var base := retBlock[..];
    assert retBlock[..] == base[..at] + [] + base[at..];
    PutUint16After(retBlock, base, at, [], at, areaId);
    PutUint16After(retBlock, base, at, BeBytes(areaId, 2), at + 2, serverId);
    PutBytesAfter(retBlock, base, at, BeBytes(areaId, 2) + BeBytes(serverId, 2), at + 4, [linkType]);
    PutBytesAfter(retBlock, base, at, BeBytes(areaId, 2) + BeBytes(serverId, 2) + [linkType], at + 5, platform);
    PutUint16After(retBlock, base, at, BeBytes(areaId, 2) + BeBytes(serverId, 2) + [linkType] + platform,
                   at + 5 + platformLen + 1, platformLen);
  }

  /**
   * authentication_aaa_request::unpack: the platform length is length - 8 in
   * 16-bit arithmetic. None stands for a read beyond the block, which the
   * source does not guard.
   */
  function UnpackAaaRequest(block: seq<byte>, length: u16): (r: Option<AaaRequest>)
    ensures r.Some? <==> 5 + (length - 8) % 0x1_0000 + 1 <= |block|
    ensures r.Some? ==> r.value.platformLen == (length - 8) % 0x1_0000 && |r.value.platform| == r.value.platformLen + 1
  {
    var platformLen := (length - 8) % 0x1_0000;
    if 5 + platformLen + 1 <= |block| then
      Some(AaaRequest(ReadUint16(block, 0), ReadUint16(block, 2), block[4], block[5..5 + platformLen + 1], platformLen))
    else None
  }

  /** A packed request unpacks to its fields. */
  lemma AaaRequestRoundTrip(areaId: u16, serverId: u16, linkType: byte, platform: seq<byte>, platformLen: u16)
    requires |platform| == platformLen + 1 && 8 + platformLen < 0x1_0000
    ensures UnpackAaaRequest(AaaRequestBytes(areaId, serverId, linkType, platform, platformLen), 8 + platformLen)
         == Some(AaaRequest(areaId, serverId, linkType, platform, platformLen))
  {
    var b := AaaRequestBytes(areaId, serverId, linkType, platform, platformLen);
    assert b[0..2] == BeBytes(areaId, 2) && b[2..4] == BeBytes(serverId, 2);
    assert b[5..5 + platformLen + 1] == platform;
    ReadUint16Of(b, 0, areaId);
    ReadUint16Of(b, 2, serverId);
    assert (8 + platformLen - 8) % 0x1_0000 == platformLen;
  }

  // ---------------------------------------------------------------------
  // authentication_aaa_response

  /** A decoded response; the link type is not read back by unpack. */
  datatype AaaResponse = AaaResponse(ec: byte, subtract: byte, modVt: byte, key: seq<byte>, keyLen: u16, linkNo: u32)

  /** The bytes authentication_aaa_response::pack writes: ec, subtract, mod_vt, the key, link number, link type. */
  function AaaResponseBytes(ec: byte, subtract: byte, modVt: byte, key: seq<byte>, linkNo: u32, linkType: byte): (r: seq<byte>)
    ensures |r| == |key| + 8
  {
    [ec, subtract, modVt] + key + BeBytes(linkNo, 4) + [linkType]
  }

  /** authentication_aaa_response::pack at ret + at: writes key_len + 8 bytes but reports key_len + 10. */
  method PackAaaResponse(ret: array<byte>, at: nat, ec: byte, subtract: byte, modVt: byte, key: seq<byte>, keyLen: u16,
                         linkNo: u32, linkType: byte)
    returns (retLength: u16)
    requires |key| == keyLen && at + keyLen + 8 <= ret.Length
    modifies ret
    ensures retLength == (keyLen + 10) % 0x1_0000
    ensures ret[..] == old(ret[..at]) + AaaResponseBytes(ec, subtract, modVt, key, linkNo, linkType)
                       + old(ret[at + keyLen + 8..])
  {
    retLength := (1 + 1 + 1 + keyLen + 2 + 4 + 1) % 0x1_0000;
    ghost var base := ret[..];
    assert ret[..] == base[..at] + [] + base[at..];
    PutBytesAfter(ret, base, at, [], at, [ec, subtract, modVt]);
    PutBytesAfter(ret, base, at, [ec, subtract, modVt], at + 3, key);
    PutUint32After(ret, base, at, [ec, subtract, modVt] + key, at + keyLen + 3, linkNo);
    PutBytesAfter(ret, base, at, [ec, subtract, modVt] + key + BeBytes(linkNo, 4), at + keyLen + 3 + 4, [linkType]);
  }

  /**
   * authentication_aaa_response::unpack: the key is length - 11 bytes (16-bit
   * arithmetic) and the link number is read right after it. None stands for a
   * read beyond the block.
   */
  function UnpackAaaResponse(block: seq<byte>, length: u16): (r: Option<AaaResponse>)
    ensures r.Some? <==> 3 <= |block| && (length - 11) % 0x1_0000 + 8 <= |block|
    ensures r.Some? ==> r.value.ec == block[0] && |r.value.key| == r.value.keyLen == (length - 11) % 0x1_0000
  {
    var keyLen := (length - 11) % 0x1_0000;
    if 3 <= |block| && keyLen + 8 <= |block| then
      Some(AaaResponse(block[0], block[1], block[2], block[3..3 + keyLen], keyLen, ReadUint32(block, keyLen + 1 + 3)))
    else None
  }

  /**
   * As written, a packed response read back with its reported length loses
   * the last key byte; everything else, including the link number, survives.
   */
  lemma AaaResponseRoundTripAsWritten(ec: byte, subtract: byte, modVt: byte, key: seq<byte>, linkNo: u32, linkType: byte,
                                      tail: seq<byte>)
    requires 1 <= |key| && |key| + 10 < 0x1_0000
    ensures UnpackAaaResponse(AaaResponseBytes(ec, subtract, modVt, key, linkNo, linkType) + tail, |key| + 10)
         == Some(AaaResponse(ec, subtract, modVt, key[..|key| - 1], |key| - 1, linkNo))
  {
    var b := AaaResponseBytes(ec, subtract, modVt, key, linkNo, linkType) + tail;
    var k := |key|;
    assert b[3..3 + (k - 1)] == key[..k - 1];
    assert b[k + 3..k + 7] == BeBytes(linkNo, 4);
    ReadBeOfBeBytes(linkNo, 4);
  }

  /** The response length a packer should report: the bytes it writes. */
  function AaaResponseLengthIntended(keyLen: u16): (n: nat)
    ensures n == |AaaResponseBytes(0, 0, 0, seq(keyLen, _ => 0), 0, 0)|
  {
    keyLen + 8
  }

  /** The intended unpack, reading with the length pack writes, the link type included. */
  function UnpackAaaResponseIntended(block: seq<byte>, length: u16): (r: Option<(AaaResponse, byte)>)
    ensures r.Some? <==> 8 <= length <= |block|
  {
    if 8 <= length <= |block| then
      var keyLen := length - 8;
      Some((AaaResponse(block[0], block[1], block[2], block[3..3 + keyLen], keyLen, ReadUint32(block, keyLen + 3)),
            block[keyLen + 7]))
    else None
  }

  /** With the intended length, every field, the whole key and the link type round-trip. */
  lemma AaaResponseRoundTripIntended(ec: byte, subtract: byte, modVt: byte, key: seq<byte>, linkNo: u32, linkType: byte)
    requires |key| + 8 < 0x1_0000
    ensures UnpackAaaResponseIntended(AaaResponseBytes(ec, subtract, modVt, key, linkNo, linkType),
                                      AaaResponseLengthIntended(|key|))
         == Some((AaaResponse(ec, subtract, modVt, key, |key|, linkNo), linkType))
  {
    var b := AaaResponseBytes(ec, subtract, modVt, key, linkNo, linkType);
    var k := |key|;
    assert b[3..3 + k] == key;
    assert b[k + 3..k + 7] == BeBytes(linkNo, 4);
    ReadBeOfBeBytes(linkNo, 4);
  }

  // ---------------------------------------------------------------------
  // session_connect_confirm

  /** session_connect_confirm::pack: the address, big-endian, four bytes. */
  method PackConnectConfirm(retBlock: array<byte>, at: nat, ip: u32) returns (retLength: u16)
    requires at + 4 <= retBlock.Length
    modifies retBlock
    ensures retLength == 4
    ensures retBlock[..] == old(retBlock[..at]) + BeBytes(ip, 4) + old(retBlock[at + 4..])
  {
    WriteUint32(retBlock, at, ip);
    retLength := 4;
  }

  /** session_connect_confirm::unpack reads back the address pack wrote. */
  lemma ConnectConfirmRoundTrip(ip: u32, rest: seq<byte>)
    ensures ReadUint32(BeBytes(ip, 4) + rest, 0) == ip
  {
    var b := BeBytes(ip, 4) + rest;
    assert b[0..4] == BeBytes(ip, 4);
    ReadBeOfBeBytes(ip, 4);
  }

  datatype Option<T> = None | Some(value: T)
}
