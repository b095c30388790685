// session_logic_interface (AsioNet/AsioNet/session_logic.h): the session
// kinds, the authentication states, the server uid of a registering server,
// the rc4 key material a client session carries, and what every logic
// variant shares: the in-place framing of an outgoing buffer and the calls it
// makes into its session and the manager, collected as effects.

module SessionLogic {
  import opened NetUtils
  import opened SafeRandoms
  import opened Protocol
  import opened ProtoMask
  import opened ReusableBuffer

  // SessionType, an enum class over int; link types travel as one byte.
  const SINGLE_SESSION_BEGIN: byte := 0x0
  const CLIENT_PROXY: byte := 0x1
  const MULTI_SESSION_BEGIN: byte := 0x8
  const GAMESVR_PROXY: byte := 0x9
  const CHATSVR_PROXY: byte := 0xA
  const DBSVR_PROXY: byte := 0xB
  const ACTIVE_SEESION_BEGIN: byte := 0x20
  const ACTIVE_GAMESVR: byte := 0x21
  const SESSION_PAIR: byte := 0x22
  const ALL_SESSION_END: byte := 0xFF

  /** The server-side kinds are exactly the ones the manager files under its server table. */
  lemma SessionTypeOrdering()
    ensures CLIENT_PROXY == 1 && SINGLE_SESSION_BEGIN < CLIENT_PROXY < MULTI_SESSION_BEGIN
    ensures forall t | t in [GAMESVR_PROXY, CHATSVR_PROXY, DBSVR_PROXY, ACTIVE_GAMESVR, SESSION_PAIR] :: t > MULTI_SESSION_BEGIN
  {
  }

  datatype AuthenticationState = BeforeVerify | VerifySucc | VerifyFailed

  // -------------------------------------------------------------------
  // cal_server_uid

  /** A character as MSVC's signed char promotes it to int. */
  function SignedChar(c: byte): (r: int)
    ensures -0x80 <= r < 0x80 && r % 0x100 == c
  {
    if c < 0x80 then c else c - 0x100
  }

  /** The length of the C string held by s: the characters before the first NUL, all of s if it has none. */
  function CStrLen(s: seq<byte>): (n: nat)
    ensures n <= |s|
    ensures forall i | 0 <= i < n :: s[i] != 0
    ensures n < |s| ==> s[n] == 0
  {
    if |s| == 0 || s[0] == 0 then 0 else 1 + CStrLen(s[1..])
  }

  /** n rounds of hash * 31 + c in 32-bit unsigned arithmetic, always with the same c. */
  function RepeatHash(c: int, n: nat): (h: u32)
  {
    if n == 0 then 0 else (RepeatHash(c, n - 1) * 31 + c) % 0x1_0000_0000
  }

  /** The str_hash of cal_server_uid as written: every round adds the first character. */
  function StrHash(platform: seq<byte>): (h: u32)
    ensures CStrLen(platform) == 0 ==> h == 0
  {
    if CStrLen(platform) == 0 then 0 else RepeatHash(SignedChar(platform[0]), CStrLen(platform))
  }

  /** The 64-bit server uid: area in bits 48-63, server id in bits 32-47, the hash in bits 0-31. */
  function ServerUid(areaId: u16, serverId: u16, hash: u32): (r: ServerId)
    ensures r / 0x1_0000_0000_0000 == areaId
    ensures r / 0x1_0000_0000 % 0x1_0000 == serverId
    ensures r % 0x1_0000_0000 == hash
  {
    var r := areaId * 0x1_0000_0000_0000 + serverId * 0x1_0000_0000 + hash;
    ModUniqueNat(r, 0x1_0000_0000, areaId * 0x1_0000 + serverId, hash);
    ModUniqueNat(r / 0x1_0000_0000, 0x1_0000, areaId, serverId);
    ModUniqueNat(r, 0x1_0000_0000_0000, areaId, serverId * 0x1_0000_0000 + hash);
    r
  }

  /** Division with remainder is unique. */
  lemma ModUniqueNat(x: nat, c: nat, q: nat, r: nat)
    requires 0 <= r < c && x == c * q + r
    ensures x / c == q && x % c == r
  {
    var q0, r0 := x / c, x % c;
    if q0 > q {
      MulMonotone(c, q + 1, q0);
    } else if q0 < q {
      MulMonotone(c, q0 + 1, q);
    }
  }

  lemma MulMonotone(c: nat, a: nat, b: nat)
    requires a <= b
    ensures c * a <= c * b
  {
  }

  /** cal_server_uid: hashes the platform up to its NUL, then packs the three fields. */
  method CalServerUid(areaId: u16, serverId: u16, platform: seq<byte>) returns (uid: ServerId)
    ensures uid == ServerUid(areaId, serverId, StrHash(platform))
  {
    var strHash: u32 := 0;
    var len := 0;
    // c_str() puts a NUL after the last character.
    while len < |platform| && platform[len] != 0
      invariant len <= CStrLen(platform)
      invariant strHash == if len == 0 then 0 else RepeatHash(SignedChar(platform[0]), len)
      decreases |platform| - len
    {
      strHash := (strHash * 31 + SignedChar(platform[0])) % 0x1_0000_0000;
      len := len + 1;
    }
    uid := ServerUid(areaId, serverId, strHash);
  }

  /** A string without NUL is a C string of its full length. */
  lemma {:induction false} CStrLenNoNul(s: seq<byte>)
    requires forall i | 0 <= i < |s| :: s[i] != 0
    ensures CStrLen(s) == |s|
  {
    if |s| > 0 {
      CStrLenNoNul(s[1..]);
    }
  }

  /**
   * As written, the hash sees only the first character and the length: two
   * platforms that differ in their last character get the same server uid.
   */
  lemma StrHashIgnoresLaterCharacters(p: seq<byte>, a: byte, b: byte, areaId: u16, serverId: u16)
    requires |p| >= 1 && (forall i | 0 <= i < |p| :: p[i] != 0) && a != 0 && b != 0
    ensures StrHash(p + [a]) == StrHash(p + [b])
    ensures ServerUid(areaId, serverId, StrHash(p + [a])) == ServerUid(areaId, serverId, StrHash(p + [b]))
  {
    CStrLenNoNul(p + [a]);
    CStrLenNoNul(p + [b]);
  }

  /** The hash the loop evidently means: each round adds the character at the loop index. */
  function HashOf(t: seq<byte>): (h: u32)
  {
    if t == [] then 0 else (HashOf(t[..|t| - 1]) * 31 + SignedChar(t[|t| - 1])) % 0x1_0000_0000
  }

  function StrHashIntended(platform: seq<byte>): (h: u32)
  {
    HashOf(platform[..CStrLen(platform)])
  }

  /** With the intended hash, changing the last character of a platform changes its hash. */
  lemma StrHashIntendedSeesLastCharacter(p: seq<byte>, a: byte, b: byte)
    requires (forall i | 0 <= i < |p| :: p[i] != 0) && a != 0 && b != 0 && a != b
    ensures StrHashIntended(p + [a]) != StrHashIntended(p + [b])
  {
    CStrLenNoNul(p + [a]);
    CStrLenNoNul(p + [b]);
    assert (p + [a])[..|p| + 1] == p + [a] && (p + [a])[..|p|] == p;
    assert (p + [b])[..|p| + 1] == p + [b] && (p + [b])[..|p|] == p;
    ShiftDistinct(HashOf(p) * 31, SignedChar(a), SignedChar(b));
  }

  /** Adding two different small values to the same number stays different modulo 2^32. */
  lemma ShiftDistinct(x: int, a: int, b: int)
    requires -0x80 <= a < 0x80 && -0x80 <= b < 0x80 && a != b
    ensures (x + a) % 0x1_0000_0000 != (x + b) % 0x1_0000_0000
  {
    var m := 0x1_0000_0000;
    var qa, qb := (x + a) / m, (x + b) / m;
    assert (x + a) % m - (x + b) % m == (a - b) - m * (qa - qb);
    if qa - qb >= 1 {
      MulMonotoneInt(m, 1, qa - qb);
    } else if qa - qb <= -1 {
      MulMonotoneInt(m, qa - qb, -1);
    }
  }

  lemma MulMonotoneInt(c: nat, a: int, b: int)
    requires a <= b
    ensures c * a <= c * b
  {
  }

  // -------------------------------------------------------------------
  // rc4_info

  /** The key material a client session encrypts with. */
  datatype Rc4Info = Rc4Info(modVt: int, key: seq<byte>, subtract: int)

  predicate ValidRc4(info: Rc4Info)
  {
    1 <= info.modVt <= 255 && 1 <= info.subtract <= 255 && |info.key| == RC4_KEY_LEN
    && forall i | 0 <= i < |info.key| :: 1 <= info.key[i]
  }

  /**
   * rc4_crypt (rc4.hpp, not part of this model) works in place on a
   * buffer: whatever it computes from the key, the bytes and the direction
   * (true: encrypt, false: decrypt), it leaves as many bytes as it was given.
   */
  type Cipher = f: (Rc4Info, seq<byte>, bool) -> seq<byte> | forall k, s, m :: |f(k, s, m)| == |s|
    witness (k: Rc4Info, s: seq<byte>, m: bool) => s

  /** gzip compress or decompress (compression/, not part of this model): None where it throws. */
  type Codec = seq<byte> -> Option<seq<byte>>

  /** rand % 255 + 1 on a 64-bit draw. */
  function Draw(r: bv64): (v: int)
    ensures 1 <= v <= 255
  {
    (r as int) % 255 + 1
  }

  /** The generator state after n draws. */
  function Iterate(s: bv64, n: nat): bv64
  {
    if n == 0 then s else Xorshift64(Iterate(s, n - 1))
  }

  /** The rc4 material twelve draws from state s produce: mod_vt, the ten key bytes, subtract. */
  function Rc4From(s: bv64): (info: Rc4Info)
    ensures ValidRc4(info)
  {
    Rc4Info(Draw(Iterate(s, 1)), seq(RC4_KEY_LEN, i requires 0 <= i < RC4_KEY_LEN => Draw(Iterate(s, i + 2)) as byte),
            Draw(Iterate(s, RC4_KEY_LEN + 2)))
  }

  /** rc4_info(): twelve draws of the shared generator, each mapped into 1..255. */
  method NewRc4Info(rng: SafeRandom) returns (info: Rc4Info)
    modifies rng
    ensures info == Rc4From(old(rng.state)) && ValidRc4(info)
    ensures rng.state == Iterate(old(rng.state), RC4_KEY_LEN + 2)
  {
    ghost var s := rng.state;
    var rand := rng.Next();
    var modVt := Draw(rand);
    var key: seq<byte> := [];
    for i := 0 to RC4_KEY_LEN
      invariant rng.state == Iterate(s, i + 1)
      invariant key == seq(i, j requires 0 <= j < i => Draw(Iterate(s, j + 2)) as byte)
    {
      rand := rng.Next();
      key := key + [Draw(rand) as byte];
    }
    rand := rng.Next();
    var subtract := Draw(rand);
    info := Rc4Info(modVt, key, subtract);
  }

  /** A generator seeded with zero never leaves zero. */
  lemma {:induction false} IterateZero(n: nat)
    ensures Iterate(0, n) == 0
  {
    if n > 0 {
      IterateZero(n - 1);
      ZeroStaysZero(0);
    }
  }

  /** From a zero state every draw is 1, so the key material is all ones. */
  lemma Rc4FromZero()
    ensures Rc4From(0) == Rc4Info(1, seq(RC4_KEY_LEN, _ => 1), 1)
  {
    IterateZero(1);
    IterateZero(RC4_KEY_LEN + 2);
    forall j | 2 <= j < RC4_KEY_LEN + 2
      ensures Draw(Iterate(0, j)) == 1
    {
      IterateZero(j);
    }
  }

  /** server_info: what a registering server announced. */
  datatype ServerInfo = ServerInfo(serverId: u16, areaId: u16, platform: seq<byte>, linkType: byte)

  // -------------------------------------------------------------------
  // Effects: calls a logic makes into its own session or into a manager.

  /** A buffer as it is handed to a send: its cursor and its storage at that moment. */
  datatype Outgoing = Outgoing(offset: nat, length: nat, bytes: seq<byte>)
  {
    predicate Fits()
    {
      offset + length <= |bytes|
    }

    /** The bytes the session transmits. */
    function Sent(): seq<byte>
      requires Fits()
    {
      bytes[offset..offset + length]
    }
  }

  /** async_send_multi writes the head buffer's bytes, then the message's. */
  function MultiSent(head: Outgoing, msg: Outgoing): seq<byte>
    requires head.Fits() && msg.Fits()
  {
    head.Sent() + msg.Sent()
  }

  datatype Effect =
    | Send(msg: Outgoing)                                       // session->async_send(buffer)
    | SendThenKick(msg: Outgoing)                               // async_send with a completion that kicks the session
    | SendMulti(first: Option<Outgoing>, msg: Outgoing)         // session->async_send_multi(head, buffer)
    | ToServer(target: SessionUid, msg: Outgoing)               // manager send_to_server
    | ToServerMulti(target: SessionUid, head: Outgoing, msg: Outgoing)
    | ToClient(target: SessionUid, msg: Outgoing)               // manager send_to_client
    | ToClientMulti(target: SessionUid, head: Outgoing, msg: Outgoing)
    | SetRemoteIp(target: SessionUid, ip: u32)                  // active manager set_session_remote_ip
    | KickServerPeer(linkType: byte)                            // manager kick_server_peer

  function Snapshot(b: Buffer): (o: Outgoing)
    reads b, b.bytes
    ensures o.bytes == b.bytes[..] && o.offset == b.offset && o.length == b.length
  {
    Outgoing(b.offset, b.length, b.bytes[..])
  }

  // -------------------------------------------------------------------
  // The framing step every wrap_to_send_data ends with.

  /**
   * The header each wrap builds: frame key 0x2e, the 16-bit length of the
   * payload, the command with its compressed flag and a sequence number, and
   * the mask computed over that header (mask 0) and the payload.
   */
  function WrapHead(payload: seq<byte>, cmd: u16, compressed: bool, seqNo: u32): (h: ProtocolHead)
    requires |payload| <= 0xFFFF
    ensures h.fk == FRAME_KEY && h.len == |payload| && h.seqNo == seqNo
    ensures GetCmd(h) == cmd % 0x8000 && GetCompressed(h) == compressed
    ensures GetMask(HeadBytes(h), payload, 0) == 0
  {
    var h := Sealed(GetAHead(FRAME_KEY, |payload|, 0, cmd, compressed, seqNo), payload);
    SealedFrameVerifies(GetAHead(FRAME_KEY, |payload|, 0, cmd, compressed, seqNo), payload);
    h
  }

  /**
   * get_a_head, get_mask, memcpy to origin_buffer(), offset -= 11,
   * length += 11. The header always lands at the start of the storage, so
   * only a buffer whose payload starts at 11 becomes one contiguous frame.
   */
  method PrependHead(buffer: Buffer, cmd: u16, compressed: bool, seqNo: u32) returns (head: ProtocolHead)
    requires buffer.Valid() && buffer.size <= ONCE_BUFFER_SIZE
    requires PROTO_HEAD_SIZE <= buffer.offset && buffer.offset + buffer.length <= buffer.size
    modifies buffer, buffer.bytes
    ensures buffer.Valid() && buffer.offset + buffer.length <= buffer.size
    ensures head == WrapHead(old(buffer.View()), cmd, compressed, seqNo)
    ensures buffer.bytes[..] == HeadBytes(head) + old(buffer.bytes[PROTO_HEAD_SIZE..])
    ensures buffer.offset == old(buffer.offset) - PROTO_HEAD_SIZE
    ensures buffer.length == old(buffer.length) + PROTO_HEAD_SIZE
    ensures old(buffer.offset) == PROTO_HEAD_SIZE ==> buffer.View() == FrameBytes(head, old(buffer.View()))
  {
    var payload := buffer.bytes[buffer.offset..buffer.offset + buffer.length];
    head := WrapHead(payload, cmd, compressed, seqNo);
    CopyInto(buffer.bytes, 0, HeadBytes(head));
    buffer.offset := buffer.offset - PROTO_HEAD_SIZE;
    buffer.length := buffer.length + PROTO_HEAD_SIZE;
    if old(buffer.offset) == PROTO_HEAD_SIZE {
      assert buffer.View() == HeadBytes(head) + payload;
    }
  }
}
