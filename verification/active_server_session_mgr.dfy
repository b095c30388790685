// active_server_session_mgr (AsioNet/TestClient/active_server_session_mgr.h/.cpp):
// the game server's side of the gateway link. It frames messages for one
// client or for a list of clients. It reads the records the session's logic
// leaves in the shared ring buffer. It keeps the address the gateway
// reported for each client.
//
// The session itself is not called: what send and broadcast hand to its
// async_send is returned as an effect.

module ActiveServerSessionMgrs {
  import opened NetUtils
  import opened Protocol
  import opened ReusableBuffer
  import opened SessionLogic
  import opened ParallelRing
  import opened ServerSessionLogics
  import opened ActiveServerSessionLogics

  // -------------------------------------------------------------------
  // Broadcast layout.

  /** The client uids of a broadcast, four big-endian bytes each, in order. */
  function UidBytes(targets: seq<SessionUid>): (r: seq<byte>)
    ensures |r| == 4 * |targets|
  {
    if targets == [] then [] else UidBytes(targets[..|targets| - 1]) + BeBytes(targets[|targets| - 1], 4)
  }

  /** The i-th four bytes of the list are the i-th uid. */
  lemma {:induction false} UidBytesAt(targets: seq<SessionUid>, i: nat)
    requires i < |targets|
    ensures UidBytes(targets)[4 * i..4 * i + 4] == BeBytes(targets[i], 4)
  {
    var init := targets[..|targets| - 1];
    if i < |targets| - 1 {
      UidBytesAt(init, i);
      assert init[i] == targets[i];
      assert UidBytes(targets)[4 * i..4 * i + 4] == UidBytes(init)[4 * i..4 * i + 4];
    }
  }

  /** The payload of a broadcast: a big-endian count, the uids, then the message. */
  function BroadcastLayout(targets: seq<SessionUid>, msg: seq<byte>): (r: seq<byte>)
    requires |targets| <= 0xFFFF
    ensures |r| == 2 + 4 * |targets| + |msg| && r[2 + 4 * |targets|..] == msg
  {
    BeBytes(|targets|, 2) + UidBytes(targets) + msg
  }

  /**
   * The gateway's reading of a broadcast payload gets back the count and
   * every target, in order.
   */
  lemma BroadcastLayoutReadBack(targets: seq<SessionUid>, msg: seq<byte>, k: nat)
    requires |targets| <= 0xFFFF && k <= |targets|
    ensures ReadUint16(BroadcastLayout(targets, msg), 0) == |targets|
    ensures BroadcastTargets(BroadcastLayout(targets, msg), 0, k) == targets[..k]
  {
    var b := BroadcastLayout(targets, msg);
    assert b[0..2] == BeBytes(|targets|, 2);
    ReadUint16Of(b, 0, |targets|);
    BroadcastLayoutTargets(targets, msg, k);
  }

  /** The first k targets read from a broadcast layout are the first k written. */
  lemma {:induction false} BroadcastLayoutTargets(targets: seq<SessionUid>, msg: seq<byte>, k: nat)
    requires |targets| <= 0xFFFF && k <= |targets|
    ensures BroadcastTargets(BroadcastLayout(targets, msg), 0, k) == targets[..k]
  {
    if k > 0 {
      BroadcastLayoutTargets(targets, msg, k - 1);
      LayoutUidAt(targets, msg, k - 1);
      assert targets[..k] == targets[..k - 1] + [targets[k - 1]];
    }
  }

  /** The u32 at 2 + 4i of a broadcast layout is target i. */
  lemma LayoutUidAt(targets: seq<SessionUid>, msg: seq<byte>, i: nat)
    requires |targets| <= 0xFFFF && i < |targets|
    ensures ReadUint32(BroadcastLayout(targets, msg), 2 + 4 * i) == targets[i]
  {
    var b := BroadcastLayout(targets, msg);
    var u := UidBytes(targets);
    UidBytesAt(targets, i);
    assert b[2 + 4 * i..2 + 4 * i + 4] == u[4 * i..4 * i + 4];
    ReadUint32Of(b, 2 + 4 * i, targets[i]);
  }

  // -------------------------------------------------------------------
  // Storage records, as the reader should take them apart.

  datatype Record = Record(uid: SessionUid, cmd: u16, payload: seq<byte>)

  /** The first complete record of a byte stream and what follows it; None while it is incomplete. */
  function ParseRecord(s: seq<byte>): (r: Option<(Record, seq<byte>)>)
    ensures r.Some? <==> |s| >= RECORD_HEAD_SIZE && |s| - RECORD_HEAD_SIZE >= ReadUint16(s, 6)
    ensures r.Some? ==> |r.value.0.payload| == ReadUint16(s, 6)
    ensures r.Some? ==> RecordBytes(r.value.0.uid, r.value.0.cmd, r.value.0.payload) + r.value.1 == s
  {
    if |s| >= RECORD_HEAD_SIZE && |s| - RECORD_HEAD_SIZE >= ReadUint16(s, 6) then
      var len := ReadUint16(s, 6);
      var rec := Record(ReadUint32(s, 0), ReadUint16(s, 4), s[8..8 + len]);
      assert s == s[..4] + s[4..6] + s[6..8] + s[8..8 + len] + s[8 + len..];
      Some((rec, s[8 + len..]))
    else None
  }

  /** A record try_copy_to_storage appends is read back whole, whatever follows it. */
  lemma RecordRoundTrip(uid: SessionUid, cmd: u16, payload: seq<byte>, rest: seq<byte>)
    requires |payload| <= 0xFFFF
    ensures ParseRecord(RecordBytes(uid, cmd, payload) + rest) == Some((Record(uid, cmd, payload), rest))
  {
    var s := RecordBytes(uid, cmd, payload) + rest;
    assert s[0..4] == BeBytes(uid, 4) && s[4..6] == BeBytes(cmd, 2) && s[6..8] == BeBytes(|payload|, 2);
    ReadUint32Of(s, 0, uid);
    ReadUint16Of(s, 4, cmd);
    ReadUint16Of(s, 6, |payload|);
    assert s[8..8 + |payload|] == payload && s[8 + |payload|..] == rest;
  }

  /** The 8 bytes of a record's fixed part. */
  function RecordHead(uid: SessionUid, cmd: u16, len: u16): (r: seq<byte>)
    ensures |r| == RECORD_HEAD_SIZE
  {
    BeBytes(uid, 4) + BeBytes(cmd, 2) + BeBytes(len, 2)
  }

  /** A stream that starts with a record header holds a record once the announced payload is there. */
  lemma ParseAfterHead(uid: SessionUid, cmd: u16, len: u16, rest: seq<byte>)
    ensures ParseRecord(RecordHead(uid, cmd, len) + rest)
         == if |rest| >= len then Some((Record(uid, cmd, rest[..len]), rest[len..])) else None
  {
    var s := RecordHead(uid, cmd, len) + rest;
    assert s[6..8] == BeBytes(len, 2);
    ReadUint16Of(s, 6, len);
    if |rest| >= len {
      assert RecordBytes(uid, cmd, rest[..len]) + rest[len..] == s;
      RecordRoundTrip(uid, cmd, rest[..len], rest[len..]);
    }
  }

  // -------------------------------------------------------------------
  // Reading from the ring.

  /**
   * tryRead(n, local array): the array keeps its earlier (uninitialised)
   * bytes, `fallback`, when the ring is empty.
   */
  method ReadInto(ring: RingBuffer, n: nat, fallback: seq<byte>) returns (r: seq<byte>)
    requires ring.Valid() && |fallback| == n
    modifies ring`readIndex
    ensures ring.Valid() && |r| == n
    ensures old(ring.Count()) == 0 ==> r == fallback && ring.readIndex == old(ring.readIndex)
    ensures old(ring.Count()) != 0 ==>
              r == old(ring.Slice(n)) && ring.readIndex == Slot(old(ring.readIndex), n, ring.capacity)
    ensures n <= old(ring.Count()) ==> r == old(ring.Contents())[..n] && ring.Contents() == old(ring.Contents())[n..]
  {
    var ok, ret := ring.TryRead(n, false);
    r := if ok then ret else fallback;
  }

  /**
   * How far the three header reads of pick_msg move the read index when
   * only 1 to 7 bytes are stored. Each tryRead checks only that the ring is
   * not empty, so a read runs past the stored bytes, and the chain stops
   * for good only when a read ends exactly on the write index: after the
   * uid when 4 bytes are stored, after the command when 6 are.
   */
  function ShortHeadSkip(count: nat): (k: nat)
    requires 0 < count < RECORD_HEAD_SIZE
    ensures count <= k <= RECORD_HEAD_SIZE
    ensures k < RECORD_HEAD_SIZE <==> count == 4 || count == 6
  {
    if count == 4 || count == 6 then count else RECORD_HEAD_SIZE
  }

  /**
   * The three header reads of pick_msg (uid, command, length) into local
   * arrays, which keep their `garbage` when the ring is empty. With fewer
   * than 8 bytes stored the reads take the bytes at the next slots, stored
   * or not, up to ShortHeadSkip of them.
   */
  method ReadRecordHead(ring: RingBuffer, garbage: seq<byte>) returns (h: seq<byte>)
    requires ring.Valid() && |garbage| == RECORD_HEAD_SIZE
    modifies ring`readIndex
    ensures ring.Valid() && |h| == RECORD_HEAD_SIZE
    ensures old(ring.Count()) == 0 ==> h == garbage && ring.readIndex == old(ring.readIndex)
    ensures old(ring.Count()) >= RECORD_HEAD_SIZE ==>
      && h == old(ring.Contents())[..RECORD_HEAD_SIZE]
      && ring.Contents() == old(ring.Contents())[RECORD_HEAD_SIZE..]
      && ring.readIndex == Slot(old(ring.readIndex), RECORD_HEAD_SIZE, ring.capacity)
    ensures RECORD_HEAD_SIZE < ring.capacity && 0 < old(ring.Count()) < RECORD_HEAD_SIZE ==>
      var k := ShortHeadSkip(old(ring.Count()));
      && h == old(ring.Slice(RECORD_HEAD_SIZE))[..k] + garbage[k..]
      && ring.readIndex == Slot(old(ring.readIndex), k, ring.capacity)
  {
    ghost var r0 := ring.readIndex;
    ghost var c := ring.Contents();
    ghost var s8 := ring.Slice(RECORD_HEAD_SIZE);
    ghost var s4 := ring.Slice(4);
    assert s4 == s8[..4];
    ghost var short := RECORD_HEAD_SIZE < ring.capacity && 0 < |c| < RECORD_HEAD_SIZE;
    var uid := ReadInto(ring, 4, garbage[..4]);
    if short {
      ShortRead(ring, r0, |c|, 4, s8);
    }
    ghost var c1 := ring.Contents();
    var cmd := ReadInto(ring, 2, garbage[4..6]);
    if short && |c| != 4 {
      SlotAfterSlot(r0, 4, 2, ring.capacity);
      ShortRead(ring, r0, |c|, 6, s8);
    }
    ghost var c2 := ring.Contents();
    var len := ReadInto(ring, 2, garbage[6..8]);
    h := uid + cmd + len;
    if |c| == 0 {
      ThreePieces(garbage);
    } else if |c| >= RECORD_HEAD_SIZE {
      ReadInThreePieces(c, c1, c2, ring.Contents(), uid, cmd, len);
      SlotAfterSlot(r0, 4, 2, ring.capacity);
      SlotAfterSlot(r0, 6, 2, ring.capacity);
    } else if short {
      ShortPieces(|c|, s8, garbage, uid, cmd, len);
      if |c| == 6 {
        SlotAfterSlot(r0, 4, 2, ring.capacity);
      } else if |c| != 4 {
        SlotAfterSlot(r0, 6, 2, ring.capacity);
      }
    }
  }

  /** The pieces the three reads leave, stored bytes up to the stop and garbage after it, join up. */
  lemma ShortPieces(n: nat, s8: seq<byte>, garbage: seq<byte>, uid: seq<byte>, cmd: seq<byte>, len: seq<byte>)
    requires 0 < n < RECORD_HEAD_SIZE && |s8| == |garbage| == RECORD_HEAD_SIZE
    requires uid == s8[..4]
    requires cmd == if n == 4 then garbage[4..6] else s8[4..6]
    requires len == if n == 4 || n == 6 then garbage[6..8] else s8[6..8]
    ensures uid + cmd + len == s8[..ShortHeadSkip(n)] + garbage[ShortHeadSkip(n)..]
  {
    if n == 4 {
      assert garbage[4..] == cmd + len;
    } else if n == 6 {
      assert s8[..6] == uid + cmd && garbage[6..] == len;
    } else {
      assert s8 == uid + cmd + len;
    }
  }

  /**
   * With n (1 to 7) bytes stored from r0, a read that has moved the index
   * k (4 or 6) slots on has emptied the ring exactly when k is n, and the
   * next read takes the two bytes at slots k and k + 1.
   */
  lemma ShortRead(ring: RingBuffer, r0: nat, n: nat, k: nat, s8: seq<byte>)
    requires ring.Valid() && RECORD_HEAD_SIZE < ring.capacity && r0 < ring.capacity
    requires 0 < n < RECORD_HEAD_SIZE && (k == 4 || k == 6)
    requires Slot(r0, n, ring.capacity) == ring.writeIndex && ring.readIndex == Slot(r0, k, ring.capacity)
    requires |s8| == RECORD_HEAD_SIZE && forall i | 0 <= i < RECORD_HEAD_SIZE :: s8[i] == ring.buffer[Slot(r0, i, ring.capacity)]
    ensures ring.Count() == 0 <==> n == k
    ensures ring.Slice(2) == s8[k..k + 2]
  {
    CountZeroIff(ring);
    if n != k {
      SkipMissesWrite(r0, ring.writeIndex, n, k, ring.capacity);
    }
    SliceAfter(ring, r0, k, 2, s8[..k + 2]);
  }

  /**
   * Once the header reads have run 8 - n slots past the n stored bytes, the
   * ring counts capacity - (8 - n) bytes: nearly full of stale ones.
   */
  lemma OverrunCount(ring: RingBuffer, r0: nat, n: nat)
    requires ring.Valid() && r0 < ring.capacity && n < RECORD_HEAD_SIZE < ring.capacity
    requires Slot(r0, n, ring.capacity) == ring.writeIndex && ring.readIndex == Slot(r0, RECORD_HEAD_SIZE, ring.capacity)
    ensures ring.Count() == ring.capacity + n - RECORD_HEAD_SIZE
  {
    SlotAfterSlot(r0, RECORD_HEAD_SIZE, ring.capacity + n - RECORD_HEAD_SIZE, ring.capacity);
    ModMultiple(r0 + n, 1, ring.capacity);
    ring.CountFrom(ring.capacity + n - RECORD_HEAD_SIZE);
  }

  lemma ThreePieces(g: seq<byte>)
    requires |g| == RECORD_HEAD_SIZE
    ensures g[..4] + g[4..6] + g[6..8] == g
  {
  }

  /** The uid, command and length read from a record header write the same header back. */
  lemma RecordHeadOfBytes(h: seq<byte>)
    requires |h| == RECORD_HEAD_SIZE
    ensures RecordHead(ReadUint32(h, 0), ReadUint16(h, 4), ReadUint16(h, 6)) == h
  {
    assert h[0..4] == h[..4];
    ThreePieces(h);
  }

  /** Reading 4, 2 and 2 bytes one after the other takes the first 8 bytes of the stream. */
  lemma ReadInThreePieces(c: seq<byte>, c1: seq<byte>, c2: seq<byte>, c3: seq<byte>, uid: seq<byte>, cmd: seq<byte>, len: seq<byte>)
    requires |c| >= RECORD_HEAD_SIZE
    requires uid == c[..4] && c1 == c[4..]
    requires cmd == c1[..2] && c2 == c1[2..]
    requires len == c2[..2] && c3 == c2[2..]
    ensures uid + cmd + len == c[..RECORD_HEAD_SIZE] && c3 == c[RECORD_HEAD_SIZE..]
  {
    assert c[..8] == c[..4] + c[4..6] + c[6..8];
  }

  /** The for loop of broadcast: each uid written big-endian after the one before. */
  method WriteUids(bytes: array<byte>, start: nat, targets: seq<SessionUid>)
    requires start + 4 * |targets| <= bytes.Length
    modifies bytes
    ensures bytes[..] == old(bytes[..start]) + UidBytes(targets) + old(bytes[start + 4 * |targets|..])
  {
    ghost var base := bytes[..];
    for i := 0 to |targets|
      invariant bytes[..] == base[..start] + UidBytes(targets[..i]) + base[start + 4 * i..]
    {
      PutUint32After(bytes, base, start, UidBytes(targets[..i]), start + 4 * i, targets[i]);
      UidsStep(targets, i);
    }
    assert targets[..|targets|] == targets;
  }

  /** One more uid extends the written list by its four bytes. */
  lemma UidsStep(targets: seq<SessionUid>, i: nat)
    requires i < |targets|
    ensures UidBytes(targets[..i + 1]) == UidBytes(targets[..i]) + BeBytes(targets[i], 4)
  {
    assert targets[..i + 1][..i] == targets[..i];
  }

  /** A window of a spliced array: the tail of what was before, the new bytes, the head of what was after. */
  lemma SpliceWindow(a: seq<byte>, m: seq<byte>, c: seq<byte>, lo: nat, k: nat)
    requires lo <= |a| && k <= |c|
    ensures (a + m + c)[lo..|a| + |m| + k] == a[lo..] + m + c[..k]
  {
    assert a + m + c == a[..lo] + (a[lo..] + m + c[..k]) + c[k..];
  }

  /** After the message is copied past the uid room and the count written at 11, both are where broadcast reads them. */
  lemma CountThenMessage(b0: seq<byte>, pre: seq<byte>, start: nat, room: nat, count: u16, msg: seq<byte>)
    requires start == PROTO_HEAD_SIZE + 2 && start + room + |msg| <= |b0|
    requires b0[start + room..start + room + |msg|] == msg
    requires pre == b0[..PROTO_HEAD_SIZE] + BeBytes(count, 2) + b0[start..]
    ensures pre[PROTO_HEAD_SIZE..start] == BeBytes(count, 2)
    ensures pre[start + room..start + room + |msg|] == msg
  {
    assert pre[start..] == b0[start..];
  }

  class ActiveServerSessionMgr {
    const storage: RingBuffer
    var alreadyReadUid: SessionUid
    var alreadyReadCmd: u16
    var alreadyReadLength: u16
    var sockInfo: map<SessionUid, u32>

    /**
     * The manager with a fresh TOTAL_CACHE_SIZE ring. The three cached record
     * fields are never initialised by the source; their first values are
     * parameters.
     */
    constructor (initial: seq<byte>, uid: SessionUid, cmd: u16, len: u16)
      requires |initial| == TOTAL_CACHE_SIZE
      ensures storage.Valid() && fresh(storage) && fresh(storage.buffer) && storage.capacity == TOTAL_CACHE_SIZE && storage.Contents() == []
      ensures Cache() == (uid, cmd, len) && sockInfo == map[]
    {
      storage := new RingBuffer(TOTAL_CACHE_SIZE, initial);
      alreadyReadUid, alreadyReadCmd, alreadyReadLength := uid, cmd, len;
      sockInfo := map[];
    }

    /** The cached uid, command and length of the record being read. */
    function Cache(): (SessionUid, u16, u16)
      reads this
    {
      (alreadyReadUid, alreadyReadCmd, alreadyReadLength)
    }

    /**
     * The record stream the intended reader sees: a cached header with a
     * non-zero length counts as the front of the stream.
     */
    ghost function Stream(): seq<byte>
      reads this, storage, storage.buffer
      requires storage.Valid()
    {
      (if alreadyReadLength != 0 then RecordHead(alreadyReadUid, alreadyReadCmd, alreadyReadLength) else [])
      + storage.Contents()
    }

    /** get_session_remote_ip: the stored address, 0 for a client never reported. */
    function GetSessionRemoteIp(uid: SessionUid): (ip: u32)
      reads this
      ensures uid !in sockInfo ==> ip == 0
    {
      if uid in sockInfo then sockInfo[uid] else 0
    }

    /** set_session_remote_ip: inserts the client or overwrites its address. */
    method SetSessionRemoteIp(uid: SessionUid, ip: u32)
      modifies this`sockInfo
      ensures GetSessionRemoteIp(uid) == ip && uid in sockInfo
      ensures forall u | u != uid :: GetSessionRemoteIp(u) == old(GetSessionRemoteIp(u)) && (u in sockInfo <==> u in old(sockInfo))
    {
      if uid !in sockInfo {
        sockInfo := sockInfo[uid := ip];
      } else {
        sockInfo := sockInfo[uid := ip];
      }
    }

    /**
     * send: the message at offset 15 of a pooled buffer, then the target
     * uid written in the four bytes before it; offset and length move by 4.
     */
    method Send(target: SessionUid, data: seq<byte>, len: u16, scratch: seq<byte>) returns (effects: seq<Effect>)
      requires len <= |data| && |scratch| == ONCE_BUFFER_SIZE && ACTIVE_PREFIX_SIZE + len <= ONCE_BUFFER_SIZE
      ensures |effects| == 1 && effects[0].Send?
      ensures var o := effects[0].msg;
              o.Fits() && o.offset == PROTO_HEAD_SIZE && o.length == len + 4
              && o.Sent() == BeBytes(target, 4) + data[..len] && ReadUint32(o.Sent(), 0) == target
    {
      var buffer := new Buffer(ONCE_BUFFER_SIZE, scratch);
      buffer.offset := ACTIVE_PREFIX_SIZE;
      CopyInto(buffer.bytes, buffer.offset, data[..len]);
      buffer.length := len;
      ghost var b1 := buffer.bytes[..];
      assert b1[ACTIVE_PREFIX_SIZE..ACTIVE_PREFIX_SIZE + len] == data[..len];
      WriteUint32(buffer.bytes, PROTO_HEAD_SIZE, target);
      WrittenBefore(b1, buffer.bytes[..], PROTO_HEAD_SIZE, BeBytes(target, 4), len);
      buffer.offset := buffer.offset - 4;
      buffer.length := buffer.length + 4;
      ReadUint32Of(BeBytes(target, 4) + data[..len], 0, target);
      effects := [Effect.Send(Snapshot(buffer))];
    }

    /**
     * broadcast as written: more than 0xFFFF targets sends nothing.
     * Otherwise the message goes after room for the count and the uids, which
     * are then written in front of it, and the buffer is sent from offset 11.
     * The length stays the message's, so only the first len bytes of the
     * layout are sent.
     */
    method Broadcast(targets: seq<SessionUid>, data: seq<byte>, len: u16, scratch: seq<byte>) returns (effects: seq<Effect>)
      requires len <= |data| && |scratch| == ONCE_BUFFER_SIZE
      requires |targets| <= 0xFFFF ==> PROTO_HEAD_SIZE + 2 + 4 * |targets| + len <= ONCE_BUFFER_SIZE
      ensures |targets| > 0xFFFF ==> effects == []
      ensures |targets| <= 0xFFFF ==>
                |effects| == 1 && effects[0].Send? && effects[0].msg.Fits()
                && effects[0].msg.offset == PROTO_HEAD_SIZE && effects[0].msg.length == len
                && effects[0].msg.Sent() == BroadcastLayout(targets, data[..len])[..len]
    {
      if |targets| > 0xFFFF {
        return [];
      }
      var buffer := BroadcastBuffer(targets, data[..len], scratch);
      buffer.length := len;
      assert buffer.bytes[PROTO_HEAD_SIZE..PROTO_HEAD_SIZE + len] == BroadcastLayout(targets, data[..len])[..len];
      effects := [Effect.Send(Snapshot(buffer))];
    }

    /** The broadcast the code evidently means: the count and the uids are part of the length. */
    method BroadcastIntended(targets: seq<SessionUid>, data: seq<byte>, len: u16, scratch: seq<byte>)
      returns (effects: seq<Effect>)
      requires len <= |data| && |scratch| == ONCE_BUFFER_SIZE
      requires |targets| <= 0xFFFF ==> PROTO_HEAD_SIZE + 2 + 4 * |targets| + len <= ONCE_BUFFER_SIZE
      ensures |targets| > 0xFFFF ==> effects == []
      ensures |targets| <= 0xFFFF ==>
                |effects| == 1 && effects[0].Send? && effects[0].msg.Fits() && effects[0].msg.offset == PROTO_HEAD_SIZE
                && effects[0].msg.Sent() == BroadcastLayout(targets, data[..len])
                && BroadcastTargets(effects[0].msg.Sent(), 0, |targets|) == targets
    {
      if |targets| > 0xFFFF {
        return [];
      }
      var buffer := BroadcastBuffer(targets, data[..len], scratch);
      buffer.length := 2 + 4 * |targets| + len;
      BroadcastLayoutReadBack(targets, data[..len], |targets|);
      assert targets[..|targets|] == targets;
      effects := [Effect.Send(Snapshot(buffer))];
    }

    /**
     * The buffer both broadcasts build: a pooled buffer holding the count,
     * the uids (written one by one) and the message from offset 11 on.
     */
    method BroadcastBuffer(targets: seq<SessionUid>, msg: seq<byte>, scratch: seq<byte>) returns (buffer: Buffer)
      requires |targets| <= 0xFFFF && |scratch| == ONCE_BUFFER_SIZE
      requires PROTO_HEAD_SIZE + 2 + 4 * |targets| + |msg| <= ONCE_BUFFER_SIZE
      ensures fresh(buffer) && buffer.Valid() && buffer.size == ONCE_BUFFER_SIZE && buffer.offset == PROTO_HEAD_SIZE
      ensures buffer.bytes[PROTO_HEAD_SIZE..PROTO_HEAD_SIZE + 2 + 4 * |targets| + |msg|] == BroadcastLayout(targets, msg)
    {
      buffer := new Buffer(ONCE_BUFFER_SIZE, scratch);
      var start := PROTO_HEAD_SIZE + 2;
      buffer.offset := start + 4 * |targets|;
      CopyInto(buffer.bytes, buffer.offset, msg);
      buffer.length := |msg|;
      ghost var b0 := buffer.bytes[..];
      WriteUint16(buffer.bytes, PROTO_HEAD_SIZE, |targets|);
      ghost var pre := buffer.bytes[..];
      CountThenMessage(b0, pre, start, 4 * |targets|, |targets|, msg);
      WriteUids(buffer.bytes, start, targets);
      buffer.offset := PROTO_HEAD_SIZE;
      ghost var a, c := pre[..start], pre[start + 4 * |targets|..];
      assert buffer.bytes[..] == a + UidBytes(targets) + c;
      assert a[PROTO_HEAD_SIZE..] == BeBytes(|targets|, 2) && c[..|msg|] == msg;
      SpliceWindow(a, UidBytes(targets), c, PROTO_HEAD_SIZE, |msg|);
    }

    /**
     * pick_msg as written. A header is read only while the cached length
     * is non-zero and the ring does not hold exactly 8 bytes. The payload is
     * refused only when the ring holds exactly the cached length. On success
     * the cache is zeroed. `garbage` stands for the uninitialised local arrays
     * a failed tryRead leaves untouched.
     */
    method PickMsg(garbage: seq<byte>) returns (ok: bool, fromId: SessionUid, retCmd: u16, block: seq<byte>, retLen: u16)
      requires storage.Valid() && storage.capacity == TOTAL_CACHE_SIZE && |garbage| == RECORD_HEAD_SIZE
      modifies this`alreadyReadUid, this`alreadyReadCmd, this`alreadyReadLength, storage`readIndex
      ensures storage.Valid()
      ensures old(alreadyReadLength) == 0 ==>
        && (ok <==> old(storage.Count()) != 0)
        && storage.readIndex == old(storage.readIndex)
        && (ok ==> fromId == old(alreadyReadUid) && retCmd == old(alreadyReadCmd) && retLen == 0 && block == []
                   && Cache() == (0, 0, 0))
        && (!ok ==> Cache() == old(Cache()))
      ensures old(alreadyReadLength) != 0 && old(storage.Count()) == RECORD_HEAD_SIZE ==>
        !ok && Cache() == old(Cache()) && storage.readIndex == old(storage.readIndex)
      ensures old(alreadyReadLength) != 0 && old(storage.Count()) > RECORD_HEAD_SIZE ==>
        var h := old(storage.Contents())[..RECORD_HEAD_SIZE];
        && (ok ==> RecordHead(fromId, retCmd, retLen) == h && old(storage.Count()) - RECORD_HEAD_SIZE != retLen
                   && Cache() == (0, 0, 0)
                   && block == old(storage.Slice(RECORD_HEAD_SIZE + retLen))[RECORD_HEAD_SIZE..]
                   && storage.readIndex == Slot(old(storage.readIndex), RECORD_HEAD_SIZE + retLen, storage.capacity))
        && (!ok ==> RecordHead(alreadyReadUid, alreadyReadCmd, alreadyReadLength) == h
                    && old(storage.Count()) - RECORD_HEAD_SIZE == alreadyReadLength
                    && storage.Contents() == old(storage.Contents())[RECORD_HEAD_SIZE..])
      ensures old(alreadyReadLength) != 0 && old(storage.Count()) == 0 ==>
        && storage.readIndex == old(storage.readIndex)
        && (ok ==> RecordHead(fromId, retCmd, retLen) == garbage && retLen != 0 && block == [] && Cache() == (0, 0, 0))
        && (!ok ==> RecordHead(alreadyReadUid, alreadyReadCmd, alreadyReadLength) == garbage && alreadyReadLength == 0)
      ensures old(alreadyReadLength) != 0 && 0 < old(storage.Count()) < RECORD_HEAD_SIZE ==>
        var k := ShortHeadSkip(old(storage.Count()));
        var h := old(storage.Slice(RECORD_HEAD_SIZE))[..k] + garbage[k..];
        && (ok ==> RecordHead(fromId, retCmd, retLen) == h && Cache() == (0, 0, 0))
        && (k == RECORD_HEAD_SIZE ==>
              && ok
              && block == old(storage.Slice(RECORD_HEAD_SIZE + retLen))[RECORD_HEAD_SIZE..]
              && storage.readIndex == Slot(old(storage.readIndex), RECORD_HEAD_SIZE + retLen, storage.capacity))
        && (k < RECORD_HEAD_SIZE ==>
              && storage.readIndex == Slot(old(storage.readIndex), k, storage.capacity)
              && (ok ==> retLen != 0 && block == [])
              && (!ok ==> RecordHead(alreadyReadUid, alreadyReadCmd, alreadyReadLength) == h && alreadyReadLength == 0))
    {
      ghost var r0 := storage.readIndex;
      ghost var c0 := storage.Count();
      if alreadyReadLength != 0 {
        if storage.Empty(RECORD_HEAD_SIZE) {
          return false, 0, 0, [], 0;
        }
        ReadHeader(garbage);
      }
      ghost var r1 := storage.readIndex;
      ghost var c1 := storage.Count();
      if old(alreadyReadLength) == 0 {
        ModUnique(r0, storage.capacity, 0, r0);
      } else if c0 > RECORD_HEAD_SIZE && c1 != alreadyReadLength {
        ghost var n := RECORD_HEAD_SIZE + alreadyReadLength;
        ghost var sl := old(storage.Slice(n));
        assert forall i | 0 <= i < n :: sl[i] == storage.buffer[Slot(r0, i, storage.capacity)];
        SliceAfter(storage, r0, RECORD_HEAD_SIZE, alreadyReadLength, sl);
      } else if 0 < c0 < RECORD_HEAD_SIZE && ShortHeadSkip(c0) == RECORD_HEAD_SIZE {
        OverrunCount(storage, r0, c0);
        ghost var n := RECORD_HEAD_SIZE + alreadyReadLength;
        ghost var sl := old(storage.Slice(n));
        assert forall i | 0 <= i < n :: sl[i] == storage.buffer[Slot(r0, i, storage.capacity)];
        SliceAfter(storage, r0, RECORD_HEAD_SIZE, alreadyReadLength, sl);
      } else if 0 < c0 < RECORD_HEAD_SIZE {
        CountZeroIff(storage);
      }
      ok, fromId, retCmd, block, retLen := TakePayload();
      if old(alreadyReadLength) != 0 && (c0 > RECORD_HEAD_SIZE || (0 < c0 < RECORD_HEAD_SIZE && ShortHeadSkip(c0) == RECORD_HEAD_SIZE)) && ok {
        SlotAfterSlot(r0, RECORD_HEAD_SIZE, retLen, storage.capacity);
      }
    }

    /**
     * The payload step of pick_msg: refused when the ring holds exactly the
     * cached length; otherwise the cached header is handed out with what
     * tryRead gives (nothing when the ring is empty) and the cache is zeroed.
     */
    method TakePayload() returns (ok: bool, fromId: SessionUid, retCmd: u16, block: seq<byte>, retLen: u16)
      requires storage.Valid()
      modifies this`alreadyReadUid, this`alreadyReadCmd, this`alreadyReadLength, storage`readIndex
      ensures storage.Valid()
      ensures ok <==> old(storage.Count()) != old(alreadyReadLength)
      ensures !ok ==> Cache() == old(Cache()) && storage.readIndex == old(storage.readIndex)
      ensures ok ==> (fromId, retCmd, retLen) == old(Cache()) && Cache() == (0, 0, 0)
      ensures ok && old(storage.Count()) == 0 ==> block == [] && storage.readIndex == old(storage.readIndex)
      ensures ok && old(storage.Count()) != 0 ==>
        block == old(storage.Slice(alreadyReadLength as nat))
        && storage.readIndex == Slot(old(storage.readIndex), old(alreadyReadLength), storage.capacity)
    {
      if storage.Empty(alreadyReadLength) {
        return false, 0, 0, [], 0;
      }
      var got, ret := storage.TryRead(alreadyReadLength, false);
      block := if got then ret else [];
      fromId, retCmd, retLen := alreadyReadUid, alreadyReadCmd, alreadyReadLength;
      alreadyReadUid, alreadyReadCmd, alreadyReadLength := 0, 0, 0;
      ok := true;
    }

    /**
     * The header step of pick_msg: uid, command and length read one after
     * the other into local arrays, which keep `garbage` when the ring is empty.
     */
    method ReadHeader(garbage: seq<byte>)
      requires storage.Valid() && |garbage| == RECORD_HEAD_SIZE
      modifies this`alreadyReadUid, this`alreadyReadCmd, this`alreadyReadLength, storage`readIndex
      ensures storage.Valid()
      ensures old(storage.Count()) == 0 ==>
        RecordHead(alreadyReadUid, alreadyReadCmd, alreadyReadLength) == garbage
        && storage.readIndex == old(storage.readIndex)
      ensures old(storage.Count()) >= RECORD_HEAD_SIZE ==>
        && RecordHead(alreadyReadUid, alreadyReadCmd, alreadyReadLength) == old(storage.Contents())[..RECORD_HEAD_SIZE]
        && storage.Contents() == old(storage.Contents())[RECORD_HEAD_SIZE..]
        && storage.readIndex == Slot(old(storage.readIndex), RECORD_HEAD_SIZE, storage.capacity)
      ensures RECORD_HEAD_SIZE < storage.capacity && 0 < old(storage.Count()) < RECORD_HEAD_SIZE ==>
        var k := ShortHeadSkip(old(storage.Count()));
        && RecordHead(alreadyReadUid, alreadyReadCmd, alreadyReadLength) == old(storage.Slice(RECORD_HEAD_SIZE))[..k] + garbage[k..]
        && storage.readIndex == Slot(old(storage.readIndex), k, storage.capacity)
    {
      var h := ReadRecordHead(storage, garbage);
      alreadyReadUid := ReadUint32(h, 0);
      alreadyReadCmd := ReadUint16(h, 4);
      alreadyReadLength := ReadUint16(h, 6);
      RecordHeadOfBytes(h);
    }

    /**
     * pick_msg as its comment and try_copy_to_storage evidently intend: a
     * header is read when none is cached and eight bytes are stored; the
     * payload is taken once all of it is stored. The record stream loses
     * exactly the record handed out, and nothing while it is incomplete.
     */
    method PickMsgIntended() returns (ok: bool, fromId: SessionUid, retCmd: u16, block: seq<byte>, retLen: u16)
      requires storage.Valid()
      modifies this`alreadyReadUid, this`alreadyReadCmd, this`alreadyReadLength, storage`readIndex
      ensures storage.Valid()
      ensures var p := ParseRecord(old(Stream()));
        && (ok <==> p.Some?)
        && (ok ==> Record(fromId, retCmd, block) == p.value.0 && retLen == |block| && Stream() == p.value.1)
        && (!ok ==> Stream() == old(Stream()))
    {
      var ready := CacheHeaderIntended();
      if !ready {
        return false, 0, 0, [], 0;
      }
      ghost var c := storage.Contents();
      ParseAfterHead(alreadyReadUid, alreadyReadCmd, alreadyReadLength, c);
      if storage.Count() < alreadyReadLength {
        return false, 0, 0, [], 0;
      }
      var got, ret := storage.TryRead(alreadyReadLength, false);
      block := if got then ret else [];
      fromId, retCmd, retLen := alreadyReadUid, alreadyReadCmd, alreadyReadLength;
      alreadyReadUid, alreadyReadCmd, alreadyReadLength := 0, 0, 0;
      ok := true;
    }

    /** The header step of the intended pick_msg: keep a cached header, else read one once eight bytes are stored. */
    method CacheHeaderIntended() returns (ready: bool)
      requires storage.Valid()
      modifies this`alreadyReadUid, this`alreadyReadCmd, this`alreadyReadLength, storage`readIndex
      ensures storage.Valid()
      ensures ready <==> old(alreadyReadLength) != 0 || old(storage.Count()) >= RECORD_HEAD_SIZE
      ensures ready ==> RecordHead(alreadyReadUid, alreadyReadCmd, alreadyReadLength) + storage.Contents() == old(Stream())
      ensures !ready ==> Stream() == old(Stream()) && |old(Stream())| < RECORD_HEAD_SIZE
    {
      ready := alreadyReadLength != 0;
      if !ready && storage.Count() >= RECORD_HEAD_SIZE {
        ghost var c0 := storage.Contents();
        var h := ReadRecordHead(storage, [0, 0, 0, 0, 0, 0, 0, 0]);
        alreadyReadUid := ReadUint32(h, 0);
        alreadyReadCmd := ReadUint16(h, 4);
        alreadyReadLength := ReadUint16(h, 6);
        RecordHeadOfBytes(h);
        assert c0 == h + storage.Contents();
        ready := true;
      }
    }
  }

  /**
   * pick_msg as written stalls after its first success: the cache it zeroes
   * has length 0, so no header is read again. A record stored after that is
   * reported twice as an empty message from the zero uid and stays stored.
   */
  method LaterRecordsNeverReadAsWritten(initial: seq<byte>, garbage: seq<byte>, uid: SessionUid, cmd: u16, payload: seq<byte>)
    returns (mgr: ActiveServerSessionMgr, first: (bool, SessionUid, u16, seq<byte>, u16), second: (bool, SessionUid, u16, seq<byte>, u16))
    requires |initial| == TOTAL_CACHE_SIZE && |garbage| == RECORD_HEAD_SIZE && |payload| <= 0xFFFF
    ensures first == second == (true, 0, 0, [], 0)
    ensures mgr.storage.Valid() && mgr.storage.Contents() == RecordBytes(uid, cmd, payload)
  {
    mgr := new ActiveServerSessionMgr(initial, 0, 0, 0);
    AppendRecord(mgr.storage, uid, cmd, payload);
    var ok, fromId, retCmd, block, retLen := mgr.PickMsg(garbage);
    first := (ok, fromId, retCmd, block, retLen);
    ok, fromId, retCmd, block, retLen := mgr.PickMsg(garbage);
    second := (ok, fromId, retCmd, block, retLen);
  }
}
