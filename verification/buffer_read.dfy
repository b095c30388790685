// sync_read_from_socket (AsioNet/AsioNet/buffer_read.hpp): the blocking
// client's reassembly. Each call reads what the socket has into a
// ONCE_BUFFER_SIZE array after the bytes already buffered. It then hands
// the payload of every complete frame at the front to a callback and moves
// the leftover bytes to the start of the array.
//
// The socket is reduced to what a call observes: the count `available()`
// reports, and either the bytes `read_some` returned or None when it threw
// (the error is caught and printed). The callback's arguments are returned,
// in order, as `delivered`.

module BufferRead {
  import opened NetUtils
  import opened Protocol
  import opened AsyncSessions

  /**
   * The frames a drain hands out from buffered bytes b, and the bytes it
   * leaves. The loop as written runs only while more than PROTO_HEAD_SIZE
   * bytes are buffered (`strict`); the corrected loop also runs at exactly
   * PROTO_HEAD_SIZE.
   */
  function Extract(b: seq<byte>, strict: bool): (r: (seq<Frame>, seq<byte>))
    decreases |b|
  {
    if HasFrame(b) && (!strict || |b| > PROTO_HEAD_SIZE) then
      var r := Extract(b[FrameEnd(b)..], strict);
      ([FirstFrame(b)] + r.0, r.1)
    else ([], b)
  }

  /** The wire bytes of the frames, in order. */
  function FramesBytes(fs: seq<Frame>): (r: seq<byte>)
  {
    if fs == [] then [] else FrameBytes(fs[0].head, fs[0].payload) + FramesBytes(fs[1..])
  }

  /** What the callback receives: each frame's payload. */
  function Payloads(fs: seq<Frame>): (r: seq<seq<byte>>)
    ensures |r| == |fs| && forall k :: 0 <= k < |fs| ==> r[k] == fs[k].payload
  {
    seq(|fs|, k requires 0 <= k < |fs| => fs[k].payload)
  }

  /**
   * A drain loses and reorders nothing: the frames it hands out, followed
   * by the bytes it leaves, are the buffered bytes. What it leaves holds no
   * complete frame, except a lone 11-byte frame with an empty payload when
   * the comparison is strict.
   */
  lemma ExtractConserves(b: seq<byte>, strict: bool)
    ensures var r := Extract(b, strict);
      && FramesBytes(r.0) + r.1 == b
      && (HasFrame(r.1) ==> strict && |r.1| == PROTO_HEAD_SIZE && AnnouncedLen(r.1) == 0)
  {
    ExtractJoins(b, strict);
    ExtractLeavesPartial(b, strict);
  }

  lemma {:induction false} ExtractJoins(b: seq<byte>, strict: bool)
    ensures FramesBytes(Extract(b, strict).0) + Extract(b, strict).1 == b
    decreases |b|
  {
    if HasFrame(b) && (!strict || |b| > PROTO_HEAD_SIZE) {
      var e := FrameEnd(b);
      ExtractJoins(b[e..], strict);
      var r := Extract(b[e..], strict);
      var f := FirstFrame(b);
      FramesBytesCons(f, r.0);
      JoinAt(b, e, FramesBytes(r.0), r.1);
    }
  }

  lemma FramesBytesCons(f: Frame, fs: seq<Frame>)
    ensures FramesBytes([f] + fs) == FrameBytes(f.head, f.payload) + FramesBytes(fs)
  {
    assert ([f] + fs)[1..] == fs;
  }

  lemma {:induction false} ExtractLeavesPartial(b: seq<byte>, strict: bool)
    ensures var rest := Extract(b, strict).1;
      HasFrame(rest) ==> strict && |rest| == PROTO_HEAD_SIZE && AnnouncedLen(rest) == 0
    decreases |b|
  {
    if HasFrame(b) && (!strict || |b| > PROTO_HEAD_SIZE) {
      ExtractLeavesPartial(b[FrameEnd(b)..], strict);
    }
  }

  /**
   * A buffer holding a single frame with an empty payload is left as it is
   * by the loop as written: `read_offset > PROTO_HEAD_SIZE` fails at exactly
   * 11 bytes.
   */
  lemma LoneEmptyFrameHeldAsWritten(h: ProtocolHead)
    requires h.len == 0
    ensures Extract(HeadBytes(h), true) == ([], HeadBytes(h))
  {
    assert |HeadBytes(h)| == PROTO_HEAD_SIZE;
  }

  /** With `>=` the same buffer yields the frame and is left empty. */
  lemma LoneEmptyFrameDeliveredIntended(h: ProtocolHead)
    requires h.len == 0
    ensures Extract(HeadBytes(h), false) == ([Frame(h, [])], [])
  {
    var b := HeadBytes(h);
    ParseHeadBytes(h, []);
    assert b + [] == b;
    assert HasFrame(b) && FrameEnd(b) == |b|;
    assert FirstFrame(b) == Frame(h, []);
    assert Extract(b[FrameEnd(b)..], false) == ([], []);
    assert [Frame(h, [])] + [] == [Frame(h, [])];
  }

  /**
   * The two comparisons differ only at the end of the buffer. When the loop
   * as written stops before a complete frame, that frame is a lone empty
   * one, and the corrected loop delivers it as well. Otherwise both loops
   * do the same.
   */
  lemma {:induction false} StrictDelaysOnlyLoneEmptyFrame(b: seq<byte>)
    ensures var s := Extract(b, true);
      if HasFrame(s.1) then Extract(b, false) == (s.0 + [FirstFrame(s.1)], [])
      else Extract(b, false) == s
    decreases |b|
  {
    if HasFrame(b) && |b| > PROTO_HEAD_SIZE {
      var e := FrameEnd(b);
      StrictDelaysOnlyLoneEmptyFrame(b[e..]);
      var s := Extract(b[e..], true);
      if HasFrame(s.1) {
        assert [FirstFrame(b)] + (s.0 + [FirstFrame(s.1)]) == ([FirstFrame(b)] + s.0) + [FirstFrame(s.1)];
      }
    } else if HasFrame(b) {
      assert FrameEnd(b) == |b|;
      assert Extract(b[FrameEnd(b)..], false) == ([], []);
      assert [FirstFrame(b)] + [] == [FirstFrame(b)] == [] + [FirstFrame(b)];
      assert Extract(b, true) == ([], b);
      assert Extract(b, false) == ([FirstFrame(b)], []);
    }
  }

  /** memmove of count bytes from `from` down to the start of the array. */
  method MoveToFront(buf: array<byte>, from: nat, count: nat)
    requires from + count <= buf.Length
    modifies buf
    ensures buf[..count] == old(buf[from..from + count])
  {
    var k := 0;
    while k < count
      invariant 0 <= k <= count
      invariant buf[..k] == old(buf[from..from + k])
      invariant buf[k..] == old(buf[k..])
    {
      buf[k] := buf[from + k];
      k := k + 1;
    }
  }

  /** The frames handed out before a drain that went on to produce r. */
  function After(frames: seq<Frame>, r: (seq<Frame>, seq<byte>)): (seq<Frame>, seq<byte>)
  {
    (frames + r.0, r.1)
  }

  /** One more frame moves from the buffer to the handed-out frames. */
  lemma DrainStep(frames: seq<Frame>, b: seq<byte>, strict: bool)
    requires HasFrame(b) && (!strict || |b| > PROTO_HEAD_SIZE)
    ensures After(frames, Extract(b, strict)) == After(frames + [FirstFrame(b)], Extract(b[FrameEnd(b)..], strict))
  {
    var r := Extract(b[FrameEnd(b)..], strict);
    assert frames + ([FirstFrame(b)] + r.0) == (frames + [FirstFrame(b)]) + r.0;
  }

  /** A header whose announced payload is all buffered makes the first frame. */
  lemma FrontFrame(b: seq<byte>, head: ProtocolHead, payload: seq<byte>)
    requires |b| >= PROTO_HEAD_SIZE && head == ParseHead(b) && head.len <= |b| - PROTO_HEAD_SIZE
    requires payload == b[PROTO_HEAD_SIZE..PROTO_HEAD_SIZE + head.len]
    ensures HasFrame(b) && FrameEnd(b) == PROTO_HEAD_SIZE + head.len && FirstFrame(b) == Frame(head, payload)
  {
  }

  /** The while loop: hand out complete frames from the front, compacting after each. */
  method Drain(buf: array<byte>, readOffset: nat, strict: bool) returns (offset: nat, delivered: seq<seq<byte>>)
    requires readOffset <= buf.Length
    modifies buf
    ensures offset <= buf.Length
    ensures var r := Extract(old(buf[..readOffset]), strict);
      delivered == Payloads(r.0) && offset == |r.1| && buf[..offset] == r.1
  {
    offset := readOffset;
    delivered := [];
    ghost var frames: seq<Frame> := [];
    ghost var all := Extract(buf[..readOffset], strict);
    assert [] + all.0 == all.0;
    while if strict then offset > PROTO_HEAD_SIZE else offset >= PROTO_HEAD_SIZE
      invariant offset <= buf.Length
      invariant |delivered| == |frames| && forall k :: 0 <= k < |frames| ==> delivered[k] == frames[k].payload
      invariant all == After(frames, Extract(buf[..offset], strict))
      decreases offset
    {
      ghost var b := buf[..offset];
      var head := ParseHead(buf[..offset]);
      if head.len > offset - PROTO_HEAD_SIZE {
        break;
      }
      var payload := buf[PROTO_HEAD_SIZE..PROTO_HEAD_SIZE + head.len];
      assert payload == b[PROTO_HEAD_SIZE..PROTO_HEAD_SIZE + head.len];
      FrontFrame(b, head, payload);
      DrainStep(frames, b, strict);
      delivered := delivered + [payload];
      var unpackLeft := offset - (head.len + PROTO_HEAD_SIZE);
      ghost var moved := buf[head.len + PROTO_HEAD_SIZE..offset];
      assert moved == b[FrameEnd(b)..];
      MoveToFront(buf, head.len + PROTO_HEAD_SIZE, unpackLeft);
      offset := unpackLeft;
      assert buf[..offset] == moved;
      frames := frames + [FirstFrame(b)];
    }
    assert Extract(buf[..offset], strict) == ([], buf[..offset]);
  }

  /**
   * sync_read_from_socket as written:
   * - nothing happens when nothing is available or the read throws;
   * - otherwise the read bytes are appended to the buffer;
   * - then the strict loop drains it.
   * read_some fills at most the room left after read_offset.
   */
  method SyncReadFromSocket(buf: array<byte>, readOffset: nat, available: nat, read: Option<seq<byte>>)
    returns (offset: nat, delivered: seq<seq<byte>>)
    requires buf.Length == ONCE_BUFFER_SIZE && readOffset <= ONCE_BUFFER_SIZE
    requires read.Some? ==> readOffset + |read.value| <= ONCE_BUFFER_SIZE
    modifies buf
    ensures offset <= buf.Length
    ensures available == 0 || read.None? ==> offset == readOffset && delivered == [] && buf[..] == old(buf[..])
    ensures available > 0 && read.Some? ==>
      var r := Extract(old(buf[..readOffset]) + read.value, true);
      delivered == Payloads(r.0) && offset == |r.1| && buf[..offset] == r.1
  {
    if available == 0 || read.None? {
      return readOffset, [];
    }
    CopyInto(buf, readOffset, read.value);
    assert buf[..readOffset + |read.value|] == old(buf[..readOffset]) + read.value;
    offset, delivered := Drain(buf, readOffset + |read.value|, true);
  }

  /** The same call with the loop running at exactly PROTO_HEAD_SIZE bytes too. */
  method SyncReadFromSocketIntended(buf: array<byte>, readOffset: nat, available: nat, read: Option<seq<byte>>)
    returns (offset: nat, delivered: seq<seq<byte>>)
    requires buf.Length == ONCE_BUFFER_SIZE && readOffset <= ONCE_BUFFER_SIZE
    requires read.Some? ==> readOffset + |read.value| <= ONCE_BUFFER_SIZE
    modifies buf
    ensures offset <= buf.Length
    ensures available == 0 || read.None? ==> offset == readOffset && delivered == [] && buf[..] == old(buf[..])
    ensures available > 0 && read.Some? ==>
      var r := Extract(old(buf[..readOffset]) + read.value, false);
      delivered == Payloads(r.0) && offset == |r.1| && buf[..offset] == r.1 && !HasFrame(buf[..offset])
  {
    if available == 0 || read.None? {
      return readOffset, [];
    }
    CopyInto(buf, readOffset, read.value);
    assert buf[..readOffset + |read.value|] == old(buf[..readOffset]) + read.value;
    ghost var b := buf[..readOffset + |read.value|];
    offset, delivered := Drain(buf, readOffset + |read.value|, false);
    ExtractConserves(b, false);
  }
}
