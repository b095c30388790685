// The C# client socket of CsNetwork/SocketClient.cs: the 11-byte frame
// header WrapSendData writes, the header and body parsing of Recv, the
// sequence counter and the connect state machine driven by Tick. The Socket
// object, the send and receive threads and Environment.TickCount are left
// out: socket completions are method calls with flags, the tick count is a
// parameter, and the visible effects (closing the socket, the connect
// callback, starting a thread) are appended to a log.
module SocketClients {
  import opened NetUtils
  import Protocol
  import CsRingBuffers

  const MAX_SEND_BUFFER_SIZE: nat := 10 * 1024 * 1024
  const MAX_RECV_BUFFER_SIZE: nat := 10 * 1024 * 1024
  const DEFAULT_SEND_TIME_OUT: nat := 60 * 1000
  const DEFAULT_RECV_TIME_OUT: nat := 60 * 1000
  const MAX_TCP_CONTENT_SIZE: nat := 1460
  const MAX_FRAME_SIZE: nat := 1460 - 11
  const HEAD_SIZE: nat := 11
  const STATIC_FRAME_KEY: byte := 0x2e
  const COMMON_CMD: u16 := 0

  /** C#'s int. */
  type i32 = x: int | -0x8000_0000 <= x < 0x8000_0000

  /** An int result computed without overflow checks: the value modulo 2^32, read as two's complement. */
  function AsInt32(v: int): (r: i32)
    ensures (r - v) % 0x1_0000_0000 == 0
  {
    var m := v % 0x1_0000_0000;
    if m < 0x8000_0000 then m else m - 0x1_0000_0000
  }

  /** A value that already fits in an int is left as it is. */
  lemma AsInt32Fits(v: int)
    requires -0x8000_0000 <= v < 0x8000_0000
    ensures AsInt32(v) == v
  {
    if v < 0 {
      assert v % 0x1_0000_0000 == v + 0x1_0000_0000;
    }
  }

  /**
   * The tick count wraps after 2^31 ms; stateExec's unchecked subtraction
   * still gives the true elapsed time when that is below 2^31 ms.
   */
  lemma ElapsedAcrossWrap(start: i32, elapsed: nat)
    requires elapsed < 0x8000_0000
    ensures AsInt32(AsInt32(start + elapsed) - start) == elapsed
  {
    var now := AsInt32(start + elapsed);
    var k := (now - (start + elapsed)) / 0x1_0000_0000;
    assert now - start == elapsed + k * 0x1_0000_0000;
    assert (elapsed + k * 0x1_0000_0000) % 0x1_0000_0000 == elapsed;
  }

  /** nextSeq: the UInt32 successor, which wraps to 0 after 0xFFFFFFFF. */
  function NextSeq(s: u32): (r: u32)
    ensures r == (s + 1) % 0x1_0000_0000
    ensures r == 0 <==> s == 0xFFFF_FFFF
  {
    if s == 0xFFFF_FFFF then 0 else s + 1
  }

  /** The frame header: key, payload length, command and sequence number. */
  datatype WireHead = WireHead(len: u32, cmd: u16, seqNo: u32)

  /** The 11 bytes WrapSendData writes: the key, then len, cmd and seq each most significant byte first. */
  function FrameHead(h: WireHead): (b: seq<byte>)
    ensures |b| == HEAD_SIZE && b[0] == STATIC_FRAME_KEY
    ensures ReadBe(b[1..5]) == h.len && ReadBe(b[5..7]) == h.cmd && ReadBe(b[7..11]) == h.seqNo
  {
    var b := [STATIC_FRAME_KEY] + BeBytes(h.len, 4) + BeBytes(h.cmd, 2) + BeBytes(h.seqNo, 4);
    assert b[1..5] == BeBytes(h.len, 4) && b[5..7] == BeBytes(h.cmd, 2) && b[7..11] == BeBytes(h.seqNo, 4);
    ReadBeOfBeBytes(h.len, 4);
    ReadBeOfBeBytes(h.cmd, 2);
    ReadBeOfBeBytes(h.seqNo, 4);
    b
  }

  /** The header fields read in the order WrapSendData writes them. */
  function DecodeHead(b: seq<byte>): (h: WireHead)
    requires |b| >= HEAD_SIZE
    ensures BeBytes(h.len, 4) == b[1..5] && BeBytes(h.cmd, 2) == b[5..7] && BeBytes(h.seqNo, 4) == b[7..11]
  {
    BeBytesOfReadBe(b[1..5]);
    BeBytesOfReadBe(b[5..7]);
    BeBytesOfReadBe(b[7..11]);
    WireHead(ReadBe(b[1..5]), ReadBe(b[5..7]), ReadBe(b[7..11]))
  }

  /**
   * Recv's reading of the header: BitConverter.ToUInt32 / ToUInt16 take
   * the bytes in host order, least significant first on a little-endian
   * host.
   */
  function DecodeHeadAsWritten(b: seq<byte>): (h: WireHead)
    requires |b| >= HEAD_SIZE
    ensures LeBytes(h.len, 4) == b[1..5] && LeBytes(h.cmd, 2) == b[5..7] && LeBytes(h.seqNo, 4) == b[7..11]
  {
    LeBytesOfReadLe(b[1..5]);
    LeBytesOfReadLe(b[5..7]);
    LeBytesOfReadLe(b[7..11]);
    WireHead(ReadLe(b[1..5]), ReadLe(b[5..7]), ReadLe(b[7..11]))
  }

  /** Every header WrapSendData writes is read back whole in writing order, whatever follows it. */
  lemma HeadRoundTrip(h: WireHead, rest: seq<byte>)
    ensures DecodeHead(FrameHead(h) + rest) == h
  {
    var b := FrameHead(h) + rest;
    assert b[1..5] == FrameHead(h)[1..5] && b[5..7] == FrameHead(h)[5..7] && b[7..11] == FrameHead(h)[7..11];
  }

  /**
   * Recv reads a one-byte frame that WrapSendData wrote as a 16 MiB one:
   * the length and sequence number come out byte-reversed.
   */
  lemma HostOrderMisreadsWrappedHead()
    ensures DecodeHeadAsWritten(FrameHead(WireHead(1, 0, 1))) == WireHead(0x0100_0000, 0, 0x0100_0000)
  {
    var b := FrameHead(WireHead(1, 0, 1));
    assert BeBytes(1, 4) == [0, 0, 0, 1];
    assert BeBytes(0, 2) == [0, 0];
    assert b[1..5] == [0, 0, 0, 1] && b[5..7] == [0, 0] && b[7..11] == [0, 0, 0, 1];
    assert ReadLe([1]) == 1;
    assert ReadLe([0, 1]) == 0x100;
    assert ReadLe([0, 0, 1]) == 0x1_0000;
    assert ReadLe([0, 0, 0, 1]) == 0x100_0000;
    assert ReadLe([0]) == 0;
    assert ReadLe([0, 0]) == 0;
  }

  /** One record of a frame body: its size as two host-order (little-endian) bytes, then its bytes. */
  function Record(pb: seq<byte>): (r: seq<byte>)
    requires |pb| < 0x1_0000
    ensures |r| == 2 + |pb| && ReadLe(r[..2]) == |pb| && r[2..] == pb
  {
    ReadLeOfLeBytes(|pb|, 2);
    assert (LeBytes(|pb|, 2) + pb)[..2] == LeBytes(|pb|, 2);
    LeBytes(|pb|, 2) + pb
  }

  predicate Fits(pbs: seq<seq<byte>>)
  {
    forall k :: 0 <= k < |pbs| ==> |pbs[k]| < 0x1_0000
  }

  /** A frame body holding the records pbs in order. */
  function Join(pbs: seq<seq<byte>>): (b: seq<byte>)
    requires Fits(pbs)
    ensures |b| >= 2 * |pbs|
  {
    if pbs == [] then [] else Record(pbs[0]) + Join(pbs[1..])
  }

  /**
   * Recv's body loop from position `at`: stop once at >= len; otherwise
   * read a two-byte host-order size and hand on the next `size` bytes. The
   * second component says whether it ends in an exception (the size or the
   * record reaching past the body), after the records before it have been
   * handed on.
   */
  function Split(body: seq<byte>, len: int, at: nat): (r: (seq<seq<byte>>, bool))
    decreases |body| - at
  {
    if at >= len then ([], false)
    else if at + 2 > |body| then ([], true)
    else
      var size := ReadLe(body[at..at + 2]);
      if at + 2 + size > |body| then ([], true)
      else
        var rest := Split(body, len, at + 2 + size);
        ([body[at + 2..at + 2 + size]] + rest.0, rest.1)
  }

  /** The body loop hands on exactly the records a body was built from, in order, and ends normally. */
  lemma {:induction false} SplitJoin(pbs: seq<seq<byte>>)
    requires Fits(pbs)
    ensures Split(Join(pbs), |Join(pbs)|, 0) == (pbs, false)
  {
    SplitJoinFrom([], pbs);
    assert [] + Join(pbs) == Join(pbs);
  }

  lemma {:induction false} SplitJoinFrom(pre: seq<byte>, pbs: seq<seq<byte>>)
    requires Fits(pbs)
    ensures Split(pre + Join(pbs), |pre| + |Join(pbs)|, |pre|) == (pbs, false)
    decreases |pbs|
  {
    var body := pre + Join(pbs);
    if pbs != [] {
      var at := |pre|;
      var r := Record(pbs[0]);
      assert Fits(pbs[1..]) by {
        forall k | 0 <= k < |pbs[1..]| ensures |pbs[1..][k]| < 0x1_0000 {
          assert pbs[1..][k] == pbs[k + 1];
        }
      }
      assert body == (pre + r) + Join(pbs[1..]);
      assert body[at..at + 2] == r[..2];
      assert body[at + 2..at + 2 + |pbs[0]|] == r[2..];
      SplitJoinFrom(pre + r, pbs[1..]);
      assert [pbs[0]] + pbs[1..] == pbs;
    }
  }

  /** The state of SocketClient.State. */
  datatype SocketState = StateInit | StateConnecting | StateConnected | StateClosed | StateTimeout | StateOtherErr

  /** What stateEnter does outside the object: close the socket, call the connect callback, start a thread. */
  datatype Effect = CloseSocket | ConnectDone | StartSendThread | StartRecvThread

  /** stateEnter's effects for the state entered, given the object's socket, callback and threads. */
  function EnterEffects(s: SocketState, hasSocket: bool, hasAction: bool, sendStarted: bool, recvStarted: bool): seq<Effect>
  {
    match s
    case StateTimeout | StateClosed => if hasSocket then [CloseSocket] else []
    case StateConnected =>
      (if hasAction then [ConnectDone] else [])
        + (if sendStarted then [] else [StartSendThread])
        + (if recvStarted then [] else [StartRecvThread])
    case _ => []
  }

  /**
   * Entering Closed or Timeout closes the socket once one exists, and
   * nothing else; entering Connected never closes it and starts each
   * thread that is not running; the other states do nothing.
   */
  lemma EnterEffectsCases(s: SocketState, hasSocket: bool, hasAction: bool, sendStarted: bool, recvStarted: bool)
    ensures var e := EnterEffects(s, hasSocket, hasAction, sendStarted, recvStarted);
      (s == StateClosed || s == StateTimeout) ==> (CloseSocket in e <==> hasSocket) && |e| <= 1
    ensures var e := EnterEffects(s, hasSocket, hasAction, sendStarted, recvStarted);
      s == StateConnected ==> (CloseSocket !in e && (ConnectDone in e <==> hasAction)
        && (StartSendThread in e <==> !sendStarted) && (StartRecvThread in e <==> !recvStarted))
    ensures s in {StateInit, StateConnecting, StateOtherErr} ==> EnterEffects(s, hasSocket, hasAction, sendStarted, recvStarted) == []
  {
  }

  /** The outcome of Send: it would spin while the buffer is full; otherwise the frame is wrapped and written. */
  datatype SendOutcome = WouldSpin | WrapThrew | Written(write: CsRingBuffers.Outcome)

  class SocketClient {
    var currentState: SocketState
    var lastState: SocketState
    var connectTimeout: int
    var startTimeMS: i32
    var hasSocket: bool
    var hasConnectAction: bool
    var sendThreadStarted: bool
    var recvThreadStarted: bool
    var effects: seq<Effect>
    var sendSeq: u32
    var recvSeq: u32
    const sendFrameHead: array<byte>
    const recvFrameHead: array<byte>
    const sendBuffer: CsRingBuffers.CsRingBuffer
    const recvBuffer: CsRingBuffers.CsRingBuffer

    predicate Valid()
    {
      sendFrameHead.Length == HEAD_SIZE && recvFrameHead.Length == HEAD_SIZE
      && sendBuffer.Valid() && recvBuffer.Valid()
      && sendFrameHead != sendBuffer.buffer && recvFrameHead != recvBuffer.buffer
    }

    /** A new client: state Init, no socket, no threads, sequence numbers 0 and two 10 MiB ring buffers. */
    constructor ()
      ensures Valid() && currentState == StateInit && lastState == StateInit
      ensures !hasSocket && !hasConnectAction && !sendThreadStarted && !recvThreadStarted
      ensures effects == [] && sendSeq == 0 && recvSeq == 0 && connectTimeout == 0 && startTimeMS == 0
      ensures sendBuffer.capacity == MAX_SEND_BUFFER_SIZE && recvBuffer.capacity == MAX_RECV_BUFFER_SIZE
      ensures sendBuffer.readIndex == sendBuffer.writeIndex == 0 && recvBuffer.readIndex == recvBuffer.writeIndex == 0
    {
      currentState, lastState := StateInit, StateInit;
      connectTimeout, startTimeMS := 0, 0;
      hasSocket, hasConnectAction := false, false;
      sendThreadStarted, recvThreadStarted := false, false;
      effects := [];
      sendSeq, recvSeq := 0, 0;
      sendFrameHead := new byte[HEAD_SIZE];
      recvFrameHead := new byte[HEAD_SIZE];
      sendBuffer := new CsRingBuffers.CsRingBuffer(MAX_SEND_BUFFER_SIZE);
      recvBuffer := new CsRingBuffers.CsRingBuffer(MAX_RECV_BUFFER_SIZE);
    }

    /**
     * AsyncConnect: remember the callback, take the timeout (a non-positive
     * one means the 60 s default), note the start tick, enter Connecting
     * and create the socket.
     */
    method AsyncConnect(timeout: i32, now: i32, withAction: bool)
      modifies this`hasConnectAction, this`connectTimeout, this`startTimeMS, this`currentState, this`hasSocket
      ensures hasConnectAction == withAction && startTimeMS == now && currentState == StateConnecting && hasSocket
      ensures timeout > 0 ==> connectTimeout == timeout
      ensures timeout <= 0 ==> connectTimeout == DEFAULT_SEND_TIME_OUT
    {
      hasConnectAction := withAction;
      connectTimeout := if timeout > 0 then timeout else DEFAULT_SEND_TIME_OUT;
      startTimeMS := now;
      currentState := StateConnecting;
      hasSocket := true;
    }

    /**
     * onAsyncConnectDone: a completion for the current socket moves the
     * state to Connected when the socket is connected and to Closed
     * otherwise; a stale completion changes nothing.
     */
    method OnAsyncConnectDone(forCurrentSocket: bool, connected: bool)
      modifies this`currentState
      ensures hasSocket && forCurrentSocket ==> currentState == (if connected then StateConnected else StateClosed)
      ensures !(hasSocket && forCurrentSocket) ==> currentState == old(currentState)
    {
      if hasSocket && forCurrentSocket {
        currentState := if connected then StateConnected else StateClosed;
      }
    }

    /** stateEnter for the state s. */
    method StateEnter(s: SocketState)
      modifies this`effects, this`sendThreadStarted, this`recvThreadStarted
      ensures effects == old(effects) + EnterEffects(s, hasSocket, hasConnectAction, old(sendThreadStarted), old(recvThreadStarted))
      ensures s == StateConnected ==> sendThreadStarted && recvThreadStarted
      ensures s != StateConnected ==> sendThreadStarted == old(sendThreadStarted) && recvThreadStarted == old(recvThreadStarted)
    {
      match s {
        case StateTimeout =>
          if hasSocket {
            effects := effects + [CloseSocket];
          }
        case StateClosed =>
          if hasSocket {
            effects := effects + [CloseSocket];
          }
        case StateConnected =>
          if hasConnectAction {
            effects := effects + [ConnectDone];
          }
          if !sendThreadStarted {
            effects := effects + [StartSendThread];
            sendThreadStarted := true;
          }
          if !recvThreadStarted {
            effects := effects + [StartRecvThread];
            recvThreadStarted := true;
          }
        case _ =>
      }
    }

    /** stateExec: while Connecting, a tick more than the timeout after the start moves the state to Timeout. */
    method StateExec(now: i32)
      modifies this`currentState
      ensures currentState == (if old(currentState) == StateConnecting && AsInt32(now - startTimeMS) > connectTimeout
                               then StateTimeout else old(currentState))
    {
      if currentState == StateConnecting {
        var delta := AsInt32(now - startTimeMS);
        if delta > connectTimeout {
          currentState := StateTimeout;
        }
      }
    }

    /**
     * Tick: when the state differs from the last one seen, leave the old
     * state (which does nothing), enter the new one and record it; then
     * run the current state. A state is entered once: a second tick in the
     * same state adds no effect.
     */
    method Tick(now: i32)
      modifies this`effects, this`sendThreadStarted, this`recvThreadStarted, this`lastState, this`currentState
      ensures lastState == old(currentState)
      ensures old(lastState) != old(currentState) ==>
        effects == old(effects) + EnterEffects(old(currentState), hasSocket, hasConnectAction, old(sendThreadStarted), old(recvThreadStarted))
      ensures old(lastState) == old(currentState) ==> effects == old(effects)
      ensures old(lastState) != old(currentState) && old(currentState) == StateConnected ==> sendThreadStarted && recvThreadStarted
      ensures !(old(lastState) != old(currentState) && old(currentState) == StateConnected) ==>
        sendThreadStarted == old(sendThreadStarted) && recvThreadStarted == old(recvThreadStarted)
      ensures currentState == (if old(currentState) == StateConnecting && AsInt32(now - startTimeMS) > connectTimeout
                               then StateTimeout else old(currentState))
    {
      if lastState != currentState {
        StateEnter(currentState);
        lastState := currentState;
      }
      StateExec(now);
    }

    /**
     * WrapSendData(data, length): the payload length is `length` when
     * positive, otherwise the whole array; the sequence number advances and
     * is stored before use; the header goes into the reused head array;
     * then a new array of 11 + len bytes gets the header and the payload.
     * Copying past the end of `data` throws (fault).
     */
    method WrapSendData(data: array<byte>, length: i32) returns (frame: array<byte>, fault: bool)
      requires Valid() && data.Length < 0x8000_0000
      modifies this`sendSeq, sendFrameHead
      ensures var len := if length > 0 then length else data.Length;
        sendSeq == NextSeq(old(sendSeq))
        && sendFrameHead[..] == FrameHead(WireHead(len, COMMON_CMD, sendSeq))
        && (fault <==> len > data.Length)
        && (!fault ==> frame[..] == FrameHead(WireHead(len, COMMON_CMD, sendSeq)) + data[..len])
      ensures fresh(frame)
    {
      var len: u32 := if length > 0 then length else data.Length;
      var s := NextSeq(sendSeq);
      sendSeq := s;
      WriteHead(len, s);
      frame := new byte[HEAD_SIZE + len];
      fault := CopyFrame(frame, data, len);
    }

    /** The eleven header stores of WrapSendData into the head array, each field most significant byte first. */
    method WriteHead(len: u32, s: u32)
      requires Valid()
      modifies sendFrameHead
      ensures sendFrameHead[..] == FrameHead(WireHead(len, COMMON_CMD, s))
    {
      sendFrameHead[0] := STATIC_FRAME_KEY;
      WriteUint32(sendFrameHead, 1, len);
      WriteUint16(sendFrameHead, 5, COMMON_CMD);
      ghost var b := sendFrameHead[..];
      WriteUint32(sendFrameHead, 7, s);
      assert sendFrameHead[..7] == b[..7];
      assert sendFrameHead[..] == [STATIC_FRAME_KEY] + BeBytes(len, 4) + BeBytes(COMMON_CMD, 2) + BeBytes(s, 4);
    }

    /** WrapSendData's copy loop: header bytes first, then data[i - 11]. */
    method CopyFrame(frame: array<byte>, data: array<byte>, len: nat) returns (fault: bool)
      requires Valid() && frame.Length == HEAD_SIZE + len
      requires frame != sendFrameHead && frame != data
      modifies frame
      ensures fault <==> len > data.Length
      ensures !fault ==> frame[..] == sendFrameHead[..] + data[..len]
    {
      var i := 0;
      fault := false;
      while i < HEAD_SIZE + len
        invariant 0 <= i <= HEAD_SIZE + len
        invariant !fault
        invariant i > HEAD_SIZE ==> i - HEAD_SIZE <= data.Length
        invariant forall j :: 0 <= j < i && j < HEAD_SIZE ==> frame[j] == sendFrameHead[j]
        invariant forall j :: HEAD_SIZE <= j < i ==> j - HEAD_SIZE < data.Length && frame[j] == data[j - HEAD_SIZE]
      {
        if i < HEAD_SIZE {
          frame[i] := sendFrameHead[i];
        } else if i - HEAD_SIZE < data.Length {
          frame[i] := data[i - HEAD_SIZE];
        } else {
          fault := true;
          break;
        }
        i := i + 1;
      }
      if !fault {
        assert frame[..] == sendFrameHead[..] + data[..len] by {
          forall j | 0 <= j < frame.Length
            ensures frame[j] == (sendFrameHead[..] + data[..len])[j]
          {
            if j >= HEAD_SIZE {
              assert (sendFrameHead[..] + data[..len])[j] == data[j - HEAD_SIZE];
            }
          }
        }
      }
    }

    /**
     * Send(data, len): while the send buffer is full for len + 11 more
     * bytes the caller sleeps and retries (a single pass is modelled, as
     * WouldSpin); otherwise the frame is wrapped and written with TryWrite.
     * TryWrite never reports success, so the Debug.Assert(false) of its
     * failure branch is reached on every written frame. The caller's array
     * is never one of the client's private arrays.
     */
    method Send(data: array<byte>, len: i32) returns (r: SendOutcome)
      requires Valid() && data.Length < 0x8000_0000 && data != sendFrameHead && data != sendBuffer.buffer
      modifies this`sendSeq, sendFrameHead, sendBuffer`writeIndex, sendBuffer.buffer
      ensures r == WouldSpin <==> old(sendBuffer.Full(len + HEAD_SIZE))
      ensures r == WouldSpin ==> sendSeq == old(sendSeq) && sendBuffer.writeIndex == old(sendBuffer.writeIndex)
      ensures r != WouldSpin ==> sendSeq == NextSeq(old(sendSeq))
      ensures r.Written? ==> r.write != CsRingBuffers.Returned(true)
      ensures r == WrapThrew <==> !old(sendBuffer.Full(len + HEAD_SIZE)) && len as int > data.Length
      ensures r.Written? ==>
        var n := if len > 0 then len else data.Length;
        sendBuffer.WrittenFrom(old(sendBuffer.readIndex), old(sendBuffer.writeIndex), old(sendBuffer.buffer[..]),
                               FrameHead(WireHead(n, COMMON_CMD, sendSeq)) + data[..n], HEAD_SIZE + n, r.write)
    {
      if sendBuffer.Full(len + HEAD_SIZE) {
        return WouldSpin;
      }
      ghost var r0, w0, b0 := sendBuffer.readIndex, sendBuffer.writeIndex, sendBuffer.buffer[..];
      var frame, fault := WrapSendData(data, len);
      if fault {
        return WrapThrew;
      }
      ghost var n := if len > 0 then len else data.Length;
      ghost var wire := FrameHead(WireHead(n, COMMON_CMD, sendSeq)) + data[..n];
      assert frame[..] == wire && frame.Length == HEAD_SIZE + n;
      assert sendBuffer.readIndex == r0 && sendBuffer.writeIndex == w0 && sendBuffer.buffer[..] == b0;
      var w := sendBuffer.TryWrite(frame[..], frame.Length);
      r := Written(w);
    }

    /**
     * Recv: peek at the 11 header bytes. TryRead never returns true, so
     * every call ends here: false, or the exception TryRead throws.
     */
    method Recv() returns (r: CsRingBuffers.Outcome)
      requires Valid()
      modifies recvBuffer`readIndex, recvFrameHead
      ensures r != CsRingBuffers.Returned(true)
      ensures recvBuffer.readIndex == old(recvBuffer.readIndex)
    {
      r := recvBuffer.TryRead(HEAD_SIZE, recvFrameHead, true);
    }

    /**
     * The rest of Recv once the header bytes and the body have been read:
     * the header is decoded in host order, the sequence number is stored,
     * a command other than COMMON_CMD goes to the command handler, and the
     * body records go to the record handler in order.
     */
    method ReadFrame(head: seq<byte>, frameBody: array<byte>, hasCmdHandler: bool)
      returns (cmd: Protocol.Option<u16>, delivered: seq<seq<byte>>, thrown: bool)
      requires |head| == HEAD_SIZE
      modifies this`recvSeq
      ensures var h := DecodeHeadAsWritten(head);
        recvSeq == h.seqNo
        && (cmd.Some? <==> h.cmd != COMMON_CMD && hasCmdHandler)
        && (cmd.Some? ==> cmd.value == h.cmd)
        && (delivered, thrown) == Split(frameBody[..], h.len, 0)
    {
      var h := DecodeHeadAsWritten(head);
      recvSeq := h.seqNo;
      cmd := if h.cmd != COMMON_CMD && hasCmdHandler then Protocol.Some(h.cmd) else Protocol.None;
      delivered, thrown := SplitBody(frameBody, h.len);
    }
  }

  /**
   * Recv's body loop over frameBody: records go to the handler (collected
   * in `delivered`) until the position reaches len; a size or a record that
   * reaches past the array throws.
   */
  method SplitBody(frameBody: array<byte>, len: int) returns (delivered: seq<seq<byte>>, thrown: bool)
    ensures (delivered, thrown) == Split(frameBody[..], len, 0)
  {
    ghost var body := frameBody[..];
    var pbIndex: nat := 0;
    delivered, thrown := [], false;
    while true
      invariant Split(body, len, 0).0 == delivered + Split(body, len, pbIndex).0
      invariant Split(body, len, 0).1 == Split(body, len, pbIndex).1
      invariant !thrown && pbIndex <= |body|
      decreases |body| - pbIndex
    {
      if pbIndex >= len {
        assert Split(body, len, pbIndex) == ([], false);
        break;
      }
      var pb, next, fault := ReadRecord(frameBody, len, pbIndex);
      if fault {
        thrown := true;
        break;
      }
      pbIndex := next;
      delivered := delivered + [pb];
    }
    assert delivered == Split(body, len, 0).0;
  }

  /** One pass of the body loop below len: the size at `at`, then the record after it. */
  method ReadRecord(frameBody: array<byte>, len: int, at: nat) returns (pb: seq<byte>, next: nat, fault: bool)
    requires at < len && at <= frameBody.Length
    ensures fault ==> Split(frameBody[..], len, at) == ([], true)
    ensures !fault ==> at < next <= frameBody.Length
    ensures !fault ==> Split(frameBody[..], len, at) == ([pb] + Split(frameBody[..], len, next).0, Split(frameBody[..], len, next).1)
  {
    if at + 2 > frameBody.Length {
      return [], at, true;
    }
    var size := ReadLe(frameBody[at..at + 2]);
    var record, f := CopyRecord(frameBody, at + 2, size);
    pb, next, fault := record[..], at + 2 + size, f;
  }

  /** The record copy loop: pb[i] = frameBody[from + i] for i < size, throwing at the first index past the body. */
  method CopyRecord(frameBody: array<byte>, from: nat, size: nat) returns (pb: array<byte>, fault: bool)
    requires from <= frameBody.Length
    ensures fresh(pb) && pb.Length == size
    ensures fault <==> from + size > frameBody.Length
    ensures !fault ==> pb[..] == frameBody[from..from + size]
  {
    pb := new byte[size];
    var i := 0;
    fault := false;
    while i < size
      invariant 0 <= i <= size && from + i <= frameBody.Length
      invariant forall j :: 0 <= j < i ==> pb[j] == frameBody[from + j]
    {
      if from + i >= frameBody.Length {
        fault := true;
        return;
      }
      pb[i] := frameBody[from + i];
      i := i + 1;
    }
    assert pb[..] == frameBody[from..from + size];
  }

  /**
   * A connect that hears nothing back: the first tick enters Connecting,
   * a tick more than 60 s later times out, and the tick after that closes
   * the socket.
   */
  method ConnectTimesOut() returns (c: SocketClient)
    ensures c.currentState == StateTimeout && c.effects == [CloseSocket]
  {
    c := new SocketClient();
    c.AsyncConnect(-1, 1000, false);
    c.Tick(1000);
    AsInt32Fits(0);
    assert c.currentState == StateConnecting && c.effects == [];
    c.Tick(61001);
    AsInt32Fits(60001);
    assert c.currentState == StateTimeout;
    c.Tick(61002);
  }
}
