// basic_async_session (AsioNet/AsioNet/basic_async_session.h/.cpp): one TCP
// connection of the gateway. It walks through the socket lifecycle, gathers
// received bytes into a reassembly buffer and hands each complete frame to
// its session logic, and keeps the connection alive with a fixed tick.
//
// Every asio completion (connect, read, write, timer) is an explicit method
// whose arguments carry what the completion reports. Work that `close` posts
// to the strand runs at once. The session logic's answers to the frames of a
// batch are a function parameter, and the clock is a parameter in
// milliseconds.

module AsyncSessions {
  import opened NetUtils
  import opened Protocol
  import ParallelRing

  /** StateSocket. */
  datatype StateSocket = Init | WaitConnect | Connecting | ToClose | CloseDone

  /**
   * The tick timer as its owner sees it: no wait pending, a wait pending, or
   * a pending wait that was cancelled and will complete with operation_aborted.
   */
  datatype Timer = Idle | Armed | Cancelled

  /**
   * The retry timer's pending completions. `live` says whether the last
   * async_wait is still due to expire normally. `aborted` counts the waits
   * that were aborted, either by cancel or by expires_from_now re-arming the
   * timer over them; each still runs its handler, with operation_aborted.
   * asio queues an aborted completion at once, so it runs before a live one.
   */
  datatype RetryWaits = RetryWaits(live: bool, aborted: nat)

  /** A retry timer with no completion due. */
  const NoWaits := RetryWaits(false, 0)

  predicate Pending(t: RetryWaits)
  {
    t.live || t.aborted > 0
  }

  /** expires_from_now then async_wait: a live wait is aborted, and a new one is live. */
  function Rearm(t: RetryWaits): (r: RetryWaits)
    ensures r.live && r.aborted == t.aborted + (if t.live then 1 else 0)
  {
    RetryWaits(true, if t.live then t.aborted + 1 else t.aborted)
  }

  /** cancel: a live wait is aborted and none stays live. */
  function CancelWaits(t: RetryWaits): (r: RetryWaits)
    ensures !r.live && r.aborted == t.aborted + (if t.live then 1 else 0)
  {
    RetryWaits(false, if t.live then t.aborted + 1 else t.aborted)
  }

  /**
   * A write put on the socket. async_send passes its buffer through the
   * logic's wrap_to_send_data first; async_send_multi writes its buffers as
   * they are.
   */
  datatype Write = Wrapped(payload: seq<byte>) | Raw(bytes: seq<byte>)

  /** A frame as pick_a_entire_msg cuts it out: the unpacked header and head->len payload bytes. */
  datatype Frame = Frame(head: ProtocolHead, payload: seq<byte>)

  /**
   * What the logic answers for one frame: unwrap_received_data's result and,
   * when that succeeded, try_copy_to_storage's.
   */
  datatype LogicReply = LogicReply(unwrapped: bool, stored: bool)

  /** The i-th frame a batch hands to the logic, and the logic's answer. */
  type Reply = (nat, Frame) -> LogicReply

  datatype Handled = Handled(frame: Frame, reply: LogicReply)

  /** The frames a batch consumed, the bytes left buffered, and whether a refused copy stopped it. */
  datatype Picked = Picked(handled: seq<Handled>, rest: seq<byte>, stalled: bool)

  function Bytes(b: Option<seq<byte>>): seq<byte>
  {
    if b.Some? then b.value else []
  }

  // -------------------------------------------------------------------
  // Reassembly: pick_a_entire_msg / pick_entire_msgs.

  /** At least a header is buffered, and at least head->len bytes follow it. */
  predicate HasFrame(b: seq<byte>)
  {
    |b| >= PROTO_HEAD_SIZE && |b| - PROTO_HEAD_SIZE >= AnnouncedLen(b)
  }

  /** head->len of the header at the front of b. */
  function AnnouncedLen(b: seq<byte>): (n: u16)
    requires |b| >= PROTO_HEAD_SIZE
    ensures n == ParseHead(b).len
  {
    ReadLe(b[1..3])
  }

  /** already_read after a frame: the header plus head->len. */
  function FrameEnd(b: seq<byte>): (n: nat)
    requires HasFrame(b)
    ensures PROTO_HEAD_SIZE <= n <= |b|
  {
    PROTO_HEAD_SIZE + AnnouncedLen(b)
  }

  /** The frame at the front of the buffer is exactly its first FrameEnd bytes. */
  function FirstFrame(b: seq<byte>): (f: Frame)
    requires HasFrame(b)
    ensures |f.payload| == f.head.len
    ensures FrameBytes(f.head, f.payload) == b[..FrameEnd(b)]
  {
    Frame(ParseHead(b), b[PROTO_HEAD_SIZE..FrameEnd(b)])
  }

  /** The wire bytes of the frames, in order. */
  function HandledBytes(hs: seq<Handled>): (r: seq<byte>)
  {
    if hs == [] then [] else FrameBytes(hs[0].frame.head, hs[0].frame.payload) + HandledBytes(hs[1..])
  }

  /** A reply that leaves the frame in the buffer: unwrapped, but not stored. */
  predicate Refuses(rep: LogicReply)
  {
    rep.unwrapped && !rep.stored
  }

  /**
   * What repeated pick_a_entire_msg calls do to the buffered bytes b when the
   * first of them is the logic's i-th frame. A frame whose unwrap fails is
   * still consumed. A frame whose copy is refused stays, and stops the batch.
   */
  function PickAll(b: seq<byte>, reply: Reply, i: nat): (r: Picked)
    decreases |b|
  {
    if !HasFrame(b) then Picked([], b, false)
    else
      var f := FirstFrame(b);
      var rep := reply(i, f);
      if Refuses(rep) then Picked([], b, true)
      else
        var r := PickAll(b[FrameEnd(b)..], reply, i + 1);
        Picked([Handled(f, rep)] + r.handled, r.rest, r.stalled)
  }

  /** A batch loses and reorders nothing: the consumed frames followed by the rest are the buffered bytes. */
  lemma {:induction false} PickAllConserves(b: seq<byte>, reply: Reply, i: nat)
    ensures var r := PickAll(b, reply, i); HandledBytes(r.handled) + r.rest == b
    decreases |b|
  {
    if HasFrame(b) && !Refuses(reply(i, FirstFrame(b))) {
      var f := FirstFrame(b);
      var e := FrameEnd(b);
      PickAllConserves(b[e..], reply, i + 1);
      var r := PickAll(b[e..], reply, i + 1);
      HandledBytesCons(Handled(f, reply(i, f)), r.handled);
      JoinAt(b, e, HandledBytes(r.handled), r.rest);
    }
  }

  lemma HandledBytesCons(h: Handled, hs: seq<Handled>)
    ensures HandledBytes([h] + hs) == FrameBytes(h.frame.head, h.frame.payload) + HandledBytes(hs)
  {
    assert ([h] + hs)[1..] == hs;
  }

  /** Bytes split at e are the part before e, then whatever makes up the part after. */
  lemma JoinAt(b: seq<byte>, e: nat, x: seq<byte>, y: seq<byte>)
    requires e <= |b| && x + y == b[e..]
    ensures b[..e] + x + y == b
  {
    assert b == b[..e] + b[e..];
  }

  lemma PickAllShrinks(b: seq<byte>, reply: Reply, i: nat)
    ensures |PickAll(b, reply, i).rest| <= |b|
  {
    PickAllConserves(b, reply, i);
  }

  /**
   * A batch stops only at an incomplete frame or at a refused copy of the
   * frame now at the front, and each frame it consumed was dropped by unwrap
   * or stored by the logic.
   */
  lemma PickAllStops(b: seq<byte>, reply: Reply, i: nat)
    ensures var r := PickAll(b, reply, i);
      && (r.stalled ==> HasFrame(r.rest) && Refuses(reply(i + |r.handled|, FirstFrame(r.rest))))
      && (!r.stalled ==> !HasFrame(r.rest))
      && (forall k :: 0 <= k < |r.handled| ==> !Refuses(r.handled[k].reply))
  {
    PickAllStalls(b, reply, i);
    PickAllConsumesAccepted(b, reply, i);
    assert StallsProperly(b, reply, i) && NoneRefused(PickAll(b, reply, i).handled);
  }

  /** A batch is stalled exactly when a complete frame is left at the front, and then its copy was refused. */
  lemma {:induction false} PickAllStalls(b: seq<byte>, reply: Reply, i: nat)
    ensures StallsProperly(b, reply, i)
    decreases |b|
  {
    if HasFrame(b) && !Refuses(reply(i, FirstFrame(b))) {
      PickAllStalls(b[FrameEnd(b)..], reply, i + 1);
      StallsAfterOneMore(b, reply, i);
    }
  }

  /** The batch from b at frame i is stalled exactly at a complete, refused frame. */
  predicate StallsProperly(b: seq<byte>, reply: Reply, i: nat)
  {
    var r := PickAll(b, reply, i);
    && (r.stalled ==> HasFrame(r.rest) && Refuses(reply(i + |r.handled|, FirstFrame(r.rest))))
    && (!r.stalled ==> !HasFrame(r.rest))
  }

  /** The stalling property carries over from the batch after the front frame to the whole batch. */
  lemma StallsAfterOneMore(b: seq<byte>, reply: Reply, i: nat)
    requires HasFrame(b) && !Refuses(reply(i, FirstFrame(b)))
    requires StallsProperly(b[FrameEnd(b)..], reply, i + 1)
    ensures StallsProperly(b, reply, i)
  {
    var f := FirstFrame(b);
    var r := PickAll(b[FrameEnd(b)..], reply, i + 1);
    var hs := [Handled(f, reply(i, f))] + r.handled;
    assert PickAll(b, reply, i) == Picked(hs, r.rest, r.stalled);
    assert i + |hs| == i + 1 + |r.handled|;
  }

  /** No frame among hs had its copy refused. */
  predicate NoneRefused(hs: seq<Handled>)
  {
    forall k :: 0 <= k < |hs| ==> !Refuses(hs[k].reply)
  }

  /** Every frame a batch consumed was dropped by unwrap or stored by the logic, never refused. */
  lemma {:induction false} PickAllConsumesAccepted(b: seq<byte>, reply: Reply, i: nat)
    ensures NoneRefused(PickAll(b, reply, i).handled)
    decreases |b|
  {
    if HasFrame(b) && !Refuses(reply(i, FirstFrame(b))) {
      var f := FirstFrame(b);
      var e := FrameEnd(b);
      PickAllConsumesAccepted(b[e..], reply, i + 1);
      var r := PickAll(b[e..], reply, i + 1);
      var hs := [Handled(f, reply(i, f))] + r.handled;
      forall k | 0 <= k < |hs|
        ensures !Refuses(hs[k].reply)
      {
        if k > 0 {
          assert hs[k] == r.handled[k - 1];
        }
      }
      assert NoneRefused(hs);
    }
  }

  /** The frames hs consumed before a batch that went on to pick p. */
  function Joined(hs: seq<Handled>, p: Picked): Picked
  {
    Picked(hs + p.handled, p.rest, p.stalled)
  }

  lemma JoinedStep(hs: seq<Handled>, step: seq<Handled>, p: Picked)
    ensures Joined(hs, Joined(step, p)) == Joined(hs + step, p)
  {
    assert hs + (step + p.handled) == (hs + step) + p.handled;
  }

  /** The bytes a socket delivers after b share b's header, so a frame announced in b keeps its length. */
  lemma HeadKept(b: seq<byte>, data: seq<byte>)
    requires |b| >= PROTO_HEAD_SIZE
    ensures ParseHead(b + data) == ParseHead(b)
  {
    var h := ParseHead(b);
    assert b + data == HeadBytes(h) + (b[PROTO_HEAD_SIZE..] + data);
    ParseHeadBytes(h, b[PROTO_HEAD_SIZE..] + data);
  }

  /**
   * The receive buffer is a once_buffer of ONCE_BUFFER_SIZE bytes, and the
   * read asks only for the room left. A header announcing more than
   * ONCE_BUFFER_SIZE - 11 payload bytes therefore never completes: whatever
   * further bytes arrive, a batch consumes nothing and the frame stays first.
   */
  lemma OversizedFrameNeverCompletesAsWritten(b: seq<byte>, data: seq<byte>, reply: Reply, i: nat)
    requires |b| >= PROTO_HEAD_SIZE && |b| + |data| <= ONCE_BUFFER_SIZE
    requires ParseHead(b).len > ONCE_BUFFER_SIZE - PROTO_HEAD_SIZE
    ensures PickAll(b + data, reply, i) == Picked([], b + data, false)
  {
    HeadKept(b, data);
  }

  /** A receive buffer with room for the largest frame a 16-bit length can announce. */
  const RECV_CAPACITY_INTENDED: nat := PROTO_HEAD_SIZE + 0xFFFF

  /**
   * With RECV_CAPACITY_INTENDED bytes of room every frame fits, and once its
   * bytes have arrived the batch hands exactly that frame to the logic.
   */
  lemma EveryFrameCompletesIntended(h: ProtocolHead, payload: seq<byte>, reply: Reply, i: nat)
    requires |payload| == h.len
    ensures |FrameBytes(h, payload)| <= RECV_CAPACITY_INTENDED
    ensures var r := PickAll(FrameBytes(h, payload), reply, i);
      if Refuses(reply(i, Frame(h, payload))) then r == Picked([], FrameBytes(h, payload), true)
      else r == Picked([Handled(Frame(h, payload), reply(i, Frame(h, payload)))], [], false)
  {
    var b := FrameBytes(h, payload);
    ParseHeadBytes(h, payload);
    assert HasFrame(b) && FrameEnd(b) == |b|;
    assert FirstFrame(b) == Frame(h, payload);
    assert b[FrameEnd(b)..] == [];
  }

  // -------------------------------------------------------------------
  // The session's fields, as one value, and what each operation does to them.

  /**
   * The fields of a basic_async_session. `logic` names the attached logic.
   * `held` says whether _recv_not_entire points to a buffer, and `pending`
   * is that buffer's content. `outbox` lists the writes put on the socket.
   */
  datatype SessionView = SessionView(
    state: StateSocket, sockOpen: bool, logic: Option<nat>,
    held: bool, pending: seq<byte>, retry: RetryWaits, tick: Timer,
    tickInterval: nat, frameCount: u64, keepAliveTimeout: int,
    lastRecv: int, lastSend: int, outbox: seq<Write>, uuid: u32)

  /**
   * Facts every reachable session keeps:
   * - a released buffer holds nothing;
   * - the buffer never holds more than its size;
   * - a running tick has an interval that divides the precision without
   *   dividing by zero;
   * - a hard close leaves the socket closed.
   */
  predicate Coherent(s: SessionView)
  {
    && (!s.held ==> s.pending == [])
    && |s.pending| <= ONCE_BUFFER_SIZE
    && (s.tick != Idle ==> 0 < s.tickInterval <= KEEP_ALIVE_PRECISION)
    && (s.state == CloseDone ==> !s.sockOpen)
  }

  function CancelTimer(t: Timer): Timer
  {
    if t == Armed then Cancelled else t
  }

  /**
   * close(elegantly):
   * - nothing happens in CLOSE_DONE;
   * - otherwise both timers are cancelled;
   * - with an open socket, a graceful close shuts down sending and moves to
   *   TO_CLOSE, and a hard close closes the socket and moves to CLOSE_DONE.
   */
  function AfterClose(s: SessionView, elegantly: bool): (r: SessionView)
    ensures s.state == CloseDone ==> r == s
    ensures r.state == CloseDone <==> s.state == CloseDone || (s.sockOpen && !elegantly)
    ensures s.state != CloseDone ==> !r.retry.live && r.retry.aborted >= s.retry.aborted && r.tick != Armed
    ensures r.state != s.state ==> s.sockOpen && r.state == (if elegantly then ToClose else CloseDone)
    ensures r.pending == s.pending && r.held == s.held && r.outbox == s.outbox
    ensures Coherent(s) ==> Coherent(r)
  {
    if s.state == CloseDone then s
    else
      var c := s.(retry := CancelWaits(s.retry), tick := CancelTimer(s.tick));
      if !s.sockOpen then c
      else if elegantly then c.(state := ToClose)
      else c.(state := CloseDone, sockOpen := false)
  }

  /** async_recv_loop: only in CONNECTING, takes a buffer when none is held and reads into it. */
  function AfterRecvLoop(s: SessionView): (r: SessionView)
    ensures r.held <==> s.held || s.state == Connecting
    ensures Coherent(s) ==> Coherent(r)
  {
    if s.state != Connecting then s else s.(held := true)
  }

  /** async_connect: only with a logic attached and only from INIT; asio opens the socket. */
  function AfterConnect(s: SessionView): (r: SessionView)
    ensures r.state == WaitConnect <==> s.state == WaitConnect || (s.state == Init && s.logic.Some?)
    ensures Coherent(s) ==> Coherent(r)
  {
    if s.logic.None? || s.state != Init then s
    else s.(state := WaitConnect, sockOpen := true)
  }

  /** The connect completion: an error closes hard; success enters CONNECTING and starts reading. */
  function AfterConnectCompleted(s: SessionView, error: bool): (r: SessionView)
    ensures error ==> r == AfterClose(s, false)
    ensures !error ==> r.state == Connecting && r.held
    ensures Coherent(s) && (!s.sockOpen ==> error) ==> Coherent(r)
  {
    if error then AfterClose(s, false)
    else AfterRecvLoop(s.(state := Connecting))
  }

  /** passively_connect_succ: an accepted socket enters CONNECTING and starts reading. */
  function AfterPassiveConnect(s: SessionView): (r: SessionView)
    ensures r.state == Connecting && r.sockOpen && r.held
    ensures Coherent(s) ==> Coherent(r)
  {
    AfterRecvLoop(s.(state := Connecting, sockOpen := true))
  }

  /** async_send: only in CONNECTING, records the send time and writes the wrapped buffer. */
  function AfterSend(s: SessionView, payload: seq<byte>, now: int): (r: SessionView)
    ensures s.state == Connecting ==> r.outbox == s.outbox + [Wrapped(payload)] && r.lastSend == now
    ensures s.state != Connecting ==> r == s
    ensures Coherent(s) ==> Coherent(r)
  {
    if s.state != Connecting then s
    else s.(lastSend := now, outbox := s.outbox + [Wrapped(payload)])
  }

  /** async_send_multi: like async_send, but writes the head bytes and then the message bytes, unwrapped. */
  function AfterSendMulti(s: SessionView, head: Option<seq<byte>>, msg: Option<seq<byte>>, now: int): (r: SessionView)
    requires head.Some? || msg.Some?
    ensures s.state == Connecting ==> r.outbox == s.outbox + [Raw(Bytes(head) + Bytes(msg))] && r.lastSend == now
    ensures s.state != Connecting ==> r == s
    ensures Coherent(s) ==> Coherent(r)
  {
    if s.state != Connecting then s
    else s.(lastSend := now, outbox := s.outbox + [Raw(Bytes(head) + Bytes(msg))])
  }

  /** A write completion: an error closes hard. */
  function AfterSendCompleted(s: SessionView, error: bool): (r: SessionView)
    ensures !error ==> r == s
    ensures error ==> r == AfterClose(s, false)
    ensures Coherent(s) ==> Coherent(r)
  {
    if error then AfterClose(s, false) else s
  }

  /**
   * pick_entire_msgs:
   * - the batch consumes what PickAll consumes;
   * - a buffer emptied by consuming a frame is released;
   * - a refused copy re-arms the retry timer, aborting a wait still live;
   * - then async_recv_loop runs.
   */
  function AfterPick(s: SessionView, reply: Reply): (r: SessionView)
    ensures r.pending == PickAll(s.pending, reply, 0).rest
    ensures r.retry == if PickAll(s.pending, reply, 0).stalled then Rearm(s.retry) else s.retry
    ensures r.state == s.state && r.sockOpen == s.sockOpen && r.outbox == s.outbox
    ensures Coherent(s) ==> Coherent(r)
  {
    var p := PickAll(s.pending, reply, 0);
    PickAllShrinks(s.pending, reply, 0);
    AfterRecvLoop(s.(pending := p.rest, held := s.held && (p.handled == [] || p.rest != []),
                     retry := if p.stalled then Rearm(s.retry) else s.retry))
  }

  /**
   * The read completion:
   * - records the receive time;
   * - closes hard on an error, yet still appends the bytes and picks frames;
   * - then picks frames.
   */
  function AfterRecv(s: SessionView, error: bool, data: seq<byte>, now: int, reply: Reply): (r: SessionView)
    requires |s.pending| + |data| <= ONCE_BUFFER_SIZE
    ensures r.lastRecv == now
    ensures r.pending == PickAll(s.pending + data, reply, 0).rest
    ensures !error ==> r == AfterPick(s.(lastRecv := now, pending := s.pending + data), reply)
    ensures error && s.state != CloseDone && s.sockOpen ==> r.state == CloseDone
    ensures Coherent(s) && s.held ==> Coherent(r)
  {
    var s1 := s.(lastRecv := now);
    var s2 := if error then AfterClose(s1, false) else s1;
    AfterPick(s2.(pending := s2.pending + data), reply)
  }

  /**
   * The next retry completion: an aborted wait's handler closes hard; the
   * live wait's handler picks frames again.
   */
  function AfterRetryTimer(s: SessionView, reply: Reply): (r: SessionView)
    requires Pending(s.retry)
    ensures s.retry.aborted > 0 ==> r == AfterClose(s.(retry := s.retry.(aborted := s.retry.aborted - 1)), false)
    ensures s.retry.aborted == 0 ==> r == AfterPick(s.(retry := NoWaits), reply)
    ensures Coherent(s) ==> Coherent(r)
  {
    if s.retry.aborted > 0 then AfterClose(s.(retry := s.retry.(aborted := s.retry.aborted - 1)), false)
    else AfterPick(s.(retry := NoWaits), reply)
  }

  /**
   * A session that was kicked while a refused frame waited for its retry
   * ends hard-closed: the cancelled retry completes with an error, and its
   * handler calls close(false).
   */
  lemma KickWithPendingRetryClosesHard(s: SessionView, reply: Reply)
    requires s.state == Connecting && s.sockOpen && s.retry.live
    ensures AfterClose(s, true).state == ToClose
    ensures AfterRetryTimer(AfterClose(s, true), reply).state == CloseDone
  {
  }

  /**
   * Bytes that arrive while a refused frame waits for its retry, and that
   * leave the batch stalled again, re-arm the timer over the live wait. The
   * aborted wait's handler runs first and closes the session hard.
   */
  lemma RecvDuringRetryClosesHard(s: SessionView, data: seq<byte>, now: int, reply: Reply)
    requires s.state == Connecting && s.sockOpen && s.retry.live
    requires |s.pending| + |data| <= ONCE_BUFFER_SIZE
    requires PickAll(s.pending + data, reply, 0).stalled
    ensures AfterRecv(s, false, data, now, reply).retry == RetryWaits(true, s.retry.aborted + 1)
    ensures AfterRetryTimer(AfterRecv(s, false, data, now, reply), reply).state == CloseDone
  {
    StallDuringRetryClosesHard(s.(lastRecv := now, pending := s.pending + data), reply);
  }

  /** The batch-level step of RecvDuringRetryClosesHard: a stall over a live wait aborts it. */
  lemma StallDuringRetryClosesHard(s: SessionView, reply: Reply)
    requires s.state == Connecting && s.sockOpen && s.retry.live
    requires PickAll(s.pending, reply, 0).stalled
    ensures AfterPick(s, reply).retry == RetryWaits(true, s.retry.aborted + 1)
    ensures AfterRetryTimer(AfterPick(s, reply), reply).state == CloseDone
  {
  }

  /**
   * An aborted wait is never lost: a batch that stalls after a kick keeps it
   * queued beside the new live wait, and the next completion closes hard.
   */
  lemma StallAfterKickStillClosesHard(s: SessionView, reply: Reply)
    requires s.state == Connecting && s.sockOpen && s.retry.live
    ensures var k := AfterPick(AfterClose(s, true), reply);
      && k.retry.aborted >= 1
      && AfterRetryTimer(k, reply).state == CloseDone
  {
  }

  /** A second close with the same flag changes nothing, and a hard close after a kick finishes it. */
  lemma CloseIdempotent(s: SessionView, elegantly: bool)
    ensures AfterClose(AfterClose(s, elegantly), elegantly) == AfterClose(s, elegantly)
    ensures s.sockOpen && s.state != CloseDone ==> AfterClose(AfterClose(s, true), false).state == CloseDone
  {
  }

  /**
   * CLOSE_DONE is final for every event but passively_connect_succ. That
   * one is only called on a session the acceptor has just created. A connect
   * completion after the socket closed carries an error.
   */
  lemma ClosedIsFinal(s: SessionView, elegantly: bool, payload: seq<byte>, error: bool, data: seq<byte>,
                      now: int, reply: Reply)
    requires Coherent(s) && s.state == CloseDone
    requires |s.pending| + |data| <= ONCE_BUFFER_SIZE
    ensures AfterClose(s, elegantly) == s
    ensures AfterConnect(s) == s
    ensures AfterConnectCompleted(s, true) == s
    ensures AfterSend(s, payload, now) == s
    ensures AfterSendCompleted(s, error) == s
    ensures AfterTickAlive(s, now) == s
    ensures AfterRecv(s, error, data, now, reply).state == CloseDone
    ensures Pending(s.retry) ==> AfterRetryTimer(s, reply).state == CloseDone
  {
  }

  // -------------------------------------------------------------------
  // Keep-alive.

  /**
   * is_tick_frame_effective: the counter goes up by one as a 64-bit word and
   * is reduced modulo precision / tick. The tick is effective when it comes
   * back to zero.
   */
  function TickStep(count: u64, tick: nat, precision: nat): (r: u64)
    requires 0 < tick <= precision
    ensures r < precision / tick
  {
    assert precision / tick >= 1;
    ((count + 1) % 0x1_0000_0000_0000_0000) % (precision / tick)
  }

  /** The counter after k ticks. */
  function TickAfter(count: u64, tick: nat, precision: nat, k: nat): (r: u64)
    requires 0 < tick <= precision
  {
    if k == 0 then count else TickStep(TickAfter(count, tick, precision, k - 1), tick, precision)
  }

  /**
   * Once the counter is below n == precision / tick (after any first call,
   * whatever the never-initialised counter held), the k-th later call leaves
   * (count + k) mod n. So exactly one call in every n is effective.
   */
  lemma TickCycles(count: u64, tick: nat, precision: nat, k: nat)
    requires 0 < tick <= precision && precision <= KEEP_ALIVE_PRECISION
    requires count < precision / tick
    ensures TickAfter(count, tick, precision, k) == (count + k) % (precision / tick)
  {
    DivAtMost(precision, tick);
    TickCyclesModulo(count, tick, precision, k, precision / tick);
  }

  /** TickCycles with the cycle length n = precision / tick named. */
  lemma {:induction false} TickCyclesModulo(count: u64, tick: nat, precision: nat, k: nat, n: nat)
    requires 0 < tick <= precision && precision <= KEEP_ALIVE_PRECISION
    requires n == precision / tick && 1 <= n && count < n
    ensures TickAfter(count, tick, precision, k) == (count + k) % n
  {
    if k > 0 {
      TickCyclesModulo(count, tick, precision, k - 1, n);
      TickAfterStep(count, tick, precision, k, n);
    }
  }

  /** One more tick from (count + k - 1) mod n gives (count + k) mod n. */
  lemma TickAfterStep(count: u64, tick: nat, precision: nat, k: nat, n: nat)
    requires 0 < tick <= precision && precision <= KEEP_ALIVE_PRECISION
    requires n == precision / tick && 1 <= n && 0 < k
    requires TickAfter(count, tick, precision, k - 1) == (count + k - 1) % n
    ensures TickAfter(count, tick, precision, k) == (count + k) % n
  {
    var c := TickAfter(count, tick, precision, k - 1);
    TickStepNoWrap(c, tick, precision, n);
    ParallelRing.ModAddMod(count + k - 1, 1, n);
  }

  /** A counter below precision / tick does not reach the 64-bit wrap-around. */
  lemma TickStepNoWrap(c: u64, tick: nat, precision: nat, n: nat)
    requires 0 < tick <= precision && precision <= KEEP_ALIVE_PRECISION
    requires n == precision / tick && c < n
    ensures TickStep(c, tick, precision) == (c + 1) % n
  {
    DivAtMost(precision, tick);
    assert c + 1 < 0x1_0000_0000_0000_0000;
    ParallelRing.ModUnique(c + 1, 0x1_0000_0000_0000_0000, 0, c + 1);
  }

  lemma DivAtMost(a: nat, d: nat)
    requires 0 < d <= a
    ensures 1 <= a / d <= a
  {
    var q := a / d;
    assert a == d * q + a % d;
    assert q >= 1;
    ParallelRing.MulAtLeast(q, d);
    assert q * d == d * q;
  }

  /**
   * tick_alive:
   * - nothing happens outside CONNECTING;
   * - a receive silence longer than the timeout kicks the peer;
   * - otherwise a send silence longer than the timeout less
   *   NET_PREDICTION_DELAY_MS_MAX sends an empty frame.
   */
  function AfterTickAlive(s: SessionView, now: int): (r: SessionView)
    ensures s.state != Connecting ==> r == s
    ensures Coherent(s) ==> Coherent(r)
  {
    if s.state != Connecting then s
    else if now - s.lastRecv > s.keepAliveTimeout then AfterClose(s, true)
    else if now - s.lastSend > s.keepAliveTimeout - NET_PREDICTION_DELAY_MS_MAX then AfterSend(s, [], now)
    else s
  }

  /**
   * The keep-alive decision, case by case:
   * - a silent peer on an open socket is kicked, and nothing is sent to it;
   * - a peer heard from in time gets an empty frame exactly when this side
   *   has been quiet too long;
   * - after that heartbeat, a second tick at the same instant sends nothing
   *   more, provided the timeout is at least NET_PREDICTION_DELAY_MS_MAX.
   */
  lemma KeepAliveDecision(s: SessionView, now: int)
    requires s.state == Connecting
    ensures now - s.lastRecv > s.keepAliveTimeout ==>
      AfterTickAlive(s, now).outbox == s.outbox &&
      (s.sockOpen ==> AfterTickAlive(s, now).state == ToClose)
    ensures now - s.lastRecv <= s.keepAliveTimeout ==>
      (AfterTickAlive(s, now).outbox == s.outbox + [Wrapped([])] <==> now - s.lastSend > s.keepAliveTimeout - NET_PREDICTION_DELAY_MS_MAX)
    ensures now - s.lastRecv <= s.keepAliveTimeout && s.keepAliveTimeout >= NET_PREDICTION_DELAY_MS_MAX ==>
      AfterTickAlive(AfterTickAlive(s, now), now) == AfterTickAlive(s, now)
  {
    if now - s.lastRecv <= s.keepAliveTimeout && now - s.lastSend <= s.keepAliveTimeout - NET_PREDICTION_DELAY_MS_MAX {
      assert AfterTickAlive(s, now) == s;
      assert |s.outbox + [Wrapped([])]| != |s.outbox|;
    }
  }

  /** fixed_tick: a counter step, tick_alive when the step is effective, and the tick timer re-armed. */
  function AfterFixedTick(s: SessionView, now: int): (r: SessionView)
    requires 0 < s.tickInterval <= KEEP_ALIVE_PRECISION
    ensures r.tick == Armed
    ensures r.frameCount == TickStep(s.frameCount, s.tickInterval, KEEP_ALIVE_PRECISION)
    ensures Coherent(s) ==> Coherent(r)
  {
    var c := TickStep(s.frameCount, s.tickInterval, KEEP_ALIVE_PRECISION);
    var s1 := s.(frameCount := c);
    var s2 := if c == 0 then AfterTickAlive(s1, now) else s1;
    s2.(tick := Armed)
  }

  /** start_tick: interval and timeout recorded, both idle clocks restarted, and a first fixed_tick. */
  function AfterStartTick(s: SessionView, interval: nat, timeout: int, now: int): (r: SessionView)
    requires 0 < interval <= KEEP_ALIVE_PRECISION
    ensures r.tick == Armed && r.tickInterval == interval && r.keepAliveTimeout == timeout
    ensures Coherent(s) ==> Coherent(r)
  {
    AfterFixedTick(s.(tickInterval := interval, keepAliveTimeout := timeout, lastSend := now, lastRecv := now), now)
  }

  /**
   * The tick timer's completion as written: the handler is bound without the
   * error code, so a cancelled wait runs fixed_tick too and re-arms.
   */
  function AfterTickTimer(s: SessionView, now: int): (r: SessionView)
    requires s.tick != Idle && 0 < s.tickInterval <= KEEP_ALIVE_PRECISION
    ensures r.tick == Armed
    ensures Coherent(s) ==> Coherent(r)
  {
    AfterFixedTick(s.(tick := Idle), now)
  }

  /** Closing never stops the tick: after a close, the tick timer's completion arms it again. */
  lemma TickSurvivesCloseAsWritten(s: SessionView, elegantly: bool, now: int)
    requires Coherent(s) && s.tick == Armed && s.state != CloseDone
    ensures AfterClose(s, elegantly).tick == Cancelled
    ensures AfterTickTimer(AfterClose(s, elegantly), now).tick == Armed
  {
  }

  /** The tick timer's completion with the cancellation honoured: a cancelled wait ends the tick. */
  function AfterTickTimerIntended(s: SessionView, now: int): (r: SessionView)
    requires s.tick != Idle && 0 < s.tickInterval <= KEEP_ALIVE_PRECISION
    ensures s.tick == Cancelled ==> r == s.(tick := Idle)
    ensures s.tick == Armed ==> r == AfterTickTimer(s, now)
    ensures Coherent(s) ==> Coherent(r)
  {
    if s.tick == Cancelled then s.(tick := Idle) else AfterFixedTick(s.(tick := Idle), now)
  }

  /** With the cancellation honoured, a close stops the tick for good: no timer stays pending. */
  lemma TickStopsAfterCloseIntended(s: SessionView, elegantly: bool, now: int)
    requires Coherent(s) && s.tick == Armed && s.state != CloseDone
    ensures AfterTickTimerIntended(AfterClose(s, elegantly), now).tick == Idle
    ensures AfterTickTimerIntended(AfterClose(s, elegantly), now).state == AfterClose(s, elegantly).state
  {
  }

  // -------------------------------------------------------------------
  // The session object.

  class BasicAsyncSession {
    var state: StateSocket
    var sockOpen: bool
    var logic: Option<nat>
    var held: bool
    var pending: seq<byte>
    var retry: RetryWaits
    var tick: Timer
    var tickInterval: nat
    var frameCount: u64
    var keepAliveTimeout: int
    var lastRecv: int
    var lastSend: int
    var outbox: seq<Write>
    var uuid: u32

    ghost function View(): SessionView
      reads this
    {
      SessionView(state, sockOpen, logic, held, pending, retry, tick, tickInterval, frameCount,
                  keepAliveTimeout, lastRecv, lastSend, outbox, uuid)
    }

    ghost predicate Valid()
      reads this
    {
      Coherent(View())
    }

    /**
     * The constructor: INIT, no logic, both idle clocks at `now`, and the
     * uuid from generate_uuid (clock() cast to 32 bits). The frame counter
     * is never initialised; `count` is whatever it holds.
     */
    constructor (clock: int, now: int, count: u64)
      ensures Valid()
      ensures View() == SessionView(Init, false, None, false, [], NoWaits, Idle, 0, count, 0, now, now, [],
                                    clock % 0x1_0000_0000)
    {
      state := Init;
      sockOpen := false;
      logic := None;
      held := false;
      pending := [];
      retry := NoWaits;
      tick := Idle;
      tickInterval := 0;
      frameCount := count;
      keepAliveTimeout := 0;
      lastRecv := now;
      lastSend := now;
      outbox := [];
      uuid := clock % 0x1_0000_0000;
    }

    /** is_session_closed. */
    predicate IsSessionClosed()
      reads this
    {
      state == CloseDone
    }

    /** modify_session_logic: the new logic replaces the old one; binding it back is the logic's apply_session. */
    method ModifySessionLogic(l: nat)
      requires Valid()
      modifies this`logic
      ensures Valid() && View() == old(View()).(logic := Some(l))
    {
      logic := Some(l);
    }

    method Close(elegantly: bool)
      requires Valid()
      modifies this`state, this`sockOpen, this`retry, this`tick
      ensures Valid() && View() == AfterClose(old(View()), elegantly)
      ensures IsSessionClosed() <==> old(IsSessionClosed()) || (old(sockOpen) && !elegantly)
    {
      if state == CloseDone {
        return;
      }
      retry := CancelWaits(retry);
      tick := CancelTimer(tick);
      if sockOpen {
        if elegantly {
          state := ToClose;
        } else {
          state := CloseDone;
          sockOpen := false;
        }
      }
    }

    /** kick: a graceful close. */
    method Kick()
      requires Valid()
      modifies this`state, this`sockOpen, this`retry, this`tick
      ensures Valid() && View() == AfterClose(old(View()), true)
      ensures !IsSessionClosed() <==> !old(IsSessionClosed())
    {
      Close(true);
    }

    method AsyncRecvLoop()
      requires Valid()
      modifies this`held
      ensures Valid() && View() == AfterRecvLoop(old(View()))
    {
      if state != Connecting {
        return;
      }
      if !held {
        held := true;
      }
    }

    method AsyncConnect()
      requires Valid()
      modifies this`state, this`sockOpen
      ensures Valid() && View() == AfterConnect(old(View()))
    {
      if logic.None? {
        return;
      }
      if state != Init {
        return;
      }
      state := WaitConnect;
      sockOpen := true;
    }

    /** The async_connect completion; a connect on a socket closed meanwhile completes with an error. */
    method ConnectCompleted(error: bool)
      requires Valid() && (!sockOpen ==> error)
      modifies this`state, this`sockOpen, this`retry, this`tick, this`held
      ensures Valid() && View() == AfterConnectCompleted(old(View()), error)
    {
      if error {
        Close(false);
        return;
      }
      state := Connecting;
      AsyncRecvLoop();
    }

    method PassivelyConnectSucc()
      requires Valid()
      modifies this`state, this`sockOpen, this`held
      ensures Valid() && View() == AfterPassiveConnect(old(View()))
    {
      state := Connecting;
      sockOpen := true;
      AsyncRecvLoop();
    }

    method AsyncSend(payload: seq<byte>, now: int)
      requires Valid()
      modifies this`lastSend, this`outbox
      ensures Valid() && View() == AfterSend(old(View()), payload, now)
    {
      if state != Connecting {
        return;
      }
      lastSend := now;
      outbox := outbox + [Wrapped(payload)];
    }

    /** async_send_multi; with both buffers null the source dereferences a null head. */
    method AsyncSendMulti(head: Option<seq<byte>>, msg: Option<seq<byte>>, now: int)
      requires Valid() && (head.Some? || msg.Some?)
      modifies this`lastSend, this`outbox
      ensures Valid() && View() == AfterSendMulti(old(View()), head, msg, now)
    {
      if state != Connecting {
        return;
      }
      lastSend := now;
      var bytes: seq<byte>;
      if msg.None? {
        bytes := head.value;
        assert bytes == Bytes(head) + Bytes(msg);
      } else if head.None? {
        bytes := msg.value;
        assert bytes == Bytes(head) + Bytes(msg);
      } else {
        bytes := head.value + msg.value;
      }
      outbox := outbox + [Raw(bytes)];
    }

    method SendCompleted(error: bool)
      requires Valid()
      modifies this`state, this`sockOpen, this`retry, this`tick
      ensures Valid() && View() == AfterSendCompleted(old(View()), error)
    {
      if error {
        Close(false);
      }
    }

    /**
     * pick_a_entire_msg with the logic's i-th answer. It consumes nothing
     * when no complete frame is buffered or when the copy is refused; the
     * refusal re-arms the retry timer. Otherwise it consumes header + len bytes,
     * and an emptied buffer is released.
     */
    method PickAnEntireMsg(reply: Reply, i: nat) returns (more: bool, handled: seq<Handled>)
      requires Valid()
      modifies this`pending, this`held, this`retry
      ensures Valid()
      ensures var b := old(pending);
        if !HasFrame(b) then
          !more && handled == [] && pending == b && held == old(held) && retry == old(retry)
        else if Refuses(reply(i, FirstFrame(b))) then
          !more && handled == [] && pending == b && held == old(held) && retry == Rearm(old(retry))
        else
          && more && handled == [Handled(FirstFrame(b), reply(i, FirstFrame(b)))]
          && pending == b[FrameEnd(b)..] && held == (pending != []) && retry == old(retry)
    {
      ghost var b := pending;
      more, handled := false, [];
      if held && |pending| >= PROTO_HEAD_SIZE {
        var head := ParseHead(pending);
        if |pending| - PROTO_HEAD_SIZE >= AnnouncedLen(pending) {
          var alreadyRead := PROTO_HEAD_SIZE;
          var payload := pending[alreadyRead..alreadyRead + head.len];
          alreadyRead := alreadyRead + head.len;
          var frame := Frame(head, payload);
          assert frame == FirstFrame(b);
          var rep := reply(i, frame);
          if rep.unwrapped && !rep.stored {
            retry := Rearm(retry);
          } else {
            pending := pending[alreadyRead..];
            if pending == [] {
              held := false;
            }
            more, handled := true, [Handled(frame, rep)];
          }
        }
      }
    }

    /** The while loop of pick_entire_msgs: pick frames until one call returns false. */
    method PickLoop(reply: Reply) returns (handled: seq<Handled>)
      requires Valid()
      modifies this`pending, this`held, this`retry
      ensures Valid()
      ensures var all := PickAll(old(pending), reply, 0);
        && handled == all.handled && pending == all.rest
        && retry == (if all.stalled then Rearm(old(retry)) else old(retry))
        && held == (old(held) && (handled == [] || pending != []))
    {
      ghost var all := PickAll(pending, reply, 0);
      ghost var h0, r0 := held, retry;
      ghost var armed := Rearm(r0);
      handled := [];
      var i := 0;
      var more := true;
      while more
        invariant Valid()
        invariant handled != [] ==> h0
        invariant held == (h0 && (handled == [] || pending != []))
        invariant more ==> i == |handled| && retry == r0 && all == Joined(handled, PickAll(pending, reply, i))
        invariant !more ==> handled == all.handled && pending == all.rest
        invariant !more ==> retry == if all.stalled then armed else r0
        decreases |pending| + (if more then 1 else 0)
      {
        var step;
        more, step := PickAnEntireMsg(reply, i);
        if more {
          JoinedStep(handled, step, PickAll(pending, reply, i + 1));
        }
        handled := handled + step;
        i := i + 1;
      }
    }

    /** pick_entire_msgs: the loop, then async_recv_loop. */
    method PickEntireMsgs(reply: Reply) returns (handled: seq<Handled>)
      requires Valid()
      modifies this`pending, this`held, this`retry
      ensures Valid() && View() == AfterPick(old(View()), reply)
      ensures handled == PickAll(old(pending), reply, 0).handled
    {
      handled := PickLoop(reply);
      AsyncRecvLoop();
    }

    /**
     * The async_read_some completion. The read asked for the room left in
     * the held buffer, so the bytes fit. An error closes hard and does not
     * return: the bytes are still appended and picked.
     */
    method RecvCompleted(error: bool, data: seq<byte>, now: int, reply: Reply) returns (handled: seq<Handled>)
      requires Valid() && held && |pending| + |data| <= ONCE_BUFFER_SIZE
      modifies this`lastRecv, this`state, this`sockOpen, this`retry, this`tick, this`pending, this`held
      ensures Valid() && View() == AfterRecv(old(View()), error, data, now, reply)
      ensures handled == PickAll(old(pending) + data, reply, 0).handled
    {
      lastRecv := now;
      if error {
        Close(false);
      }
      pending := pending + data;
      handled := PickEntireMsgs(reply);
    }

    /** The next retry completion: an aborted wait closes hard, the live one picks frames again. */
    method RetryTimerFired(reply: Reply) returns (handled: seq<Handled>)
      requires Valid() && Pending(retry)
      modifies this`state, this`sockOpen, this`retry, this`tick, this`pending, this`held
      ensures Valid() && View() == AfterRetryTimer(old(View()), reply)
      ensures handled == if old(retry).aborted > 0 then [] else PickAll(old(pending), reply, 0).handled
    {
      if retry.aborted > 0 {
        retry := retry.(aborted := retry.aborted - 1);
        Close(false);
        handled := [];
      } else {
        retry := NoWaits;
        handled := PickEntireMsgs(reply);
      }
    }

    /** is_tick_frame_effective on this session's counter. */
    method TickFrameEffective(interval: nat, precision: nat) returns (effective: bool)
      requires 0 < interval <= precision
      modifies this`frameCount
      ensures frameCount == TickStep(old(frameCount), interval, precision)
      ensures effective <==> frameCount == 0
    {
      assert precision / interval >= 1;
      frameCount := (frameCount + 1) % 0x1_0000_0000_0000_0000;
      frameCount := frameCount % (precision / interval);
      effective := frameCount == 0;
    }

    method TickAlive(now: int)
      requires Valid()
      modifies this`state, this`sockOpen, this`retry, this`tick, this`lastSend, this`outbox
      ensures Valid() && View() == AfterTickAlive(old(View()), now)
    {
      if state != Connecting {
        return;
      }
      if now - lastRecv > keepAliveTimeout {
        Kick();
        return;
      }
      if now - lastSend > keepAliveTimeout - NET_PREDICTION_DELAY_MS_MAX {
        AsyncSend([], now);
        return;
      }
    }

    method FixedTick(now: int)
      requires Valid() && 0 < tickInterval <= KEEP_ALIVE_PRECISION
      modifies this`frameCount, this`state, this`sockOpen, this`retry, this`tick, this`lastSend, this`outbox
      ensures Valid() && View() == AfterFixedTick(old(View()), now)
    {
      var effective := TickFrameEffective(tickInterval, KEEP_ALIVE_PRECISION);
      if effective {
        TickAlive(now);
      }
      tick := Armed;
    }

    method StartTick(interval: nat, timeout: int, now: int)
      requires Valid() && 0 < interval <= KEEP_ALIVE_PRECISION
      modifies this
      ensures Valid() && View() == AfterStartTick(old(View()), interval, timeout, now)
    {
      tickInterval := interval;
      keepAliveTimeout := timeout;
      lastSend := now;
      lastRecv := now;
      FixedTick(now);
    }

    /** The tick timer's completion, cancelled or not: fixed_tick runs. */
    method TickTimerFired(now: int)
      requires Valid() && tick != Idle
      modifies this`frameCount, this`state, this`sockOpen, this`retry, this`tick, this`lastSend, this`outbox
      ensures Valid() && View() == AfterTickTimer(old(View()), now)
    {
      tick := Idle;
      FixedTick(now);
    }
  }
}
