// The send queue of CsNetwork/NetworkManager.cs: Send parks a block in a
// reused list, SendAllWhenUpdateEnd batches the queue into socket sends at
// the end of a frame update, and CallCacheClear empties the list. The
// socket is not called: every _socket.Send is appended, with the bytes it
// is given, to `socketSends`. BlockPool.Alloc is taken to return a new
// zeroed array of the requested length.
module NetworkManagers {
  import opened NetUtils
  import opened Protocol
  import SocketClients

  const MAX_FRAME_SIZE: nat := SocketClients.MAX_FRAME_SIZE

  /** DataBlock: an array and the number of its bytes to send. */
  datatype Block = Block(data: array<byte>, length: int)

  /** A queued block as it stands when the queue is flushed: its bytes and its length field. */
  datatype Pending = Pending(bytes: seq<byte>, length: int)

  function Zeros(n: nat): (z: seq<byte>)
    ensures |z| == n
  {
    seq(n, _ => 0)
  }

  /**
   * The copy of one block into the batch array at `offset`: nothing for a
   * non-positive length; an exception (None) when a byte falls outside
   * either array.
   */
  function CopyBlock(buf: seq<byte>, offset: int, src: seq<byte>, len: int): (r: Option<seq<byte>>)
    ensures r.Some? ==> |r.value| == |buf|
  {
    if len <= 0 then Some(buf)
    else if offset < 0 || offset + len > |buf| || len > |src| then None
    else Some(buf[..offset] + src[..len] + buf[offset + len..])
  }

  /** The copy loop over the list entries start .. stop-1; a negative list index throws. */
  function FillFrom(q: seq<Pending>, start: int, stop: int, buf: seq<byte>, offset: int): (r: Option<seq<byte>>)
    ensures r.Some? ==> |r.value| == |buf|
    decreases stop - start
  {
    if start >= stop then Some(buf)
    else if start < 0 || start >= |q| then None
    else match CopyBlock(buf, offset, q[start].bytes, q[start].length)
      case None => None
      case Some(b) => FillFrom(q, start + 1, stop, b, offset + q[start].length)
  }

  /** The batch flushed at index i: an array of `total` bytes filled from list index i - total on. */
  function FlushAt(q: seq<Pending>, i: int, total: int): (r: Option<seq<byte>>)
    ensures r.Some? ==> |r.value| == total
  {
    if total < 0 then None else FillFrom(q, i - total, i, Zeros(total), 0)
  }

  /**
   * SendAllWhenUpdateEnd from index i with `total` bytes counted: the socket
   * sends made, and whether an exception ends the walk. A block that would
   * take the count past MAX_FRAME_SIZE, or the last block, flushes the
   * batch without being added to it.
   */
  function Run(q: seq<Pending>, i: nat, total: int): (r: (seq<seq<byte>>, bool))
    decreases |q| - i
  {
    if i >= |q| then ([], false)
    else if total + 2 + q[i].length > MAX_FRAME_SIZE || i == |q| - 1 then
      match FlushAt(q, i, total)
      case None => ([], true)
      case Some(b) =>
        var rest := Run(q, i + 1, 0);
        ([b] + rest.0, rest.1)
    else Run(q, i + 1, total + 2 + q[i].length)
  }

  /**
   * Once the count of bytes exceeds the list index, the walk throws at its
   * next flush and sends nothing more: the copy starts at a negative list
   * index.
   */
  lemma {:induction false} AccumulatedBatchThrows(q: seq<Pending>, i: nat, total: int)
    requires i < |q| && total > i
    requires forall k :: 0 <= k < |q| ==> q[k].length >= 0
    ensures Run(q, i, total) == ([], true)
    decreases |q| - i
  {
    if total + 2 + q[i].length > MAX_FRAME_SIZE || i == |q| - 1 {
      assert FlushAt(q, i, total) == None;
    } else {
      AccumulatedBatchThrows(q, i + 1, total + 2 + q[i].length);
    }
  }

  /**
   * As written, any queue of two or more blocks whose first block fits in
   * a frame sends nothing and throws: the first batch is counted in bytes
   * but copied from list index i - totalLength, which is negative.
   */
  lemma SmallQueueThrowsAsWritten(q: seq<Pending>)
    requires |q| >= 2 && 2 + q[0].length <= MAX_FRAME_SIZE
    requires forall k :: 0 <= k < |q| ==> q[k].length >= 0
    ensures Run(q, 0, 0) == ([], true)
  {
    AccumulatedBatchThrows(q, 1, 2 + q[0].length);
  }

  /** As written, a queue of one block sends one empty batch: the block itself is never copied. */
  lemma SingleBlockSendsNothingAsWritten(p: Pending)
    ensures Run([p], 0, 0) == ([[]], false)
  {
    var e: seq<byte> := [];
    assert Zeros(0) == e;
    assert FlushAt([p], 0, 0) == Some(e);
    assert Run([p], 1, 0) == ([], false);
    assert [e] + [] == [e];
  }

  /** The bytes a batch of records takes on the wire: a two-byte size before each block. */
  function Size(batch: seq<seq<byte>>): (n: nat)
    ensures n >= 2 * |batch|
  {
    if batch == [] then 0 else 2 + |batch[0]| + Size(batch[1..])
  }

  lemma {:induction false} SizeAppend(batch: seq<seq<byte>>, b: seq<byte>)
    ensures Size(batch + [b]) == Size(batch) + 2 + |b|
    decreases |batch|
  {
    if batch == [] {
      assert [] + [b] == [b];
    } else {
      assert (batch + [b])[1..] == batch[1..] + [b];
      SizeAppend(batch[1..], b);
    }
  }

  /**
   * The batching SendAllWhenUpdateEnd evidently intends: blocks join the
   * current batch while its records fit in MAX_FRAME_SIZE; a block that
   * does not fit starts the next batch; the last batch is sent as well.
   */
  function Group(blocks: seq<seq<byte>>, cur: seq<seq<byte>>): (r: seq<seq<seq<byte>>>)
    decreases |blocks|
  {
    if blocks == [] then (if cur == [] then [] else [cur])
    else if cur != [] && Size(cur) + 2 + |blocks[0]| > MAX_FRAME_SIZE then [cur] + Group(blocks[1..], [blocks[0]])
    else Group(blocks[1..], cur + [blocks[0]])
  }

  function Batches(blocks: seq<seq<byte>>): seq<seq<seq<byte>>>
  {
    Group(blocks, [])
  }

  /** All batches laid end to end. */
  function Flatten(batches: seq<seq<seq<byte>>>): (r: seq<seq<byte>>)
  {
    if batches == [] then [] else batches[0] + Flatten(batches[1..])
  }

  lemma {:induction false} GroupKeepsOrder(blocks: seq<seq<byte>>, cur: seq<seq<byte>>)
    ensures Flatten(Group(blocks, cur)) == cur + blocks
    decreases |blocks|
  {
    if blocks == [] {
      if cur != [] {
        assert Flatten([cur]) == cur + Flatten([]);
      }
    } else {
      var b := blocks[0];
      if cur != [] && Size(cur) + 2 + |b| > MAX_FRAME_SIZE {
        GroupKeepsOrder(blocks[1..], [b]);
        assert ([cur] + Group(blocks[1..], [b]))[1..] == Group(blocks[1..], [b]);
        assert [b] + blocks[1..] == blocks;
      } else {
        GroupKeepsOrder(blocks[1..], cur + [b]);
        assert (cur + [b]) + blocks[1..] == cur + blocks;
      }
    }
  }

  /** Every block is sent exactly once, in queue order. */
  lemma BatchesKeepOrder(blocks: seq<seq<byte>>)
    ensures Flatten(Batches(blocks)) == blocks
  {
    GroupKeepsOrder(blocks, []);
  }

  predicate EachFits(blocks: seq<seq<byte>>)
  {
    forall k :: 0 <= k < |blocks| ==> 2 + |blocks[k]| <= MAX_FRAME_SIZE
  }

  lemma {:induction false} GroupFits(blocks: seq<seq<byte>>, cur: seq<seq<byte>>)
    requires EachFits(blocks) && Size(cur) <= MAX_FRAME_SIZE
    ensures forall k :: 0 <= k < |Group(blocks, cur)| ==>
      Group(blocks, cur)[k] != [] && Size(Group(blocks, cur)[k]) <= MAX_FRAME_SIZE
    decreases |blocks|
  {
    if blocks != [] {
      var b := blocks[0];
      assert EachFits(blocks[1..]) by {
        forall k | 0 <= k < |blocks[1..]| ensures 2 + |blocks[1..][k]| <= MAX_FRAME_SIZE {
          assert blocks[1..][k] == blocks[k + 1];
        }
      }
      assert 2 + |b| <= MAX_FRAME_SIZE;
      if cur != [] && Size(cur) + 2 + |b| > MAX_FRAME_SIZE {
        SizeAppend([], b);
        assert [] + [b] == [b];
        GroupFits(blocks[1..], [b]);
      } else {
        SizeAppend(cur, b);
        GroupFits(blocks[1..], cur + [b]);
      }
    }
  }

  /** When every block fits in a frame on its own, every batch is non-empty and fits in a frame. */
  lemma BatchesFit(blocks: seq<seq<byte>>)
    requires EachFits(blocks)
    ensures forall k :: 0 <= k < |Batches(blocks)| ==>
      Batches(blocks)[k] != [] && Size(Batches(blocks)[k]) <= MAX_FRAME_SIZE
  {
    GroupFits(blocks, []);
  }

  lemma {:induction false} JoinSize(batch: seq<seq<byte>>)
    requires SocketClients.Fits(batch)
    ensures |SocketClients.Join(batch)| == Size(batch)
    decreases |batch|
  {
    if batch != [] {
      assert SocketClients.Fits(batch[1..]) by {
        forall k | 0 <= k < |batch[1..]| ensures |batch[1..][k]| < 0x1_0000 {
          assert batch[1..][k] == batch[k + 1];
        }
      }
      JoinSize(batch[1..]);
    }
  }

  /**
   * The intended batches survive the client's own reading: each batch,
   * sent as [size][bytes] records, is no longer than a frame and is split
   * by Recv's body loop back into exactly its blocks.
   */
  lemma BatchRoundTrip(blocks: seq<seq<byte>>, k: nat)
    requires EachFits(blocks) && k < |Batches(blocks)|
    ensures var batch := Batches(blocks)[k];
      SocketClients.Fits(batch)
      && |SocketClients.Join(batch)| <= MAX_FRAME_SIZE
      && SocketClients.Split(SocketClients.Join(batch), |SocketClients.Join(batch)|, 0) == (batch, false)
  {
    BatchesFit(blocks);
    var batch := Batches(blocks)[k];
    BatchBlocksFit(blocks, k);
    JoinSize(batch);
    SocketClients.SplitJoin(batch);
  }

  lemma BatchBlocksFit(blocks: seq<seq<byte>>, k: nat)
    requires EachFits(blocks) && k < |Batches(blocks)|
    ensures SocketClients.Fits(Batches(blocks)[k])
  {
    BatchesFit(blocks);
    var batch := Batches(blocks)[k];
    forall j | 0 <= j < |batch| ensures |batch[j]| < 0x1_0000 {
      SizeBoundsBlock(batch, j);
    }
  }

  lemma {:induction false} SizeBoundsBlock(batch: seq<seq<byte>>, j: nat)
    requires j < |batch|
    ensures 2 + |batch[j]| <= Size(batch)
    decreases |batch|
  {
    if j > 0 {
      SizeBoundsBlock(batch[1..], j - 1);
    }
  }

  class NetworkManager {
    var queue: seq<Block>
    var usedQueueIdx: nat
    var socketSends: seq<seq<byte>>

    /** The used index never passes the end of the list. */
    predicate Valid()
      reads this
    {
      usedQueueIdx <= |queue|
    }

    /** The snapshot of the queue that a flush reads. */
    function Snapshot(q: seq<Block>): (s: seq<Pending>)
      reads set b | b in q :: b.data
      ensures |s| == |q|
      ensures forall k :: 0 <= k < |q| ==> s[k] == Pending(q[k].data[..], q[k].length)
    {
      if q == [] then [] else [Pending(q[0].data[..], q[0].length)] + Snapshot(q[1..])
    }

    constructor ()
      ensures Valid() && queue == [] && usedQueueIdx == 0 && socketSends == []
    {
      queue, usedQueueIdx, socketSends := [], 0, [];
    }

    /**
     * Send(data, len): overwrite the block at the used index when the list
     * already has one there, otherwise append one; then advance the index.
     * The list never shrinks, and the blocks before the index are the
     * earlier ones plus this one.
     */
    method Send(data: array<byte>, len: int)
      modifies this`queue, this`usedQueueIdx
      ensures usedQueueIdx == old(usedQueueIdx) + 1
      ensures old(usedQueueIdx) < |old(queue)| ==> queue == old(queue)[old(usedQueueIdx) := Block(data, len)]
      ensures old(usedQueueIdx) >= |old(queue)| ==> queue == old(queue) + [Block(data, len)]
      ensures |queue| >= |old(queue)|
      ensures old(Valid()) ==> Valid() && queue[..usedQueueIdx] == old(queue)[..old(usedQueueIdx)] + [Block(data, len)]
    {
      if |queue| > usedQueueIdx {
        queue := queue[usedQueueIdx := Block(data, len)];
      } else {
        queue := queue + [Block(data, len)];
      }
      usedQueueIdx := usedQueueIdx + 1;
    }

    /**
     * SendAllWhenUpdateEnd as written: walk every block in the list,
     * including stale ones past the used index, send the batches Run
     * describes, then reset the used index. An exception leaves the index
     * as it was, after the sends made before it.
     */
    method SendAllWhenUpdateEnd() returns (thrown: bool)
      modifies this`socketSends, this`usedQueueIdx
      ensures var r := Run(old(Snapshot(queue)), 0, 0);
        socketSends == old(socketSends) + r.0 && thrown == r.1
      ensures usedQueueIdx == if thrown then old(usedQueueIdx) else 0
    {
      thrown := FlushQueue(Snapshot(queue));
      if !thrown {
        usedQueueIdx := 0;
      }
    }

    /** The walk over the list: one flush per batch boundary, stopping at the first exception. */
    method FlushQueue(ghost q: seq<Pending>) returns (thrown: bool)
      requires |queue| == |q|
      requires forall k :: 0 <= k < |queue| ==> q[k] == Pending(queue[k].data[..], queue[k].length)
      modifies this`socketSends
      ensures socketSends == old(socketSends) + Run(q, 0, 0).0 && thrown == Run(q, 0, 0).1
    {
      ghost var sent: seq<seq<byte>> := [];
      var totalLength := 0;
      var i := 0;
      thrown := false;
      while i < |queue|
        invariant 0 <= i <= |queue| && !thrown
        invariant forall k :: 0 <= k < |queue| ==> q[k] == Pending(queue[k].data[..], queue[k].length)
        invariant socketSends == old(socketSends) + sent
        invariant Run(q, 0, 0).0 == sent + Run(q, i, totalLength).0
        invariant Run(q, 0, 0).1 == Run(q, i, totalLength).1
      {
        var db := queue[i];
        if totalLength + 2 + db.length > MAX_FRAME_SIZE || i == |queue| - 1 {
          var data, fault := FillBatch(q, i, totalLength);
          if fault {
            thrown := true;
            break;
          }
          socketSends := socketSends + [data[..]];
          sent := sent + [data[..]];
          totalLength := 0;
        } else {
          totalLength := totalLength + 2 + db.length;
        }
        i := i + 1;
      }
    }

    /** One flush: allocate totalLength bytes and copy the blocks from list index i - totalLength up to i. */
    method FillBatch(ghost q: seq<Pending>, i: nat, total: int) returns (data: array<byte>, fault: bool)
      requires i < |queue| == |q|
      requires forall k :: 0 <= k < |queue| ==> q[k] == Pending(queue[k].data[..], queue[k].length)
      ensures fresh(data)
      ensures fault <==> FlushAt(q, i, total).None?
      ensures !fault ==> data[..] == FlushAt(q, i, total).value
    {
      if total < 0 {
        data := new byte[0];
        return data, true;
      }
      data := new byte[total](_ => 0);
      assert data[..] == Zeros(total);
      fault := FillLoop(q, i, total, data);
    }

    /** The copy loop of a flush, over list indices i - total up to i. */
    method FillLoop(ghost q: seq<Pending>, i: nat, total: nat, data: array<byte>) returns (fault: bool)
      requires i < |queue| == |q| && data[..] == Zeros(total)
      requires forall k :: 0 <= k < |queue| ==> q[k] == Pending(queue[k].data[..], queue[k].length)
      requires forall k :: 0 <= k < |queue| ==> queue[k].data != data
      modifies data
      ensures fault <==> FlushAt(q, i, total).None?
      ensures !fault ==> data[..] == FlushAt(q, i, total).value
    {
      var offset := 0;
      var start := i - total;
      fault := false;
      while start < i
        invariant start <= i && !fault
        invariant FlushAt(q, i, total) == FillFrom(q, start, i, data[..], offset)
        invariant forall k :: 0 <= k < |queue| ==> q[k] == Pending(queue[k].data[..], queue[k].length)
        decreases i - start
      {
        if start < 0 {
          fault := true;
          break;
        }
        var frameDb := queue[start];
        var f := CopyBlockInto(data, offset, frameDb.data, frameDb.length);
        if f {
          fault := true;
          break;
        }
        offset := offset + frameDb.length;
        start := start + 1;
      }
    }

    /** CallCacheClear: empty the list. The used index is kept, so the list is consistent again only if it was 0. */
    method CallCacheClear()
      modifies this`queue
      ensures queue == [] && usedQueueIdx == old(usedQueueIdx)
      ensures Valid() <==> usedQueueIdx == 0
    {
      queue := [];
    }
  }

  /** The inner copy loop: data[offset + j] = src[j] for j < len, throwing at the first index outside either array. */
  method CopyBlockInto(dst: array<byte>, offset: int, src: array<byte>, len: int) returns (fault: bool)
    requires dst != src
    modifies dst
    ensures fault <==> CopyBlock(old(dst[..]), offset, src[..], len).None?
    ensures !fault ==> dst[..] == CopyBlock(old(dst[..]), offset, src[..], len).value
  {
    var j := 0;
    fault := false;
    while j < len
      invariant 0 <= j && (j > 0 ==> j <= len && 0 <= offset && offset + j <= dst.Length && j <= src.Length)
      invariant forall k :: 0 <= k < dst.Length && !(offset <= k < offset + j) ==> dst[k] == old(dst[k])
      invariant forall k :: 0 <= k < j ==> dst[offset + k] == src[k]
    {
      if offset + j < 0 || offset + j >= dst.Length || j >= src.Length {
        fault := true;
        return;
      }
      dst[offset + j] := src[j];
      j := j + 1;
    }
    if len > 0 {
      assert dst[..] == old(dst[..])[..offset] + src[..len] + old(dst[..])[offset + len..];
    } else {
      assert dst[..] == old(dst[..]);
    }
  }

  /** A cache clear between two sends leaves the used index past the one-block list. */
  method ClearBetweenSends(a: array<byte>) returns (m: NetworkManager)
    ensures |m.queue| == 1 && m.usedQueueIdx == 2 && !m.Valid()
  {
    m := new NetworkManager();
    m.Send(a, a.Length);
    m.CallCacheClear();
    m.Send(a, a.Length);
  }
}
