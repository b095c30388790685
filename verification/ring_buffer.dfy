// parallel_core::RingBuffer<unsigned char> (AsioNet/AsioNet/parallel_core/RingBuffer.h)
// with ALLOW_BLOCK_COPY: a circular byte store with size_t read and write
// indices. One slot always stays free, so `count` ranges over 0..capacity-1.
// Valid() keeps both indices below the capacity and the capacity below
// 2^64 (the test client's rings hold TOTAL_CACHE_SIZE bytes). Under those
// bounds the index arithmetic of count and of the slot steps is exact, or
// off by exactly 2^64 where the source relies on the wrap, which is then
// written out. A caller's length is an unbounded integer: a length within
// one capacity of 2^64 would wrap `length + count()`, and that is not
// modelled.

module ParallelRing {
  import opened NetUtils

  const SIZE_T: nat := 0x1_0000_0000_0000_0000

  /** The slot reached i steps after base in a ring of c slots. */
  function Slot(base: nat, i: nat, c: nat): (r: nat)
    requires c > 0
    ensures r < c
  {
    (base + i) % c
  }

  lemma {:induction false} MulAtLeast(c: nat, d: nat)
    requires d >= 1
    ensures c * d >= c
  {
    if d > 1 {
      MulAtLeast(c, d - 1);
      assert c * d == c * (d - 1) + c;
    }
  }

  /** Euclidean division has one remainder: the r of any x == c * q + r with r < c. */
  lemma ModUnique(x: int, c: nat, q: int, r: int)
    requires 0 <= r < c && x == c * q + r
    ensures x % c == r
  {
    var q0, r0 := x / c, x % c;
    assert x == c * q0 + r0;
    if q > q0 {
      MulAtLeast(c, q - q0);
    } else if q < q0 {
      MulAtLeast(c, q0 - q);
    }
  }

  /** Adding whole turns does not change the slot. */
  lemma ModMultiple(x: nat, q: nat, c: nat)
    requires c > 0
    ensures (c * q + x) % c == x % c
  {
    var k, r := x / c, x % c;
    assert x == c * k + r;
    assert c * q + x == c * (q + k) + r;
    ModUnique(c * q + x, c, q + k, r);
  }

  /** Reducing a summand modulo c first does not change the sum modulo c. */
  lemma ModAddMod(a: nat, b: nat, c: nat)
    requires c > 0
    ensures (a % c + b) % c == (a + b) % c
  {
    var q := a / c;
    assert a == c * q + a % c;
    ModMultiple(a % c + b, q, c);
  }

  /** Moving i slots from the slot k after base is moving k + i slots from base. */
  lemma SlotAfterSlot(base: nat, k: nat, i: nat, c: nat)
    requires c > 0
    ensures Slot(Slot(base, k, c), i, c) == Slot(base, k + i, c)
  {
    ModAddMod(base + k, i, c);
  }

  /** Fewer than c steps apart are different slots. */
  lemma SlotInjective(base: nat, j: nat, k: nat, c: nat)
    requires j < c && k < c && Slot(base, j, c) == Slot(base, k, c)
    ensures j == k
  {
    if j != k {
      var lo, d := if j < k then j else k, if j < k then k - j else j - k;
      var x := base + lo;
      var q, r := x / c, x % c;
      assert x == c * q + r;
      if r + d < c {
        ModUnique(x + d, c, q, r + d);
      } else {
        assert x + d == c * (q + 1) + (r + d - c);
        ModUnique(x + d, c, q + 1, r + d - c);
      }
    }
  }

  /** The distance count() computes takes the read index to the write index. */
  lemma CountIsDistance(r: nat, w: nat, c: nat)
    requires r < c && w < c
    ensures (w - r + c) % c < c && Slot(r, (w - r + c) % c, c) == w
  {
    if w >= r {
      ModUnique(w - r + c, c, 1, w - r);
      ModUnique(w, c, 0, w);
    } else {
      ModUnique(w - r + c, c, 0, w - r + c);
      ModUnique(w + c, c, 1, w);
    }
  }

  class RingBuffer {
    const capacity: nat
    const buffer: array<byte>
    var readIndex: nat
    var writeIndex: nat

    ghost predicate Valid()
      reads this
    {
      buffer.Length == capacity && 0 < capacity < SIZE_T && readIndex < capacity && writeIndex < capacity
    }

    /** RingBuffer(capacity): both indices at zero over malloc'ed storage whose bytes are unspecified. */
    constructor (capacity: nat, initial: seq<byte>)
      requires 0 < capacity < SIZE_T && |initial| == capacity
      ensures Valid() && this.capacity == capacity && fresh(buffer)
      ensures readIndex == 0 && writeIndex == 0 && Contents() == []
    {
      this.capacity := capacity;
      buffer := new byte[capacity](i requires 0 <= i < capacity => initial[i]);
      readIndex := 0;
      writeIndex := 0;
    }

    /**
     * count: (write - read + capacity) % capacity. The size_t wrap of
     * write - read cancels against + capacity, because both indices are
     * below the capacity and it is below 2^64, so this is the plain
     * modulus: the number of steps from the read index to the write index.
     */
    function Count(): (n: nat)
      reads this
      requires Valid()
      ensures n < capacity
      ensures Slot(readIndex, n, capacity) == writeIndex
    {
      CountIsDistance(readIndex, writeIndex, capacity);
      (writeIndex - readIndex + capacity) % capacity
    }

    /** The only distance below capacity from the read index to the write index is count. */
    lemma CountFrom(n: nat)
      requires Valid() && n < capacity && Slot(readIndex, n, capacity) == writeIndex
      ensures Count() == n
    {
      SlotInjective(readIndex, n, Count(), capacity);
    }

    /** full(add): no room for add more bytes, one slot always staying free. */
    function Full(add: nat): (r: bool)
      reads this
      requires Valid()
      ensures r <==> capacity - Count() <= add
    {
      Count() + add >= capacity
    }

    /**
     * empty(del): count() - del <= 0 on size_t, which only holds when the
     * difference is exactly zero: true iff count equals del.
     */
    function Empty(del: nat): (r: bool)
      reads this
      requires Valid() && del < SIZE_T
      ensures r <==> Count() == del
    {
      var d: int := Count() - del;
      if d >= 0 then
        ModUnique(d, SIZE_T, 0, d);
        d % SIZE_T == 0
      else
        ModUnique(d, SIZE_T, -1, d + SIZE_T);
        d % SIZE_T == 0
    }

    /** The n bytes stored from the read index on, wrapping around the end. */
    ghost function Slice(n: nat): (s: seq<byte>)
      reads this, buffer
      requires Valid()
      ensures |s| == n
      ensures forall i | 0 <= i < n :: s[i] == buffer[Slot(readIndex, i, capacity)]
    {
      var b, r, c := buffer[..], readIndex, capacity;
      seq(n, i requires 0 <= i < n => b[Slot(r, i, c)])
    }

    /** The bytes queued for the reader, oldest first. */
    ghost function Contents(): (s: seq<byte>)
      reads this, buffer
      requires Valid()
      ensures |s| == Count()
    {
      Slice(Count())
    }

    /**
     * tryRead(length, ret, withoutShift): fails only when nothing is stored;
     * otherwise copies `length` bytes from the read index, without checking
     * that that many are stored, and moves the read index unless withoutShift.
     */
    method TryRead(length: nat, withoutShift: bool) returns (ok: bool, ret: seq<byte>)
      requires Valid()
      modifies this`readIndex
      ensures Valid() && unchanged(buffer)
      ensures ok <==> old(Count()) != 0
      ensures ok ==> ret == old(Slice(length))
      ensures readIndex == if ok && !withoutShift then Slot(old(readIndex), length, capacity) else old(readIndex)
      ensures ok && length <= old(Count()) ==> ret == old(Contents())[..length]
      ensures ok && !withoutShift && length <= old(Count()) ==> Contents() == old(Contents())[length..]
      ensures !ok || withoutShift ==> Contents() == old(Contents())
    {
      ret := [];
      if Empty(0) {
        return false, ret;
      }
      var i := 0;
      while i < length
        invariant 0 <= i <= length
        invariant ret == Slice(i)
      {
        ret := ret + [buffer[(readIndex + i) % capacity]];
        i := i + 1;
      }
      ghost var before := Contents();
      ghost var r0 := readIndex;
      if !withoutShift {
        readIndex := readIndex + length;
        readIndex := readIndex % capacity;
        if length <= |before| {
          AdvanceRead(r0, length, before);
        }
      }
      ok := true;
    }

    /** Moving the read index over the first k stored bytes leaves the rest, in order. */
    lemma AdvanceRead(r0: nat, k: nat, before: seq<byte>)
      requires Valid() && readIndex == Slot(r0, k, capacity)
      requires Slot(r0, |before|, capacity) == writeIndex && |before| < capacity && k <= |before|
      requires forall i | 0 <= i < |before| :: before[i] == buffer[Slot(r0, i, capacity)]
      ensures Contents() == before[k..]
    {
      var n := |before| - k;
      SlotAfterSlot(r0, k, n, capacity);
      CountFrom(n);
      var s := Contents();
      forall i | 0 <= i < n ensures s[i] == before[k + i] {
        SlotAfterSlot(r0, k, i, capacity);
      }
    }

    /**
     * tryWrite(data, length): refuses when the ring is full or length + count
     * would reach the capacity; otherwise appends the first `length` bytes of data.
     */
    method TryWrite(data: seq<byte>, length: nat) returns (ok: bool)
      requires Valid() && length <= |data|
      modifies this`writeIndex, buffer
      ensures Valid() && readIndex == old(readIndex)
      ensures ok <==> old(Count()) + length < capacity
      ensures ok ==> Contents() == old(Contents()) + data[..length]
      ensures !ok ==> writeIndex == old(writeIndex) && unchanged(buffer)
    {
      if Full(0) {
        return false;
      }
      if length + Count() >= capacity {
        return false;
      }
      ghost var before := Contents();
      var i := 0;
      while i < length
        modifies buffer
        invariant 0 <= i <= length
        invariant forall k | 0 <= k < i :: buffer[Slot(writeIndex, k, capacity)] == data[k]
        invariant forall j | 0 <= j < |before| :: buffer[Slot(readIndex, j, capacity)] == before[j]
      {
        WriteSlotFresh(|before|, i, length);
        ghost var prev := buffer[..];
        buffer[(writeIndex + i) % capacity] := data[i];
        assert buffer[..] == prev[Slot(writeIndex, i, capacity) := data[i]];
        i := i + 1;
      }
      ghost var w0 := writeIndex;
      ghost var added := data[..length];
      assert forall k | 0 <= k < length :: buffer[Slot(w0, k, capacity)] == added[k];
      writeIndex := writeIndex + length;
      writeIndex := writeIndex % capacity;
      AfterWrite(w0, before, added);
      ok := true;
    }

    /** Slot write + i is neither a stored byte nor a slot written earlier in the same call. */
    lemma WriteSlotFresh(count: nat, i: nat, length: nat)
      requires Valid() && count == Count() && i < length && count + length < capacity
      ensures forall j | 0 <= j < count :: Slot(readIndex, j, capacity) != Slot(writeIndex, i, capacity)
      ensures forall k | 0 <= k < i :: Slot(writeIndex, k, capacity) != Slot(writeIndex, i, capacity)
    {
      SlotAfterSlot(readIndex, count, i, capacity);
      forall j | 0 <= j < count ensures Slot(readIndex, j, capacity) != Slot(readIndex, count + i, capacity) {
        if Slot(readIndex, j, capacity) == Slot(readIndex, count + i, capacity) {
          SlotInjective(readIndex, j, count + i, capacity);
        }
      }
      forall k | 0 <= k < i ensures Slot(writeIndex, k, capacity) != Slot(writeIndex, i, capacity) {
        if Slot(writeIndex, k, capacity) == Slot(writeIndex, i, capacity) {
          SlotInjective(writeIndex, k, i, capacity);
        }
      }
    }

    /** After the copy loop and the index move, the stored bytes are the old ones then the new. */
    lemma AfterWrite(w0: nat, before: seq<byte>, added: seq<byte>)
      requires Valid() && writeIndex == Slot(w0, |added|, capacity)
      requires |before| + |added| < capacity && Slot(readIndex, |before|, capacity) == w0
      requires forall k | 0 <= k < |added| :: buffer[Slot(w0, k, capacity)] == added[k]
      requires forall j | 0 <= j < |before| :: buffer[Slot(readIndex, j, capacity)] == before[j]
      ensures Contents() == before + added
    {
      var count := |before|;
      SlotAfterSlot(readIndex, count, |added|, capacity);
      CountFrom(count + |added|);
      var s := Contents();
      forall j | 0 <= j < count + |added| ensures s[j] == (before + added)[j] {
        if j >= count {
          SlotAfterSlot(readIndex, count, j - count, capacity);
        }
      }
    }

    /**
     * tryReadShift(length): fails when empty(length), that is when exactly
     * `length` bytes are stored; otherwise moves the read index by length.
     */
    method TryReadShift(length: nat) returns (ok: bool)
      requires Valid() && length < SIZE_T
      modifies this`readIndex
      ensures Valid()
      ensures ok <==> old(Count()) != length
      ensures readIndex == if ok then Slot(old(readIndex), length, capacity) else old(readIndex)
      ensures ok && length < old(Count()) ==> Contents() == old(Contents())[length..]
    {
      if Empty(length) {
        return false;
      }
      ghost var before := Contents();
      ghost var r0 := readIndex;
      readIndex := readIndex + length;
      readIndex := readIndex % capacity;
      if length < |before| {
        AdvanceRead(r0, length, before);
      }
      ok := true;
    }

    /** tryWriteShit(length): unless full(length), moves the write index over length bytes. */
    method TryWriteShift(length: nat) returns (ok: bool)
      requires Valid()
      modifies this`writeIndex
      ensures Valid() && unchanged(buffer)
      ensures ok <==> old(Count()) + length < capacity
      ensures ok ==> Count() == old(Count()) + length && Contents()[..old(Count())] == old(Contents())
      ensures !ok ==> writeIndex == old(writeIndex)
    {
      if Full(length) {
        return false;
      }
      ghost var count := Count();
      ghost var before := Contents();
      SlotAfterSlot(readIndex, count, length, capacity);
      writeIndex := writeIndex + length;
      writeIndex := writeIndex % capacity;
      CountFrom(count + length);
      ok := true;
    }

    /** clear: both indices back to zero; nothing stays queued. */
    method Clear()
      requires Valid()
      modifies this`readIndex, this`writeIndex
      ensures Valid() && readIndex == 0 && writeIndex == 0 && Contents() == []
    {
      readIndex := 0;
      writeIndex := 0;
      CountFrom(0);
    }
  }

  /**
   * Because empty(length) means "exactly length bytes stored", tryReadShift
   * lets a reader skip more bytes than are stored: with 2 bytes stored in a
   * 16-byte ring, skipping 5 succeeds and leaves 13 phantom bytes queued.
   */
  method ReadShiftPastEndAsWritten() returns (ring: RingBuffer, ok: bool)
    ensures ring.Valid() && ok && ring.Count() == 13
  {
    ring := new RingBuffer(16, seq(16, _ => 0));
    var written := ring.TryWrite([1, 2], 2);
    assert ring.Count() == 2;
    ok := ring.TryReadShift(5);
    ring.CountFrom(13);
  }

  /**
   * The evidently intended skip: fails when fewer than length bytes are
   * stored, and otherwise drops exactly the first length stored bytes.
   */
  method TryReadShiftIntended(ring: RingBuffer, length: nat) returns (ok: bool)
    requires ring.Valid()
    modifies ring`readIndex
    ensures ring.Valid()
    ensures ok <==> length <= old(ring.Count())
    ensures ok ==> ring.Contents() == old(ring.Contents())[length..]
    ensures !ok ==> ring.readIndex == old(ring.readIndex)
  {
    if ring.Count() < length {
      return false;
    }
    ghost var before := ring.Contents();
    ghost var r0 := ring.readIndex;
    ring.readIndex := (ring.readIndex + length) % ring.capacity;
    ring.AdvanceRead(r0, length, before);
    ok := true;
  }

  /** Once the read index has moved k slots on, the next n bytes are the tail of the k + n bytes from where it was. */
  lemma SliceAfter(ring: RingBuffer, r0: nat, k: nat, n: nat, whole: seq<byte>)
    requires ring.Valid() && r0 < ring.capacity && ring.readIndex == Slot(r0, k, ring.capacity)
    requires |whole| == k + n && forall i | 0 <= i < k + n :: whole[i] == ring.buffer[Slot(r0, i, ring.capacity)]
    ensures ring.Slice(n) == whole[k..]
  {
    forall i | 0 <= i < n ensures ring.Slice(n)[i] == whole[k + i] {
      SlotAfterSlot(r0, k, i, ring.capacity);
    }
  }

  /** The ring is drained exactly when the read index has caught up with the write index. */
  lemma CountZeroIff(ring: RingBuffer)
    requires ring.Valid()
    ensures ring.Count() == 0 <==> ring.readIndex == ring.writeIndex
  {
    ModUnique(ring.readIndex, ring.capacity, 0, ring.readIndex);
    ModUnique(ring.capacity, ring.capacity, 1, 0);
  }

  /** Skipping k slots from r0 never lands on the write index when n, not k, is the stored count. */
  lemma SkipMissesWrite(r0: nat, w: nat, n: nat, k: nat, c: nat)
    requires n < c && k < c && Slot(r0, n, c) == w && k != n
    ensures Slot(r0, k, c) != w
  {
    if Slot(r0, k, c) == w {
      SlotInjective(r0, k, n, c);
    }
  }

  /** The first n bytes from the read index are the first n queued bytes, when that many are queued. */
  lemma SliceIsContents(ring: RingBuffer, n: nat)
    requires ring.Valid() && n <= ring.Count()
    ensures ring.Slice(n) == ring.Contents()[..n]
  {
    assert forall i | 0 <= i < n :: ring.Slice(n)[i] == ring.Contents()[i];
  }
}
