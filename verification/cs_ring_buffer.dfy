// RingBuffer (CsNetwork/RingBuffer.cs): the C# client's port of
// parallel_core/RingBuffer.h. The port differs from the original in three
// ways:
// - its indices never wrap;
// - Count uses C#'s remainder, which is negative for a negative dividend;
// - inside the copy loops the index moves by the loop counter i on every
//   iteration (0, 1, 3, 6, ...), not by one.
// Both TryRead and TryWrite end in `return false`.
//
// An index past the array raises IndexOutOfRangeException; the model
// returns it as an outcome and keeps the effects made before it.

module CsRingBuffers {
  import opened NetUtils
  import ParallelRing

  /** What a call of TryRead or TryWrite ends in. */
  datatype Outcome = Returned(value: bool) | IndexOutOfRange

  /** C#'s `/` on int: the quotient truncated toward zero. */
  function TruncDiv(a: int, b: int): (q: int)
    requires b > 0
  {
    if a >= 0 then a / b else -((-a) / b)
  }

  /** C#'s `%` on int: what is left after the truncated quotient; it takes the sign of the dividend. */
  function CsRem(a: int, b: int): (r: int)
    requires b > 0
    ensures -b < r < b && (a >= 0 ==> r >= 0) && (a <= 0 ==> r <= 0)
  {
    if a >= 0 then a % b else -((-a) % b)
  }

  /** The remainder completes the truncated quotient: a == (a / b) * b + a % b, as C# defines it. */
  lemma CsRemTruncates(a: int, b: int)
    requires b > 0
    ensures a == TruncDiv(a, b) * b + CsRem(a, b)
  {
  }

  /** 0 + 1 + ... + i: how far the copy loops have moved an index after iteration i. */
  function Tri(i: nat): (t: nat)
  {
    if i == 0 then 0 else Tri(i - 1) + i
  }

  /** The closed form i(i+1)/2 of the distance moved after iteration i. */
  lemma {:induction false} TriClosedForm(i: nat)
    ensures 2 * Tri(i) == i * (i + 1)
  {
    if i > 0 {
      TriClosedForm(i - 1);
    }
  }

  /** The loops never visit a position twice: the triangular steps keep growing. */
  lemma {:induction false} TriIncreasing(j: nat, k: nat)
    requires j < k
    ensures Tri(j) < Tri(k)
    decreases k
  {
    if j < k - 1 {
      TriIncreasing(j, k - 1);
    }
  }

  /** The array position iteration i touches, from base: base + i when peeking, base + Tri(i) when the index moves. */
  function Pos(base: int, i: nat, peek: bool): (p: int)
  {
    if peek then base + i else base + Tri(i)
  }

  /**
   * The iteration, from i on, at which a copy loop over `size` items
   * throws: the first whose position is outside the ring's array of `cap`
   * or whose counter is outside the other array of `len`. It is the
   * iteration count when no iteration throws.
   */
  function FirstFault(base: int, peek: bool, size: int, cap: int, len: int, i: nat): (k: nat)
    ensures i <= k && (k > i ==> k <= size && k <= len)
    ensures k < size ==> !(0 <= Pos(base, k, peek) < cap && k < len)
    decreases size - i
  {
    if i >= size then i
    else if !(0 <= Pos(base, i, peek) < cap && i < len) then i
    else FirstFault(base, peek, size, cap, len, i + 1)
  }

  /** FirstFault from m is i when every iteration from m up to i stays in range and i is the last or throws. */
  lemma {:induction false} FirstFaultIs(base: int, peek: bool, size: int, cap: int, len: int, m: nat, i: nat)
    requires m <= i
    requires m == i || (i <= size && i <= len)
    requires forall j :: m <= j < i ==> 0 <= Pos(base, j, peek) < cap
    requires i >= size || !(0 <= Pos(base, i, peek) < cap && i < len)
    ensures FirstFault(base, peek, size, cap, len, m) == i
    decreases i - m
  {
    if m < i {
      FirstFaultIs(base, peek, size, cap, len, m + 1, i);
    }
  }

  /** How far a moving index has gone when iteration i of a copy loop begins. */
  function Before(i: nat, peek: bool): nat
  {
    if peek || i == 0 then 0 else Tri(i - 1)
  }

  /** How far a moving index has gone when the loop over size items stops at iteration k. */
  function Moved(k: nat, size: int): (d: nat)
  {
    if k < size then Tri(k) else if k > 0 then Tri(k - 1) else 0
  }

  /** Whether p is one of the positions the first k iterations of TryWrite store to. */
  predicate Hit(base: int, k: nat, p: int)
  {
    k > 0 && (p == Pos(base, k - 1, false) || Hit(base, k - 1, p))
  }

  class CsRingBuffer {
    const capacity: int
    const buffer: array<byte>
    var readIndex: int
    var writeIndex: int

    predicate Valid()
    {
      capacity > 0 && buffer.Length == capacity
    }

    /** RingBuffer(capacity): a zeroed array and both indices at 0. A capacity of 0 would make every Count divide by zero. */
    constructor (capacity: int)
      requires capacity > 0
      ensures Valid() && this.capacity == capacity && fresh(buffer)
      ensures buffer[..] == seq(capacity, _ => 0) && readIndex == 0 && writeIndex == 0
    {
      this.capacity := capacity;
      buffer := new byte[capacity](_ => 0);
      readIndex := 0;
      writeIndex := 0;
    }

    /** Count: the distance from the read index to the write index, taken with C#'s remainder. */
    function Count(): (c: int)
      requires Valid()
      reads this`readIndex, this`writeIndex
      ensures -capacity < c < capacity
    {
      CsRem(writeIndex - readIndex, capacity)
    }

    /**
     * What Count means: the number of unread bytes while the write index is
     * ahead by less than the capacity; negative when the write index is
     * behind, unless they are a multiple of the capacity apart; and 0 for a
     * buffer exactly one capacity ahead.
     */
    lemma CountCases()
      requires Valid()
      ensures 0 <= writeIndex - readIndex < capacity ==> Count() == writeIndex - readIndex
      ensures Count() < 0 <==> writeIndex < readIndex && (readIndex - writeIndex) % capacity != 0
      ensures writeIndex > readIndex ==> (Count() == 0 <==> (writeIndex - readIndex) % capacity == 0)
      ensures writeIndex - readIndex == capacity ==> Count() == 0
    {
    }

    /** Full(add): no room for `add` more bytes beside Count; never full when nothing is to be added. */
    function Full(add: int): (r: bool)
      requires Valid()
      reads this`readIndex, this`writeIndex
      ensures add <= 0 ==> !r
      ensures 0 <= writeIndex - readIndex < capacity ==> (r <==> writeIndex - readIndex + add >= capacity)
    {
      CountCases();
      Count() + add >= capacity
    }

    /** Empty: Count is not positive, so also whenever the write index is behind. */
    function Empty(): (r: bool)
      requires Valid()
      reads this`readIndex, this`writeIndex
      ensures r <==> writeIndex <= readIndex || (writeIndex - readIndex) % capacity == 0
    {
      CountCases();
      Count() <= 0
    }

    /**
     * TryRead(size, ret, withoutShift). Nothing happens when the buffer is
     * empty or when Count - size <= 0. Otherwise iteration i copies one
     * byte to ret[i]:
     * - when peeking, from readIndex + i;
     * - when shifting, first readIndex += i, then from readIndex.
     * The loop stops with IndexOutOfRange at the first position outside
     * the array, or the first i outside ret. It never returns true.
     */
    method TryRead(size: int, ret: array<byte>, withoutShift: bool) returns (out: Outcome)
      requires Valid() && ret != buffer
      modifies this`readIndex, ret
      ensures out != Returned(true)
      ensures old(Empty()) || old(Count()) - size <= 0 ==>
        out == Returned(false) && readIndex == old(readIndex) && ret[..] == old(ret[..])
      ensures !old(Empty()) && old(Count()) - size > 0 ==>
        var r0 := old(readIndex);
        var k := FirstFault(r0, withoutShift, size, capacity, ret.Length, 0);
        && out == (if k < size then IndexOutOfRange else Returned(false))
        && (forall j :: 0 <= j < k ==> 0 <= Pos(r0, j, withoutShift) < capacity && ret[j] == buffer[Pos(r0, j, withoutShift)])
        && (forall j :: k <= j < ret.Length ==> ret[j] == old(ret[j]))
        && readIndex == r0 + (if withoutShift then 0 else Moved(k, size))
    {
      if Empty() {
        return Returned(false);
      }
      if Count() - size <= 0 {
        return Returned(false);
      }
      out := CopyOut(size, ret, withoutShift);
    }

    /** The copy loop of TryRead, once both guards have passed. */
    method CopyOut(size: int, ret: array<byte>, withoutShift: bool) returns (out: Outcome)
      requires Valid() && ret != buffer
      modifies this`readIndex, ret
      ensures var r0 := old(readIndex);
        var k := FirstFault(r0, withoutShift, size, capacity, ret.Length, 0);
        && out == (if k < size then IndexOutOfRange else Returned(false))
        && (forall j :: 0 <= j < k ==> 0 <= Pos(r0, j, withoutShift) < capacity && ret[j] == buffer[Pos(r0, j, withoutShift)])
        && (forall j :: k <= j < ret.Length ==> ret[j] == old(ret[j]))
        && readIndex == r0 + (if withoutShift then 0 else Moved(k, size))
    {
      ghost var r0 := readIndex;
      var i := 0;
      out := Returned(false);
      while i < size
        invariant (i == 0 || i <= size) && i <= ret.Length
        invariant readIndex == r0 + Before(i, withoutShift)
        invariant forall j :: 0 <= j < i ==> 0 <= Pos(r0, j, withoutShift) < capacity
        invariant forall j :: 0 <= j < i ==> ret[j] == buffer[Pos(r0, j, withoutShift)]
        invariant forall j :: i <= j < ret.Length ==> ret[j] == old(ret[j])
        decreases size - i
      {
        var fault := LoadStep(r0, i, ret, withoutShift);
        if fault {
          out := IndexOutOfRange;
          break;
        }
        i := i + 1;
      }
      FirstFaultIs(r0, withoutShift, size, capacity, ret.Length, 0, i);
    }

    /**
     * One iteration of the copy loop of TryRead: the byte at readIndex + i
     * when peeking, or at readIndex after readIndex += i otherwise, goes to
     * ret[i] unless one of the two indices is out of range.
     */
    method LoadStep(ghost r0: int, i: nat, ret: array<byte>, withoutShift: bool) returns (fault: bool)
      requires Valid() && ret != buffer
      requires readIndex == r0 + Before(i, withoutShift)
      modifies this`readIndex, ret
      ensures readIndex == r0 + Before(i + 1, withoutShift)
      ensures fault <==> !(0 <= Pos(r0, i, withoutShift) < capacity && i < ret.Length)
      ensures fault ==> unchanged(ret)
      ensures !fault ==> ret[i] == buffer[Pos(r0, i, withoutShift)]
      ensures forall j :: 0 <= j < ret.Length && j != i ==> ret[j] == old(ret[j])
    {
      var p: int;
      if withoutShift {
        p := readIndex + i;
      } else {
        readIndex := readIndex + i;
        p := readIndex;
      }
      if !(0 <= p < capacity) || i >= ret.Length {
        return true;
      }
      ret[i] := buffer[p];
      fault := false;
    }

    /** TryReadShift(size): moves the read index by size, without wrapping, only when Count - size > 0. */
    method TryReadShift(size: int) returns (ok: bool)
      requires Valid()
      modifies this`readIndex
      ensures ok <==> old(Count()) > size
      ensures readIndex == old(readIndex) + (if ok then size else 0)
      ensures ok && 0 <= old(writeIndex - readIndex) < capacity && size >= 0 ==> Count() == old(Count()) - size
    {
      CountCases();
      if Count() - size <= 0 {
        return false;
      }
      readIndex := readIndex + size;
      CountCases();
      ok := true;
    }

    /**
     * TryWrite(data, length): `length` bytes, or all of data when it is 0.
     * Nothing happens when the buffer is full or when size + Count reaches
     * the capacity. Otherwise iteration i first does writeIndex += i, then
     * stores data[i] there. The loop stops with IndexOutOfRange at the
     * first position outside the array, or the first i past data. It never
     * returns true.
     */
    method TryWrite(data: seq<byte>, length: int) returns (out: Outcome)
      requires Valid()
      modifies this`writeIndex, buffer
      ensures out != Returned(true)
      ensures WrittenFrom(readIndex, old(writeIndex), old(buffer[..]), data, length, out)
    {
      if Full(0) {
        return Returned(false);
      }
      var size := |data|;
      if length != 0 {
        size := length;
      }
      if size + Count() >= capacity {
        return Returned(false);
      }
      out := CopyIn(data, size);
    }

    /**
     * What TryWrite(data, length) leaves in a ring whose indices were r0
     * and w0 and whose bytes were b0: nothing changes when size + Count
     * reaches the capacity (Full(0), its first test, never holds);
     * otherwise the first k data bytes land at the scattered positions of
     * the copy loop, where k is the iteration that throws (or the size),
     * and no other position changes.
     */
    ghost predicate WrittenFrom(r0: int, w0: int, b0: seq<byte>, data: seq<byte>, length: int, out: Outcome)
      requires Valid() && |b0| == capacity
      reads this, buffer
    {
      var size := if length != 0 then length else |data|;
      if size + CsRem(w0 - r0, capacity) >= capacity then
        out == Returned(false) && writeIndex == w0 && buffer[..] == b0
      else
        var k := FirstFault(w0, false, size, capacity, |data|, 0);
        && out == (if k < size then IndexOutOfRange else Returned(false))
        && (forall j :: 0 <= j < k ==> 0 <= Pos(w0, j, false) < capacity && buffer[Pos(w0, j, false)] == data[j])
        && (forall p :: 0 <= p < capacity && !Hit(w0, k, p) ==> buffer[p] == b0[p])
        && writeIndex == w0 + Moved(k, size)
    }

    /** The copy loop of TryWrite, once both guards have passed. */
    method CopyIn(data: seq<byte>, size: int) returns (out: Outcome)
      requires Valid()
      modifies this`writeIndex, buffer
      ensures var w0 := old(writeIndex);
        var k := FirstFault(w0, false, size, capacity, |data|, 0);
        && out == (if k < size then IndexOutOfRange else Returned(false))
        && (forall j :: 0 <= j < k ==> 0 <= Pos(w0, j, false) < capacity && buffer[Pos(w0, j, false)] == data[j])
        && (forall p :: 0 <= p < capacity && !Hit(w0, k, p) ==> buffer[p] == old(buffer[p]))
        && writeIndex == w0 + Moved(k, size)
    {
      ghost var w0 := writeIndex;
      var i := 0;
      out := Returned(false);
      while i < size
        invariant (i == 0 || i <= size) && i <= |data|
        invariant writeIndex == w0 + Before(i, false)
        invariant forall j :: 0 <= j < i ==> 0 <= Pos(w0, j, false) < capacity
        invariant forall j :: 0 <= j < i ==> buffer[Pos(w0, j, false)] == data[j]
        invariant forall p :: 0 <= p < capacity && !Hit(w0, i, p) ==> buffer[p] == old(buffer[p])
        decreases size - i
      {
        var fault := StoreStep(w0, i, data);
        if fault {
          out := IndexOutOfRange;
          break;
        }
        i := i + 1;
      }
      FirstFaultIs(w0, false, size, capacity, |data|, 0, i);
    }

    /** One iteration of the copy loop of TryWrite: writeIndex += i, then data[i] is stored there unless one of the two indices is out of range. */
    method StoreStep(ghost w0: int, i: nat, data: seq<byte>) returns (fault: bool)
      requires Valid() && writeIndex == w0 + Before(i, false)
      modifies this`writeIndex, buffer
      ensures writeIndex == Pos(w0, i, false)
      ensures fault <==> !(0 <= writeIndex < capacity && i < |data|)
      ensures fault ==> unchanged(buffer)
      ensures !fault ==> buffer[writeIndex] == data[i]
      ensures forall p :: 0 <= p < capacity && p != writeIndex ==> buffer[p] == old(buffer[p])
      ensures forall j :: 0 <= j < i ==> Pos(w0, j, false) != writeIndex
    {
      writeIndex := writeIndex + i;
      forall j | 0 <= j < i
        ensures Pos(w0, j, false) != writeIndex
      {
        TriIncreasing(j, i);
      }
      if !(0 <= writeIndex < capacity) || i >= |data| {
        return true;
      }
      buffer[writeIndex] := data[i];
      fault := false;
    }

    /** Clear: both indices back to 0, which leaves the buffer empty. */
    method Clear()
      requires Valid()
      modifies this`readIndex, this`writeIndex
      ensures readIndex == 0 && writeIndex == 0
      ensures Count() == 0 && Empty()
    {
      readIndex := 0;
      writeIndex := 0;
    }
  }

  /**
   * Three bytes written to a fresh buffer of 8 land at positions 0, 1 and
   * 3, not 0, 1 and 2. The write index ends at 3, so Count reports three
   * bytes, of which the third is the zero still at position 2. The call
   * says it failed.
   */
  method WriteScattersAsWritten() returns (ring: CsRingBuffer, out: Outcome)
    ensures ring.Valid() && out == Returned(false)
    ensures ring.writeIndex == 3 && ring.Count() == 3
    ensures ring.buffer[..4] == [1, 2, 0, 3]
  {
    ring := new CsRingBuffer(8);
    assert ring.buffer[2] == 0;
    out := ring.TryWrite([1, 2, 3], 0);
    assert Tri(1) == 1 && Tri(2) == 3;
    assert FirstFault(0, false, 3, 8, 3, 3) == 3;
    assert FirstFault(0, false, 3, 8, 3, 0) == 3;
    assert !Hit(0, 3, 2);
  }

  /**
   * The same three bytes written to the original parallel_core ring buffer
   * of 8 are stored in order, and the write reports success.
   */
  method WriteKeptIntended() returns (ring: ParallelRing.RingBuffer, ok: bool)
    ensures ring.Valid() && ok && ring.Contents() == [1, 2, 3]
  {
    ring := new ParallelRing.RingBuffer(8, seq(8, _ => 0));
    ok := ring.TryWrite([1, 2, 3], 3);
    assert [1, 2, 3][..3] == [1, 2, 3];
  }
}
