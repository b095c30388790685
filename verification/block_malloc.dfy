// BlockPool (CsNetwork/BlockMalloc.cs): the C# client's pool of byte
// arrays, sorted into tcmalloc-style size classes. Each class has a table
// slot giving its block size and a stack of returned blocks.
//
// The model covers:
// - the size-class arithmetic;
// - the loop that fills the table;
// - Alloc and Free on the slots of stacks, with the exceptions that
//   SpinLock.SafeAction catches and logs.
//
// In C#, `>>` on int is an arithmetic shift, which is floor division by a
// power of two; Dafny's `/` by a positive constant floors too, so
// `(size + 7) >> 3` is written `(size + 7) / 8`.

module BlockMallocs {
  import opened NetUtils
  import opened Protocol

  const K_MIN_BLOCK_SIZE: int := 8
  const K_LARGE_BLOCK_SIZE: int := 1024
  const K_MAX_BLOCK_SIZE: int := 8 * 1024

  /** (K_MAX_BLOCK_SIZE + 127 + (120 << 7)) >> 7: the length the source gives the table and the stack array. */
  const TOTAL_ARRAY_COUNT: int := (K_MAX_BLOCK_SIZE + 127 + 120 * 128) / 128

  /** sizePoolIndexMaybe: the class of a size, or None above K_MAX_BLOCK_SIZE. */
  function SizeClass(size: int): (idx: Option<int>)
    ensures idx.Some? <==> size <= K_MAX_BLOCK_SIZE
  {
    if size <= K_LARGE_BLOCK_SIZE then Some((size + 7) / 8)
    else if size <= K_MAX_BLOCK_SIZE then Some((size + 127 + 120 * 128) / 128)
    else None
  }

  /** The largest size of class c: steps of 8 up to 1024, then steps of 128 up to 8192. */
  function SlotSize(c: int): (n: int)
  {
    if c <= 128 then 8 * c else 128 * (c - 120)
  }

  lemma SlotSizeIncreasing(c: int, d: int)
    requires 0 <= c < d
    ensures SlotSize(c) < SlotSize(d)
  {
  }

  /**
   * Each size from 0 to 8192 lies in exactly one class: the c with
   * SlotSize(c - 1) < size <= SlotSize(c). The classes run from 0 to 184.
   */
  lemma SizeClassBounds(size: int)
    requires 0 <= size <= K_MAX_BLOCK_SIZE
    ensures var c := SizeClass(size).value;
      && 0 <= c <= 184
      && size <= SlotSize(c)
      && (c > 0 ==> SlotSize(c - 1) < size)
  {
  }

  /** The rows of the table in the source's comment, and the value TOTAL_ARRAY_COUNT takes. */
  lemma SizeClassTable()
    ensures SizeClass(0) == Some(0) && SizeClass(1) == Some(1)
    ensures SizeClass(1024) == Some(128) && SizeClass(1025) == Some(129)
    ensures SizeClass(8192) == Some(184) && SizeClass(8193) == None
    ensures TOTAL_ARRAY_COUNT == 184
  {
  }

  /** The class never decreases as the size grows. */
  lemma SizeClassMonotone(a: int, b: int)
    requires 0 <= a <= b <= K_MAX_BLOCK_SIZE
    ensures SizeClass(a).value <= SizeClass(b).value
  {
    SizeClassBounds(a);
    SizeClassBounds(b);
    var ca, cb := SizeClass(a).value, SizeClass(b).value;
    if ca > cb {
      if cb < ca - 1 {
        SlotSizeIncreasing(cb, ca - 1);
      }
    }
  }

  /** Exactly the sizes 8065..8192 fall in class 184, which is TOTAL_ARRAY_COUNT: one past the last slot. */
  lemma LastClassPastTable(size: int)
    requires 0 <= size
    ensures SizeClass(size) == Some(TOTAL_ARRAY_COUNT) <==> 8065 <= size <= K_MAX_BLOCK_SIZE
  {
    if size <= K_MAX_BLOCK_SIZE {
      SizeClassBounds(size);
    }
  }

  /** A block of a class's own size is of that class. */
  lemma SlotSizeInClass(c: int)
    requires 0 <= c <= 184
    ensures SizeClass(SlotSize(c)) == Some(c)
  {
  }

  /** The largest size already passed when the filling loop reaches size i: the class of i - 1. */
  function LastClass(i: int): (c: int)
    requires 0 < i <= K_MAX_BLOCK_SIZE + 1
  {
    SizeClass(i - 1).value
  }

  /** From one size to the next the class grows by at most one, and it grows right after a class's largest size. */
  lemma ClassStep(i: int)
    requires 0 < i <= K_MAX_BLOCK_SIZE
    ensures var c0, c1 := SizeClass(i - 1).value, SizeClass(i).value;
      c1 == c0 || (c1 == c0 + 1 && SlotSize(c0) == i - 1)
  {
    SizeClassBounds(i - 1);
    SizeClassBounds(i);
    SizeClassMonotone(i - 1, i);
    var c0, c1 := SizeClass(i - 1).value, SizeClass(i).value;
    if c1 > c0 + 1 {
      SlotSizeIncreasing(c0, c1 - 1);
    }
  }

  /**
   * An exception thrown inside a pool action. SpinLock.SafeAction runs the
   * action in a try block, logs whatever it throws and returns normally.
   */
  datatype Exception = IndexOutOfRange | NullReference | InvalidOperation

  /** What Alloc returns: a block, or null once the pool action has logged an exception. */
  datatype Allocation = Allocated(block: array<byte>) | Null(logged: Exception)

  class BlockPool {
    /** _sizeArray: the block size of each class. */
    const sizeArray: array<int>
    /**
     * _chacheMap: one slot per class. A slot is null (None) or a stack of
     * returned blocks, the top at the end.
     */
    var stacks: seq<Option<seq<array<byte>>>>

    /** One slot per table entry, no negative block size, and every stacked block of its stack's class. */
    ghost predicate Valid()
      reads this`stacks, sizeArray
    {
      && |stacks| == sizeArray.Length
      && (forall c :: 0 <= c < sizeArray.Length ==> sizeArray[c] >= 0)
      && (forall c, j :: 0 <= c < |stacks| && stacks[c].Some? && 0 <= j < |stacks[c].value| ==>
            SizeClass(stacks[c].value[j].Length) == Some(c))
    }

    /** Every slot is null: nothing in the source ever stores a stack in _chacheMap. */
    ghost predicate NoStacks()
      reads this`stacks
    {
      forall c :: 0 <= c < |stacks| ==> stacks[c].None?
    }

    /** Every slot holds a stack. */
    ghost predicate Stacked()
      reads this`stacks
    {
      forall c :: 0 <= c < |stacks| ==> stacks[c].Some?
    }

    /** Every slot up to class 184 that the table has holds its class's largest size. */
    ghost predicate Filled()
      reads sizeArray
    {
      forall c :: 0 <= c < sizeArray.Length && c <= 184 ==> sizeArray[c] == SlotSize(c)
    }

    /**
     * A pool of `count` classes as the field initialisers build it: a zeroed
     * table, and an array of `count` null stacks that nothing ever fills.
     */
    constructor (count: nat)
      ensures Valid() && NoStacks() && sizeArray.Length == count && fresh(sizeArray)
      ensures stacks == seq(count, _ => None)
    {
      sizeArray := new int[count](_ => 0);
      stacks := seq(count, _ => None);
    }

    /** The pool as intended: the same table, and an empty stack in every slot. */
    constructor WithStacks(count: nat)
      ensures Valid() && Stacked() && sizeArray.Length == count && fresh(sizeArray)
      ensures stacks == seq(count, _ => Some([]))
    {
      sizeArray := new int[count](_ => 0);
      stacks := seq(count, _ => Some([]));
    }

    /**
     * initSizeArray: for every size from 0 to 8192, in order, the size is
     * stored in its class's slot, so each slot ends with its class's largest
     * size. It throws IndexOutOfRange at the first size whose class is past
     * the table. With 184 slots that is 8065; every class before it is
     * filled by then.
     */
    method InitSizeArray() returns (thrown: bool)
      requires Valid()
      modifies sizeArray
      ensures Valid()
      ensures thrown <==> sizeArray.Length <= 184
      ensures Filled()
      ensures forall c :: 184 < c < sizeArray.Length ==> sizeArray[c] == old(sizeArray[c])
    {
      var i := 0;
      while i <= K_MAX_BLOCK_SIZE
        invariant 0 <= i <= K_MAX_BLOCK_SIZE + 1
        invariant |stacks| == sizeArray.Length
        invariant i > 0 ==> LastClass(i) < sizeArray.Length && sizeArray[LastClass(i)] == i - 1
        invariant forall c :: 0 <= c < sizeArray.Length && i > 0 && c < LastClass(i) ==> sizeArray[c] == SlotSize(c)
        invariant forall c :: 0 <= c < sizeArray.Length && (i == 0 || c > LastClass(i)) ==> sizeArray[c] == old(sizeArray[c])
        invariant forall c :: 0 <= c < sizeArray.Length ==> sizeArray[c] >= 0
      {
        var idx: int;
        if i <= K_LARGE_BLOCK_SIZE {
          idx := (i + 7) / 8;
        } else {
          idx := (i + 127 + 120 * 128) / 128;
        }
        assert idx == SizeClass(i).value;
        if i > 0 {
          ClassStep(i);
        }
        if idx >= sizeArray.Length {
          SizeClassBounds(i);
          return true;
        }
        sizeArray[idx] := i;
        i := i + 1;
      }
      SizeClassBounds(K_MAX_BLOCK_SIZE);
      return false;
    }

    /**
     * Alloc as written. A size above 8192 gets a fresh array of that size.
     * Otherwise the pool action reads its class's slot, and each exception
     * it meets is logged and Alloc returns null:
     * - a class outside the table throws IndexOutOfRange;
     * - a null slot throws NullReference;
     * - a non-empty stack gives a fresh array of the slot's size and keeps
     *   its blocks;
     * - an empty stack is popped, which throws InvalidOperation.
     * The pool never changes.
     */
    method Alloc(size: int) returns (r: Allocation)
      requires Valid()
      ensures match SizeClass(size)
        case None => r.Allocated? && fresh(r.block) && r.block.Length == size
        case Some(idx) =>
          if !(0 <= idx < |stacks|) then r == Null(IndexOutOfRange)
          else if stacks[idx].None? then r == Null(NullReference)
          else if |stacks[idx].value| != 0 then r.Allocated? && fresh(r.block) && r.block.Length == sizeArray[idx]
          else r == Null(InvalidOperation)
    {
      var cls := SizeClass(size);
      if cls.Some? {
        var idx := cls.value;
        if !(0 <= idx < |stacks|) {
          r := Null(IndexOutOfRange);
        } else if stacks[idx].None? {
          r := Null(NullReference);
        } else {
          var pool := stacks[idx].value;
          var alignSize := sizeArray[idx];
          if |pool| != 0 {
            var block := new byte[alignSize];
            r := Allocated(block);
          } else {
            r := Null(InvalidOperation);
          }
        }
      } else {
        var block := new byte[size];
        r := Allocated(block);
      }
    }

    /**
     * Alloc as intended: a non-empty stack is popped and an empty one gives
     * a fresh array of the slot's size; the exceptions are those of Alloc.
     * With a filled table, every block handed out is of the requested size's
     * class, and a fresh one is at least as large as asked. A popped block
     * can be shorter: Free stacks any block of the class, not only full-size
     * ones.
     */
    method AllocIntended(size: int) returns (r: Allocation)
      requires Valid()
      modifies this`stacks
      ensures Valid()
      ensures match SizeClass(size)
        case None => r.Allocated? && fresh(r.block) && r.block.Length == size && stacks == old(stacks)
        case Some(idx) =>
          if !(0 <= idx < |stacks|) then r == Null(IndexOutOfRange) && stacks == old(stacks)
          else if old(stacks)[idx].None? then r == Null(NullReference) && stacks == old(stacks)
          else if |old(stacks)[idx].value| != 0 then
            && r == Allocated(Top(old(stacks)[idx].value))
            && stacks == old(stacks)[idx := Some(Popped(old(stacks)[idx].value))]
          else r.Allocated? && fresh(r.block) && r.block.Length == sizeArray[idx] && stacks == old(stacks)
      ensures r.Allocated? && size <= K_MAX_BLOCK_SIZE && Filled() ==> SizeClass(r.block.Length) == SizeClass(size)
      ensures r.Allocated? && fresh(r.block) && 0 <= size && Filled() ==> r.block.Length >= size
    {
      var cls := SizeClass(size);
      if cls.Some? {
        var idx := cls.value;
        if !(0 <= idx < |stacks|) {
          r := Null(IndexOutOfRange);
        } else if stacks[idx].None? {
          r := Null(NullReference);
        } else {
          var pool := stacks[idx].value;
          var alignSize := sizeArray[idx];
          if |pool| != 0 {
            var block := Top(pool);
            assert SizeClass(block.Length) == Some(idx);
            stacks := stacks[idx := Some(Popped(pool))];
            r := Allocated(block);
            if 0 <= size && Filled() {
              SizeClassBounds(size);
              SizeClassBounds(block.Length);
            }
          } else {
            var block := new byte[alignSize];
            r := Allocated(block);
            if 0 <= size && Filled() {
              SizeClassBounds(size);
            }
            if Filled() && idx <= 184 {
              SlotSizeInClass(idx);
            }
          }
        }
      } else {
        var block := new byte[size];
        r := Allocated(block);
      }
    }

    /**
     * Free: a block above 8192 is dropped. Otherwise the pool action pushes
     * it on its class's stack; a class past the table throws
     * IndexOutOfRange and a null slot NullReference, and either is logged
     * with the pool unchanged.
     */
    method Free(data: array<byte>) returns (logged: Option<Exception>)
      requires Valid()
      modifies this`stacks
      ensures Valid()
      ensures match SizeClass(data.Length)
        case None => logged == None && stacks == old(stacks)
        case Some(idx) =>
          if idx >= |stacks| then logged == Some(IndexOutOfRange) && stacks == old(stacks)
          else if old(stacks)[idx].None? then logged == Some(NullReference) && stacks == old(stacks)
          else logged == None && stacks == old(stacks)[idx := Some(old(stacks)[idx].value + [data])]
    {
      logged := None;
      var cls := SizeClass(data.Length);
      if cls.Some? {
        var idx := cls.value;
        if idx >= |stacks| {
          logged := Some(IndexOutOfRange);
        } else if stacks[idx].None? {
          logged := Some(NullReference);
        } else {
          stacks := stacks[idx := Some(stacks[idx].value + [data])];
        }
      }
    }
  }

  /** The top of a non-empty stack. */
  function Top(st: seq<array<byte>>): (b: array<byte>)
    requires st != []
    ensures b in st
  {
    st[|st| - 1]
  }

  /** A non-empty stack without its top. */
  function Popped(st: seq<array<byte>>): (r: seq<array<byte>>)
    requires st != []
    ensures r + [Top(st)] == st
  {
    st[..|st| - 1]
  }

  /**
   * The table as declared, 184 slots, cannot be filled: the filling loop
   * throws once it reaches size 8065. A pool whose table also has slot 184
   * is filled whole.
   */
  method SizeTableAsWritten() returns (pool: BlockPool, thrown: bool)
    ensures pool.sizeArray.Length == TOTAL_ARRAY_COUNT && thrown
  {
    pool := new BlockPool(TOTAL_ARRAY_COUNT);
    thrown := pool.InitSizeArray();
  }

  method SizeTableIntended() returns (pool: BlockPool, thrown: bool)
    ensures pool.Valid() && pool.sizeArray.Length == TOTAL_ARRAY_COUNT + 1 && !thrown
    ensures forall c :: 0 <= c <= TOTAL_ARRAY_COUNT ==> pool.sizeArray[c] == SlotSize(c)
  {
    pool := new BlockPool(TOTAL_ARRAY_COUNT + 1);
    thrown := pool.InitSizeArray();
  }

  /**
   * As written, the pool's slots stay null, so every size up to 8192 gets
   * null from Alloc on a new pool: a class inside the table logs
   * NullReference, and one outside it (below -7 or from 8065 on) logs
   * IndexOutOfRange. Only larger sizes get an array.
   */
  method EmptyPoolAllocNullAsWritten(size: int) returns (r: Allocation)
    ensures r.Null? <==> size <= K_MAX_BLOCK_SIZE
    ensures r.Null? ==> (r.logged == IndexOutOfRange <==> size < -7 || 8065 <= size)
    ensures r.Null? ==> r.logged != InvalidOperation
  {
    var pool := new BlockPool(TOTAL_ARRAY_COUNT);
    if size <= K_MAX_BLOCK_SIZE {
      SizeClassOutside(size);
    }
    r := pool.Alloc(size);
  }

  /** The class of a size up to 8192 is outside a table of 184 slots exactly below -7 and from 8065 on. */
  lemma SizeClassOutside(size: int)
    requires size <= K_MAX_BLOCK_SIZE
    ensures var c := SizeClass(size).value;
      !(0 <= c < TOTAL_ARRAY_COUNT) <==> size < -7 || 8065 <= size
  {
    if 0 <= size {
      LastClassPastTable(size);
      SizeClassBounds(size);
    }
  }

  /**
   * As written, with no stack in any slot, a freed block is lost: Free logs
   * NullReference and keeps nothing, and the next Alloc of its class
   * returns null.
   */
  method FreedBlockLostAsWritten(pool: BlockPool, data: array<byte>, size: int)
    returns (logged: Option<Exception>, r: Allocation)
    requires pool.Valid() && pool.NoStacks() && SizeClass(size) == SizeClass(data.Length)
    requires SizeClass(size).Some? && SizeClass(size).value < |pool.stacks|
    modifies pool`stacks
    ensures pool.Valid() && pool.NoStacks() && pool.stacks == old(pool.stacks)
    ensures logged == Some(NullReference) && r == Null(NullReference)
  {
    logged := pool.Free(data);
    r := pool.Alloc(size);
  }

  /**
   * The intended pool, with a stack in every slot and a filled table, hands
   * out an array at least as large as asked for every size, with the
   * stacks left empty.
   */
  method FreshPoolAllocIntended(size: int) returns (r: Allocation)
    requires 0 <= size
    ensures r.Allocated? && r.block.Length >= size
  {
    var pool := new BlockPool.WithStacks(TOTAL_ARRAY_COUNT + 1);
    var thrown := pool.InitSizeArray();
    if size <= K_MAX_BLOCK_SIZE {
      SizeClassBounds(size);
    }
    r := pool.AllocIntended(size);
  }

  /**
   * Once every slot holds a stack, the as-written Alloc still never hands a
   * freed block out again: it finds the stack non-empty and makes a fresh
   * array instead.
   */
  method FreedBlockIgnoredAsWritten(pool: BlockPool, data: array<byte>, size: int) returns (r: Allocation)
    requires pool.Valid() && pool.Stacked() && 0 <= size && SizeClass(size) == SizeClass(data.Length)
    requires SizeClass(size).Some? && SizeClass(size).value < |pool.stacks|
    modifies pool`stacks
    ensures r.Allocated? && r.block != data
  {
    var logged := pool.Free(data);
    r := pool.Alloc(size);
  }

  /** As intended, the next Alloc of the same class after a Free hands the freed block back. */
  method FreedBlockReusedIntended(pool: BlockPool, data: array<byte>, size: int) returns (r: Allocation)
    requires pool.Valid() && pool.Stacked() && SizeClass(size) == SizeClass(data.Length)
    requires SizeClass(size).Some? && SizeClass(size).value < |pool.stacks|
    modifies pool`stacks
    ensures pool.Valid() && r == Allocated(data) && pool.stacks == old(pool.stacks)
  {
    var logged := pool.Free(data);
    r := pool.AllocIntended(size);
  }
}
