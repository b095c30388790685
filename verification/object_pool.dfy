// parallel_core::ObjectPool<T> (AsioNet/AsioNet/parallel_core/ObjectPool.h):
// a stack of released objects plus a counter of objects created. The
// spinlock is left out; objects are values of T, the top of the stack is the
// last element of `pool`.

module ObjectPools {

  class ObjectPool<T> {
    /** _count: objects handed out by allocation, minus one per clear() pass. */
    var count: int
    /** _pool: released objects, most recent last. */
    var pool: seq<T>
    /** The objects get has handed out and release has not taken back. */
    ghost var lent: int
    /** The clear() calls so far. */
    ghost var clears: nat

    /** The counter less the pooled objects is the lent objects, less one per clear. */
    ghost predicate Valid()
      reads this
    {
      count - |pool| == lent - clears
    }

    constructor ()
      ensures Valid() && count == 0 && pool == [] && lent == 0 && clears == 0
    {
      count := 0;
      pool := [];
      lent := 0;
      clears := 0;
    }

    /** countAll: the counter. */
    function CountAll(): (r: int)
      reads this
      ensures r == CountActive() + CountInactive()
    {
      count
    }

    /** countInactive: the objects waiting in the pool. */
    function CountInactive(): (r: nat)
      reads this
      ensures r == |pool|
    {
      |pool|
    }

    /**
     * countActive: the objects created and not waiting in the pool. It is
     * meant to be the objects in use, but every clear() leaves it one lower.
     */
    function CountActive(): (r: int)
      reads this
      ensures r + |pool| == count
      ensures Valid() ==> r == lent - clears
    {
      count - CountInactive()
    }

    /**
     * get: with an empty pool, counts and returns a newly constructed object
     * (`made`, the result of `new T(p...)`); otherwise pops the most recently
     * released object.
     */
    method Get(made: T) returns (r: T)
      requires Valid()
      modifies this
      ensures Valid() && lent == old(lent) + 1 && clears == old(clears)
      ensures old(pool) == [] ==> r == made && count == old(count) + 1 && pool == []
      ensures old(pool) != [] ==>
                r == old(pool)[|old(pool)| - 1] && pool == old(pool)[..|old(pool)| - 1] && count == old(count)
      ensures CountActive() == old(CountActive()) + 1
    {
      lent := lent + 1;
      if |pool| == 0 {
        count := count + 1;
        r := made;
      } else {
        r := pool[|pool| - 1];
        pool := pool[..|pool| - 1];
      }
    }

    /** release: pushes the object back; the counter is unchanged. */
    method Release(element: T)
      requires Valid()
      modifies this
      ensures Valid() && lent == old(lent) - 1 && clears == old(clears)
      ensures pool == old(pool) + [element] && count == old(count)
      ensures CountActive() == old(CountActive()) - 1
    {
      pool := pool + [element];
      lent := lent - 1;
    }

    /**
     * clear: every pass decrements the counter before looking at the pool,
     * including the final pass that finds it empty, so the counter drops by
     * one more than the number of pooled objects.
     */
    method Clear()
      requires Valid()
      modifies this
      ensures pool == [] && count == old(count) - |old(pool)| - 1
      ensures Valid() && lent == old(lent) && clears == old(clears) + 1
    {
      clears := clears + 1;
      while true
        invariant |pool| <= |old(pool)| && count == old(count) - (|old(pool)| - |pool|)
        invariant lent == old(lent) && clears == old(clears) + 1
        decreases |pool|
      {
        count := count - 1;
        if |pool| != 0 {
          pool := pool[..|pool| - 1];
        } else {
          break;
        }
      }
    }
  }

  /** A release followed by a get hands back the same object and restores the pool. */
  method ReleaseThenGet<T>(p: ObjectPool<T>, element: T, made: T) returns (r: T)
    requires p.Valid()
    modifies p
    ensures r == element && p.pool == old(p.pool) && p.count == old(p.count)
    ensures p.Valid() && p.lent == old(p.lent)
  {
    p.Release(element);
    r := p.Get(made);
    assert old(p.pool) + [element] != [];
    assert (old(p.pool) + [element])[..|old(p.pool)|] == old(p.pool);
  }
}
