// parallel_core::SafeHashMap (AsioNet/AsioNet/parallel_core/SafeHashMap.hpp)
// in sequential use: an unordered_map behind double-checked locking. The
// fences and the recursive mutex are left out; what remains is the map.

module SafeHashMaps {

  class SafeHashMap<K(==,!new), V> {
    var container: map<K, V>

    /** An empty table. */
    constructor ()
      ensures container == map[]
    {
      container := map[];
    }

    /** contains_key: whether k has an entry. */
    function ContainsKey(k: K): (r: bool)
      reads this
      ensures r <==> k in container.Keys
    {
      k in container
    }

    /** size: the number of entries. */
    function Size(): (r: nat)
      reads this
      ensures r == 0 <==> container == map[]
    {
      |container|
    }

    /** empty: no entry at all. */
    function Empty(): (r: bool)
      reads this
      ensures r <==> Size() == 0
      ensures r <==> forall k :: !ContainsKey(k)
    {
      if container == map[] then true
      else
        var k :| k in container;
        assert ContainsKey(k);
        false
    }

    /** insert: adds (k, v) and reports true only when k had no entry. */
    method Insert(k: K, v: V) returns (ok: bool)
      modifies this
      ensures ok <==> k !in old(container)
      ensures container == if ok then old(container)[k := v] else old(container)
    {
      if k !in container {
        container := container[k := v];
        return true;
      }
      return false;
    }

    /**
     * insert_or_set: the overwrite sits inside the "key absent" branch, after
     * an insert that has just succeeded, so an existing value is never replaced.
     */
    method InsertOrSet(k: K, v: V)
      modifies this
      ensures k in container && k in old(container) ==> container[k] == old(container)[k]
      ensures container == if k in old(container) then old(container) else old(container)[k := v]
    {
      if k !in container {
        // the insert always succeeds here, so the overwrite after a failed insert never runs
        container := container[k := v];
      }
    }

    /**
     * erase: the body runs only when k is absent, where erasing removes
     * nothing; a present key is never removed and the result is always false.
     */
    method Erase(k: K) returns (ok: bool)
      modifies this
      ensures !ok && container == old(container)
    {
      if k !in container {
        var removed := if k in container then 1 else 0;
        container := container - {k};
        return removed > 0;
      }
      return false;
    }

    /** What erase evidently should do: remove k, reporting whether it was there. */
    method EraseIntended(k: K) returns (ok: bool)
      modifies this
      ensures ok <==> k in old(container)
      ensures container == old(container) - {k} && k !in container
    {
      ok := k in container;
      container := container - {k};
    }

    /** try_get: the stored value when k has an entry; otherwise ref_val is left as it was. */
    method TryGet(k: K, refVal: V) returns (ok: bool, val: V)
      ensures ok <==> ContainsKey(k)
      ensures ok ==> val == container[k]
      ensures !ok ==> val == refVal
    {
      if k in container {
        return true, container[k];
      }
      return false, refVal;
    }

    /**
     * complex_operation: the handler parameter is unnamed and the statement
     * `container_handler(_container);` declares a local, so the handler is
     * never invoked and nothing changes.
     */
    method ComplexOperation<R>(handler: map<K, V> -> R)
      ensures container == old(container)
    {
    }

    /**
     * The evidently intended complex_operation: run the handler on the
     * table. The handler type takes the unordered_map by value, so even
     * then it only sees a copy and cannot change the table.
     */
    method ComplexOperationIntended<R>(handler: map<K, V> -> R) returns (r: R)
      ensures r == handler(old(container)) && container == old(container)
    {
      r := handler(container);
    }
  }
}
