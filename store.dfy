/** The key -> value storage the collection façades are written against:
    `create`/`read`/`delete`/`clear`/`size`/`keySet`/`purge`, as the object
    pool over an ElasticStorage offers them to NyxList and NyxMap. Encoding
    to bytes, the write-behind queue and the cache are below this interface
    and not modelled here. `read` and `delete` of an absent key throw
    NullPointerException: the pool hands them to the ElasticStorage, which
    dereferences the missing location, and only an InterruptedException is
    caught on the way. `purge` keeps every entry (it only compacts the bytes
    underneath), which the model records by counting the purges. */
module Store {
  import opened Lang

  /** The façades' purge trigger: `modCount++ > size() / 3` holds for the
      count before its increment. */
  predicate Overdue(modCount: nat, size: nat) {
    modCount > size / 3
  }

  /** The modification count after one `checkMods` against `size` entries:
      restarted at 0 when a purge ran, one more otherwise. */
  function Counted(modCount: nat, size: nat): (m: nat)
    ensures m == 0 <==> Overdue(modCount, size)
    ensures m <= size / 3 + 1
  {
    if Overdue(modCount, size) then 0 else modCount + 1
  }

  class Storage<K(==), V> {
    /** The live entries. */
    var entries: map<K, V>
    /** How many times `purge` has run. */
    var purges: nat

    constructor ()
      ensures entries == map[] && purges == 0
    {
      entries := map[];
      purges := 0;
    }

    /** `create(k, v)`: binds `k` to `v`, replacing any earlier value. */
    method Create(k: K, v: V)
      modifies this
      ensures entries == old(entries)[k := v] && purges == old(purges)
    {
      entries := entries[k := v];
    }

    /** `read(k)`: the value bound to `k`; a key with no entry throws. */
    method Read(k: K) returns (r: Result<V>)
      ensures r.Ok? <==> k in entries
      ensures r.Ok? ==> r.value == entries[k]
      ensures r.Throws? ==> r.error == NullPointer
    {
      if k in entries {
        return Ok(entries[k]);
      }
      return Throws(NullPointer);
    }

    /** `delete(k)`: what `read(k)` answers; `k` is unbound afterwards, and
        a key with no entry throws before anything changes. */
    method Delete(k: K) returns (r: Result<V>)
      modifies this
      ensures r.Ok? <==> k in old(entries)
      ensures r.Ok? ==> r.value == old(entries)[k]
      ensures r.Throws? ==> r.error == NullPointer
      ensures entries == old(entries) - {k} && purges == old(purges)
    {
      r := Read(k);
      entries := entries - {k};
    }

    /** `clear()`: unbinds every key. */
    method Clear()
      modifies this
      ensures entries == map[] && purges == old(purges)
    {
      entries := map[];
    }

    /** `purge()`: compacts the bytes underneath; every entry stays. */
    method Purge()
      modifies this
      ensures entries == old(entries) && purges == old(purges) + 1
    {
      purges := purges + 1;
    }
  }
}
