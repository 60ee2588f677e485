/** NyxMap: a `java.util.Map` whose entries live in a key -> value storage.
    Removals and replacements of non-null values count modifications, and
    the storage is purged once they exceed a third of its size. Values are
    Java references, so a stored value is an `Option` (`None` is null). */
module Maps {
  import opened Lang
  import opened Store

  /** An entry of `entrySet()`: it holds only its key and reads its value
      through the map, so two entries are the same only when their keys
      are. */
  datatype Entry<K> = Entry(key: K)

  class NyxMap<K(==,!new), V> {
    /** `storage`: key -> value. */
    const storage: Storage<K, Option<V>>
    /** `modCount`: counted modifications since the last purge. */
    var modCount: nat

    /** `size()`: the storage's entry count. */
    function Size(): nat
      reads storage
    {
      |storage.entries|
    }

    /** `NyxMap(capacity)` once its guard has passed; the capacity is not
        used further. */
    constructor (capacity: nat)
      requires capacity >= 1
      ensures fresh(storage) && storage.entries == map[] && storage.purges == 0 && modCount == 0
    {
      storage := new Storage();
      modCount := 0;
    }

    /** `NyxMap()`: capacity 16. */
    constructor Default()
      ensures fresh(storage) && storage.entries == map[] && storage.purges == 0 && modCount == 0
    {
      storage := new Storage();
      modCount := 0;
    }

    /** `NyxMap(capacity)`: a capacity below 1 throws. */
    static method New(capacity: int) returns (r: Result<NyxMap<K, V>>)
      ensures r.Throws? <==> capacity < 1
      ensures r.Throws? ==> r.error == IllegalArgument
      ensures r.Ok? ==> fresh(r.value.storage) && r.value.storage.entries == map[] && r.value.modCount == 0
    {
      if capacity < 1 {
        return Throws(IllegalArgument);
      }
      var m := new NyxMap<K, V>(capacity);
      return Ok(m);
    }

    /** `isEmpty()`: no key is bound. */
    function IsEmpty(): (b: bool)
      reads storage
      ensures b <==> Size() == 0
      ensures b <==> storage.entries == map[]
    {
      |storage.entries| == 0
    }

    /** `containsKey(k)`: `k` is in the storage's key set. */
    function ContainsKey(k: K): (b: bool)
      reads storage
      ensures b <==> k in storage.entries
    {
      k in storage.entries.Keys
    }

    /** `get(k)`: `storage.read(k)`: the bound value, which may be null;
        an unbound key throws NullPointerException. */
    method Get(k: K) returns (r: Result<Option<V>>)
      ensures r.Ok? <==> ContainsKey(k)
      ensures r.Ok? ==> r.value == storage.entries[k]
      ensures r.Throws? ==> r.error == NullPointer
    {
      r := storage.Read(k);
    }

    /** `checkMods(prev)`: nothing for a null `prev`; otherwise counts a
        modification, purging and restarting the count when the count
        before its increment exceeds a third of the size. Answers `prev`. */
    method CheckMods(prev: Option<V>) returns (r: Option<V>)
      modifies this, storage
      ensures r == prev && storage.entries == old(storage.entries)
      ensures prev.None? ==> modCount == old(modCount) && storage.purges == old(storage.purges)
      ensures prev.Some? ==> modCount == Counted(old(modCount), Size())
      ensures prev.Some? ==>
                storage.purges == old(storage.purges) + (if Overdue(old(modCount), Size()) then 1 else 0)
    {
      if prev.Some? {
        var before := modCount;
        modCount := modCount + 1;
        if before > |storage.entries| / 3 {
          storage.Purge();
          modCount := 0;
        }
      }
      return prev;
    }

    /** `remove(k)`: `checkMods(storage.delete(k))`: deletes `k` and
        answers its previous value, counted against the size after the
        deletion. An unbound key throws NullPointerException in `delete`,
        before anything changes. */
    method Remove(k: K) returns (r: Result<Option<V>>)
      modifies this, storage
      ensures r.Ok? <==> old(ContainsKey(k))
      ensures r.Throws? ==>
                && r.error == NullPointer && storage.entries == old(storage.entries)
                && modCount == old(modCount) && storage.purges == old(storage.purges)
      ensures r.Ok? ==>
                && r.value == old(storage.entries[k]) && !ContainsKey(k)
                && storage.entries == old(storage.entries) - {k}
                && Size() == old(Size()) - 1
      ensures r.Ok? && r.value.None? ==> modCount == old(modCount) && storage.purges == old(storage.purges)
      ensures r.Ok? && r.value.Some? ==>
                && modCount == Counted(old(modCount), Size())
                && storage.purges == old(storage.purges) + (if Overdue(old(modCount), Size()) then 1 else 0)
    {
      var d := storage.Delete(k);
      if d.Throws? {
        return d;
      }
      var prev := CheckMods(d.value);
      KeyRemoved(old(storage.entries), k);
      return Ok(prev);
    }

    /** `put(k, v)`: `checkMods(remove(k))` — so a non-null previous value
        is counted twice, both times against the size without `k` — then
        `storage.create(k, v)`. Answers the previous value. The inner
        `remove` of a key not yet bound throws NullPointerException, so
        `put` can only rebind a key the map already holds (see
        `PutOnEmpty`). */
    method Put(k: K, v: Option<V>) returns (r: Result<Option<V>>)
      modifies this, storage
      ensures r.Ok? <==> old(ContainsKey(k))
      ensures r.Throws? ==>
                && r.error == NullPointer && storage.entries == old(storage.entries)
                && modCount == old(modCount) && storage.purges == old(storage.purges)
      ensures r.Ok? ==>
                && r.value == old(storage.entries[k]) && ContainsKey(k) && storage.entries[k] == v
                && storage.entries == old(storage.entries)[k := v]
                && Size() == old(Size())
      ensures r.Ok? && r.value.None? ==> modCount == old(modCount) && storage.purges == old(storage.purges)
      ensures r.Ok? && r.value.Some? ==>
                var n := Size() - 1;
                var once := Counted(old(modCount), n);
                && modCount == Counted(once, n)
                && storage.purges == old(storage.purges)
                                     + (if Overdue(old(modCount), n) then 1 else 0)
                                     + (if Overdue(once, n) then 1 else 0)
    {
      var removed := Remove(k);
      if removed.Throws? {
        return removed;
      }
      var prev := CheckMods(removed.value);
      storage.Create(k, v);
      KeyAdded(old(storage.entries) - {k}, k, v);
      return Ok(prev);
    }

    /** `remove(k)` as the `Map` contract and the map's own tests expect
        it: an unbound key answers null and changes nothing; a bound key is
        deleted as by `remove`. */
    method RemoveIntended(k: K) returns (prev: Option<V>)
      modifies this, storage
      ensures !old(ContainsKey(k)) ==>
                && prev.None? && storage.entries == old(storage.entries)
                && modCount == old(modCount) && storage.purges == old(storage.purges)
      ensures old(ContainsKey(k)) ==> prev == old(storage.entries[k])
      ensures !ContainsKey(k) && storage.entries == old(storage.entries) - {k}
      ensures Size() == old(Size()) - (if old(ContainsKey(k)) then 1 else 0)
      ensures prev.Some? ==>
                && modCount == Counted(old(modCount), Size())
                && storage.purges == old(storage.purges) + (if Overdue(old(modCount), Size()) then 1 else 0)
      ensures old(ContainsKey(k)) && prev.None? ==> modCount == old(modCount) && storage.purges == old(storage.purges)
    {
      if !ContainsKey(k) {
        assert storage.entries - {k} == storage.entries;
        return None;
      }
      var removed := Remove(k);
      return removed.value;
    }

    /** `put(k, v)` over the intended `remove`: binds `k` to `v` whether or
        not it was bound, answering the previous value or null, after which
        `get(k)` answers `v`. */
    method PutIntended(k: K, v: Option<V>) returns (prev: Option<V>)
      modifies this, storage
      ensures old(ContainsKey(k)) ==> prev == old(storage.entries[k])
      ensures !old(ContainsKey(k)) ==> prev.None?
      ensures ContainsKey(k) && storage.entries[k] == v
      ensures storage.entries == old(storage.entries)[k := v]
      ensures Size() == old(Size()) + (if old(ContainsKey(k)) then 0 else 1)
      ensures prev.None? ==> modCount == old(modCount) && storage.purges == old(storage.purges)
      ensures prev.Some? ==>
                var n := Size() - 1;
                var once := Counted(old(modCount), n);
                && modCount == Counted(once, n)
                && storage.purges == old(storage.purges)
                                     + (if Overdue(old(modCount), n) then 1 else 0)
                                     + (if Overdue(once, n) then 1 else 0)
    {
      var removed := RemoveIntended(k);
      prev := CheckMods(removed);
      storage.Create(k, v);
      KeyAdded(old(storage.entries) - {k}, k, v);
    }

    /** `clear()`: restarts the count and empties the storage, after which
        no key is bound, so every `get` throws. */
    method Clear()
      modifies this, storage
      ensures modCount == 0 && storage.entries == map[] && storage.purges == old(storage.purges)
      ensures IsEmpty() && forall k :: !ContainsKey(k)
    {
      modCount := 0;
      storage.Clear();
    }

    /** `keySet()`: the storage's keys. */
    function KeySet(): (ks: set<K>)
      reads storage
      ensures |ks| == Size()
      ensures forall k :: k in ks <==> ContainsKey(k)
    {
      storage.entries.Keys
    }

    /** `values()`: one value per key, read in the key set's iteration
        order (returned as `order`; a hash set's order is not specified). */
    method Values() returns (vs: seq<Option<V>>, ghost order: seq<K>)
      ensures |vs| == |order| == Size()
      ensures forall k :: k in order <==> ContainsKey(k)
      ensures forall i, j :: 0 <= i < j < |order| ==> order[i] != order[j]
      ensures forall i :: 0 <= i < |order| ==> ContainsKey(order[i]) && vs[i] == storage.entries[order[i]]
    {
      var rest := storage.entries.Keys;
      vs := [];
      order := [];
      while rest != {}
        invariant rest <= storage.entries.Keys
        invariant |vs| == |order| && |order| + |rest| == |storage.entries|
        invariant forall k :: k in storage.entries <==> k in order || k in rest
        invariant forall i :: 0 <= i < |order| ==> order[i] !in rest
        invariant forall i, j :: 0 <= i < j < |order| ==> order[i] != order[j]
        invariant forall i :: 0 <= i < |order| ==> order[i] in storage.entries && vs[i] == storage.entries[order[i]]
        decreases |rest|
      {
        var k :| k in rest;
        var r := storage.Read(k);
        vs := vs + [r.value];
        order := order + [k];
        rest := rest - {k};
      }
    }

    /** `entrySet()`: one entry per key, so as many entries as keys. */
    method EntrySet() returns (es: set<Entry<K>>)
      ensures |es| == Size()
      ensures forall e :: e in es <==> ContainsKey(e.key)
    {
      var rest := storage.entries.Keys;
      es := {};
      while rest != {}
        invariant rest <= storage.entries.Keys
        invariant |es| + |rest| == |storage.entries|
        invariant forall e :: e in es <==> e.key in storage.entries && e.key !in rest
        decreases |rest|
      {
        var k :| k in rest;
        assert Entry(k) !in es;
        es := es + {Entry(k)};
        rest := rest - {k};
      }
    }
  }

  /** `put` on a fresh map, as written: the inner `remove` of the unbound
      key throws, so the map never gains its first key. */
  method PutOnEmpty() returns (r: Result<Option<int>>, size: nat)
    ensures r == Throws(NullPointer) && size == 0
  {
    var m := new NyxMap<int, int>.Default();
    r := m.Put(1, Some(2));
    size := m.Size();
  }

  /** `put` then `get` on a fresh map, over the intended `remove`: the new
      key is bound to the value put. */
  method PutThenGet() returns (prev: Option<int>, got: Result<Option<int>>, size: nat)
    ensures prev == None && got == Ok(Some(2)) && size == 1
  {
    var m := new NyxMap<int, int>.Default();
    prev := m.PutIntended(1, Some(2));
    got := m.Get(1);
    size := m.Size();
  }

  /** Unbinding a key shrinks a map by one exactly when the key was bound. */
  lemma KeyRemoved<K, V>(m: map<K, V>, k: K)
    ensures |m - {k}| == |m| - (if k in m then 1 else 0)
  {
    if k in m {
      assert (m - {k}).Keys == m.Keys - {k};
    } else {
      assert m - {k} == m;
    }
  }

  /** Binding a key grows a map by one exactly when the key was unbound. */
  lemma KeyAdded<K, V>(m: map<K, V>, k: K, v: V)
    ensures |m[k := v]| == |m| + (if k in m then 0 else 1)
  {
    if k in m {
      assert m[k := v].Keys == m.Keys;
    } else {
      assert m[k := v].Keys == m.Keys + {k};
    }
  }
}
