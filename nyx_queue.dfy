/** NyxQueue: a `java.util.Queue` that is a NyxList (here: holds one) and
    maps the queue operations onto the list's `add`, `remove(0)` and
    `get(0)`. Because the list's `remove(int)` deletes the storage entry
    but keeps the key in the index, the head key stays at position 0 after
    a removal, and removing it again throws NullPointerException. */
module Queues {
  import opened Lang
  import opened Store
  import opened Lists

  class NyxQueue<E(==)> {
    /** The list this queue is. */
    const list: NyxList<E>

    ghost predicate Valid()
      reads this, list, list.storage
    {
      list.Valid()
    }

    /** `new NyxQueue()`: an empty default list. */
    constructor ()
      ensures Valid() && fresh(list) && fresh(list.storage)
      ensures list.elements == [] && list.storage.entries == map[] && list.nextKey == 0
    {
      list := new NyxList<E>.Default();
    }

    /** `offer(e)`: the list's `add(e)`, appending at the tail. */
    method Offer(e: Option<E>) returns (b: bool)
      requires Valid()
      modifies list, list.storage
      ensures Valid()
      ensures list.storage.entries == old(list.storage.entries)[old(list.nextKey) := e]
      ensures list.elements == old(list.elements) + [old(list.nextKey)]
      ensures list.nextKey == old(list.nextKey) + 1
      ensures b <==> e.Some?
    {
      b := list.Add(e);
    }

    /** `remove()`: the list's `remove(0)`: the head key's value, deleted
        from the storage; an empty index throws IndexOutOfBoundsException,
        and a head key whose entry an earlier removal deleted throws
        NullPointerException. `checkMods` runs either way. */
    method Remove() returns (r: Result<Option<E>>)
      requires Valid()
      modifies list, list.storage
      ensures Valid() && list.elements == old(list.elements) && list.nextKey == old(list.nextKey)
      ensures r == Throws(IndexOutOfBounds) <==> |old(list.elements)| == 0
      ensures |old(list.elements)| > 0 ==>
                && r == old(list.Lookup(list.elements[0]))
                && list.storage.entries == old(list.storage.entries) - {list.elements[0]}
      ensures r.Throws? ==> list.storage.entries == old(list.storage.entries)
      ensures list.modCount == Counted(old(list.modCount), |list.storage.entries|)
    {
      r := list.RemoveAt(0);
    }

    /** `poll()`: `remove()`, answering null instead of throwing on an
        empty index; only IndexOutOfBoundsException is caught. The head key
        stays first in the index with its entry gone, so every later `poll`
        throws NullPointerException. */
    method Poll() returns (r: Result<Option<E>>)
      requires Valid()
      modifies list, list.storage
      ensures Valid() && list.elements == old(list.elements) && list.nextKey == old(list.nextKey)
      ensures |old(list.elements)| == 0 ==> r == Ok(None) && list.storage.entries == old(list.storage.entries)
      ensures |old(list.elements)| > 0 ==>
                && r == old(list.Lookup(list.elements[0]))
                && list.storage.entries == old(list.storage.entries) - {list.elements[0]}
      ensures list.modCount == Counted(old(list.modCount), |list.storage.entries|)
      ensures |list.elements| > 0 ==> list.Lookup(list.elements[0]) == Throws(NullPointer)
    {
      var removed := list.RemoveAt(0);
      if removed == Throws(IndexOutOfBounds) {
        return Ok(None);
      }
      return removed;
    }

    /** `element()`: `poll()`, throwing NoSuchElementException when that
        answers null; it consumes the head like `poll`, and an exception
        `poll` throws passes through. */
    method Element() returns (r: Result<E>)
      requires Valid()
      modifies list, list.storage
      ensures Valid() && list.elements == old(list.elements) && list.nextKey == old(list.nextKey)
      ensures var head := if |old(list.elements)| > 0 then old(list.Lookup(list.elements[0])) else Ok(None);
              && (head.Throws? ==> r == Throws(head.error))
              && (head == Ok(None) ==> r == Throws(NoSuchElement))
              && (head.Ok? && head.value.Some? ==> r == Ok(head.value.value))
      ensures |old(list.elements)| > 0 ==> list.storage.entries == old(list.storage.entries) - {list.elements[0]}
      ensures |old(list.elements)| == 0 ==> list.storage.entries == old(list.storage.entries)
    {
      var res := Poll();
      if res.Throws? {
        return Throws(res.error);
      }
      if res.value.None? {
        return Throws(NoSuchElement);
      }
      return Ok(res.value.value);
    }

    /** `peek()`: the list's `get(0)`, which reads storage key 0; nothing
        is removed, and a key 0 with no entry throws NullPointerException,
        which the catch of IndexOutOfBoundsException lets through. */
    method Peek() returns (r: Result<Option<E>>)
      ensures r.Ok? <==> 0 in list.storage.entries
      ensures r.Ok? ==> r.value == list.storage.entries[0]
      ensures r.Throws? ==> r.error == NullPointer
    {
      r := list.Get(0);
    }
  }
}
