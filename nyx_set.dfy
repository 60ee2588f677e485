/** NyxSet: a `java.util.Set` over an inner NyxList. `add` appends only
    what the list does not already contain; everything else answers
    exactly what the list answers. */
module Sets {
  import opened Lang
  import opened Store
  import opened Lists

  class NyxSet<E(==)> {
    /** `internList`. */
    const list: NyxList<E>

    ghost predicate Valid()
      reads this, list, list.storage
    {
      list.Valid()
    }

    /** `new NyxSet()`: an empty default list. */
    constructor ()
      ensures Valid() && fresh(list) && fresh(list.storage)
      ensures list.elements == [] && list.storage.entries == map[] && list.nextKey == 0
    {
      list := new NyxList<E>.Default();
    }

    /** `add(e)`: appends `e` when `contains(e)` is false and then answers
        true; answers false, changing nothing, when `e` is already there.
        The containment walk throws at a position with no entry or a null
        element met before any match, and nothing is appended then. */
    method Add(e: Option<E>) returns (r: Result<bool>)
      requires Valid()
      modifies list, list.storage
      ensures Valid()
      ensures r == Ok(true) ==>
                && Unmatched(old(list.Iterated()), e)
                && list.elements == old(list.elements) + [old(list.nextKey)]
                && list.storage.entries == old(list.storage.entries)[old(list.nextKey) := e]
                && list.nextKey == old(list.nextKey) + 1
      ensures r == Ok(false) ==> Ok(e) in old(list.Iterated())
      ensures r.Throws? ==> r.error == NullPointer && Blocked(old(list.Iterated()))
      ensures r != Ok(true) ==>
                && list.elements == old(list.elements) && list.nextKey == old(list.nextKey)
                && list.storage.entries == old(list.storage.entries)
      ensures list.modCount == old(list.modCount) && list.storage.purges == old(list.storage.purges)
    {
      var found := list.Contains(e);
      if found.Throws? {
        return Throws(found.error);
      }
      if found.value {
        return Ok(false);
      }
      var _ := list.Add(e);
      return Ok(true);
    }

    /** `addAll(c)`: `add` of each element in turn; answers whether any of
        them appended. An `add` that throws ends the walk. */
    method AddAll(c: seq<Option<E>>) returns (r: Result<bool>)
      requires Valid()
      modifies list, list.storage
      ensures Valid()
      ensures old(list.elements) <= list.elements
      ensures |list.elements| - |old(list.elements)| == list.nextKey - old(list.nextKey) <= |c|
      ensures r.Ok? ==> (r.value <==> |list.elements| > |old(list.elements)|)
      ensures r.Throws? ==> r.error == NullPointer
      ensures list.modCount == old(list.modCount) && list.storage.purges == old(list.storage.purges)
    {
      var result := false;
      var i := 0;
      while i < |c|
        invariant 0 <= i <= |c| && Valid()
        invariant old(list.elements) <= list.elements
        invariant |list.elements| - |old(list.elements)| == list.nextKey - old(list.nextKey) <= i
        invariant result <==> |list.elements| > |old(list.elements)|
        invariant list.modCount == old(list.modCount) && list.storage.purges == old(list.storage.purges)
        decreases |c| - i
      {
        var added := Add(c[i]);
        if added.Throws? {
          return Throws(added.error);
        }
        result := result || added.value;
        i := i + 1;
      }
      return Ok(result);
    }

    /** `add(index, e)`: the list's positional insert, with no duplicate
        check. */
    method AddAt(index: int, e: Option<E>) returns (r: Result<()>)
      requires Valid()
      modifies list, list.storage
      ensures Valid()
      ensures list.storage.entries == old(list.storage.entries)[old(list.nextKey) := e]
      ensures list.nextKey == old(list.nextKey) + 1
      ensures r.Ok? <==> 0 <= index <= |old(list.elements)|
      ensures r.Ok? ==> list.elements == old(list.elements)[..index] + [old(list.nextKey)] + old(list.elements)[index..]
      ensures r.Throws? ==> r.error == IndexOutOfBounds && list.elements == old(list.elements)
    {
      r := list.AddAt(index, e);
    }

    /** `remove(obj)`: the list's `remove(obj)`. */
    method Remove(obj: Option<E>) returns (r: Result<bool>)
      requires Valid()
      modifies list, list.storage
      ensures Valid() && list.storage.entries == old(list.storage.entries)
      ensures var scan := Scan(old(list.LookupAll(list.elements)), obj, true);
              match scan
              case Ok(Some(i)) => r == Ok(true) && list.elements == old(list.elements)[..i] + old(list.elements)[i + 1..]
              case Ok(None) => r == Ok(false) && list.elements == old(list.elements)
              case Throws(e) => r == Throws(e) && list.elements == old(list.elements)
    {
      r := list.RemoveValue(obj);
    }

    /** `contains(obj)`: the list's `contains(obj)`. */
    method Contains(obj: Option<E>) returns (r: Result<bool>)
      ensures var scan := Scan(list.Iterated(), obj, true);
              (scan.Ok? ==> r == Ok(scan.value.Some?)) && (scan.Throws? ==> r == Throws(scan.error))
    {
      r := list.Contains(obj);
    }

    /** `size()`: the list's size. */
    function Size(): nat
      reads list, list.storage
    {
      list.Size()
    }

    /** `isEmpty()`: the list's `isEmpty()`. */
    function IsEmpty(): bool
      reads list, list.storage
    {
      list.IsEmpty()
    }

    /** `clear()`: the list's `clear()`. */
    method Clear()
      requires Valid()
      modifies list, list.storage
      ensures Valid() && list.elements == [] && list.storage.entries == map[]
    {
      list.Clear();
    }
  }
}
