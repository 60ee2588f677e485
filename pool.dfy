/** ResourcePool: a fixed-size FIFO of shared resources over an
    `ArrayBlockingQueue` whose capacity is the initial resource count. The
    queue rejects null elements. */
module Pools {
  import opened Lang

  class ResourcePool<T> {
    /** The queue's contents, head first. */
    var pool: seq<T>
    /** The queue's capacity: the number of initial resources. */
    const capacity: nat

    ghost predicate Valid()
      reads this
    {
      0 < capacity && |pool| <= capacity
    }

    /** `ResourcePool(resources)` once the queue could be built: full, in
        list order. */
    constructor (resources: seq<T>)
      requires |resources| > 0
      ensures Valid() && capacity == |resources| && pool == resources
    {
      capacity := |resources|;
      pool := resources;
    }

    /** `ResourcePool(resources)`: an empty list makes a zero-capacity queue,
        which `ArrayBlockingQueue` refuses; a null resource makes `addAll`
        throw. */
    static method New(resources: seq<Option<T>>) returns (r: Result<ResourcePool<T>>)
      ensures |resources| == 0 ==> r == Throws(IllegalArgument)
      ensures |resources| > 0 && None in resources ==> r == Throws(NullPointer)
      ensures r.Ok? <==> |resources| > 0 && None !in resources
      ensures r.Ok? ==> r.value.Valid() && r.value.capacity == |resources|
                        && |r.value.pool| == |resources|
                        && forall i :: 0 <= i < |resources| ==> resources[i] == Some(r.value.pool[i])
    {
      if |resources| == 0 {
        return Throws(IllegalArgument);
      }
      var items: seq<T> := [];
      var i := 0;
      while i < |resources|
        invariant 0 <= i <= |resources| && |items| == i
        invariant None !in resources[..i]
        invariant forall j :: 0 <= j < i ==> resources[j] == Some(items[j])
        decreases |resources| - i
      {
        if resources[i].None? {
          return Throws(NullPointer);
        }
        assert resources[..i + 1] == resources[..i] + [resources[i]];
        items := items + [resources[i].value];
        i := i + 1;
      }
      assert resources[..i] == resources;
      var p := new ResourcePool(items);
      return Ok(p);
    }

    /** `acquire()`: takes the head, or answers null when none is left. */
    method Acquire() returns (r: Option<T>)
      requires Valid()
      modifies this
      ensures Valid()
      ensures old(pool) == [] ==> r.None? && pool == []
      ensures old(pool) != [] ==> r == Some(old(pool)[0]) && pool == old(pool)[1..]
    {
      if pool == [] {
        return None;
      }
      r := Some(pool[0]);
      pool := pool[1..];
    }

    /** `release(resource)`: puts it at the tail. A null resource throws;
        a full queue would block, which this sequential model excludes. */
    method Release(resource: Option<T>) returns (r: Result<()>)
      requires Valid()
      requires resource.Some? ==> |pool| < capacity
      modifies this
      ensures Valid()
      ensures resource.None? ==> r == Throws(NullPointer) && pool == old(pool)
      ensures resource.Some? ==> r == Ok(()) && pool == old(pool) + [resource.value]
    {
      if resource.None? {
        return Throws(NullPointer);
      }
      pool := pool + [resource.value];
      return Ok(());
    }
  }
}
