/** NyxList: a `java.util.List` whose elements live in a key -> value
    storage. Every `add` stores the element under a fresh integer key (the
    `size` counter, here `nextKey`) and appends that key to the on-heap
    index list `elements`; removals count modifications and purge the
    storage once they exceed a third of its size. Elements are Java
    references, so a stored value is an `Option` (`None` is a null
    element), and element equality is value equality. */
module Lists {
  import opened Lang
  import opened Store

  /** What reading one key answers: the element stored there, which may be
      null, or the exception a key with no entry throws. */
  type Cell<T> = Result<Option<T>>

  /** A cell holding a non-null element: one a scan can compare and pass. */
  predicate Element<T>(c: Cell<T>) {
    c.Ok? && c.value.Some?
  }

  /** A cell that ends a scan for `obj` with a match: it holds `obj`, and
      a null `obj` matches only when the comparison is null-safe. */
  predicate Hit<T(==)>(c: Cell<T>, obj: Option<T>, nullSafe: bool) {
    c == Ok(obj) && (obj.Some? || nullSafe)
  }

  /** A scan answer found in a suffix that starts `n` cells in. */
  function Shift(r: Result<Option<nat>>, n: nat): Result<Option<nat>> {
    match r
    case Ok(Some(i)) => Ok(Some(i + n))
    case other => other
  }

  /** How a scan that reads `cells` in turn and compares each element `x`
      with `obj` ends: `Ok(Some(i))` at the first match, `Ok(None)` when
      none matches, or a NullPointerException at a key with no entry or a
      null element met before any match. With `nullSafe` (the
      `x == obj || x.equals(obj)` test) a null element matches a null
      `obj`; without it (`x.equals(obj)`) every null element throws. */
  function Scan<T(==)>(cells: seq<Cell<T>>, obj: Option<T>, nullSafe: bool): (r: Result<Option<nat>>)
    ensures r.Ok? && r.value.Some? ==> r.value.value < |cells|
    ensures r.Throws? ==> r.error == NullPointer
    decreases |cells|
  {
    if cells == [] then Ok(None)
    else if Hit(cells[0], obj, nullSafe) then Ok(Some(0))
    else if !Element(cells[0]) then Throws(NullPointer)
    else Shift(Scan(cells[1..], obj, nullSafe), 1)
  }

  /** Every cell of `cells` holds a non-null element other than `obj`. */
  ghost predicate Unmatched<T>(cells: seq<Cell<T>>, obj: Option<T>) {
    forall j :: 0 <= j < |cells| ==> Element(cells[j]) && cells[j] != Ok(obj)
  }

  /** Position `i` is where a scan for `obj` stops with a match. */
  ghost predicate FirstMatch<T>(cells: seq<Cell<T>>, obj: Option<T>, nullSafe: bool, i: nat) {
    i < |cells| && Hit(cells[i], obj, nullSafe) && Unmatched(cells[..i], obj)
  }

  /** Some cell is a key with no entry or a null element. */
  ghost predicate Blocked<T>(cells: seq<Cell<T>>) {
    exists j :: 0 <= j < |cells| && !Element(cells[j])
  }

  /** Every cell above position `lo` holds an element other than `obj`:
      what a backward scan has passed. */
  ghost predicate Passed<T>(cells: seq<Cell<T>>, obj: Option<T>, lo: int) {
    forall j :: 0 <= j < |cells| && lo < j ==> cells[j].Ok? && cells[j] != Ok(obj)
  }

  /** Nothing unmatched precedes the tail exactly when the head is a
      non-null element other than `obj` and nothing unmatched is in the tail. */
  lemma UnmatchedCons<T>(x: Cell<T>, s: seq<Cell<T>>, obj: Option<T>)
    ensures Unmatched([x] + s, obj) <==> Element(x) && x != Ok(obj) && Unmatched(s, obj)
  {
    if Element(x) && x != Ok(obj) && Unmatched(s, obj) {
      forall j | 0 <= j < |[x] + s|
        ensures Element(([x] + s)[j]) && ([x] + s)[j] != Ok(obj)
      {
        if j > 0 {
          assert ([x] + s)[j] == s[j - 1];
        }
      }
    }
    if Unmatched([x] + s, obj) {
      assert ([x] + s)[0] == x;
      forall j | 0 <= j < |s|
        ensures Element(s[j]) && s[j] != Ok(obj)
      {
        assert ([x] + s)[j + 1] == s[j];
      }
    }
  }

  /** A scan answers `Ok(Some(i))` exactly when position `i` holds the
      first match: it holds `obj` (a null `obj` only matching when the
      comparison is null-safe) and every cell before it holds a non-null
      element different from `obj`. */
  lemma {:induction false} ScanFound<T>(cells: seq<Cell<T>>, obj: Option<T>, nullSafe: bool, i: nat)
    ensures Scan(cells, obj, nullSafe) == Ok(Some(i)) <==> FirstMatch(cells, obj, nullSafe, i)
    decreases |cells|
  {
    if i == 0 || |cells| <= i {
      return;
    }
    var tail := cells[1..];
    assert tail[..i - 1] == cells[1..i];
    assert cells[..i] == [cells[0]] + cells[1..i];
    UnmatchedCons(cells[0], tail[..i - 1], obj);
    if !Hit(cells[0], obj, nullSafe) && Element(cells[0]) {
      ScanFound(tail, obj, nullSafe, i - 1);
    }
  }

  /** A scan answers `Ok(None)` exactly when every cell holds a non-null
      element different from `obj`. */
  lemma {:induction false} ScanMissing<T>(cells: seq<Cell<T>>, obj: Option<T>, nullSafe: bool)
    ensures Scan(cells, obj, nullSafe) == Ok(None) <==> Unmatched(cells, obj)
    decreases |cells|
  {
    if cells == [] {
      return;
    }
    var tail := cells[1..];
    assert cells == [cells[0]] + tail;
    UnmatchedCons(cells[0], tail, obj);
    if !Hit(cells[0], obj, nullSafe) && Element(cells[0]) {
      ScanMissing(tail, obj, nullSafe);
    }
  }

  /** A scan that reaches, with nothing matched before it, a key with no
      entry or a null element that is not itself a match, throws. */
  lemma {:induction false} ScanNull<T>(cells: seq<Cell<T>>, obj: Option<T>, nullSafe: bool, i: nat)
    requires i < |cells| && !Element(cells[i]) && Unmatched(cells[..i], obj)
    requires !Hit(cells[i], obj, nullSafe)
    ensures Scan(cells, obj, nullSafe) == Throws(NullPointer)
    decreases i
  {
    if i > 0 {
      assert cells[..i][0] == cells[0];
      assert cells[1..][..i - 1] == cells[..i][1..];
      ScanNull(cells[1..], obj, nullSafe, i - 1);
    }
  }

  /** A scan throws only at a key with no entry or a null element met
      before any match, which is not itself a match: the converse of
      `ScanNull`. */
  lemma {:induction false} ScanThrows<T>(cells: seq<Cell<T>>, obj: Option<T>, nullSafe: bool) returns (i: nat)
    requires Scan(cells, obj, nullSafe).Throws?
    ensures i < |cells| && !Element(cells[i]) && Unmatched(cells[..i], obj)
    ensures !Hit(cells[i], obj, nullSafe)
    decreases |cells|
  {
    if cells == [] || Hit(cells[0], obj, nullSafe) {
      assert false;
    } else if !Element(cells[0]) {
      i := 0;
    } else {
      var j := ScanThrows(cells[1..], obj, nullSafe);
      i := j + 1;
      assert cells[1..][..j] == cells[1..i];
      assert cells[..i] == [cells[0]] + cells[1..i];
      UnmatchedCons(cells[0], cells[1..i], obj);
    }
  }

  /** One step of a scan from position `i`: a match there ends it, a key
      with no entry or a null there throws, anything else hands over to
      position `i + 1`. */
  lemma ScanStep<T>(cells: seq<Cell<T>>, obj: Option<T>, nullSafe: bool, i: nat)
    requires i < |cells|
    ensures Hit(cells[i], obj, nullSafe) ==>
              Shift(Scan(cells[i..], obj, nullSafe), i) == Ok(Some(i))
    ensures !Hit(cells[i], obj, nullSafe) && !Element(cells[i]) ==>
              Shift(Scan(cells[i..], obj, nullSafe), i) == Throws(NullPointer)
    ensures !Hit(cells[i], obj, nullSafe) && Element(cells[i]) ==>
              Shift(Scan(cells[i..], obj, nullSafe), i) == Shift(Scan(cells[i + 1..], obj, nullSafe), i + 1)
  {
    assert cells[i..][0] == cells[i];
    assert cells[i..][1..] == cells[i + 1..];
  }

  /** What a `contains` built on a null-safe scan answers: true only when
      `obj` is read, false only when every cell holds a non-null element
      other than `obj`, and a NullPointerException only when some key has
      no entry or holds null. */
  lemma ContainsAnswer<T>(cells: seq<Cell<T>>, obj: Option<T>, r: Result<bool>)
    requires var scan := Scan(cells, obj, true);
             (scan.Ok? ==> r == Ok(scan.value.Some?)) && (scan.Throws? ==> r == Throws(scan.error))
    ensures r == Ok(true) ==> Ok(obj) in cells
    ensures r == Ok(false) ==> Unmatched(cells, obj)
    ensures r.Throws? ==> r.error == NullPointer && Blocked(cells)
  {
    var scan := Scan(cells, obj, true);
    if scan.Throws? {
      var i := ScanThrows(cells, obj, true);
      assert !Element(cells[i]);
    } else if scan.value.Some? {
      ScanFound(cells, obj, true, scan.value.value);
    } else {
      ScanMissing(cells, obj, true);
    }
  }

  /** The elements a front-to-back walk over `cells` reads, or the
      exception of the first read that throws. */
  function Collect<T>(cells: seq<Cell<T>>): (r: Result<seq<Option<T>>>)
  {
    if cells == [] then Ok([])
    else
      var init := Collect(cells[..|cells| - 1]);
      var last := cells[|cells| - 1];
      if init.Throws? then init
      else if last.Throws? then Throws(last.error)
      else Ok(init.value + [last.value])
  }

  /** A walk that reads every cell answers their elements in order; a walk
      that throws does so at a cell that throws, every cell before it
      having been read. */
  lemma {:induction false} CollectAnswer<T>(cells: seq<Cell<T>>)
    ensures Collect(cells).Ok? ==>
              |Collect(cells).value| == |cells|
              && forall j :: 0 <= j < |cells| ==> cells[j] == Ok(Collect(cells).value[j])
    ensures Collect(cells).Throws? ==>
              exists i :: 0 <= i < |cells| && cells[i] == Throws(Collect(cells).error)
                          && forall j :: 0 <= j < i ==> cells[j].Ok?
    ensures (forall j :: 0 <= j < |cells| ==> cells[j].Ok?) ==> Collect(cells).Ok?
  {
    if cells != [] {
      var n := |cells| - 1;
      var init := cells[..n];
      CollectAnswer(init);
      if Collect(init).Throws? {
        var i :| 0 <= i < |init| && init[i] == Throws(Collect(init).error)
                 && forall j :: 0 <= j < i ==> init[j].Ok?;
        assert cells[i] == init[i];
      } else if cells[n].Throws? {
        assert forall j :: 0 <= j < n ==> cells[j] == init[j];
      } else {
        assert forall j :: 0 <= j < n ==> cells[j] == init[j];
      }
    }
  }

  /** Once a prefix of the walk has thrown, the whole walk throws the same. */
  lemma {:induction false} CollectThrown<T>(cells: seq<Cell<T>>, i: nat)
    requires i <= |cells| && Collect(cells[..i]).Throws?
    ensures Collect(cells) == Collect(cells[..i])
    decreases |cells| - i
  {
    if i < |cells| {
      assert cells[..i + 1][..i] == cells[..i];
      CollectThrown(cells, i + 1);
    } else {
      assert cells[..i] == cells;
    }
  }

  /** What `hashCode()` answers over the cells its iteration reads: the
      list hash of the elements, or the exception of the first read that
      throws. */
  function HashOf<T>(cells: seq<Cell<T>>, hash: T -> int): (r: Result<int>)
    ensures r.Ok? ==> IsInt32(r.value)
  {
    match Collect(cells)
    case Ok(vals) => Ok(ListHash(vals, hash))
    case Throws(e) => Throws(e)
  }

  /** The hashing loop from the state `acc`: folds each read element into
      the hash (0 for null) and stops at the first read that throws. */
  function HashFrom<T>(cells: seq<Cell<T>>, acc: int, hash: T -> int): Result<int>
    decreases |cells|
  {
    if cells == [] then Ok(acc)
    else if cells[0].Throws? then Throws(cells[0].error)
    else HashFrom(cells[1..], Mix(acc, cells[0].value, hash), hash)
  }

  /** The hashing loop, started from the hash of the elements read so far,
      answers what hashing the whole walk answers: the list hash of all
      elements, or the exception of the first read that throws. */
  lemma {:induction false} HashFromCollect<T>(pre: seq<Cell<T>>, cells: seq<Cell<T>>, hash: T -> int)
    requires Collect(pre).Ok?
    ensures HashFrom(cells, ListHash(Collect(pre).value, hash), hash) == HashOf(pre + cells, hash)
    decreases |cells|
  {
    var vals := Collect(pre).value;
    if cells == [] {
      assert pre + cells == pre;
    } else {
      var pre' := pre + [cells[0]];
      assert pre'[..|pre|] == pre;
      assert pre + cells == pre' + cells[1..];
      if cells[0].Throws? {
        assert (pre + cells)[..|pre'|] == pre';
        CollectThrown(pre + cells, |pre'|);
      } else {
        assert (vals + [cells[0].value])[..|vals|] == vals;
        HashFromCollect(pre', cells[1..], hash);
      }
    }
  }

  /** The hashing loop started at 1 over the whole walk answers what
      `hashCode()` answers. */
  lemma HashStart<T>(cells: seq<Cell<T>>, hash: T -> int)
    ensures HashOf(cells, hash) == HashFrom(cells[0..], 1, hash)
  {
    HashFromCollect([], cells, hash);
    assert [] + cells == cells && cells[0..] == cells;
  }

  /** One step of the hashing loop from position `i`. */
  lemma HashStep<T>(cells: seq<Cell<T>>, i: nat, acc: int, hash: T -> int)
    requires i < |cells|
    ensures HashFrom(cells[i..], acc, hash)
            == if cells[i].Throws? then Throws(cells[i].error)
               else HashFrom(cells[i + 1..], Mix(acc, cells[i].value, hash), hash)
  {
    assert cells[i..][0] == cells[i];
    assert cells[i..][1..] == cells[i + 1..];
  }

  /** How `equals` walks `cells` against another list's elements `other`:
      false at the first pair that differs, the exception of a read that
      throws first, and otherwise whether both end together. */
  function Compare<T(==)>(cells: seq<Cell<T>>, other: seq<Option<T>>): (r: Result<bool>)
    decreases |cells|
  {
    if cells == [] || other == [] then Ok(cells == [] && other == [])
    else if cells[0].Throws? then Throws(cells[0].error)
    else if cells[0].value != other[0] then Ok(false)
    else Compare(cells[1..], other[1..])
  }

  /** One step of the `equals` walk from position `i`: where both lists
      go on, a throwing read ends it, a differing pair answers false, and
      an equal pair hands over to `i + 1`; where one ends, it answers
      whether both do. */
  lemma CompareStep<T>(cells: seq<Cell<T>>, other: seq<Option<T>>, i: nat)
    requires i <= |cells| && i <= |other|
    ensures i < |cells| && i < |other| ==>
              Compare(cells[i..], other[i..])
              == if cells[i].Throws? then Throws(cells[i].error)
                 else if cells[i].value != other[i] then Ok(false)
                 else Compare(cells[i + 1..], other[i + 1..])
    ensures !(i < |cells| && i < |other|) ==> Compare(cells[i..], other[i..]) == Ok(!(i < |cells| || i < |other|))
  {
    if i < |cells| && i < |other| {
      assert cells[i..][0] == cells[i] && other[i..][0] == other[i];
      assert cells[i..][1..] == cells[i + 1..] && other[i..][1..] == other[i + 1..];
    }
  }

  /** `equals` answers true exactly when the cells read, position by
      position, the other list's elements and neither is longer; it throws
      only at a cell that throws, all earlier pairs being equal. */
  lemma {:induction false} CompareAnswer<T>(cells: seq<Cell<T>>, other: seq<Option<T>>)
    ensures Compare(cells, other) == Ok(true) <==>
              |cells| == |other| && forall j :: 0 <= j < |cells| ==> cells[j] == Ok(other[j])
    ensures Compare(cells, other).Throws? ==>
              exists i :: 0 <= i < |cells| && i < |other| && cells[i] == Throws(Compare(cells, other).error)
                          && forall j :: 0 <= j < i ==> cells[j] == Ok(other[j])
    decreases |cells|
  {
    if cells != [] && other != [] && cells[0].Ok? && cells[0].value == other[0] {
      var ct, ot := cells[1..], other[1..];
      CompareAnswer(ct, ot);
      assert forall j :: 0 < j < |cells| ==> cells[j] == ct[j - 1];
      assert forall j :: 0 < j < |other| ==> other[j] == ot[j - 1];
      if Compare(ct, ot).Throws? {
        var i :| 0 <= i < |ct| && i < |ot| && ct[i] == Throws(Compare(ct, ot).error)
                 && forall j :: 0 <= j < i ==> ct[j] == Ok(ot[j]);
        assert cells[i + 1] == ct[i];
      }
    } else if cells != [] && other != [] && cells[0].Throws? {
      assert cells[0] == Throws(Compare(cells, other).error);
    } else if cells != [] && other != [] {
      assert cells[0] != Ok(other[0]);
    }
  }

  /** Distinct keys below `bound`, with one of them dropped, are still
      distinct keys below `bound`. */
  lemma DropKey(s: seq<int>, i: nat, bound: int)
    requires i < |s|
    requires forall j :: 0 <= j < |s| ==> 0 <= s[j] < bound
    requires forall j, k :: 0 <= j < k < |s| ==> s[j] != s[k]
    ensures var t := s[..i] + s[i + 1..];
            |t| == |s| - 1
            && (forall j :: 0 <= j < |t| ==> 0 <= t[j] < bound)
            && (forall j, k :: 0 <= j < k < |t| ==> t[j] != t[k])
  {
    var t := s[..i] + s[i + 1..];
    forall j | 0 <= j < |t|
      ensures t[j] == s[if j < i then j else j + 1]
    {
    }
  }

  /** `0, 1, ..., n - 1`. */
  function Indices(n: nat): (ks: seq<int>)
    ensures |ks| == n && forall j :: 0 <= j < n ==> ks[j] == j
  {
    if n == 0 then [] else Indices(n - 1) + [n - 1]
  }

  /** One step of `java.util.List.hashCode`: `31 * h + hash(x)` (0 for
      null), in 32-bit arithmetic. */
  function Mix<T>(h: int, x: Option<T>, hash: T -> int): (r: int)
    ensures IsInt32(r)
  {
    Wrap32(31 * h + (if x.Some? then hash(x.value) else 0))
  }

  /** `java.util.List.hashCode` over elements whose own hash is `hash`:
      start at 1, then `31 * h + hash(e)` (0 for null) per element, in
      32-bit arithmetic. */
  function ListHash<T>(vals: seq<Option<T>>, hash: T -> int): (h: int)
    ensures IsInt32(h)
  {
    if vals == [] then 1
    else
      Mix(ListHash(vals[..|vals| - 1], hash), vals[|vals| - 1], hash)
  }

  class NyxList<E(==)> {
    /** `storage`: element key -> element. */
    const storage: Storage<int, Option<E>>
    /** `elements`: the keys, in list order. */
    var elements: seq<int>
    /** The `size` field: the key the next `add` creates. */
    var nextKey: nat
    /** `modCount`: removals since the last purge. */
    var modCount: nat

    /** Keys are handed out in increasing order and never reused, so every
        key in use lies below the counter and no key is listed twice. */
    ghost predicate Valid()
      reads this, storage
    {
      && (forall k :: k in storage.entries ==> 0 <= k < nextKey)
      && (forall j :: 0 <= j < |elements| ==> 0 <= elements[j] < nextKey)
      && (forall i, j :: 0 <= i < j < |elements| ==> elements[i] != elements[j])
    }

    /** What `storage.read(k)` answers: the stored element, or a
        NullPointerException for a key with no entry. */
    function Lookup(k: int): (c: Cell<E>)
      reads storage
      ensures c.Ok? <==> k in storage.entries
      ensures c.Ok? ==> c.value == storage.entries[k]
      ensures c.Throws? ==> c.error == NullPointer
    {
      if k in storage.entries then Ok(storage.entries[k]) else Throws(NullPointer)
    }

    /** What reading `keys` in order answers, one cell per key. */
    function LookupAll(keys: seq<int>): (vals: seq<Cell<E>>)
      reads storage
      ensures |vals| == |keys| && forall j :: 0 <= j < |keys| ==> vals[j] == Lookup(keys[j])
    {
      if keys == [] then [] else LookupAll(keys[..|keys| - 1]) + [Lookup(keys[|keys| - 1])]
    }

    /** `size()`: the storage's entry count. */
    function Size(): nat
      reads this, storage
    {
      |storage.entries|
    }

    /** What the iterator's `next()` calls answer: `get(0)`, ...,
        `get(n - 1)` for the `n` keys in `elements` (it reads storage keys
        by position, so a position whose key has no entry throws). */
    function Iterated(): (vals: seq<Cell<E>>)
      reads this, storage
      ensures |vals| == |elements|
      ensures forall j :: 0 <= j < |elements| ==> (vals[j].Ok? <==> j in storage.entries)
    {
      LookupAll(Indices(|elements|))
    }

    /** What the list iterator's `next()` calls answer: `get(0)`, ..., up
        to `size()`. */
    function Listed(): (vals: seq<Cell<E>>)
      reads this, storage
      ensures |vals| == Size()
      ensures forall j :: 0 <= j < Size() ==> (vals[j].Ok? <==> j in storage.entries)
    {
      LookupAll(Indices(Size()))
    }

    /** `NyxList(capacity, memSize, poolType)` once its guard has passed;
        the capacity only sizes the on-heap index list. */
    constructor (capacity: nat)
      requires capacity >= 1
      ensures Valid() && fresh(storage)
      ensures storage.entries == map[] && storage.purges == 0
      ensures elements == [] && nextKey == 0 && modCount == 0
    {
      storage := new Storage();
      elements := [];
      nextKey := 0;
      modCount := 0;
    }

    /** `NyxList()`: capacity 16. */
    constructor Default()
      ensures Valid() && fresh(storage)
      ensures storage.entries == map[] && storage.purges == 0
      ensures elements == [] && nextKey == 0 && modCount == 0
    {
      storage := new Storage();
      elements := [];
      nextKey := 0;
      modCount := 0;
    }

    /** `NyxList(capacity, ...)`: a capacity below 1 throws. */
    static method New(capacity: int) returns (r: Result<NyxList<E>>)
      ensures r.Throws? <==> capacity < 1
      ensures r.Throws? ==> r.error == IllegalArgument
      ensures r.Ok? ==> r.value.Valid() && fresh(r.value.storage)
                        && r.value.storage.entries == map[] && r.value.elements == []
                        && r.value.nextKey == 0 && r.value.modCount == 0
    {
      if capacity < 1 {
        return Throws(IllegalArgument);
      }
      var l := new NyxList<E>(capacity);
      return Ok(l);
    }

    /** `isEmpty()`. */
    function IsEmpty(): (b: bool)
      reads this, storage
      ensures b <==> Size() == 0
    {
      |storage.entries| == 0
    }

    /** `add(e)`: stores `e` under the counter, appends that key, advances
        the counter; answers whether `e` is non-null. */
    method Add(e: Option<E>) returns (b: bool)
      requires Valid()
      modifies this, storage
      ensures Valid()
      ensures storage.entries == old(storage.entries)[old(nextKey) := e] && storage.purges == old(storage.purges)
      ensures elements == old(elements) + [old(nextKey)] && nextKey == old(nextKey) + 1
      ensures modCount == old(modCount)
      ensures b <==> e.Some?
    {
      storage.Create(nextKey, e);
      elements := elements + [nextKey];
      nextKey := nextKey + 1;
      return e.Some?;
    }

    /** `add(index, e)`: stores `e` under the counter and advances it, then
        inserts the key at `index`; an index outside `0 .. elements.size()`
        throws after the store and the increment have happened. */
    method AddAt(index: int, e: Option<E>) returns (r: Result<()>)
      requires Valid()
      modifies this, storage
      ensures Valid()
      ensures storage.entries == old(storage.entries)[old(nextKey) := e] && storage.purges == old(storage.purges)
      ensures nextKey == old(nextKey) + 1 && modCount == old(modCount)
      ensures r.Ok? <==> 0 <= index <= |old(elements)|
      ensures r.Ok? ==> elements == old(elements)[..index] + [old(nextKey)] + old(elements)[index..]
      ensures r.Throws? ==> r.error == IndexOutOfBounds && elements == old(elements)
    {
      storage.Create(nextKey, e);
      var key := nextKey;
      nextKey := nextKey + 1;
      if 0 <= index <= |elements| {
        elements := elements[..index] + [key] + elements[index..];
        return Ok(());
      }
      return Throws(IndexOutOfBounds);
    }

    /** `addAll(c)`: `add` of every element of `c` in order; answers
        whether `c` was non-empty. */
    method AddAll(c: seq<Option<E>>) returns (changed: bool)
      requires Valid()
      modifies this, storage
      ensures Valid()
      ensures nextKey == old(nextKey) + |c| && modCount == old(modCount)
      ensures elements == old(elements) + Indices(nextKey)[old(nextKey)..]
      ensures forall k :: k in storage.entries <==> k in old(storage.entries) || old(nextKey) <= k < nextKey
      ensures forall i :: 0 <= i < |c| ==> Lookup(old(nextKey) + i) == Ok(c[i])
      ensures forall k :: k in old(storage.entries) ==> Lookup(k) == old(Lookup(k))
      ensures storage.purges == old(storage.purges)
      ensures changed <==> |c| > 0
    {
      var i := 0;
      while i < |c|
        invariant 0 <= i <= |c| && nextKey == old(nextKey) + i
        invariant Valid() && modCount == old(modCount) && storage.purges == old(storage.purges)
        invariant elements == old(elements) + Indices(nextKey)[old(nextKey)..]
        invariant forall k :: k in storage.entries <==> k in old(storage.entries) || old(nextKey) <= k < nextKey
        invariant forall j :: 0 <= j < i ==> Lookup(old(nextKey) + j) == Ok(c[j])
        invariant forall k :: k in old(storage.entries) ==> Lookup(k) == old(Lookup(k))
        decreases |c| - i
      {
        var _ := Add(c[i]);
        assert Indices(nextKey) == Indices(nextKey - 1) + [nextKey - 1];
        i := i + 1;
      }
      return |c| > 0;
    }

    /** `get(index)`: `storage.read(index)`; the key is the position itself,
        not `elements[index]`, and a key with no entry throws. */
    method Get(index: int) returns (r: Cell<E>)
      ensures r.Ok? <==> index in storage.entries
      ensures r.Ok? ==> r.value == storage.entries[index]
      ensures r.Throws? ==> r.error == NullPointer
    {
      r := storage.Read(index);
    }

    /** `checkMods()`: purges the storage and restarts the count when the
        count before its increment exceeds a third of the size; otherwise
        only increments it. */
    method CheckMods()
      modifies this, storage
      ensures modCount == Counted(old(modCount), |storage.entries|)
      ensures storage.purges == old(storage.purges) + (if Overdue(old(modCount), |storage.entries|) then 1 else 0)
      ensures storage.entries == old(storage.entries)
      ensures elements == old(elements) && nextKey == old(nextKey)
    {
      var before := modCount;
      modCount := modCount + 1;
      if before > |storage.entries| / 3 {
        storage.Purge();
        modCount := 0;
      }
    }

    /** `remove(index)`: deletes the storage entry of `elements[index]` and
        returns its value; `elements` keeps the key, so removing the same
        index again reaches a key with no entry and throws. `checkMods`
        runs in every case, also when the call throws. */
    method RemoveAt(index: int) returns (r: Cell<E>)
      requires Valid()
      modifies this, storage
      ensures Valid() && elements == old(elements) && nextKey == old(nextKey)
      ensures r == Throws(IndexOutOfBounds) <==> !(0 <= index < |old(elements)|)
      ensures 0 <= index < |elements| ==>
                && r == old(Lookup(elements[index]))
                && storage.entries == old(storage.entries) - {elements[index]}
      ensures r.Throws? ==> storage.entries == old(storage.entries)
      ensures modCount == Counted(old(modCount), |storage.entries|)
      ensures storage.purges == old(storage.purges) + (if Overdue(old(modCount), |storage.entries|) then 1 else 0)
    {
      if 0 <= index < |elements| {
        r := storage.Delete(elements[index]);
      } else {
        r := Throws(IndexOutOfBounds);
      }
      CheckMods();
    }

    /** The walk shared by `contains`, `indexOf` and `remove(obj)`: reads
        the value of each key of `keys` in turn and compares it with `obj`,
        stopping at the first match or at a null value. */
    method ScanKeys(keys: seq<int>, obj: Option<E>, nullSafe: bool) returns (r: Result<Option<nat>>)
      ensures r == Scan(LookupAll(keys), obj, nullSafe)
    {
      ghost var vals := LookupAll(keys);
      assert vals[0..] == vals;
      var i := 0;
      while i < |keys|
        invariant 0 <= i <= |keys|
        invariant Scan(vals, obj, nullSafe) == Shift(Scan(vals[i..], obj, nullSafe), i)
        decreases |keys| - i
      {
        var read := storage.Read(keys[i]);
        assert read == vals[i];
        ScanStep(vals, obj, nullSafe, i);
        if read.Throws? {
          return Throws(read.error);
        }
        var next := read.value;
        if next == obj && (next.Some? || nullSafe) {
          return Ok(Some(i));
        }
        if next.None? {
          return Throws(NullPointer);
        }
        i := i + 1;
      }
      return Ok(None);
    }

    /** `remove(obj)`: walks `elements`, reading each key's value, and
        drops the first key whose value is `obj` (null matches null) from
        `elements`; the storage entry stays. A key with no entry met before
        a match throws, and so does a null value when `obj` is non-null. `checkMods` runs only
        when a key was dropped. */
    method RemoveValue(obj: Option<E>) returns (r: Result<bool>)
      requires Valid()
      modifies this, storage
      ensures Valid() && nextKey == old(nextKey) && storage.entries == old(storage.entries)
      ensures var scan := Scan(old(LookupAll(elements)), obj, true);
              match scan
              case Ok(Some(i)) =>
                && r == Ok(true) && elements == old(elements)[..i] + old(elements)[i + 1..]
                && modCount == Counted(old(modCount), |storage.entries|)
                && storage.purges == old(storage.purges) + (if Overdue(old(modCount), |storage.entries|) then 1 else 0)
              case Ok(None) =>
                r == Ok(false) && elements == old(elements) && modCount == old(modCount) && storage.purges == old(storage.purges)
              case Throws(e) =>
                r == Throws(e) && elements == old(elements) && modCount == old(modCount) && storage.purges == old(storage.purges)
    {
      var found := ScanKeys(elements, obj, true);
      match found
      case Ok(Some(i)) =>
        DropKey(elements, i, nextKey);
        elements := elements[..i] + elements[i + 1..];
        CheckMods();
        r := Ok(true);
      case Ok(None) =>
        r := Ok(false);
      case Throws(e) =>
        r := Throws(e);
    }

    /** `contains(obj)`: some iterated element equals `obj` (null matches
        null); a position with no entry before any match throws, and so
        does a null element for non-null `obj`. */
    method Contains(obj: Option<E>) returns (r: Result<bool>)
      ensures var scan := Scan(Iterated(), obj, true);
              (scan.Ok? ==> r == Ok(scan.value.Some?)) && (scan.Throws? ==> r == Throws(scan.error))
      ensures r == Ok(true) ==> Ok(obj) in Iterated()
      ensures r == Ok(false) ==> Unmatched(Iterated(), obj)
      ensures r.Throws? ==> r.error == NullPointer && Blocked(Iterated())
    {
      ghost var vals := Iterated();
      var found := ScanKeys(Indices(|elements|), obj, true);
      if found.Ok? {
        r := Ok(found.value.Some?);
      } else {
        r := Throws(found.error);
      }
      ContainsAnswer(vals, obj, r);
    }

    /** `indexOf(o)`: the position of the first iterated element equal to
        `o`, or -1; `r.equals(o)` throws on a null element met first, and
        the iterator throws at a position with no entry. */
    method IndexOf(o: Option<E>) returns (r: Result<int>)
      ensures var scan := Scan(Iterated(), o, false);
              match scan
              case Ok(Some(i)) => r == Ok(i)
              case Ok(None) => r == Ok(-1)
              case Throws(e) => r == Throws(e)
    {
      var found := ScanKeys(Indices(|elements|), o, false);
      match found
      case Ok(Some(i)) => r := Ok(i);
      case Ok(None) => r := Ok(-1);
      case Throws(e) => r := Throws(e);
    }

    /** `lastIndexOf(o)`: scanning `get(size() - 1)` down to `get(0)`, the
        last position whose element equals `o`, or -1. A null `o` throws as
        soon as there is anything to compare, and so does a position with
        no entry reached before a match. */
    method LastIndexOf(o: Option<E>) returns (r: Result<int>)
      ensures o.None? && Size() > 0 ==> r == Throws(NullPointer)
      ensures Size() == 0 ==> r == Ok(-1)
      ensures r.Ok? ==> -1 <= r.value < Size() && Passed(Listed(), o, r.value)
      ensures r.Ok? && r.value >= 0 ==> Listed()[r.value] == Ok(o)
      ensures r.Throws? ==>
                && r.error == NullPointer
                && (o.None? || exists i :: 0 <= i < Size() && Listed()[i].Throws? && Passed(Listed(), o, i))
    {
      ghost var vals := Listed();
      var i := |storage.entries| - 1;
      while i >= 0
        invariant -1 <= i < Size()
        invariant o.Some? || i == Size() - 1
        invariant Passed(vals, o, i)
        decreases i + 1
      {
        var next := Get(i);
        assert next == vals[i];
        if o.None? {
          return Throws(NullPointer);
        }
        if next.Throws? {
          assert vals[i].Throws? && Passed(vals, o, i);
          return Throws(next.error);
        }
        if o == next.value {
          return Ok(i);
        }
        i := i - 1;
      }
      return Ok(-1);
    }

    /** `hashCode()`: the list hash of the iterated elements, or the
        exception of the first position with no entry. */
    method HashCode(hash: E -> int) returns (h: Result<int>)
      ensures h == HashOf(Iterated(), hash)
    {
      ghost var cells := Iterated();
      ghost var target := HashOf(cells, hash);
      HashStart(cells, hash);
      var acc := 1;
      var i := 0;
      while i < |elements|
        invariant 0 <= i <= |elements| && target == HashFrom(cells[i..], acc, hash)
        decreases |elements| - i
      {
        var e := Get(i);
        assert e == cells[i];
        if e.Throws? {
          assert target == Throws(e.error) by { HashStep(cells, i, acc, hash); }
          return Throws(e.error);
        }
        assert target == HashFrom(cells[i + 1..], Mix(acc, e.value, hash), hash) by { HashStep(cells, i, acc, hash); }
        acc := Mix(acc, e.value, hash);
        i := i + 1;
      }
      assert cells[i..] == [];
      return Ok(acc);
    }

    /** `equals(other)` for another list: the listed elements and `other`
        agree position by position and neither has more; a position with
        no entry reached before a difference throws. */
    method Equals(other: seq<Option<E>>) returns (b: Result<bool>)
      ensures b == Compare(Listed(), other)
    {
      ghost var vals := Listed();
      assert vals[0..] == vals && other[0..] == other;
      var i := 0;
      var n := |storage.entries|;
      while i < n && i < |other|
        invariant 0 <= i <= n && i <= |other|
        invariant Compare(vals, other) == Compare(vals[i..], other[i..])
        decreases n - i
      {
        var o1 := Get(i);
        assert o1 == vals[i];
        CompareStep(vals, other, i);
        if o1.Throws? {
          return Throws(o1.error);
        }
        if o1.value != other[i] {
          return Ok(false);
        }
        i := i + 1;
      }
      CompareStep(vals, other, i);
      return Ok(!(i < n || i < |other|));
    }

    /** `clear()`: empties the index and the storage and restarts the
        modification count; the key counter keeps counting. */
    method Clear()
      requires Valid()
      modifies this, storage
      ensures Valid() && elements == [] && storage.entries == map[] && modCount == 0
      ensures nextKey == old(nextKey) && storage.purges == old(storage.purges)
    {
      elements := [];
      storage.Clear();
      modCount := 0;
    }
  }
}
