/** ElasticByteStorage: the append-only chunked byte store behind the
    `Storage` interface (put/get/remove/update/purge/contains). Every value is
    appended at the write cursor; the location map remembers where each live
    key's bytes are; remove only forgets the key; purge compacts. */
module ByteStorage {
  import opened Lang
  import opened Chunks

  /** The `long[] {from, to, hashCode}` kept for every live key. */
  datatype Location = Location(start: nat, end: nat, hash: int)

  /** `java.util.Arrays.hashCode(byte[])`: start at 1, then `31 * h + b` for
      every byte, in 32-bit arithmetic. */
  function HashCode(s: seq<byte>): (h: int)
    ensures IsInt32(h)
  {
    if s == [] then 1 else Wrap32(31 * HashCode(s[..|s| - 1]) + s[|s| - 1] as int)
  }

  /** Every location lies inside the written prefix. */
  ghost predicate Within<K>(locs: map<K, Location>, limit: nat) {
    forall k :: k in locs ==> locs[k].start <= locs[k].end <= limit
  }

  /** Keys `k1` and `k2`, if both live and distinct, share no byte. */
  ghost predicate Apart<K>(locs: map<K, Location>, k1: K, k2: K)
    requires k1 in locs && k2 in locs
  {
    k1 != k2 ==> locs[k1].end <= locs[k2].start || locs[k2].end <= locs[k1].start
  }

  /** No two live keys share a byte. The quantifier fires only on an
      explicit `Apart` term, which keeps it out of unrelated proofs. */
  ghost predicate Disjoint<K>(locs: map<K, Location>) {
    forall k1, k2 {:trigger Apart(locs, k1, k2)} :: k1 in locs && k2 in locs ==> Apart(locs, k1, k2)
  }

  /** The location map is coherent with the log: every range lies in the
      written prefix, no two live ranges overlap, and each stored hash is
      `Arrays.hashCode` of the bytes in its range. */
  ghost predicate Indexed<K>(log: seq<byte>, locs: map<K, Location>) {
    && Within(locs, |log|)
    && Disjoint(locs)
    && forall k :: k in locs ==> locs[k].hash == HashCode(log[locs[k].start..locs[k].end])
  }

  /** The bytes each live key reads back, given everything ever written. */
  ghost function View<K>(log: seq<byte>, locs: map<K, Location>): (m: map<K, seq<byte>>)
    requires Within(locs, |log|)
    ensures m.Keys == locs.Keys
    ensures forall k :: k in m ==> |m[k]| == locs[k].end - locs[k].start
  {
    map k | k in locs :: log[locs[k].start..locs[k].end]
  }

  /** Appending bytes to the log leaves every recorded range reading the same. */
  lemma SlicesKept<K>(log: seq<byte>, locs: map<K, Location>, more: seq<byte>)
    requires Within(locs, |log|)
    ensures forall k :: k in locs ==>
              (log + more)[locs[k].start..locs[k].end] == log[locs[k].start..locs[k].end]
  {
    forall k | k in locs
      ensures (log + more)[locs[k].start..locs[k].end] == log[locs[k].start..locs[k].end]
    {
    }
  }

  /** Appending a value at the end of the log and recording its range (and
      hash) under a new key keeps the map coherent. */
  lemma IndexedAppend<K>(log: seq<byte>, locs: map<K, Location>, id: K, more: seq<byte>)
    requires Indexed(log, locs) && id !in locs
    ensures Indexed(log + more, locs[id := Location(|log|, |log| + |more|, HashCode(more))])
  {
    var loc := Location(|log|, |log| + |more|, HashCode(more));
    var locs' := locs[id := loc];
    var log' := log + more;
    assert log'[loc.start..loc.end] == more;
    SlicesKept(log, locs, more);
    assert Within(locs', |log'|);
    forall k1, k2 | k1 in locs' && k2 in locs'
      ensures Apart(locs', k1, k2)
    {
      if k1 != id && k2 != id {
        assert Apart(locs, k1, k2);
      }
    }
    forall k | k in locs'
      ensures locs'[k].hash == HashCode(log'[locs'[k].start..locs'[k].end])
    {
    }
  }

  /** Appending a value at the end of the log and recording its range under
      a new key adds exactly that key, and moves nothing else. */
  lemma ViewAppend<K>(log: seq<byte>, locs: map<K, Location>, id: K, more: seq<byte>, h: int,
                      log': seq<byte>, locs': map<K, Location>)
    requires Within(locs, |log|)
    requires log' == log + more && locs' == locs[id := Location(|log|, |log| + |more|, h)]
    ensures Within(locs', |log'|)
    ensures View(log', locs') == View(log, locs)[id := more]
  {
    assert log'[|log|..|log| + |more|] == more;
    SlicesKept(log, locs, more);
    forall k | k in locs'
      ensures View(log', locs')[k] == View(log, locs)[id := more][k]
    {
      if k != id {
        assert View(log', locs')[k] == log'[locs[k].start..locs[k].end];
      }
    }
  }

  /** Forgetting a key keeps the map coherent and drops exactly that key. */
  lemma IndexedRemove<K>(log: seq<byte>, locs: map<K, Location>, id: K)
    requires Indexed(log, locs)
    ensures Indexed(log, locs - {id})
    ensures View(log, locs - {id}) == View(log, locs) - {id}
  {
    var locs' := locs - {id};
    forall k1, k2 | k1 in locs' && k2 in locs'
      ensures Apart(locs', k1, k2)
    {
      assert Apart(locs, k1, k2);
    }
  }

  /** Dropping a key and then setting it is the same as setting it. */
  lemma RemoveThenSet<K, V>(m: map<K, V>, k: K, v: V)
    ensures (m - {k})[k := v] == m[k := v]
  {
  }

  /** Putting back one of the keys taken out of a map. */
  lemma PutBack<K, V>(m: map<K, V>, s: set<K>, k: K)
    requires k in s && k in m
    ensures k !in m - s
    ensures (m - s)[k := m[k]] == m - (s - {k})
  {
  }

  /** Total number of bytes held by the values of `m`. */
  ghost function SumLengths<K>(m: map<K, seq<byte>>): nat
    decreases |m|
  {
    if m == map[] then 0
    else
      var k :| k in m;
      assert |m - {k}| < |m| by { assert (m - {k}).Keys == m.Keys - {k}; }
      |m[k]| + SumLengths(m - {k})
  }

  /** The total does not depend on which key is taken out first. */
  lemma {:induction false} SumLengthsRemove<K>(m: map<K, seq<byte>>, k: K)
    requires k in m
    ensures SumLengths(m) == |m[k]| + SumLengths(m - {k})
    decreases |m|
  {
    var k0 :| k0 in m && SumLengths(m) == |m[k0]| + SumLengths(m - {k0});
    if k0 != k {
      assert (m - {k0}).Keys == m.Keys - {k0};
      assert (m - {k}).Keys == m.Keys - {k};
      SumLengthsRemove(m - {k0}, k);
      SumLengthsRemove(m - {k}, k0);
      assert m - {k0} - {k} == m - {k} - {k0};
    }
  }

  /** Adding a new key adds its length to the total. */
  lemma SumLengthsAdd<K>(m: map<K, seq<byte>>, k: K, v: seq<byte>)
    requires k !in m
    ensures SumLengths(m[k := v]) == SumLengths(m) + |v|
  {
    SumLengthsRemove(m[k := v], k);
    assert m[k := v] - {k} == m;
  }

  class ElasticByteStorage<K(==)> {
    /** The chunk list (`dbbs`). */
    var chunks: seq<array<byte>>
    /** The next free logical offset. */
    var cursor: nat
    var capacity: nat
    /** `elementsLocation`. */
    var locations: map<K, Location>

    /** Every byte written since construction (or the last purge), by logical offset. */
    ghost var Log: seq<byte>
    ghost var Repr: set<object>

    ghost predicate Valid()
      reads this, Repr
    {
      && this in Repr
      && Owns(chunks, Repr)
      && capacity >= DefaultCapacity
      && |Log| == cursor
      && Stores(chunks, capacity, 0, Log)
      && Indexed(Log, locations)
    }

    /** The key -> bytes map the storage presents. */
    ghost function Contents(): map<K, seq<byte>>
      reads this, Repr
      requires Valid()
    {
      View(Log, locations)
    }

    /** `ElasticByteStorage(int capacity)` once its guard has passed. */
    constructor (capacity: nat)
      requires capacity >= DefaultCapacity
      ensures Valid() && fresh(Repr)
      ensures this.capacity == capacity && cursor == 0 && chunks == []
      ensures Contents() == map[]
    {
      this.capacity := capacity;
      chunks := [];
      cursor := 0;
      locations := map[];
      Log := [];
      Repr := {this};
    }

    /** `ElasticByteStorage()`: the default 4 KiB chunks. */
    constructor Default()
      ensures Valid() && fresh(Repr)
      ensures capacity == DefaultCapacity && cursor == 0 && chunks == []
      ensures Contents() == map[]
    {
      capacity := DefaultCapacity;
      chunks := [];
      cursor := 0;
      locations := map[];
      Log := [];
      Repr := {this};
    }

    /** `ElasticByteStorage(int capacity)`: a capacity below 4096 throws. */
    static method New(capacity: int) returns (r: Result<ElasticByteStorage<K>>)
      ensures r.Throws? <==> capacity < DefaultCapacity
      ensures r.Throws? ==> r.error == IllegalArgument
      ensures r.Ok? ==>
                && r.value.Valid() && fresh(r.value.Repr)
                && r.value.capacity == capacity && r.value.Contents() == map[]
    {
      if capacity < DefaultCapacity {
        return Throws(IllegalArgument);
      }
      var s := new ElasticByteStorage<K>(capacity);
      return Ok(s);
    }

    /** Number of live keys. */
    function Size(): (n: nat)
      reads this, Repr
      requires Valid()
      ensures n == |Contents()|
    {
      |locations|
    }

    /** The live keys (a read-only view in the source). */
    function KeySet(): (keys: set<K>)
      reads this, Repr
      requires Valid()
      ensures keys == Contents().Keys
    {
      locations.Keys
    }

    /** `bufferForPosition`: the chunk that holds `pos`, appending a fresh one
        when `pos` is the first offset past the last chunk. */
    method BufferForPosition(pos: nat) returns (buf: array<byte>)
      requires Shaped(chunks, capacity) && ChunkIndex(pos, capacity) <= |chunks|
      modifies this`chunks, this`Repr
      ensures Shaped(chunks, capacity)
      ensures ChunkIndex(pos, capacity) < |chunks| && buf == chunks[ChunkIndex(pos, capacity)]
      ensures ChunkIndex(pos, capacity) < old(|chunks|) ==> chunks == old(chunks) && Repr == old(Repr)
      ensures ChunkIndex(pos, capacity) == old(|chunks|) ==>
                fresh(buf) && chunks == old(chunks) + [buf] && Repr == old(Repr) + {buf}
    {
      var idx := pos / capacity;
      if idx < |chunks| {
        buf := chunks[idx];
      } else {
        buf := new byte[capacity];
        chunks := chunks + [buf];
        Repr := Repr + {buf};
      }
    }

    /** `incremenetCursor`: reserves `[cursor, cursor + |addme|)` and the hash. */
    method IncrementCursor(addme: seq<byte>) returns (location: Location)
      modifies this`cursor
      ensures location == Location(old(cursor), old(cursor) + |addme|, HashCode(addme))
      ensures cursor == old(cursor) + |addme|
    {
      location := Location(cursor, cursor + |addme|, HashCode(addme));
      cursor := cursor + |addme|;
    }

    /** One pass of the copy loop of `put`: the chunk holding logical offset
        `pos` (appended when `pos` is the first offset past the last chunk)
        receives `min(room left in chunk, bytes left)` bytes of `addme`,
        from index `committed` on. */
    method WriteRun(pos: nat, addme: seq<byte>, committed: nat, ghost written: seq<byte>) returns (size: nat)
      requires this in Repr && Owns(chunks, Repr)
      requires Stores(chunks, capacity, 0, written) && pos == |written| && committed < |addme|
      modifies this`chunks, this`Repr, chunks
      ensures this in Repr && Owns(chunks, Repr) && old(Repr) <= Repr && fresh(Repr - old(Repr))
      ensures |old(chunks)| <= |chunks| && chunks[..|old(chunks)|] == old(chunks)
      ensures forall i :: |old(chunks)| <= i < |chunks| ==> fresh(chunks[i])
      ensures 0 < size <= |addme| - committed
      ensures Stores(chunks, capacity, 0, written + addme[committed..committed + size])
      ensures cursor == old(cursor) && locations == old(locations) && Log == old(Log)
    {
      Frontier(chunks, capacity, written);
      var cbuf := BufferForPosition(pos);
      if |chunks| > |old(chunks)| {
        StoresGrow(old(chunks), cbuf, capacity, 0, written);
      }
      var offset := ChunkOffset(pos, capacity);
      size := Min(capacity - offset, |addme| - committed);
      ghost var idx := ChunkIndex(pos, capacity);
      Decompose(pos, capacity);
      PutBytes(cbuf, offset, addme, committed, size, chunks, capacity, written, idx);
    }

    /** The copy loop of `put`: writes `addme` from logical offset `start`
        (the end of the log) on, one chunk's worth per pass, appending
        chunks as the write crosses into them. */
    method Append(start: nat, addme: seq<byte>, ghost written: seq<byte>)
      requires this in Repr && Owns(chunks, Repr)
      requires Stores(chunks, capacity, 0, written) && start == |written|
      modifies this`chunks, this`Repr, chunks
      ensures this in Repr && Owns(chunks, Repr) && old(Repr) <= Repr && fresh(Repr - old(Repr))
      ensures Stores(chunks, capacity, 0, written + addme)
      ensures cursor == old(cursor) && locations == old(locations) && Log == old(Log)
    {
      var lCursor := start;
      var committed := 0;
      while committed < |addme|
        invariant committed <= |addme| && lCursor == start + committed
        invariant this in Repr && Owns(chunks, Repr) && old(Repr) <= Repr && fresh(Repr - old(Repr))
        invariant |old(chunks)| <= |chunks| && chunks[..|old(chunks)|] == old(chunks)
        invariant forall i :: |old(chunks)| <= i < |chunks| ==> fresh(chunks[i])
        invariant Stores(chunks, capacity, 0, written + addme[..committed])
        invariant cursor == old(cursor) && locations == old(locations) && Log == old(Log)
        decreases |addme| - committed
      {
        ghost var sofar := written + addme[..committed];
        var size := WriteRun(lCursor, addme, committed, sofar);
        assert sofar + addme[committed..committed + size] == written + addme[..committed + size];
        lCursor := lCursor + size;
        committed := committed + size;
      }
      assert addme[..committed] == addme;
    }

    /** The body of `put` past its duplicate check: reserves the range at the
        cursor, copies the bytes in, then records the location. */
    method Insert(id: K, addme: seq<byte>)
      requires Valid() && id !in locations
      modifies Repr
      ensures Valid() && fresh(Repr - old(Repr)) && capacity == old(capacity)
      ensures cursor == old(cursor) + |addme| && Log == old(Log) + addme
      ensures locations == old(locations)[id := Location(old(cursor), cursor, HashCode(addme))]
    {
      var location := IncrementCursor(addme);
      IndexedAppend(Log, locations, id, addme);
      ghost var written := Log;
      Log := Log + addme;
      Append(location.start, addme, written);
      locations := locations[id := location];
      assert location == Location(old(cursor), cursor, HashCode(addme));
    }

    /** `put`: a key already present throws and changes nothing; otherwise
        the bytes are appended at the cursor and the key records
        `[old cursor, new cursor)` with the bytes' hash. */
    method Put(id: K, addme: seq<byte>) returns (r: Result<seq<byte>>)
      requires Valid()
      modifies Repr
      ensures Valid() && fresh(Repr - old(Repr)) && capacity == old(capacity)
      ensures id in old(locations) ==>
                r == Throws(IllegalArgument) && locations == old(locations)
                && cursor == old(cursor) && Log == old(Log)
      ensures id !in old(locations) ==>
                && r == Ok(addme)
                && cursor == old(cursor) + |addme|
                && Log == old(Log) + addme
                && locations == old(locations)[id := Location(old(cursor), cursor, HashCode(addme))]
      ensures Contents() == if id in old(locations) then old(Contents()) else old(Contents())[id := addme]
    {
      if id in locations {
        return Throws(IllegalArgument);
      }
      ghost var log, locs, before := Log, locations, Contents();
      Insert(id, addme);
      ViewAppend(log, locs, id, addme, HashCode(addme), Log, locations);
      return Ok(addme);
    }

    /** `get`: null for an absent key, otherwise a fresh array holding the
        bytes stored for it, copied out chunk by chunk. Every offset read lies
        below the cursor, so `bufferForPosition` only looks chunks up here. */
    method Get(id: K) returns (r: array?<byte>)
      requires Valid()
      ensures r == null <==> id !in Contents()
      ensures r != null ==> fresh(r) && r[..] == Contents()[id]
    {
      if id !in locations {
        return null;
      }
      var location := locations[id];
      var result := new byte[location.end - location.start];
      var readed := 0;
      while readed < result.Length
        invariant readed <= result.Length
        invariant forall j :: 0 <= j < readed ==> result[j] == Log[location.start + j]
        decreases result.Length - readed
      {
        var pos := location.start + readed;
        StoredRun(chunks, capacity, 0, Log, pos, 1);
        var bb := chunks[ChunkIndex(pos, capacity)];
        var offset := ChunkOffset(pos, capacity);
        var size := Min(capacity - offset, result.Length - readed);
        ReadRun(bb, result, readed, size, chunks, capacity, Log, pos);
        readed := readed + size;
      }
      assert result[..] == Log[location.start..location.end];
      return result;
    }

    /** `remove`: returns what `get` returns and forgets the key; the chunks
        and the cursor keep the bytes (only a purge reclaims them). */
    method Remove(id: K) returns (r: array?<byte>)
      requires Valid()
      modifies this`locations
      ensures Valid() && locations == old(locations) - {id}
      ensures r == null <==> id !in old(Contents())
      ensures r != null ==> fresh(r) && r[..] == old(Contents())[id]
      ensures Contents() == old(Contents()) - {id}
    {
      r := Get(id);
      IndexedRemove(Log, locations, id);
      locations := locations - {id};
    }

    /** `update`: remove, then put; returns the old bytes (null if none). */
    method Update(key: K, value: seq<byte>) returns (r: array?<byte>)
      requires Valid()
      modifies Repr
      ensures Valid() && fresh(Repr - old(Repr))
      ensures r == null <==> key !in old(Contents())
      ensures r != null ==> r[..] == old(Contents())[key]
      ensures Contents() == old(Contents())[key := value]
    {
      ghost var before := Contents();
      r := Remove(key);
      var _ := Put(key, value);
      RemoveThenSet(before, key, value);
    }

    /** `clear`: forgets every key. The chunks are released to the system,
        which the model does not track; the list and the cursor stay. */
    method Clear()
      requires Valid()
      modifies this`locations
      ensures Valid() && Contents() == map[]
      ensures chunks == old(chunks) && cursor == old(cursor)
    {
      locations := map[];
    }

    /** `contains`: a live key whose bytes equal `value`; the stored hash is
        checked first, and only on a match are the bytes compared. */
    method Contains(value: seq<byte>) returns (found: bool)
      requires Valid()
      ensures found <==> exists k :: k in Contents() && Contents()[k] == value
    {
      var hashCode := HashCode(value);
      var remaining := locations.Keys;
      while remaining != {}
        invariant remaining <= locations.Keys
        invariant forall k :: k in locations && k !in remaining ==> Contents()[k] != value
        decreases remaining
      {
        var k :| k in remaining;
        if locations[k].hash == hashCode {
          var bytes := Get(k);
          if bytes[..] == value {
            return true;
          }
        }
        remaining := remaining - {k};
      }
      return false;
    }

    /** The reading half of `purge`'s copy loop: `get` of every live key. */
    method Snapshot() returns (values: map<K, seq<byte>>)
      requires Valid()
      ensures values == Contents()
    {
      ghost var live := Contents();
      values := map[];
      var remaining := locations.Keys;
      assert live - remaining == map[];
      while remaining != {}
        invariant remaining <= live.Keys
        invariant values == live - remaining
        decreases remaining
      {
        var k :| k in remaining;
        PutBack(live, remaining, k);
        var bytes := Get(k);
        values := values[k := bytes[..]];
        remaining := remaining - {k};
      }
      assert live - remaining == live;
    }

    /** The writing half of `purge`'s copy loop: a fresh storage of the given
        capacity into which every value has been put, in map order. */
    static method Load(values: map<K, seq<byte>>, capacity: nat) returns (copy: ElasticByteStorage<K>)
      requires capacity >= DefaultCapacity
      ensures copy.Valid() && fresh(copy.Repr) && copy.capacity == capacity
      ensures copy.Contents() == values
      ensures copy.cursor == SumLengths(values)
    {
      copy := new ElasticByteStorage<K>(capacity);
      var remaining := values.Keys;
      assert values - remaining == map[];
      while remaining != {}
        invariant copy.Valid() && fresh(copy.Repr) && copy.capacity == capacity
        invariant remaining <= values.Keys
        invariant copy.Contents() == values - remaining
        invariant copy.cursor == SumLengths(copy.Contents())
        decreases remaining
      {
        var k :| k in remaining;
        PutBack(values, remaining, k);
        SumLengthsAdd(copy.Contents(), k, values[k]);
        var _ := copy.Put(k, values[k]);
        remaining := remaining - {k};
      }
      assert values - remaining == values;
    }

    /** The last step of `purge`: this storage takes over the chunks, the
        locations and the cursor of `copy`. */
    method Adopt(copy: ElasticByteStorage<K>)
      requires Valid() && copy.Valid() && this !in copy.Repr && copy.capacity == capacity
      modifies this
      ensures Valid() && Repr == copy.Repr - {copy} + {this}
      ensures capacity == old(capacity) && cursor == copy.cursor && Contents() == copy.Contents()
    {
      var newChunks, newLocations, newCursor := copy.chunks, copy.locations, copy.cursor;
      ghost var newLog, newRepr := copy.Log, copy.Repr;
      assert forall i :: 0 <= i < |newChunks| ==> newChunks[i] in newRepr && newChunks[i] as object != this && newChunks[i] as object != copy;
      chunks, locations, cursor, Log, Repr := newChunks, newLocations, newCursor, newLog, newRepr - {copy} + {this};
    }

    /** `purge`: copies every live value into a fresh storage of the same
        capacity, then takes over its chunks, locations and cursor. */
    method Purge()
      requires Valid()
      modifies this
      ensures Valid() && fresh(Repr - old(Repr))
      ensures capacity == old(capacity)
      ensures Contents() == old(Contents())
      ensures cursor == SumLengths(old(Contents()))
    {
      var values := Snapshot();
      var copy := Load(values, capacity);
      Adopt(copy);
    }
  }
}
