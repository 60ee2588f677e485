/** ElasticStorage: the revision of the chunked byte store that the
    collection façades were written against (`create`/`read`/`delete`).
    Unlike ElasticByteStorage it keeps no hash, has no duplicate check on
    `create` (a second `create` of a key re-points it at the new bytes and
    leaves the old ones in the chunks) and dereferences the missing location
    when `read` or `delete` is given an absent key. */
module ElasticStore {
  import opened Lang
  import opened Chunks

  /** The `long[] {from, to}` kept for every live key. */
  datatype Span = Span(start: nat, end: nat)

  /** Every span lies inside the written prefix. */
  ghost predicate SpansWithin<K>(spans: map<K, Span>, limit: nat) {
    forall k :: k in spans ==> spans[k].start <= spans[k].end <= limit
  }

  /** Keys `k1` and `k2`, if both live and distinct, share no byte. */
  ghost predicate SpansApart<K>(spans: map<K, Span>, k1: K, k2: K)
    requires k1 in spans && k2 in spans
  {
    k1 != k2 ==> spans[k1].end <= spans[k2].start || spans[k2].end <= spans[k1].start
  }

  /** The span map is coherent with the log: every span lies in the written
      prefix and no two live spans overlap. */
  ghost predicate Coherent<K>(log: seq<byte>, spans: map<K, Span>) {
    && SpansWithin(spans, |log|)
    && forall k1, k2 {:trigger SpansApart(spans, k1, k2)} ::
         k1 in spans && k2 in spans ==> SpansApart(spans, k1, k2)
  }

  /** The bytes each live key reads back, given everything ever written. */
  ghost function Slices<K>(log: seq<byte>, spans: map<K, Span>): (m: map<K, seq<byte>>)
    requires SpansWithin(spans, |log|)
    ensures m.Keys == spans.Keys
    ensures forall k :: k in m ==> |m[k]| == spans[k].end - spans[k].start
  {
    map k | k in spans :: log[spans[k].start..spans[k].end]
  }

  /** `create`: appending a value at the end of the log and pointing `id` at
      it (whether or not `id` was live) keeps the map coherent. */
  lemma CreateCoherent<K>(log: seq<byte>, spans: map<K, Span>, id: K, more: seq<byte>,
                          log': seq<byte>, spans': map<K, Span>)
    requires Coherent(log, spans)
    requires log' == log + more && spans' == spans[id := Span(|log|, |log| + |more|)]
    ensures Coherent(log', spans')
  {
    assert SpansWithin(spans', |log'|);
    forall k1, k2 | k1 in spans' && k2 in spans'
      ensures SpansApart(spans', k1, k2)
    {
      if k1 != id && k2 != id {
        assert SpansApart(spans, k1, k2);
      }
    }
  }

  /** `create` makes `id` read back the value and leaves every other key
      reading the same. */
  lemma CreateSlices<K>(log: seq<byte>, spans: map<K, Span>, id: K, more: seq<byte>,
                        log': seq<byte>, spans': map<K, Span>)
    requires SpansWithin(spans, |log|)
    requires log' == log + more && spans' == spans[id := Span(|log|, |log| + |more|)]
    ensures SpansWithin(spans', |log'|)
    ensures Slices(log', spans') == Slices(log, spans)[id := more]
  {
    assert log'[|log|..|log| + |more|] == more;
    forall k | k in spans'
      ensures Slices(log', spans')[k] == Slices(log, spans)[id := more][k]
    {
      if k != id {
        assert log'[spans[k].start..spans[k].end] == log[spans[k].start..spans[k].end];
      }
    }
  }

  /** `delete`: forgetting a key keeps the map coherent and drops exactly
      that key. */
  lemma DeleteSpan<K>(log: seq<byte>, spans: map<K, Span>, id: K, spans': map<K, Span>)
    requires Coherent(log, spans) && spans' == spans - {id}
    ensures Coherent(log, spans')
    ensures Slices(log, spans') == Slices(log, spans) - {id}
  {
    forall k1, k2 | k1 in spans' && k2 in spans'
      ensures SpansApart(spans', k1, k2)
    {
      assert SpansApart(spans, k1, k2);
    }
  }

  class ElasticStorage<K(==)> {
    /** The chunk list (`dbbs`). */
    var chunks: seq<array<byte>>
    /** The next free logical offset. */
    var cursor: nat
    var capacity: nat
    /** `elementsLocation`. */
    var locations: map<K, Span>

    /** Every byte written since construction, by logical offset. */
    ghost var Log: seq<byte>
    ghost var Repr: set<object>

    ghost predicate Valid()
      reads this, Repr
    {
      && this in Repr
      && Owns(chunks, Repr)
      && capacity >= DefaultCapacity
      && |Log| == cursor
      && Stores(chunks, capacity, 0, Log)
      && Coherent(Log, locations)
    }

    /** The key -> bytes map the storage presents. */
    ghost function Contents(): map<K, seq<byte>>
      reads this, Repr
      requires Valid()
    {
      Slices(Log, locations)
    }

    /** `ElasticStorage(int capacity)` once its guard has passed. */
    constructor (capacity: nat)
      requires capacity >= DefaultCapacity
      ensures Valid() && fresh(Repr)
      ensures this.capacity == capacity && cursor == 0 && chunks == []
      ensures Contents() == map[]
    {
      this.capacity := capacity;
      chunks := [];
      cursor := 0;
      locations := map[];
      Log := [];
      Repr := {this};
    }

    /** `ElasticStorage()`: the default 4 KiB chunks. */
    constructor Default()
      ensures Valid() && fresh(Repr)
      ensures capacity == DefaultCapacity && cursor == 0 && chunks == []
      ensures Contents() == map[]
    {
      capacity := DefaultCapacity;
      chunks := [];
      cursor := 0;
      locations := map[];
      Log := [];
      Repr := {this};
    }

    /** `ElasticStorage(int capacity)`: a capacity below 4096 throws. */
    static method New(capacity: int) returns (r: Result<ElasticStorage<K>>)
      ensures r.Throws? <==> capacity < DefaultCapacity
      ensures r.Throws? ==> r.error == IllegalArgument
      ensures r.Ok? ==>
                && r.value.Valid() && fresh(r.value.Repr)
                && r.value.capacity == capacity && r.value.Contents() == map[]
    {
      if capacity < DefaultCapacity {
        return Throws(IllegalArgument);
      }
      var s := new ElasticStorage<K>(capacity);
      return Ok(s);
    }

    /** Number of live keys. */
    function Size(): (n: nat)
      reads this, Repr
      requires Valid()
      ensures n == |Contents()|
    {
      |locations|
    }

    /** The live keys (an unmodifiable view in the source). */
    function KeySet(): (keys: set<K>)
      reads this, Repr
      requires Valid()
      ensures keys == Contents().Keys
    {
      locations.Keys
    }

    /** `currentOffset`: where the cursor sits inside its chunk; the cursor
        is that offset past a chunk boundary. */
    function CurrentOffset(): (off: nat)
      reads this
      requires capacity > 0
      ensures off < capacity && cursor == ChunkIndex(cursor, capacity) * capacity + off
    {
      Decompose(cursor, capacity);
      ChunkOffset(cursor, capacity)
    }

    /** `bufferForPosition`: the chunk that holds `pos`, appending a fresh one
        when `pos` is the first offset past the last chunk. */
    method BufferForPosition(pos: nat) returns (buf: array<byte>)
      requires Shaped(chunks, capacity) && ChunkIndex(pos, capacity) <= |chunks|
      modifies this`chunks, this`Repr
      ensures Shaped(chunks, capacity)
      ensures ChunkIndex(pos, capacity) < |chunks| && buf == chunks[ChunkIndex(pos, capacity)]
      ensures ChunkIndex(pos, capacity) < old(|chunks|) ==> chunks == old(chunks) && Repr == old(Repr)
      ensures ChunkIndex(pos, capacity) == old(|chunks|) ==>
                fresh(buf) && chunks == old(chunks) + [buf] && Repr == old(Repr) + {buf}
    {
      var idx := pos / capacity;
      if idx < |chunks| {
        buf := chunks[idx];
      } else {
        buf := new byte[capacity];
        chunks := chunks + [buf];
        Repr := Repr + {buf};
      }
    }

    /** One pass of the loop of `create`: the current chunk (appended when
        the cursor has just crossed into a new one) receives
        `min(space left, bytes left)` bytes of `addme` from index
        `committed` on, and the cursor moves past them. */
    method WriteStep(addme: seq<byte>, committed: nat, ghost written: seq<byte>) returns (size: nat)
      requires this in Repr && Owns(chunks, Repr)
      requires Stores(chunks, capacity, 0, written) && cursor == |written| && committed < |addme|
      modifies this`chunks, this`Repr, this`cursor, chunks
      ensures this in Repr && Owns(chunks, Repr) && old(Repr) <= Repr && fresh(Repr - old(Repr))
      ensures |old(chunks)| <= |chunks| && chunks[..|old(chunks)|] == old(chunks)
      ensures forall i :: |old(chunks)| <= i < |chunks| ==> fresh(chunks[i])
      ensures 0 < size <= |addme| - committed && cursor == old(cursor) + size
      ensures Stores(chunks, capacity, 0, written + addme[committed..committed + size])
      ensures locations == old(locations) && Log == old(Log)
    {
      Frontier(chunks, capacity, written);
      var cbuf := BufferForPosition(cursor);
      if |chunks| > |old(chunks)| {
        StoresGrow(old(chunks), cbuf, capacity, 0, written);
      }
      var offset := CurrentOffset();
      var spaceLeft := capacity - offset;
      size := Min(spaceLeft, |addme| - committed);
      ghost var idx := ChunkIndex(cursor, capacity);
      Decompose(cursor, capacity);
      PutBytes(cbuf, offset, addme, committed, size, chunks, capacity, written, idx);
      cursor := cursor + size;
    }

    /** `create`: appends `addme` at the cursor, chunk by chunk, and points
        `id` at `[old cursor, new cursor)`, replacing any earlier location
        of `id`; returns `id`. */
    method Create(id: K, addme: seq<byte>) returns (r: K)
      requires Valid()
      modifies Repr
      ensures Valid() && fresh(Repr - old(Repr)) && capacity == old(capacity) && r == id
      ensures cursor == old(cursor) + |addme| && Log == old(Log) + addme
      ensures locations == old(locations)[id := Span(old(cursor), cursor)]
      ensures Contents() == old(Contents())[id := addme]
    {
      ghost var log, spans := Log, locations;
      var start := cursor;
      Log := Log + addme;
      var committed := 0;
      while committed < |addme|
        invariant committed <= |addme| && cursor == start + committed
        invariant this in Repr && Owns(chunks, Repr) && old(Repr) <= Repr && fresh(Repr - old(Repr))
        invariant |old(chunks)| <= |chunks| && chunks[..|old(chunks)|] == old(chunks)
        invariant forall i :: |old(chunks)| <= i < |chunks| ==> fresh(chunks[i])
        invariant Stores(chunks, capacity, 0, log + addme[..committed])
        invariant capacity == old(capacity) && locations == spans && Log == log + addme
        decreases |addme| - committed
      {
        ghost var sofar := log + addme[..committed];
        var size := WriteStep(addme, committed, sofar);
        assert sofar + addme[committed..committed + size] == log + addme[..committed + size];
        committed := committed + size;
      }
      assert addme[..committed] == addme;
      locations := locations[id := Span(start, cursor)];
      CreateCoherent(log, spans, id, addme, Log, locations);
      CreateSlices(log, spans, id, addme, Log, locations);
      return id;
    }

    /** `read`: a fresh array holding the bytes stored for `id`; the source
        dereferences the location without a null check, so a key with no
        location throws NullPointerException. */
    method Read(id: K) returns (r: Result<array<byte>>)
      requires Valid()
      ensures r.Ok? <==> id in Contents()
      ensures r.Ok? ==> fresh(r.value) && r.value[..] == Contents()[id]
      ensures r.Throws? ==> r.error == NullPointer
    {
      if id !in locations {
        return Throws(NullPointer);
      }
      var bytes := CopyOut(id);
      return Ok(bytes);
    }

    /** The copy loop of `read` for a live key: the bytes are copied out
        chunk by chunk. Every offset read lies below the cursor, so
        `bufferForPosition` only looks chunks up here. */
    method CopyOut(id: K) returns (r: array<byte>)
      requires Valid() && id in Contents()
      ensures fresh(r) && r[..] == Contents()[id]
    {
      var location := locations[id];
      var result := new byte[location.end - location.start];
      var readed := 0;
      while readed < result.Length
        invariant readed <= result.Length
        invariant forall j :: 0 <= j < readed ==> result[j] == Log[location.start + j]
        decreases result.Length - readed
      {
        var pos := location.start + readed;
        StoredRun(chunks, capacity, 0, Log, pos, 1);
        var bb := chunks[ChunkIndex(pos, capacity)];
        var offset := ChunkOffset(pos, capacity);
        var size := Min(capacity - offset, result.Length - readed);
        ReadRun(bb, result, readed, size, chunks, capacity, Log, pos);
        readed := readed + size;
      }
      assert result[..] == Log[location.start..location.end];
      return result;
    }

    /** `delete`: returns what `read` returns and forgets the key; the chunks
        and the cursor keep the bytes. A key with no location throws in
        `read`, before anything is forgotten. */
    method Delete(id: K) returns (r: Result<array<byte>>)
      requires Valid()
      modifies this`locations
      ensures Valid() && locations == old(locations) - {id}
      ensures r.Ok? <==> id in old(Contents())
      ensures r.Ok? ==> fresh(r.value) && r.value[..] == old(Contents())[id]
      ensures r.Throws? ==> r.error == NullPointer
      ensures Contents() == old(Contents()) - {id}
      ensures chunks == old(chunks) && cursor == old(cursor)
    {
      r := Read(id);
      DeleteSpan(Log, locations, id, locations - {id});
      locations := locations - {id};
    }

    /** `clear`: forgets every key. The chunks are released to the system,
        which the model does not track; the list and the cursor stay. */
    method Clear()
      requires Valid()
      modifies this`locations
      ensures Valid() && Contents() == map[]
      ensures chunks == old(chunks) && cursor == old(cursor)
    {
      locations := map[];
    }
  }
}
