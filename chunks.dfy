/** Positional addressing over a list of fixed-capacity chunks, shared by
    both revisions of the elastic byte store (ElasticByteStorage.java and
    ElasticStorage.java): logical offset `p` lives in chunk `p / capacity`
    at offset `p % capacity`. Each chunk is a direct `ByteBuffer`, modelled
    as an `array<byte>` of exactly `capacity` cells. */
module Chunks {
  import opened Lang

  /** A Java `byte`: a signed 8-bit value. */
  newtype byte = b: int | -128 <= b < 128

  /** `Const._1Kb * 4`: the default chunk capacity and the least one a
      constructor accepts. */
  const DefaultCapacity: nat := 4096

  /** Index of the chunk that holds logical offset `p` (`bufferForPosition`). */
  function ChunkIndex(p: nat, capacity: nat): nat
    requires capacity > 0
  {
    p / capacity
  }

  /** Offset of `p` inside its chunk (`offsetForPosition`). */
  function ChunkOffset(p: nat, capacity: nat): (off: nat)
    requires capacity > 0
    ensures off < capacity
  {
    p % capacity
  }

  lemma MulMono(x: nat, y: nat, c: nat)
    requires x <= y
    ensures x * c <= y * c
  {
    var d := y - x;
    assert y * c == x * c + d * c;
  }

  /** Every offset is its chunk's start plus its in-chunk offset. */
  lemma Decompose(p: nat, c: nat)
    requires c > 0
    ensures p == ChunkIndex(p, c) * c + ChunkOffset(p, c)
  {
  }

  /** Chunk `idx` at offset `off` is logical offset `idx * c + off`, and back. */
  lemma Addressing(idx: nat, off: nat, c: nat)
    requires off < c
    ensures ChunkIndex(idx * c + off, c) == idx
    ensures ChunkOffset(idx * c + off, c) == off
  {
    var p := idx * c + off;
    Decompose(p, c);
    var q := ChunkIndex(p, c);
    if q < idx {
      MulMono(q + 1, idx, c);
    } else if q > idx {
      MulMono(idx + 1, q, c);
    }
  }

  /** Lower offsets sit in an earlier chunk or earlier in the same chunk. */
  lemma Ordering(p: nat, q: nat, c: nat)
    requires c > 0 && p < q
    ensures ChunkIndex(p, c) < ChunkIndex(q, c)
         || (ChunkIndex(p, c) == ChunkIndex(q, c) && ChunkOffset(p, c) < ChunkOffset(q, c))
  {
    Decompose(p, c);
    Decompose(q, c);
    if ChunkIndex(p, c) > ChunkIndex(q, c) {
      MulMono(ChunkIndex(q, c) + 1, ChunkIndex(p, c), c);
    }
  }

  /** The chunk list is well formed: every chunk has `capacity` cells and no
      chunk appears twice. */
  predicate Shaped(chunks: seq<array<byte>>, capacity: nat) {
    && capacity > 0
    && (forall i :: 0 <= i < |chunks| ==> chunks[i].Length == capacity)
    && (forall i, j :: 0 <= i < j < |chunks| ==> chunks[i] != chunks[j])
  }

  /** Every chunk belongs to the footprint `repr` of its storage. */
  ghost predicate Owns(chunks: seq<array<byte>>, repr: set<object>) {
    forall i :: 0 <= i < |chunks| ==> chunks[i] in repr
  }

  /** The byte at logical offset `p`. */
  ghost function ByteAt(chunks: seq<array<byte>>, capacity: nat, p: nat): byte
    reads chunks
    requires Shaped(chunks, capacity) && ChunkIndex(p, capacity) < |chunks|
  {
    chunks[ChunkIndex(p, capacity)][ChunkOffset(p, capacity)]
  }

  /** The chunks hold `data` at logical offsets `lo .. lo + |data|`. */
  ghost predicate Stores(chunks: seq<array<byte>>, capacity: nat, lo: nat, data: seq<byte>)
    reads chunks
  {
    && Shaped(chunks, capacity)
    && forall p :: lo <= p < lo + |data| ==>
         ChunkIndex(p, capacity) < |chunks| && ByteAt(chunks, capacity, p) == data[p - lo]
  }

  /** Appending a fresh chunk does not move any stored byte. */
  lemma StoresGrow(chunks: seq<array<byte>>, fresh_chunk: array<byte>, capacity: nat, lo: nat, data: seq<byte>)
    requires Stores(chunks, capacity, lo, data)
    requires Shaped(chunks + [fresh_chunk], capacity)
    ensures Stores(chunks + [fresh_chunk], capacity, lo, data)
  {
    var grown := chunks + [fresh_chunk];
    forall p | lo <= p < lo + |data|
      ensures ChunkIndex(p, capacity) < |grown| && ByteAt(grown, capacity, p) == data[p - lo]
    {
      assert ChunkIndex(p, capacity) < |chunks| && ByteAt(chunks, capacity, p) == data[p - lo];
      assert grown[ChunkIndex(p, capacity)] == chunks[ChunkIndex(p, capacity)];
    }
  }

  /** A run of `n` bytes that stays inside one chunk reads back from that
      chunk's cells. */
  lemma StoredRun(chunks: seq<array<byte>>, capacity: nat, lo: nat, data: seq<byte>, p: nat, n: nat)
    requires Stores(chunks, capacity, lo, data)
    requires lo <= p && p + n <= lo + |data| && ChunkOffset(p, capacity) + n <= capacity
    requires n > 0
    ensures ChunkIndex(p, capacity) < |chunks|
    ensures forall o :: ChunkOffset(p, capacity) <= o < ChunkOffset(p, capacity) + n ==>
              chunks[ChunkIndex(p, capacity)][o] == data[p - lo + (o - ChunkOffset(p, capacity))]
  {
    var idx, off := ChunkIndex(p, capacity), ChunkOffset(p, capacity);
    Decompose(p, capacity);
    assert ChunkIndex(p, capacity) < |chunks| && ByteAt(chunks, capacity, p) == data[p - lo];
    forall o | off <= o < off + n
      ensures chunks[idx][o] == data[p - lo + (o - off)]
    {
      Addressing(idx, o, capacity);
      assert idx * capacity + o == p + (o - off);
      assert ByteAt(chunks, capacity, p + (o - off)) == data[p - lo + (o - off)];
    }
  }

  /** The next offset is in the same chunk or the one after it. */
  lemma NextIndex(p: nat, c: nat)
    requires c > 0
    ensures ChunkIndex(p + 1, c) <= ChunkIndex(p, c) + 1
  {
    Decompose(p, c);
    if ChunkOffset(p, c) + 1 < c {
      Addressing(ChunkIndex(p, c), ChunkOffset(p, c) + 1, c);
    } else {
      assert p + 1 == (ChunkIndex(p, c) + 1) * c + 0;
      Addressing(ChunkIndex(p, c) + 1, 0, c);
    }
  }

  /** The chunks that hold a run from offset 0 reach up to its end: the
      offset just past it lies in an existing chunk or the next one. */
  lemma Frontier(chunks: seq<array<byte>>, capacity: nat, data: seq<byte>)
    requires Stores(chunks, capacity, 0, data)
    ensures ChunkIndex(|data|, capacity) <= |chunks|
  {
    if |data| > 0 {
      var p := |data| - 1;
      assert ChunkIndex(p, capacity) < |chunks| && ByteAt(chunks, capacity, p) == data[p];
      NextIndex(p, capacity);
    }
  }

  /** `ByteBuffer.put(src, from, n)` on chunk `idx` positioned at `off`,
      where the run written so far ends: the chunks then hold that run
      followed by `src[from .. from + n]`. */
  method PutBytes(buf: array<byte>, off: nat, src: seq<byte>, from: nat, n: nat,
                  ghost chunks: seq<array<byte>>, ghost capacity: nat, ghost written: seq<byte>, ghost idx: nat)
    requires Stores(chunks, capacity, 0, written)
    requires idx < |chunks| && buf == chunks[idx]
    requires off < capacity && off + n <= capacity && from + n <= |src|
    requires |written| == idx * capacity + off
    modifies buf
    ensures Stores(chunks, capacity, 0, written + src[from..from + n])
  {
    forall o | off <= o < off + n {
      buf[o] := src[from + (o - off)];
    }
    var all := written + src[from..from + n];
    forall p | 0 <= p < |all|
      ensures ChunkIndex(p, capacity) < |chunks| && ByteAt(chunks, capacity, p) == all[p]
    {
      if p < |written| {
        Ordering(p, idx * capacity + off, capacity);
        Addressing(idx, off, capacity);
        assert old(ByteAt(chunks, capacity, p)) == written[p];
      } else {
        Addressing(idx, off + (p - |written|), capacity);
      }
    }
  }

  /** One step of a read: `n` bytes at logical offset `p`, all inside the
      chunk `buf` that holds `p`, copied to `dst[at..at + n]`. */
  method ReadRun(buf: array<byte>, dst: array<byte>, at: nat, n: nat,
                 ghost chunks: seq<array<byte>>, capacity: nat, ghost data: seq<byte>, p: nat)
    requires Stores(chunks, capacity, 0, data)
    requires p + n <= |data| && ChunkOffset(p, capacity) + n <= capacity && n > 0
    requires ChunkIndex(p, capacity) < |chunks| && buf == chunks[ChunkIndex(p, capacity)]
    requires at + n <= dst.Length && buf != dst
    modifies dst
    ensures forall o :: at <= o < at + n ==> dst[o] == data[p + (o - at)]
    ensures forall o :: 0 <= o < dst.Length && !(at <= o < at + n) ==> dst[o] == old(dst[o])
  {
    StoredRun(chunks, capacity, 0, data, p, n);
    GetBytes(buf, ChunkOffset(p, capacity), dst, at, n);
  }

  /** `ByteBuffer.get(dst, at, n)` from buffer position `off`. */
  method GetBytes(buf: array<byte>, off: nat, dst: array<byte>, at: nat, n: nat)
    requires off + n <= buf.Length && at + n <= dst.Length && buf != dst
    modifies dst
    ensures forall o :: at <= o < at + n ==> dst[o] == buf[off + (o - at)]
    ensures forall o :: 0 <= o < dst.Length && !(at <= o < at + n) ==> dst[o] == old(dst[o])
  {
    forall o | at <= o < at + n {
      dst[o] := buf[off + o - at];
    }
  }
}
