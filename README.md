# nyx off-heap collections, modelled in Dafny

nyx keeps Java collections outside the garbage-collected heap. Elements are
serialized to bytes and appended to direct `ByteBuffer`s. On-heap structures
remember only where each element's bytes are. This project models the core of
that design and proves what each operation promises.

- **Chunked byte stores** (`byte_storage.dfy`, `elastic_storage.dfy`,
  `chunks.dfy`). Two revisions of an append-only store over a growing list of
  fixed-capacity chunks: `ElasticByteStorage` (put/get/remove/update/purge/
  contains) and `ElasticStorage` (create/read/delete). Logical offset `p`
  lives in chunk `p / capacity` at offset `p % capacity`. Copies proceed one
  `min(room left in the chunk, bytes left)` run at a time. A ghost `Log`
  records every byte ever written. The invariant ties each chunk cell to the
  log and keeps the live ranges inside the log and pairwise disjoint. Each
  key's bytes are the log slice of its range.
- **DbbList** (`dbb_list.dfy`). The single-buffer predecessor. Every `add`
  streams an element's encoding into a reusable stream, copies it into one
  buffer, and records the element's range in the `from`/`to` arrays and its
  index in `number`. `subList(a, b)` and `get` decode entries back.
  Serialization is a pair of functions `encode`/`decode`. The round trip is
  proved under the hypothesis that `decode` undoes `encode` (`RoundTrips`).
- **Collection façades** (`nyx_list.dfy`, `nyx_map.dfy`, `nyx_set.dfy`,
  `nyx_queue.dfy`) over the abstract key → value storage of `store.dfy`.
  They cover the key counter, the `elements` index list, the scans that
  compare elements, and the "purge after more than size/3 modifications"
  trigger. Java `null` is `Option.None`. Exceptions are `Result.Throws`.
- **Small parts**:
  - `ResourcePool`, a bounded FIFO (`pool.dfy`);
  - the `NULL` sentinel and `NullConverter`'s null masking (`consts.dfy`);
  - `Fn`'s filter/mapTo/forEach (`fn.dfy`);
  - the `KeyValue`/`KVal` entry records (`entries.dfy`).

Where the behaviour described for the library and its code disagree, the
model follows the code:

- `ElasticByteStorage.clear` and `ElasticStorage.clear` free every chunk
  through the `cleaner` but keep the chunk list and the cursor. The key
  index is emptied.
- `ElasticStorage.read`/`delete` of an absent key dereference a missing
  location and throw NullPointerException. ObjectPool's `read`/`delete`
  hand the key straight to it and catch only InterruptedException. So the
  façades see that exception: `NyxMap.put` of an unbound key throws (see
  Findings), removing the same list index twice throws, and so do polling
  a queue whose head was already removed and peeking at an empty queue.
- `DbbList.size()` is `cursor + 1`.
- A `DbbList.add` that overflows leaves its bytes in the stream for the next
  `add`.
- `NyxList.remove(int)` deletes the storage entry but keeps the key in
  `elements`, and `get(i)` reads storage key `i`, not `elements[i]`.
- `Fn.ToUpperCase` lower-cases (see Findings).
- `DbbList.subList` and `get` leave the buffer's position at the end of
  the last entry they read. The next `add` writes from there, over the
  entries that follow it.

## Model

| member | source | states |
|---|---|---|
| Lang.Wrap32 | src/main/java/nyx/collections/NyxList.java:313-319 | Java `int` arithmetic: the result is a 32-bit value congruent to the input modulo 2^32, and an in-range input is unchanged |
| Chunks.ChunkIndex | src/main/java/nyx/collections/storage/ElasticByteStorage.java:113-119 | the chunk of offset `p` is `p / capacity`; `Chunks.Decompose` and `Chunks.Addressing` state what that means |
| Chunks.ChunkOffset | src/main/java/nyx/collections/storage/ElasticByteStorage.java:129-131 | the in-chunk offset is below the capacity |
| Chunks.Decompose | src/main/java/nyx/collections/storage/ElasticByteStorage.java:113-131 | every offset is its chunk's start plus its in-chunk offset |
| Chunks.Addressing | src/main/java/nyx/collections/storage/ElasticStorage.java:125-143 | chunk `idx` at offset `off` is logical offset `idx * capacity + off`, and back |
| Chunks.Ordering | src/main/java/nyx/collections/storage/ElasticByteStorage.java:113-131 | a lower offset lies in an earlier chunk, or earlier in the same chunk |
| Chunks.NextIndex | src/main/java/nyx/collections/storage/ElasticStorage.java:125-131 | the next offset lies in the same chunk or the next one, so a write needs at most one new chunk per step |
| Chunks.Frontier | src/main/java/nyx/collections/storage/ElasticByteStorage.java:113-119 | the chunks holding the written prefix reach its end: the chunk of the first free offset exists or is the next to append |
| Chunks.StoresGrow | src/main/java/nyx/collections/storage/ElasticByteStorage.java:116-117 | appending a fresh chunk moves no stored byte |
| Chunks.StoredRun | src/main/java/nyx/collections/storage/ElasticByteStorage.java:89-98 | a run inside one chunk reads back, cell by cell, the logged bytes at those offsets |
| Chunks.PutBytes | src/main/java/nyx/collections/storage/ElasticByteStorage.java:61-66 | `put(src, from, n)` at the end of the written run makes the chunks hold that run followed by `src[from..from+n]` |
| Chunks.ReadRun | src/main/java/nyx/collections/storage/ElasticByteStorage.java:90-97 | one read step copies the logged bytes `p..p+n` into `dst[at..at+n]` and leaves the rest of `dst` alone |
| Chunks.GetBytes | src/main/java/nyx/collections/storage/ElasticStorage.java:96-99 | `ByteBuffer.get(dst, at, n)` copies exactly those cells |
| ByteStorage.HashCode | src/main/java/nyx/collections/storage/ElasticByteStorage.java:79 | `Arrays.hashCode(byte[])` is a 32-bit value |
| ByteStorage.View | src/main/java/nyx/collections/storage/ElasticByteStorage.java:83-101 | the storage's contents: one entry per live key, holding `end - start` bytes |
| ByteStorage.IndexedAppend | src/main/java/nyx/collections/storage/ElasticByteStorage.java:53-80 | a put at the cursor under a new key keeps every range inside the log, pairwise disjoint, and carrying the hash of its bytes |
| ByteStorage.ViewAppend | src/main/java/nyx/collections/storage/ElasticByteStorage.java:53-76 | a put at the cursor adds exactly the new key with its bytes and moves nothing else |
| ByteStorage.IndexedRemove | src/main/java/nyx/collections/storage/ElasticByteStorage.java:167-172 | forgetting a key keeps the index coherent and drops exactly that key from the contents |
| ByteStorage.SumLengthsAdd | src/main/java/nyx/collections/storage/ElasticByteStorage.java:199-214 | adding a new key adds its length to the total live length that purge's cursor ends at |
| ByteStorage.ElasticByteStorage.constructor | src/main/java/nyx/collections/storage/ElasticByteStorage.java:47-50 | an accepted capacity gives an empty storage with no chunks and cursor 0 |
| ByteStorage.ElasticByteStorage.Default | src/main/java/nyx/collections/storage/ElasticByteStorage.java:31-37 | the default chunk capacity is 4096 and the storage starts empty |
| ByteStorage.ElasticByteStorage.New | src/main/java/nyx/collections/storage/ElasticByteStorage.java:47-50 | the constructor throws IllegalArgumentException exactly when the capacity is below 4096 |
| ByteStorage.ElasticByteStorage.Size | src/main/java/nyx/collections/storage/ElasticByteStorage.java:174-177 | the number of live keys in the contents |
| ByteStorage.ElasticByteStorage.KeySet | src/main/java/nyx/collections/storage/ElasticByteStorage.java:179-182 | exactly the keys of the contents |
| ByteStorage.ElasticByteStorage.BufferForPosition | src/main/java/nyx/collections/storage/ElasticByteStorage.java:113-119 | the chunk holding `pos`; a fresh chunk is appended only when `pos / capacity` equals the chunk count |
| ByteStorage.ElasticByteStorage.IncrementCursor | src/main/java/nyx/collections/storage/ElasticByteStorage.java:78-80 | reserves `[cursor, cursor + len)` with the bytes' hash and advances the cursor by `len` |
| ByteStorage.ElasticByteStorage.WriteRun | src/main/java/nyx/collections/storage/ElasticByteStorage.java:60-70 | one copy step writes between 1 and `len - committed` bytes and extends the stored run by exactly those |
| ByteStorage.ElasticByteStorage.Append | src/main/java/nyx/collections/storage/ElasticByteStorage.java:57-70 | the copy loop leaves the chunks holding the old log followed by all of `addme` |
| ByteStorage.ElasticByteStorage.Insert | src/main/java/nyx/collections/storage/ElasticByteStorage.java:56-72 | a put of a new key appends the bytes to the log and records `[old cursor, new cursor)` with the hash |
| ByteStorage.ElasticByteStorage.Put | src/main/java/nyx/collections/storage/ElasticByteStorage.java:52-76 | a present key throws IllegalArgumentException and changes nothing; otherwise the contents gain `id ↦ addme` and the cursor advances by its length |
| ByteStorage.ElasticByteStorage.Get | src/main/java/nyx/collections/storage/ElasticByteStorage.java:82-101 | null exactly for an absent key; otherwise a fresh array equal to the stored bytes (the round trip with Put) |
| ByteStorage.ElasticByteStorage.Remove | src/main/java/nyx/collections/storage/ElasticByteStorage.java:167-172 | answers what `get` answered and drops the key from the contents |
| ByteStorage.ElasticByteStorage.Update | src/main/java/nyx/collections/storage/ElasticByteStorage.java:184-189 | answers the old bytes (null if none), and the contents map the key to the new bytes |
| ByteStorage.ElasticByteStorage.Clear | src/main/java/nyx/collections/storage/ElasticByteStorage.java:103-107 | the contents become empty; the chunk list and cursor stay |
| ByteStorage.ElasticByteStorage.Contains | src/main/java/nyx/collections/storage/ElasticByteStorage.java:247-256 | true exactly when some live key's bytes equal the value: the hash pre-check never rejects a true match |
| ByteStorage.ElasticByteStorage.Snapshot | src/main/java/nyx/collections/storage/ElasticByteStorage.java:204-206 | reading every live key gives exactly the contents |
| ByteStorage.ElasticByteStorage.Load | src/main/java/nyx/collections/storage/ElasticByteStorage.java:203-206 | putting every value into a fresh storage gives those contents, with the cursor at the sum of their lengths |
| ByteStorage.ElasticByteStorage.Adopt | src/main/java/nyx/collections/storage/ElasticByteStorage.java:210-213 | taking over the copy's chunks, locations and cursor takes over its contents |
| ByteStorage.ElasticByteStorage.Purge | src/main/java/nyx/collections/storage/ElasticByteStorage.java:199-214 | purge keeps the same contents (key set and bytes) and the cursor becomes the sum of the live lengths |
| ElasticStore.Slices | src/main/java/nyx/collections/storage/ElasticStorage.java:84-107 | the storage's contents: one entry per live key, holding `end - start` bytes |
| ElasticStore.CreateCoherent | src/main/java/nyx/collections/storage/ElasticStorage.java:58-76 | a create at the cursor, of a new or an existing key, keeps the live spans inside the log and disjoint |
| ElasticStore.CreateSlices | src/main/java/nyx/collections/storage/ElasticStorage.java:58-76 | a create makes the key read back the new bytes and leaves every other key reading the same |
| ElasticStore.DeleteSpan | src/main/java/nyx/collections/storage/ElasticStorage.java:176-186 | forgetting a key keeps the spans coherent and drops exactly that key |
| ElasticStore.ElasticStorage.constructor | src/main/java/nyx/collections/storage/ElasticStorage.java:53-56 | an accepted capacity gives an empty storage |
| ElasticStore.ElasticStorage.Default | src/main/java/nyx/collections/storage/ElasticStorage.java:37-45 | the default chunk capacity is 4096 and the storage starts empty |
| ElasticStore.ElasticStorage.New | src/main/java/nyx/collections/storage/ElasticStorage.java:53-56 | the constructor throws IllegalArgumentException exactly when the capacity is below 4096 |
| ElasticStore.ElasticStorage.Size | src/main/java/nyx/collections/storage/ElasticStorage.java:188-191 | the number of live keys |
| ElasticStore.ElasticStorage.KeySet | src/main/java/nyx/collections/storage/ElasticStorage.java:193-196 | exactly the live keys |
| ElasticStore.ElasticStorage.CurrentOffset | src/main/java/nyx/collections/storage/ElasticStorage.java:137-143 | the cursor's offset in its chunk is below the capacity, and the cursor is that chunk's start plus it |
| ElasticStore.ElasticStorage.BufferForPosition | src/main/java/nyx/collections/storage/ElasticStorage.java:121-131 | the chunk holding `pos`; a fresh chunk is appended only when `pos / capacity` equals the chunk count |
| ElasticStore.ElasticStorage.WriteStep | src/main/java/nyx/collections/storage/ElasticStorage.java:65-73 | one step writes `min(space left, bytes left)` (at least 1) bytes at the cursor and advances the cursor by as many |
| ElasticStore.ElasticStorage.Create | src/main/java/nyx/collections/storage/ElasticStorage.java:58-82 | records `[old cursor, new cursor)` with `end - start == len`, silently replacing an earlier location; the contents map the key to the bytes; answers the key |
| ElasticStore.ElasticStorage.Read | src/main/java/nyx/collections/storage/ElasticStorage.java:84-107 | NullPointerException exactly for an absent key; otherwise a fresh array holding exactly the bytes last created for the key |
| ElasticStore.ElasticStorage.CopyOut | src/main/java/nyx/collections/storage/ElasticStorage.java:90-103 | the copy loop over a live key's chunks fills a fresh array with exactly its bytes |
| ElasticStore.ElasticStorage.Delete | src/main/java/nyx/collections/storage/ElasticStorage.java:176-186 | NullPointerException exactly for an absent key; otherwise the stored bytes; the key is dropped, chunks and cursor unchanged |
| ElasticStore.ElasticStorage.Clear | src/main/java/nyx/collections/storage/ElasticStorage.java:109-119 | the contents become empty; the chunk list and cursor stay |
| Dbb.LaidOrdered | src/main/java/nyx/collections/DbbList.java:135-145 | contiguous entries come in order: an earlier entry ends no later than a later one starts |
| Dbb.Decoding | src/main/java/nyx/collections/DbbList.java:250-264 | a completed decoding loop from `i` to `b` yields `b - i + 1` elements |
| Dbb.LaidSpan | src/main/java/nyx/collections/DbbList.java:244-249 | the bytes of laid-out entries `a..b` form a range `from[a] ≤ to[b]` of the buffer |
| Dbb.EntryAt | src/main/java/nyx/collections/DbbList.java:253-258 | within the bytes read for `a..b`, the stream at entry `k`'s offset begins with the encoding of element `k` |
| Dbb.DecodingLaid | src/main/java/nyx/collections/DbbList.java:239-268 | over laid-out entries, decoding from entry `k` yields exactly the elements `k..b` when serialization round-trips |
| Dbb.LaidAppend | src/main/java/nyx/collections/DbbList.java:133-145 | writing an encoding at the end of the entries and recording `from`/`to` keeps them contiguous, with the new element last |
| Dbb.DbbList.constructor | src/main/java/nyx/collections/DbbList.java:46-62 | fresh zeroed buffer and arrays of the given sizes, cursor 0, empty stream |
| Dbb.DbbList.New | src/main/java/nyx/collections/DbbList.java:46-62 | a negative buffer size throws IllegalArgumentException, then a negative size NegativeArraySizeException; otherwise an empty intact list |
| Dbb.DbbList.Size | src/main/java/nyx/collections/DbbList.java:91-94 | one more than the number of elements added |
| Dbb.DbbList.IsEmpty | src/main/java/nyx/collections/DbbList.java:96-99 | throws exactly when there are no entries at all; true for a list with nothing added |
| Dbb.DbbList.NotEmptyOnceAdded | src/main/java/nyx/collections/DbbList.java:96-99 | once an element with a non-empty encoding is laid out, `isEmpty()` is false |
| Dbb.DbbList.Contains | src/main/java/nyx/collections/DbbList.java:101-104 | always true |
| Dbb.DbbList.Add | src/main/java/nyx/collections/DbbList.java:124-150 | full cursor: the array access throws; overflow: BufferOverflowException with `from[cursor]` set and the cursor kept; otherwise `from`/`to`/`number[cursor]` are the positions before and after and `cursor`, the cursor advances, and contiguity is preserved |
| Dbb.DbbList.Put | src/main/java/nyx/collections/DbbList.java:137-145 | the write and bookkeeping after `from[cursor]`, keeping laid-out entries laid out with `e` appended |
| Dbb.DbbList.Open | src/main/java/nyx/collections/DbbList.java:135 | entry `cursor` starts at the buffer's position |
| Dbb.DbbList.CopyIn | src/main/java/nyx/collections/DbbList.java:138 | the buffer holds `data` at the position and is unchanged elsewhere |
| Dbb.DbbList.Record | src/main/java/nyx/collections/DbbList.java:143-145 | the stream is reset, `number[cursor] = cursor`, `to[cursor]` is the new position, the cursor advances |
| Dbb.DbbList.AddAll | src/main/java/nyx/collections/DbbList.java:162-167 | on success the elements are appended in order and contiguity is preserved; otherwise the first `add` exception |
| Dbb.DbbList.SubList | src/main/java/nyx/collections/DbbList.java:239-268 | both ends included: index, negative-size and negative-capacity failures as in the source; otherwise the decoding of `from[number[a]]..to[number[b]]`; over an intact list, exactly the elements `a..b` |
| Dbb.DbbList.Seek | src/main/java/nyx/collections/DbbList.java:246 | moves the buffer's position and nothing else |
| Dbb.DbbList.DecodeEntries | src/main/java/nyx/collections/DbbList.java:252-259 | the loop computes the decoding of entries `a..b` |
| Dbb.DbbList.Get | src/main/java/nyx/collections/DbbList.java:194-197 | `subList(i, i).get(0)`, a null sub-list throwing; over an intact list, element `i` |
| Dbb.DbbList.Clear | src/main/java/nyx/collections/DbbList.java:185-192 | cursor 0 and fresh zeroed buffer and arrays of the original lengths |
| Dbb.DbbList.EmptyIntact | src/main/java/nyx/collections/DbbList.java:71-75 | a cleared list with nothing pending in the stream is intact |
| Dbb.DbbList.Allocated | src/main/java/nyx/collections/DbbList.java:55-62 | fresh, distinct arrays of the given lengths, the offset arrays zeroed |
| Dbb.DbbList.RemoveValue | src/main/java/nyx/collections/DbbList.java:152-155 | throws UnsupportedOperationException |
| Dbb.DbbList.ContainsAll | src/main/java/nyx/collections/DbbList.java:157-160 | throws UnsupportedOperationException |
| Dbb.DbbList.RemoveAll | src/main/java/nyx/collections/DbbList.java:175-178 | throws UnsupportedOperationException |
| Dbb.DbbList.RetainAll | src/main/java/nyx/collections/DbbList.java:180-183 | throws UnsupportedOperationException |
| Store.Counted | src/main/java/nyx/collections/NyxList.java:261-266 | the count after `checkMods` is 0 exactly when a purge ran, and never exceeds `size / 3 + 1` |
| Store.Storage.constructor | src/main/java/nyx/collections/storage/Storage.java:12-20 | an empty storage |
| Store.Storage.Create | src/main/java/nyx/collections/pool/ObjectPool.java:162-170 | binds the key to the value |
| Store.Storage.Read | src/main/java/nyx/collections/pool/ObjectPool.java:146-159 | the bound value for a bound key; NullPointerException exactly for an absent key |
| Store.Storage.Delete | src/main/java/nyx/collections/pool/ObjectPool.java:173-181 | the bound value, or NullPointerException exactly for an absent key; the key is unbound either way |
| Store.Storage.Clear | src/main/java/nyx/collections/pool/ObjectPool.java:216-237 | unbinds every key |
| Store.Storage.Purge | src/main/java/nyx/collections/storage/ElasticByteStorage.java:199-214 | every entry stays; one more purge is counted |
| Lists.Scan | src/main/java/nyx/collections/NyxList.java:70-79 | a found position is in range, and the only exception is NullPointerException |
| Lists.ScanFound | src/main/java/nyx/collections/NyxList.java:139-153 | a scan answers position `i` exactly when `i` holds the first match, every earlier cell holding a non-null element other than the object |
| Lists.ScanMissing | src/main/java/nyx/collections/NyxList.java:70-79 | a scan answers "not found" exactly when every cell holds a non-null element other than the object |
| Lists.ScanNull | src/main/java/nyx/collections/NyxList.java:268-279 | a key with no entry, or a null element that is not a match, met before any match throws |
| Lists.ScanThrows | src/main/java/nyx/collections/NyxList.java:268-279 | a scan throws only at a key with no entry or a non-matching null element met before any match |
| Lists.ScanStep | src/main/java/nyx/collections/NyxList.java:144-152 | one loop step: a match ends the scan, a key with no entry or a null throws, anything else moves on |
| Lists.ContainsAnswer | src/main/java/nyx/collections/NyxList.java:70-79 | true only if the object is read, false only if every cell holds another non-null element, NullPointerException only if some key has no entry or holds null |
| Lists.CollectAnswer | src/main/java/nyx/collections/NyxList.java:81-89 | a walk that reads every cell answers their elements in order; a walk that throws does so at a cell that throws, all earlier cells having been read |
| Lists.CollectThrown | src/main/java/nyx/collections/NyxList.java:81-89 | once the walk has thrown, reading further cells changes nothing |
| Lists.HashOf | src/main/java/nyx/collections/NyxList.java:313-319 | what `hashCode()` answers over the cells it iterates: a 32-bit value, or the exception of the first read that throws |
| Lists.HashFromCollect | src/main/java/nyx/collections/NyxList.java:313-319 | the loop `h = 31 * h + hash(e)` started from the hash of the elements read so far ends at `hashCode()`'s answer for the whole walk |
| Lists.HashStart | src/main/java/nyx/collections/NyxList.java:315-318 | the loop started at 1 over the whole walk answers `hashCode()`'s answer |
| Lists.HashStep | src/main/java/nyx/collections/NyxList.java:316-317 | one loop step: a read that throws ends the loop with its exception, otherwise the element is folded in |
| Lists.Compare | src/main/java/nyx/collections/NyxList.java:321-338 | `equals` over the cells read and the other list's elements answers a boolean or the exception of a read |
| Lists.CompareStep | src/main/java/nyx/collections/NyxList.java:331-337 | one loop step: a read that throws ends it, a differing pair answers false, an equal pair moves on; where one list ends, the answer is whether both do |
| Lists.CompareAnswer | src/main/java/nyx/collections/NyxList.java:321-338 | `equals` answers true exactly when both have the same length and every cell reads the other list's element at that position; it throws only at a throwing cell after equal pairs |
| Lists.Mix | src/main/java/nyx/collections/NyxList.java:317 | one step of the list hash is a 32-bit value |
| Lists.ListHash | src/main/java/nyx/collections/NyxList.java:313-319 | the list hash is a 32-bit value |
| Lists.NyxList.Lookup | src/main/java/nyx/collections/pool/ObjectPool.java:146-159 | the element stored under the key, or NullPointerException exactly when the key has no entry |
| Lists.NyxList.LookupAll | src/main/java/nyx/collections/NyxList.java:228-231 | one `get` answer per key, in order, each being `read` of that key |
| Lists.NyxList.Size | src/main/java/nyx/collections/NyxList.java:60-63 | `size()` is the storage's entry count, not the length of `elements` |
| Lists.NyxList.Iterated | src/main/java/nyx/collections/NyxList.java:81-89 | the iterator reads one cell per key in `elements`, by position; a position reads exactly when storage key `j` has an entry |
| Lists.NyxList.Listed | src/main/java/nyx/collections/NyxList.java:347-364 | the list iterator reads `size()` cells, by position; a position reads exactly when storage key `j` has an entry |
| Lists.NyxList.constructor | src/main/java/nyx/collections/NyxList.java:48-53 | an empty list over a fresh storage |
| Lists.NyxList.Default | src/main/java/nyx/collections/NyxList.java:44-46 | an empty list over a fresh storage |
| Lists.NyxList.New | src/main/java/nyx/collections/NyxList.java:48-53 | throws IllegalArgumentException exactly when the capacity is below 1 |
| Lists.NyxList.IsEmpty | src/main/java/nyx/collections/NyxList.java:65-68 | true exactly when the size is 0 |
| Lists.NyxList.Add | src/main/java/nyx/collections/NyxList.java:116-126 | stores `e` under the key counter, appends that key, advances the counter; answers `e != null` |
| Lists.NyxList.AddAt | src/main/java/nyx/collections/NyxList.java:128-137 | stores `e` under a new key and inserts the key at `index`; an out-of-range index throws after the store and the increment |
| Lists.NyxList.AddAll | src/main/java/nyx/collections/NyxList.java:171-181 | each element stored under consecutive new keys, appended in order, each key reading back its element; answers whether `c` was non-empty |
| Lists.NyxList.Get | src/main/java/nyx/collections/NyxList.java:228-231 | reads storage key `index` itself: its element, or NullPointerException exactly when that key has no entry |
| Lists.NyxList.CheckMods | src/main/java/nyx/collections/NyxList.java:256-266 | purges and restarts the count exactly when the count before its increment exceeds size/3; otherwise increments |
| Lists.NyxList.RemoveAt | src/main/java/nyx/collections/NyxList.java:245-254 | an index outside `elements` throws IndexOutOfBoundsException; otherwise deletes the entry of `elements[index]` and answers what reading it answered, NullPointerException for an entry already deleted; the key stays in `elements`; `checkMods` always runs |
| Lists.NyxList.ScanKeys | src/main/java/nyx/collections/NyxList.java:144-153 | the walk over keys answers the scan of what reading them answers |
| Lists.NyxList.RemoveValue | src/main/java/nyx/collections/NyxList.java:139-160 | drops the first key whose value matches, answering true and running `checkMods`; false when none; a key with no entry or a null value before a match throws |
| Lists.NyxList.Contains | src/main/java/nyx/collections/NyxList.java:70-79 | true only if the object is read, false only if every position holds another non-null element, NullPointerException at a position with no entry or a null met first |
| Lists.NyxList.IndexOf | src/main/java/nyx/collections/NyxList.java:268-279 | the first matching position, -1 when none, NullPointerException at a position with no entry or a null element met first |
| Lists.NyxList.LastIndexOf | src/main/java/nyx/collections/NyxList.java:281-288 | the last position holding `o`, every later one read and different; -1 when none; a null `o` on a non-empty list, or a position with no entry reached before a match, throws NullPointerException |
| Lists.NyxList.HashCode | src/main/java/nyx/collections/NyxList.java:313-319 | answers `hashCode()`'s answer over the iterated cells: the `List.hashCode` formula in 32-bit arithmetic, or the exception of the first position with no entry |
| Lists.NyxList.Equals | src/main/java/nyx/collections/NyxList.java:321-338 | answers `equals`' walk over the listed cells and the other list, which `Lists.CompareAnswer` characterises |
| Lists.NyxList.Clear | src/main/java/nyx/collections/NyxList.java:216-226 | empties `elements` and storage and zeroes `modCount`, but keeps the key counter |
| Maps.NyxMap.constructor | src/main/java/nyx/collections/NyxMap.java:35-38 | an empty map over a fresh storage |
| Maps.NyxMap.Default | src/main/java/nyx/collections/NyxMap.java:31-33 | an empty map over a fresh storage |
| Maps.NyxMap.New | src/main/java/nyx/collections/NyxMap.java:35-38 | throws IllegalArgumentException exactly when the capacity is below 1 |
| Maps.NyxMap.Size | src/main/java/nyx/collections/NyxMap.java:40-43 | the storage's entry count |
| Maps.NyxMap.IsEmpty | src/main/java/nyx/collections/NyxMap.java:45-48 | true exactly when the size is 0, that is when no key is bound |
| Maps.NyxMap.ContainsKey | src/main/java/nyx/collections/NyxMap.java:50-53 | true exactly when the key is in the storage's key set |
| Maps.NyxMap.Get | src/main/java/nyx/collections/NyxMap.java:62-71 | the stored value (possibly null) for a bound key; NullPointerException exactly for an unbound key |
| Maps.NyxMap.CheckMods | src/main/java/nyx/collections/NyxMap.java:102-109 | a null previous value counts nothing; otherwise purges and restarts exactly when the count before its increment exceeds size/3 |
| Maps.NyxMap.Remove | src/main/java/nyx/collections/NyxMap.java:80-84 | an unbound key throws NullPointerException and changes nothing; a bound key answers its value and is unbound, the size dropping by one |
| Maps.NyxMap.Put | src/main/java/nyx/collections/NyxMap.java:73-78 | as written: an unbound key throws NullPointerException from the inner `remove` and changes nothing; a bound key answers its previous value and is rebound to `v`, a non-null previous value counted twice |
| Maps.NyxMap.RemoveIntended | src/main/java/nyx/collections/NyxMap.java:80-84 | `remove` as `Map.remove` promises: null for an unbound key with nothing changed, otherwise as `remove` |
| Maps.NyxMap.PutIntended | src/main/java/nyx/collections/NyxMap.java:73-78 | `put` as `Map.put` promises: answers the previous value (null if none), after which the key is bound to `v`; the size grows by one exactly when the key was new |
| Maps.PutOnEmpty | src/main/java/nyx/collections/NyxMap.java:73-78 | `put(1, 2)` on an empty map throws NullPointerException and leaves it empty |
| Maps.PutThenGet | src/main/java/nyx/collections/NyxMap.java:73-78 | with the intended `put`, `put(1, 2)` on an empty map answers null, then `get(1)` answers 2 and the size is 1 |
| Maps.NyxMap.Clear | src/main/java/nyx/collections/NyxMap.java:111-115 | zeroes the count and empties the map: no key stays bound |
| Maps.NyxMap.KeySet | src/main/java/nyx/collections/NyxMap.java:117-120 | exactly the keys `containsKey` accepts, `size()` of them |
| Maps.NyxMap.Values | src/main/java/nyx/collections/NyxMap.java:122-127 | one value per bound key, each the value stored under it |
| Maps.NyxMap.EntrySet | src/main/java/nyx/collections/NyxMap.java:129-137 | one entry per key, so `entrySet().size() == size()` |
| Sets.NyxSet.constructor | src/main/java/nyx/collections/NyxSet.java:16 | an empty inner list |
| Sets.NyxSet.Add | src/main/java/nyx/collections/NyxSet.java:18-24 | appends and answers true only when the element was absent; answers false with nothing changed only when it is read; a position with no entry or a null met first throws NullPointerException with nothing changed |
| Sets.NyxSet.AddAll | src/main/java/nyx/collections/NyxSet.java:46-51 | answers true exactly when at least one element was appended |
| Sets.NyxSet.AddAt | src/main/java/nyx/collections/NyxSet.java:53-55 | the list's positional insert, with no duplicate check |
| Sets.NyxSet.Remove | src/main/java/nyx/collections/NyxSet.java:26-29 | exactly the list's `remove(obj)` |
| Sets.NyxSet.Contains | src/main/java/nyx/collections/NyxSet.java:126-129 | exactly the list's `contains(obj)` |
| Sets.NyxSet.Clear | src/main/java/nyx/collections/NyxSet.java:111-114 | the list's `clear()`: no elements, empty storage |
| Queues.NyxQueue.constructor | src/main/java/nyx/collections/NyxQueue.java:6 | the inherited default constructor: an empty list |
| Queues.NyxQueue.Offer | src/main/java/nyx/collections/NyxQueue.java:10-13 | the list's `add(e)`: appended at the tail |
| Queues.NyxQueue.Remove | src/main/java/nyx/collections/NyxQueue.java:15-18 | the list's `remove(0)`: IndexOutOfBoundsException exactly on an empty index; otherwise what reading the head key answered (NullPointerException once it was removed), the head's entry deleted |
| Queues.NyxQueue.Poll | src/main/java/nyx/collections/NyxQueue.java:20-25 | null on an empty index; otherwise `remove()`'s answer, NullPointerException included; afterwards reading the head throws NullPointerException |
| Queues.NyxQueue.Element | src/main/java/nyx/collections/NyxQueue.java:27-33 | consumes the head like `poll`: its exception is passed on, a null answer throws NoSuchElementException, an element is answered |
| Queues.NyxQueue.Peek | src/main/java/nyx/collections/NyxQueue.java:35-40 | the list's `get(0)`: storage key 0's element, NullPointerException exactly when it has no entry |
| Pools.ResourcePool.constructor | src/main/java/nyx/collections/pool/ResourcePool.java:17-21 | capacity is the resource count and the pool holds the resources in list order |
| Pools.ResourcePool.New | src/main/java/nyx/collections/pool/ResourcePool.java:17-21 | an empty list (zero capacity) throws IllegalArgumentException, a null resource NullPointerException; otherwise a full pool in list order |
| Pools.ResourcePool.Acquire | src/main/java/nyx/collections/pool/ResourcePool.java:23-25 | removes and answers the head, or null when empty; the bound on the count is kept |
| Pools.ResourcePool.Release | src/main/java/nyx/collections/pool/ResourcePool.java:27-33 | appends at the tail (FIFO), a null resource throwing; the count never exceeds the capacity |
| Consts.SizeUnits | src/main/java/nyx/collections/Const.java:13-14 | `_1Kb = 1 << 10` is 1024 and `_1Mb = 1 << 20` is 1048576, a kilobyte of kilobytes |
| Consts.ShiftAdd | src/main/java/nyx/collections/Const.java:13-14 | shifting left by `a + b` is shifting by `a` and then by `b` |
| Consts.MaskNull | src/main/java/nyx/collections/Const.java:18 | never null, and a non-null argument is returned unchanged |
| Consts.MaskNullIdempotent | src/main/java/nyx/collections/Const.java:17-18 | masking twice masks once, as `nil()` is one single value |
| Converters.Encode | src/main/java/nyx/collections/converter/NullConverter.java:24-27 | `encode(null)` is the base encoding of `nil()`, `encode(e)` the base encoding of `e` |
| Converters.Decode | src/main/java/nyx/collections/converter/NullConverter.java:18-22 | never the sentinel: a decoded sentinel becomes null, anything else is the base result |
| Converters.RoundTrip | src/main/java/nyx/collections/converter/NullConverter.java:18-27 | a round-tripping base makes `decode(encode(x)) == x` for every `x` except the sentinel, null included |
| Converters.SentinelCollapses | src/main/java/nyx/collections/converter/NullConverter.java:18-27 | the sentinel itself encodes like null and decodes to null |
| Functional.Filtered | src/main/java/nyx/collections/fn/Fn.java:48-57 | the kept elements are no more than the input's, each accepted by the predicate and drawn from the input (`Functional.FilteredMembers` gives the converse) |
| Functional.Fold | src/main/java/nyx/collections/fn/Fn.java:67-72 | the state reached by applying the step to each element in order (`Functional.FoldAppend` states how it composes) |
| Functional.NotNull | src/main/java/nyx/collections/fn/Fn.java:20-24 | `notNull()` accepts exactly the non-null arguments |
| Functional.InRange | src/main/java/nyx/collections/fn/Fn.java:26-30 | `range(from, to)` accepts `t` exactly when `t` compares at or above `from` and at or below `to` |
| Functional.Mapped | src/main/java/nyx/collections/fn/Fn.java:59-65 | one output per input, element `i` being `f(input[i])` |
| Functional.FilteredMembers | src/main/java/nyx/collections/fn/Fn.java:48-57 | filtering keeps exactly the elements the predicate accepts |
| Functional.FilteredAppend | src/main/java/nyx/collections/fn/Fn.java:48-57 | filtering keeps iteration order: it distributes over concatenation |
| Functional.FilteredIdempotent | src/main/java/nyx/collections/fn/Fn.java:48-57 | filtering twice with the same predicate changes nothing |
| Functional.FoldAppend | src/main/java/nyx/collections/fn/Fn.java:67-72 | `forEach` over a concatenation continues from where the first part left off |
| Functional.NoNullsAfterFilter | src/main/java/nyx/collections/fn/Fn.java:20-24 | filtering with `notNull()` drops every null and keeps every non-null element |
| Functional.IntCompare | src/main/java/nyx/collections/fn/Fn.java:26-30 | `compareTo` on integers: negative, zero or positive exactly as `a <`, `==`, `> b` |
| Functional.RangeInclusive | src/main/java/nyx/collections/fn/Fn.java:26-30 | `range(from, to)` accepts `t` exactly when `from <= t <= to` |
| Functional.LowerChar | src/main/java/nyx/collections/fn/Fn.java:34-36 | a capital becomes the small letter at the same place in the alphabet; every other character is unchanged; the result is never a capital |
| Functional.UpperChar | src/main/java/nyx/collections/fn/Fn.java:38-40 | a small letter becomes the capital at the same place in the alphabet; every other character is unchanged; the result is never a small letter |
| Functional.CaseRoundTrip | src/main/java/nyx/collections/fn/Fn.java:34-40 | the two mappings undo each other on the letters they change |
| Functional.ToLowerCase | src/main/java/nyx/collections/fn/Fn.java:34-36 | same length, each character lower-cased in place, so no capital is left |
| Functional.ToUpperCaseAsWritten | src/main/java/nyx/collections/fn/Fn.java:38-40 | as written: same length, each character lower-cased in place |
| Functional.ToUpperCaseLowers | src/main/java/nyx/collections/fn/Fn.java:38-40 | as written, `ToUpperCase` leaves "a" as "a" and turns "A" into "a" |
| Functional.ToUpperCase | src/main/java/nyx/collections/fn/Fn.java:38-40 | as intended: same length, each character upper-cased in place, so no small letter is left |
| Functional.UpperThenLower | src/main/java/nyx/collections/fn/Fn.java:34-40 | upper-casing changes only case: lower-casing its result equals lower-casing the argument |
| Functional.Fn.Get | src/main/java/nyx/collections/fn/Fn.java:42-46 | `get()` answers the wrapped collection itself |
| Functional.Fn.Filter | src/main/java/nyx/collections/fn/Fn.java:48-57 | the loop builds exactly the filtered collection |
| Functional.Fn.MapTo | src/main/java/nyx/collections/fn/Fn.java:59-65 | the loop builds exactly the mapped collection |
| Functional.Fn.ForEach | src/main/java/nyx/collections/fn/Fn.java:67-72 | the function object ends in the state its steps over the elements, in order, reach |
| Entries.KeyValue.constructor | src/main/java/nyx/collections/KeyValue.java:10-13 | stores the given key and value |
| Entries.KeyValue.GetKey | src/main/java/nyx/collections/KeyValue.java:15 | answers the key the constructor stored; `setValue` leaves it |
| Entries.KeyValue.GetValue | src/main/java/nyx/collections/KeyValue.java:16 | answers the value last stored by the constructor or `setValue` |
| Entries.KeyValue.SetValue | src/main/java/nyx/collections/KeyValue.java:17 | replaces the value and answers the new value; the key is unchanged |
| Entries.KVal.constructor | src/main/java/nyx/collections/KVal.java:10-13 | stores the given key and value |
| Entries.KVal.GetKey | src/main/java/nyx/collections/KVal.java:15 | answers the key the constructor stored; `setValue` leaves it |
| Entries.KVal.GetValue | src/main/java/nyx/collections/KVal.java:16 | answers the value last stored by the constructor or `setValue` |
| Entries.KVal.SetValue | src/main/java/nyx/collections/KVal.java:17 | replaces the value and answers the new value; the key is unchanged |

## Left out

- Locks, `synchronized` blocks and `volatile` fields. Every operation is
  modelled as atomic and sequential.
- ObjectPool's threads, its weak and soft reference cache and its
  `ReferenceQueue`. The façades run over `Store.Storage`, a key → value map
  with ObjectPool's answers: the stored value, or NullPointerException for
  an absent key on `read` and `delete`. ObjectPool's own `purge` throws
  UnsupportedOperationException. The model's
  `purge` is the storages' (entries kept, purges counted), so the façades'
  purge trigger stays observable.
- Serialization (`SerialConverter`, `ObjectOutputStream`, `writeObject`/
  `readObject` hooks). `encode`/`decode` are function parameters. An
  IOException swallowed while encoding in `DbbList.add` is not modelled.
- Freeing direct buffers through the reflective `cleaner` call. Only
  DbbList's `clear` replaces its buffer; the model does not track released
  memory. `DbbList.freeMemory` zero-fills the arrays just before they are replaced;
  the fill is not observable, so `Dbb.DbbList.Clear` states only the new
  arrays.
- `Dbb.DbbList.IsEmpty`: a model of what the code computes (`from[0] == 0 &&
  to[0] == 0`). `Dbb.DbbList.NotEmptyOnceAdded` covers only elements whose
  encoding is non-empty.
- Operations of DbbList that are stubs answering null, 0, false or nothing:
  `iterator`, `toArray`, `addAll(int, c)`, `set`, `add(int, e)`,
  `remove(int)`, `indexOf`, `lastIndexOf`, `listIterator`. `getType` and the
  `ObjectStreamClass` lookup are also left out.
- NyxList `toArray`, `containsAll`, `addAll(int, c)`, `removeAll`,
  `retainAll`, `set`, `subList`, the copy constructor and the remaining
  `ListItr` methods: they are compositions of the modelled operations. NyxMap
  `containsValue` and `putAll` are left out for the same reason.
- NyxSet's other delegations (`get`, `indexOf`, `set`, `hashCode`, `equals`,
  `iterator`, `toArray`, `sort`, `replaceAll`, ...): each only forwards to the
  list. `Sets.NyxSet.Size` and `Sets.NyxSet.IsEmpty` are written as the
  list's functions.
- `Functional.Fn.Filter` and `Functional.Fn.MapTo` build the new collection
  as a sequence, not as a NyxList over a storage.
- `Lists.NyxList.HashCode`, `Lists.NyxList.Equals`, `Lists.NyxList.Contains`
  and the scans take element equality as Dafny equality and element hashing
  as a function parameter.
- `Functional.LowerChar` and `Functional.UpperChar`: ASCII letters only.
  Java's locale-dependent Unicode case mapping is not modelled.
- `Functional.InRange`: a null `t` would throw in `compareTo`; the model's
  elements are never null.
- `ByteStorage.ElasticByteStorage.Clear`: the source frees every chunk
  through the `cleaner` and keeps the freed chunks in its list; the model
  keeps them usable, so a later `put` writes into memory the source has
  released.
- `ElasticStore.ElasticStorage.Clear`: the same, for the second storage.
- `Pools.ResourcePool.Release`: requires room in the queue, because `put`
  on a full `ArrayBlockingQueue` blocks until another thread acquires.
- `Pools.ResourcePool.constructor`: requires a non-empty resource list.
  `Pools.ResourcePool.New` models the empty and null cases as exceptions.
- Java `long`/`int` widths of the storages' cursor and ranges (offsets above
  2^31 would overflow the `(int)` casts) are not modelled. Offsets are
  unbounded naturals.
- The in-memory ByteBuffer position of ElasticByteStorage and ElasticStorage
  is implied by each copy step. Only DbbList, where the position is state
  kept between calls, models it.
- `InfiniBuffer`, `GCDetector`, `Acme`, `Make`, `ConverterFactory` and the
  tests are not part of this model. The tests' random data uses floating
  point.

## Findings

| source | as written | input that shows it | evidently intended | confidence | as-written member | corrected member |
|---|---|---|---|---|---|---|
| src/main/java/nyx/collections/fn/Fn.java:38-40 | `ToUpperCase` returns `t.toLowerCase()`, the same as `ToLowerCase` | `"A"` gives `"a"`, and `"a"` stays `"a"` | `t.toUpperCase()`: each small letter becomes its capital, nothing else changes | not executed | Functional.ToUpperCaseLowers | Functional.ToUpperCase |
| src/main/java/nyx/collections/NyxMap.java:73-84 | `put` starts with `remove(key)`, whose `storage.delete` throws NullPointerException for an unbound key, so `put` of a new key throws and binds nothing | `put(1, 2)` on an empty map | `Map.put`: bind the key and answer null when it was unbound | not executed | Maps.PutOnEmpty | Maps.NyxMap.PutIntended |
