/** DbbList: the single-buffer predecessor of the elastic storages. Each
    `add` serializes its element into a reusable byte stream, copies the
    stream's bytes into one fixed-size buffer at the buffer's position and
    records the element's byte range in the `from`/`to` arrays (and its
    index in `number`). `subList` and `get` read a range back and
    deserialize element by element. Serialization is a pair of functions:
    `encode` gives the bytes one `add` streams for an element, `decode`
    the first element of a stream (`None` when the stream cannot be read). */
module Dbb {
  import opened Lang
  import opened Chunks

  /** Entry `i` of a buffer lies within it and holds exactly the encoding
      of `log[i]`. */
  ghost predicate Entry<E>(buf: seq<byte>, from: seq<int>, to: seq<int>, log: seq<Option<E>>,
                           encode: Option<E> -> seq<byte>, i: int)
  {
    && 0 <= i < |log| && i < |from| && i < |to|
    && 0 <= from[i] <= to[i] <= |buf|
    && buf[from[i]..to[i]] == encode(log[i])
  }

  /** Entry `i` starts where entry `i - 1` ends. */
  ghost predicate Joined(from: seq<int>, to: seq<int>, i: int) {
    0 < i < |from| && i <= |to| && from[i] == to[i - 1]
  }

  /** The first `|log|` entries of a buffer are contiguous and in order,
      and entry `i` holds exactly the encoding of `log[i]`. */
  ghost predicate Laid<E>(buf: seq<byte>, from: seq<int>, to: seq<int>, log: seq<Option<E>>,
                          encode: Option<E> -> seq<byte>)
  {
    && |log| <= |from| && |log| <= |to|
    && (forall i :: 0 < i < |log| ==> Joined(from, to, i))
    && (forall i :: 0 <= i < |log| ==> Entry(buf, from, to, log, encode, i))
  }

  /** Laid-out entries come in order: an earlier entry ends no later than
      a later one starts. */
  lemma {:induction false} LaidOrdered<E>(buf: seq<byte>, from: seq<int>, to: seq<int>, log: seq<Option<E>>,
                                          encode: Option<E> -> seq<byte>, i: nat, j: nat)
    requires Laid(buf, from, to, log, encode)
    requires i < j < |log|
    ensures to[i] <= from[j]
    decreases j - i
  {
    assert Joined(from, to, i + 1);
    if i + 1 < j {
      assert Entry(buf, from, to, log, encode, i + 1);
      LaidOrdered(buf, from, to, log, encode, i + 1, j);
    }
  }

  /** Deserialization undoes serialization of each element of `xs`,
      whatever follows in the stream. */
  ghost predicate RoundTrips<E>(encode: Option<E> -> seq<byte>, decode: seq<byte> -> Option<Option<E>>,
                                xs: seq<Option<E>>) {
    forall k, rest :: 0 <= k < |xs| ==> decode(encode(xs[k]) + rest) == Some(xs[k])
  }

  /** A list answer with `x` put in front. */
  function Cons<E>(x: E, r: Result<Option<seq<E>>>): Result<Option<seq<E>>> {
    match r
    case Ok(Some(rest)) => Ok(Some([x] + rest))
    case other => other
  }

  /** A list answer with `pre` put in front. */
  function Prepend<E>(pre: seq<E>, r: Result<Option<seq<E>>>): Result<Option<seq<E>>> {
    match r
    case Ok(Some(rest)) => Ok(Some(pre + rest))
    case other => other
  }

  lemma PrependNil<E>(r: Result<Option<seq<E>>>)
    ensures Prepend([], r) == r
  {
    if r.Ok? && r.value.Some? {
      assert [] + r.value.value == r.value.value;
    }
  }

  lemma PrependCons<E>(pre: seq<E>, x: E, r: Result<Option<seq<E>>>)
    ensures Prepend(pre, Cons(x, r)) == Prepend(pre + [x], r)
  {
    if r.Ok? && r.value.Some? {
      assert pre + ([x] + r.value.value) == pre + [x] + r.value.value;
    }
  }

  /** The decoding loop of `subList` from list index `i` to `b`, with `idx`
      the array index and `offset` the stream offset into `data`: a
      negative offset fails on the array access, an unreadable stream
      makes `subList` answer null, and the offset update reads `to[idx]`
      and `from[idx]`, which may be out of range. */
  function Decoding<E>(decode: seq<byte> -> Option<Option<E>>, data: seq<byte>, from: seq<int>, to: seq<int>,
                       i: int, b: int, idx: int, offset: int): (r: Result<Option<seq<Option<E>>>>)
    ensures r.Ok? && r.value.Some? ==> |r.value.value| == if i <= b then b - i + 1 else 0
    decreases if i <= b then b - i + 1 else 0
  {
    if i > b then Ok(Some([]))
    else if offset < 0 then Throws(IndexOutOfBounds)
    else
      var d := decode(if offset <= |data| then data[offset..] else []);
      if d.None? then Ok(None)
      else if !(0 <= idx < |to| && idx < |from|) then Throws(IndexOutOfBounds)
      else Cons(d.value, Decoding(decode, data, from, to, i + 1, b, idx + 1, offset + to[idx] - from[idx]))
  }

  /** The bytes of laid-out entries `a..b` form a range of the buffer. */
  lemma LaidSpan<E>(buf: seq<byte>, from: seq<int>, to: seq<int>, log: seq<Option<E>>,
                    encode: Option<E> -> seq<byte>, a: nat, b: nat)
    requires Laid(buf, from, to, log, encode)
    requires a <= b < |log|
    ensures 0 <= from[a] <= to[b] <= |buf|
  {
    assert Entry(buf, from, to, log, encode, a);
    assert Entry(buf, from, to, log, encode, b);
    if a < b {
      LaidOrdered(buf, from, to, log, encode, a, b);
    }
  }

  /** Within the bytes of laid-out entries `a..b`, the stream starting at
      entry `k` begins with the encoding of `log[k]`. */
  lemma EntryAt<E>(buf: seq<byte>, from: seq<int>, to: seq<int>, log: seq<Option<E>>,
                   encode: Option<E> -> seq<byte>, a: nat, b: nat, k: nat, data: seq<byte>)
    requires Laid(buf, from, to, log, encode)
    requires a <= k <= b < |log|
    requires 0 <= from[a] <= to[b] <= |buf| && data == buf[from[a]..to[b]]
    ensures 0 <= from[a] <= from[k] <= to[k] <= to[b] <= |buf|
    ensures data[from[k] - from[a]..] == encode(log[k]) + buf[to[k]..to[b]]
  {
    assert Entry(buf, from, to, log, encode, k);
    assert Entry(buf, from, to, log, encode, a);
    assert Entry(buf, from, to, log, encode, b);
    if a < k {
      LaidOrdered(buf, from, to, log, encode, a, k);
    }
    if k < b {
      LaidOrdered(buf, from, to, log, encode, k, b);
    }
    assert data[from[k] - from[a]..] == buf[from[k]..to[b]];
    assert buf[from[k]..to[b]] == buf[from[k]..to[k]] + buf[to[k]..to[b]];
  }

  /** Over laid-out entries `a..b`, decoding from entry `k` at its offset
      yields the elements `k..b` when serialization round-trips. */
  lemma {:induction false} DecodingLaid<E>(buf: seq<byte>, from: seq<int>, to: seq<int>, log: seq<Option<E>>,
                                           encode: Option<E> -> seq<byte>, decode: seq<byte> -> Option<Option<E>>,
                                           a: nat, b: nat, k: nat, data: seq<byte>)
    requires Laid(buf, from, to, log, encode) && RoundTrips(encode, decode, log)
    requires a <= k <= b < |log|
    requires 0 <= from[a] <= to[b] <= |buf| && data == buf[from[a]..to[b]]
    ensures Decoding(decode, data, from, to, k, b, k, from[k] - from[a]) == Ok(Some(log[k..b + 1]))
    decreases b - k
  {
    var offset := from[k] - from[a];
    EntryAt(buf, from, to, log, encode, a, b, k, data);
    var rest := buf[to[k]..to[b]];
    assert decode(encode(log[k]) + rest) == Some(log[k]);
    var tail := Decoding(decode, data, from, to, k + 1, b, k + 1, offset + to[k] - from[k]);
    assert Decoding(decode, data, from, to, k, b, k, offset) == Cons(log[k], tail);
    if k < b {
      assert Joined(from, to, k + 1);
      DecodingLaid(buf, from, to, log, encode, decode, a, b, k + 1, data);
      assert log[k..b + 1] == [log[k]] + log[k + 1..b + 1];
    } else {
      assert tail == Ok(Some([]));
      assert log[k..b + 1] == [log[k]] + [];
    }
  }

  /** Appending the encoding of `e` at the end of laid-out entries keeps
      them laid out, with `e` as the last entry. */
  lemma LaidAppend<E>(buf: seq<byte>, from: seq<int>, to: seq<int>, log: seq<Option<E>>,
                      encode: Option<E> -> seq<byte>, e: Option<E>, p: nat,
                      buf': seq<byte>, from': seq<int>, to': seq<int>)
    requires Laid(buf, from, to, log, encode)
    requires |log| < |from| && |log| < |to|
    requires p == if |log| == 0 then 0 else to[|log| - 1]
    requires p + |encode(e)| <= |buf|
    requires buf' == buf[..p] + encode(e) + buf[p + |encode(e)|..]
    requires from' == from[|log| := p] && to' == to[|log| := p + |encode(e)|]
    ensures Laid(buf', from', to', log + [e], encode)
  {
    var n := |log|;
    var log' := log + [e];
    assert forall j :: 0 <= j < p ==> buf'[j] == buf[j];
    forall i | 0 <= i < n
      ensures Entry(buf', from', to', log', encode, i)
    {
      assert Entry(buf, from, to, log, encode, i);
      if i < n - 1 {
        LaidOrdered(buf, from, to, log, encode, i, n - 1);
        assert Entry(buf, from, to, log, encode, n - 1);
      }
      assert buf'[from[i]..to[i]] == buf[from[i]..to[i]];
    }
    assert buf'[p..p + |encode(e)|] == encode(e);
    assert Entry(buf', from', to', log', encode, n);
    forall i | 0 < i <= n
      ensures Joined(from', to', i)
    {
      if i < n {
        assert Joined(from, to, i);
      }
    }
  }

  /** Every recorded offset lies within a buffer of `bound` bytes. */
  ghost predicate Bounded(offsets: seq<int>, bound: nat) {
    forall i :: 0 <= i < |offsets| ==> 0 <= offsets[i] <= bound
  }

  /** `number` maps each of the first `cursor` entries to itself and the
      rest to 0. */
  ghost predicate Numbered(number: seq<int>, cursor: nat) {
    forall i :: 0 <= i < |number| ==> number[i] == if i < cursor then i else 0
  }

  /** The entries from `cursor` on end at 0. */
  ghost predicate Unfilled(to: seq<int>, cursor: nat) {
    forall i :: cursor <= i < |to| ==> to[i] == 0
  }

  /** `n` zeros: a freshly allocated or zero-filled offset array. */
  function Zeros(n: nat): (z: seq<int>)
    ensures |z| == n
  {
    seq(n, _ => 0)
  }

  /** Zero-filled offset arrays describe an empty list. */
  lemma ZerosFit(n: nat, bound: nat)
    ensures Bounded(Zeros(n), bound) && Numbered(Zeros(n), 0) && Unfilled(Zeros(n), 0)
  {
  }

  class DbbList<E> {
    /** The bytes one `add` streams for an element. */
    const encode: Option<E> -> seq<byte>
    /** The first element a stream holds; `None` when it cannot be read. */
    const decode: seq<byte> -> Option<Option<E>>
    /** The `size` field: how many entries the offset arrays hold. */
    const size: nat
    /** `bufferSize`: the buffer's capacity in bytes. */
    const bufferSize: nat

    /** `dbb`'s contents and its position. */
    var buffer: array<byte>
    var position: nat
    var from: array<int>
    var to: array<int>
    var number: array<int>
    /** The next entry to fill. */
    var cursor: nat
    /** `baos`: serialized bytes not yet copied into the buffer. */
    var pending: seq<byte>
    /** The elements added since the last `clear`, entry by entry. */
    ghost var log: seq<Option<E>>

    /** The arrays have their allocated lengths, every recorded range lies
        in the buffer, `number` maps each filled entry to itself, entries
        not yet filled end at 0, and entry 0 starts at 0. */
    ghost predicate Valid()
      reads this, from, to, number
    {
      && buffer.Length == bufferSize && position <= bufferSize
      && from.Length == size && to.Length == size && number.Length == size
      && from != to && from != number && to != number
      && cursor <= size && |log| == cursor
      && Bounded(from[..], bufferSize) && Bounded(to[..], bufferSize)
      && Numbered(number[..], cursor) && Unfilled(to[..], cursor)
      && (size > 0 ==> from[0] == 0)
      && (cursor == 0 ==> position == 0)
    }

    /** Nothing is left over from a failed `add`, and the filled entries
        hold the encodings of the logged elements. */
    ghost predicate Intact()
      reads this, buffer, from, to, number
    {
      Valid() && pending == [] && Laid(buffer[..], from[..], to[..], log, encode)
    }

    /** The buffer's position is where the last filled entry ends. */
    ghost predicate AtEnd()
      reads this, from, to, number
    {
      Valid() && position == if cursor == 0 then 0 else to[cursor - 1]
    }

    /** `DbbList(type, size, bufferSize)` once allocation succeeded. */
    constructor (size: nat, bufferSize: nat, encode: Option<E> -> seq<byte>, decode: seq<byte> -> Option<Option<E>>)
      ensures Valid() && Intact() && AtEnd()
      ensures this.size == size && this.bufferSize == bufferSize
      ensures this.encode == encode && this.decode == decode
      ensures fresh(buffer) && fresh(from) && fresh(to) && fresh(number)
      ensures cursor == 0 && log == [] && pending == []
    {
      this.size := size;
      this.bufferSize := bufferSize;
      this.encode := encode;
      this.decode := decode;
      buffer := new byte[bufferSize](_ => 0);
      position := 0;
      from := new int[size](_ => 0);
      to := new int[size](_ => 0);
      number := new int[size](_ => 0);
      cursor := 0;
      pending := [];
      log := [];
    }

    /** `DbbList(type, size, bufferSize)`: `allocateDirect` refuses a
        negative buffer size, then `new int[size]` a negative size. */
    static method New(size: int, bufferSize: int, encode: Option<E> -> seq<byte>,
                      decode: seq<byte> -> Option<Option<E>>) returns (r: Result<DbbList<E>>)
      ensures bufferSize < 0 ==> r == Throws(IllegalArgument)
      ensures 0 <= bufferSize && size < 0 ==> r == Throws(NegativeArraySize)
      ensures r.Ok? <==> 0 <= size && 0 <= bufferSize
      ensures r.Ok? ==> r.value.Intact() && r.value.AtEnd() && r.value.cursor == 0
                        && r.value.size == size && r.value.bufferSize == bufferSize
    {
      if bufferSize < 0 {
        return Throws(IllegalArgument);
      }
      if size < 0 {
        return Throws(NegativeArraySize);
      }
      var l := new DbbList(size, bufferSize, encode, decode);
      return Ok(l);
    }

    /** `size()`: `cursor + 1`, one more than the number of elements added. */
    function Size(): (n: int)
      reads this, from, to, number
      requires Valid()
      ensures n == |log| + 1
    {
      cursor + 1
    }

    /** `isEmpty()`: entry 0 starts and ends at 0; with no entries at all
        the array access throws. */
    function IsEmpty(): (r: Result<bool>)
      reads this, from, to, number
      requires Valid()
      ensures size == 0 <==> r == Throws(IndexOutOfBounds)
      ensures size > 0 && cursor == 0 ==> r == Ok(true)
    {
      if size == 0 then Throws(IndexOutOfBounds) else Ok(from[0] == 0 && to[0] == 0)
    }

    /** Once an element with a non-empty encoding has been laid out, the
        list does not report itself empty. */
    lemma NotEmptyOnceAdded()
      requires Intact() && cursor > 0 && |encode(log[0])| > 0
      ensures IsEmpty() == Ok(false)
    {
      assert Entry(buffer[..], from[..], to[..], log, encode, 0);
    }

    /** `contains(o)`: always true. */
    function Contains(o: Option<E>): (b: bool)
      ensures b
    {
      true
    }

    /** `add(e)`: streams `e` after whatever a failed `add` left, records
        the position as entry `cursor`'s start (an array access that throws
        once every entry is used), copies the stream into the buffer (a
        `BufferOverflowException` when it does not fit, rethrown with the
        stream not reset and the cursor not advanced), then resets the
        stream and records the entry's index and end. */
    method Add(e: Option<E>) returns (r: Result<bool>)
      requires Valid()
      modifies this, buffer, from, to, number
      ensures Valid()
      ensures buffer == old(buffer) && from == old(from) && to == old(to) && number == old(number)
      ensures old(cursor) == size ==>
                && r == Throws(IndexOutOfBounds) && pending == old(pending) + encode(e)
                && cursor == old(cursor) && log == old(log) && position == old(position)
                && from[..] == old(from[..]) && to[..] == old(to[..]) && number[..] == old(number[..])
                && buffer[..] == old(buffer[..])
      ensures old(cursor) < size && |old(pending) + encode(e)| > bufferSize - old(position) ==>
                && r == Throws(BufferOverflow) && pending == old(pending) + encode(e)
                && cursor == old(cursor) && log == old(log) && position == old(position)
                && from[..] == old(from[..])[old(cursor) := old(position)]
                && to[..] == old(to[..]) && number[..] == old(number[..]) && buffer[..] == old(buffer[..])
      ensures old(cursor) < size && |old(pending) + encode(e)| <= bufferSize - old(position) ==>
                var data := old(pending) + encode(e);
                && r == Ok(true) && pending == []
                && cursor == old(cursor) + 1 && log == old(log) + [e]
                && position == old(position) + |data|
                && buffer[..] == old(buffer[..])[..old(position)] + data + old(buffer[..])[position..]
                && from[..] == old(from[..])[old(cursor) := old(position)]
                && to[..] == old(to[..])[old(cursor) := position]
                && number[..] == old(number[..])[old(cursor) := old(cursor)]
      ensures old(Intact() && AtEnd()) && r.Ok? ==> Intact() && AtEnd()
    {
      ghost var laid := Intact() && AtEnd();
      ghost var buf, fr, tt := buffer[..], from[..], to[..];
      pending := pending + encode(e);
      if cursor >= from.Length {
        r := Throws(IndexOutOfBounds);
      } else {
        Open();
        if |pending| > buffer.Length - position {
          r := Throws(BufferOverflow);
        } else {
          if laid {
            assert pending == encode(e);
          }
          Put(e, laid, buf, fr, tt);
          r := Ok(true);
        }
      }
    }

    /** The rest of a successful `add`, once entry `cursor`'s start is
        recorded: `dbb.put` of the stream's bytes, then `Record`. When the
        entries were laid out up to the position and the stream holds just
        the encoding of `e`, they stay laid out with `e` appended. */
    method Put(e: Option<E>, ghost laid: bool, ghost buf: seq<byte>, ghost fr: seq<int>, ghost tt: seq<int>)
      requires Valid() && cursor < size && position + |pending| <= bufferSize
      requires laid ==> && Laid(buf, fr, tt, log, encode) && pending == encode(e) && cursor < |fr| && cursor < |tt|
                        && position == (if cursor == 0 then 0 else tt[cursor - 1])
                        && buffer[..] == buf && from[..] == fr[cursor := position] && to[..] == tt
      modifies this, buffer, to, number
      ensures Valid()
      ensures buffer == old(buffer) && from == old(from) && to == old(to) && number == old(number)
      ensures pending == [] && cursor == old(cursor) + 1 && log == old(log) + [e]
      ensures position == old(position) + |old(pending)|
      ensures buffer[..] == old(buffer[..])[..old(position)] + old(pending) + old(buffer[..])[position..]
      ensures to[..] == old(to[..])[old(cursor) := position]
      ensures number[..] == old(number[..])[old(cursor) := old(cursor)]
      ensures laid ==> Intact() && AtEnd()
    {
      var data := pending;
      CopyIn(data);
      Record(e, |data|);
      if laid {
        LaidAppend(buf, fr, tt, old(log), encode, e, old(position), buffer[..], from[..], to[..]);
      }
    }

    /** `from[cursor] = dbb.position()`: entry `cursor` starts at the
        position. */
    method Open()
      requires Valid() && cursor < size
      modifies from
      ensures Valid()
      ensures from[..] == old(from[..])[cursor := position]
    {
      from[cursor] := position;
    }

    /** `dbb.put(data)`: copies `data` into the buffer at its position. */
    method CopyIn(data: seq<byte>)
      requires position + |data| <= buffer.Length
      modifies buffer
      ensures buffer[..] == old(buffer[..])[..position] + data + old(buffer[..])[position + |data|..]
    {
      forall k | 0 <= k < |data| {
        buffer[position + k] := data[k];
      }
      assert buffer[..] == old(buffer[..])[..position] + data + old(buffer[..])[position + |data|..];
    }

    /** The end of a successful `add`: advances the position past the `n`
        bytes just put, resets the stream and records the entry's index and
        end. */
    method Record(e: Option<E>, n: nat)
      requires Valid() && cursor < size && position + n <= bufferSize
      modifies this, to, number
      ensures Valid()
      ensures buffer == old(buffer) && from == old(from) && to == old(to) && number == old(number)
      ensures pending == [] && cursor == old(cursor) + 1 && log == old(log) + [e]
      ensures position == old(position) + n
      ensures to[..] == old(to[..])[old(cursor) := position]
      ensures number[..] == old(number[..])[old(cursor) := old(cursor)]
    {
      position := position + n;
      pending := [];
      number[cursor] := cursor;
      to[cursor] := position;
      cursor := cursor + 1;
      log := log + [e];
    }

    /** `addAll(c)`: `add` of each element in turn; answers true, or the
        first exception an `add` throws. */
    method AddAll(c: seq<Option<E>>) returns (r: Result<bool>)
      requires Valid()
      modifies this, buffer, from, to, number
      ensures Valid()
      ensures buffer == old(buffer) && from == old(from) && to == old(to) && number == old(number)
      ensures r.Ok? ==> r.value && log == old(log) + c
      ensures r.Throws? ==> r.error == IndexOutOfBounds || r.error == BufferOverflow
      ensures old(log) <= log
      ensures old(Intact() && AtEnd()) && r.Ok? ==> Intact() && AtEnd()
    {
      ghost var laid := Intact() && AtEnd();
      var i := 0;
      while i < |c|
        invariant 0 <= i <= |c| && Valid()
        invariant buffer == old(buffer) && from == old(from) && to == old(to) && number == old(number)
        invariant log == old(log) + c[..i]
        invariant laid ==> Intact() && AtEnd()
        decreases |c| - i
      {
        var added := Add(c[i]);
        if added.Throws? {
          return added;
        }
        assert c[..i + 1] == c[..i] + [c[i]];
        i := i + 1;
      }
      assert c[..i] == c;
      return Ok(true);
    }

    /** `subList(a, b)`: entries `a` through `b`, both included. Looks up
        both indices in `number`, moves the buffer's position to the start
        of entry `a`, reads the bytes up to the end of entry `b` (which
        leaves the position there) and decodes `b - a + 1` elements, one
        per entry. The position is set once, at the end, to where the
        source leaves it: nothing reads it in between. */
    method SubList(a: int, b: int) returns (r: Result<Option<seq<Option<E>>>>)
      requires Valid()
      modifies this
      ensures Valid()
      ensures buffer == old(buffer) && from == old(from) && to == old(to) && number == old(number)
      ensures cursor == old(cursor) && pending == old(pending) && log == old(log)
      ensures !(0 <= a < size && 0 <= b < size) ==> r == Throws(IndexOutOfBounds) && position == old(position)
      ensures 0 <= a < size && 0 <= b < size ==>
                var nA := number[a];
                var nB := number[b];
                && 0 <= nA < size && 0 <= nB < size
                && (to[nB] < from[nA] ==> r == Throws(NegativeArraySize) && position == from[nA])
                && (from[nA] <= to[nB] ==> position == to[nB])
                && (from[nA] <= to[nB] && b < a ==> r == Throws(IllegalArgument))
                && (from[nA] <= to[nB] && a <= b ==>
                      r == Decoding(decode, buffer[from[nA]..to[nB]], from[..], to[..], a, b, nA, 0))
      ensures old(Intact()) && 0 <= a <= b < cursor && RoundTrips(encode, decode, log) ==> r == Ok(Some(log[a..b + 1]))
    {
      ghost var laidOut := Intact() && 0 <= a <= b < cursor && RoundTrips(encode, decode, log);
      if laidOut {
        LaidSpan(buffer[..], from[..], to[..], log, encode, a, b);
      }
      var p := position;
      if !(0 <= a < number.Length && 0 <= b < number.Length) {
        r := Throws(IndexOutOfBounds);
      } else {
        var realIdxA := number[a];
        var realIdxB := number[b];
        var len := to[realIdxB] - from[realIdxA];
        if len < 0 {
          p := from[realIdxA];
          r := Throws(NegativeArraySize);
        } else {
          p := to[realIdxB];
          var data := buffer[from[realIdxA]..p];
          if b - a < 0 {
            r := Throws(IllegalArgument);
          } else {
            r := DecodeEntries(data, a, b, realIdxA);
            if laidOut {
              DecodingLaid(buffer[..], from[..], to[..], log, encode, decode, a, b, a, data);
            }
          }
        }
      }
      Seek(p);
    }

    /** `dbb.position(p)`: moves the buffer's position. */
    method Seek(p: int)
      requires Valid() && 0 <= p <= bufferSize && (cursor == 0 ==> p == 0)
      modifies this
      ensures Valid() && position == p
      ensures buffer == old(buffer) && from == old(from) && to == old(to) && number == old(number)
      ensures cursor == old(cursor) && pending == old(pending) && log == old(log)
    {
      position := p;
    }

    /** The decoding loop of `subList`: one element per entry from list
        index `a` to `b`, each read from a stream that starts `offset`
        bytes into `data`, the offset moving on by the length of entry
        `idx`. */
    method DecodeEntries(data: seq<byte>, a: int, b: int, idx: int) returns (r: Result<Option<seq<Option<E>>>>)
      ensures r == Decoding(decode, data, from[..], to[..], a, b, idx, 0)
    {
      var result: seq<Option<E>> := [];
      var offset := 0;
      var realIdxA := idx;
      var i := a;
      PrependNil(Decoding(decode, data, from[..], to[..], a, b, idx, 0));
      while i <= b
        invariant Decoding(decode, data, from[..], to[..], a, b, idx, 0)
                  == Prepend(result, Decoding(decode, data, from[..], to[..], i, b, realIdxA, offset))
        decreases b - i + 1
      {
        if offset < 0 {
          return Throws(IndexOutOfBounds);
        }
        var stream := if offset <= |data| then data[offset..] else [];
        var d := decode(stream);
        if d.None? {
          return Ok(None);
        }
        if !(0 <= realIdxA < to.Length && realIdxA < from.Length) {
          return Throws(IndexOutOfBounds);
        }
        var next := offset + to[realIdxA] - from[realIdxA];
        PrependCons(result, d.value, Decoding(decode, data, from[..], to[..], i + 1, b, realIdxA + 1, next));
        result := result + [d.value];
        offset := next;
        realIdxA := realIdxA + 1;
        i := i + 1;
      }
      assert result + [] == result;
      return Ok(Some(result));
    }

    /** `get(index)`: `subList(index, index).get(0)`; a null sub-list
        throws. */
    method Get(index: int) returns (r: Result<Option<E>>)
      requires Valid()
      modifies this
      ensures Valid()
      ensures buffer == old(buffer) && from == old(from) && to == old(to) && number == old(number)
      ensures cursor == old(cursor) && pending == old(pending) && log == old(log)
      ensures !(0 <= index < size) ==> r == Throws(IndexOutOfBounds)
      ensures 0 <= index < size ==>
                var n := number[index];
                && (to[n] < from[n] ==> r == Throws(NegativeArraySize))
                && (from[n] <= to[n] ==>
                      match Decoding(decode, buffer[from[n]..to[n]], from[..], to[..], index, index, n, 0)
                      case Ok(Some(s)) => r == Ok(s[0])
                      case Ok(None) => r == Throws(NullPointer)
                      case Throws(x) => r == Throws(x))
      ensures old(Intact()) && 0 <= index < cursor && RoundTrips(encode, decode, log) ==> r == Ok(log[index])
    {
      var sub := SubList(index, index);
      match sub
      case Ok(Some(s)) => r := Ok(s[0]);
      case Ok(None) => r := Throws(NullPointer);
      case Throws(x) => r := Throws(x);
    }

    /** `clear()`: `freeMemory` zero-fills the offset arrays and restarts
        the cursor, then `allocateMemory` replaces the buffer and the arrays
        with fresh zeroed ones of the original sizes. The stream keeps
        anything a failed `add` left in it. */
    method Clear()
      modifies this
      ensures Valid() && AtEnd()
      ensures fresh(buffer) && fresh(from) && fresh(to) && fresh(number)
      ensures cursor == 0 && position == 0 && log == [] && pending == old(pending)
      ensures from[..] == Zeros(size) && to[..] == Zeros(size) && number[..] == Zeros(size)
    {
      var b, f, t, n := Allocated(bufferSize, size);
      cursor, buffer, position, from, to, number, log := 0, b, 0, f, t, n, [];
      ZerosFit(size, bufferSize);
    }

    /** An empty list with nothing left in the stream is intact: after
        `clear`, that is when no failed `add` left bytes behind. */
    lemma EmptyIntact()
      requires Valid() && cursor == 0 && pending == []
      ensures Intact() && AtEnd()
    {
    }

    /** `allocateMemory`: a fresh buffer of `bufferSize` bytes and three
        fresh zeroed offset arrays of `size` entries. */
    static method Allocated(bufferSize: nat, size: nat) returns (buf: array<byte>, f: array<int>, t: array<int>, n: array<int>)
      ensures fresh(buf) && fresh(f) && fresh(t) && fresh(n)
      ensures buf.Length == bufferSize && f != t && f != n && t != n
      ensures f[..] == Zeros(size) && t[..] == Zeros(size) && n[..] == Zeros(size)
    {
      buf := new byte[bufferSize](_ => 0);
      f := new int[size](_ => 0);
      t := new int[size](_ => 0);
      n := new int[size](_ => 0);
    }

    /** `remove(o)`: unsupported. */
    method RemoveValue(o: Option<E>) returns (r: Result<bool>)
      ensures r == Throws(UnsupportedOperation)
    {
      return Throws(UnsupportedOperation);
    }

    /** `containsAll(c)`: unsupported. */
    method ContainsAll(c: seq<Option<E>>) returns (r: Result<bool>)
      ensures r == Throws(UnsupportedOperation)
    {
      return Throws(UnsupportedOperation);
    }

    /** `removeAll(c)`: unsupported. */
    method RemoveAll(c: seq<Option<E>>) returns (r: Result<bool>)
      ensures r == Throws(UnsupportedOperation)
    {
      return Throws(UnsupportedOperation);
    }

    /** `retainAll(c)`: unsupported. */
    method RetainAll(c: seq<Option<E>>) returns (r: Result<bool>)
      ensures r == Throws(UnsupportedOperation)
    {
      return Throws(UnsupportedOperation);
    }
  }
}
