/** Const and NullConverter: the size constants, the `NULL` sentinel that
    stands in for a null element where null cannot be stored, and the
    converter wrapper that masks null on the way in and unmasks it on the
    way out. */
module Consts {

  /** `x << n` for a shift that does not overflow: `x` doubled `n` times. */
  function ShiftLeft(x: nat, n: nat): nat {
    if n == 0 then x else 2 * ShiftLeft(x, n - 1)
  }

  /** `_1Kb = 1 << 10`. */
  const OneKb: int := ShiftLeft(1, 10)
  /** `_1Mb = 1 << 20`. */
  const OneMb: int := ShiftLeft(1, 20)

  /** Shifting by `a + b` is shifting by `a`, then by `b`. */
  lemma {:induction false} ShiftAdd(x: nat, a: nat, b: nat)
    ensures ShiftLeft(x, a + b) == ShiftLeft(ShiftLeft(x, a), b)
    decreases b
  {
    if b > 0 {
      ShiftAdd(x, a, b - 1);
    }
  }

  /** A kilobyte is 1024 bytes, and a megabyte a kilobyte of kilobytes. */
  lemma SizeUnits()
    ensures OneKb == 1024 && OneMb == 1048576 && OneMb == OneKb * OneKb
  {
    assert ShiftLeft(1, 5) == 32;
    ShiftAdd(1, 5, 5);
    assert ShiftLeft(32, 5) == 1024;
    ShiftAdd(1, 10, 10);
    assert ShiftLeft(1024, 10) == 1048576 by {
      assert ShiftLeft(1024, 5) == 32768;
      ShiftAdd(1024, 5, 5);
    }
  }

  /** A Java reference as the null masking sees it: null, the one `NULL`
      instance that `nil()` answers (its `readResolve` keeps it the only
      one, so it is a single value here), or any other object. */
  datatype Ref<E> = Null | Nil | Obj(obj: E)

  /** `maskNull(e)`: `e` itself unless it is null, `nil()` then. */
  function MaskNull<E>(e: Ref<E>): (r: Ref<E>)
    ensures r != Null
    ensures e != Null ==> r == e
  {
    if e != Null then e else Nil
  }

  /** Masking twice masks once. */
  lemma MaskNullIdempotent<E>(e: Ref<E>)
    ensures MaskNull(MaskNull(e)) == MaskNull(e)
  {
  }
}

/** NullConverter over a base converter given as its two functions. */
module Converters {
  import opened Consts

  /** `encode(e)`: the base encoding of `e`, or of `nil()` for null. */
  function Encode<F, T>(baseEncode: Ref<F> -> T, e: Ref<F>): (t: T)
    ensures e == Null ==> t == baseEncode(Nil)
    ensures e != Null ==> t == baseEncode(e)
  {
    baseEncode(MaskNull(e))
  }

  /** `decode(data)`: the base decoding, with the `nil()` sentinel (an
      identity comparison) turned back into null. */
  function Decode<F, T>(baseDecode: T -> Ref<F>, data: T): (f: Ref<F>)
    ensures f != Nil
    ensures baseDecode(data) != Nil ==> f == baseDecode(data)
  {
    var d := baseDecode(data);
    if d != Nil then d else Null
  }

  /** A base converter that round-trips every non-null reference makes the
      null-masking converter round-trip every reference except the
      sentinel itself, null included. */
  lemma RoundTrip<F, T>(baseEncode: Ref<F> -> T, baseDecode: T -> Ref<F>, x: Ref<F>)
    requires forall y: Ref<F> :: y != Null ==> baseDecode(baseEncode(y)) == y
    requires x != Nil
    ensures Decode(baseDecode, Encode(baseEncode, x)) == x
  {
    if x == Null {
      assert baseDecode(baseEncode(Nil)) == Nil;
    } else {
      assert baseDecode(baseEncode(x)) == x;
    }
  }

  /** The sentinel itself does not survive: it comes back as null, and
      null and the sentinel encode alike. */
  lemma SentinelCollapses<F, T>(baseEncode: Ref<F> -> T, baseDecode: T -> Ref<F>)
    requires forall y: Ref<F> :: y != Null ==> baseDecode(baseEncode(y)) == y
    ensures Encode(baseEncode, Nil) == Encode(baseEncode, Null)
    ensures Decode(baseDecode, Encode(baseEncode, Nil)) == Null
  {
    assert baseDecode(baseEncode(Nil)) == Nil;
  }
}
