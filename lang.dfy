/** Java-level vocabulary shared by every other module: null references,
    the exceptions the collections throw, and 32-bit `int` arithmetic. */
module Lang {

  /** A Java reference that may be null: `None` is `null`. */
  datatype Option<+T> = None | Some(value: T)

  /** The unchecked exceptions the modelled code throws, on purpose or by
      dereferencing null or indexing out of range. */
  datatype Exception =
    | IllegalArgument
    | IndexOutOfBounds
    | NoSuchElement
    | UnsupportedOperation
    | BufferOverflow
    | NullPointer
    | NegativeArraySize

  /** The outcome of a Java call: a returned value or a thrown exception. */
  datatype Result<+T> = Ok(value: T) | Throws(error: Exception)

  const IntMin: int := -0x8000_0000
  const IntMax: int := 0x7fff_ffff

  predicate IsInt32(x: int) { IntMin <= x <= IntMax }

  /** Two's-complement wrap-around of Java `int` arithmetic. */
  function Wrap32(x: int): (r: int)
    ensures IsInt32(r)
    ensures (r - x) % 0x1_0000_0000 == 0
    ensures IsInt32(x) ==> r == x
  {
    (x + 0x8000_0000) % 0x1_0000_0000 - 0x8000_0000
  }

  function Min(a: int, b: int): (m: int)
    ensures m <= a && m <= b && (m == a || m == b)
  {
    if a < b then a else b
  }
}
