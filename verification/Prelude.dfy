/** Datatypes shared by every module of the model. */
module Prelude {

  /** A value that may be missing: a file that is not there, a lookup that fails. */
  datatype Option<+T> = None | Some(value: T)

  const MIN_INT64: int := -0x8000_0000_0000_0000
  const MAX_INT64: int := 0x7FFF_FFFF_FFFF_FFFF

  predicate IsInt64(x: int) {
    MIN_INT64 <= x <= MAX_INT64
  }

  /** Two's complement wrap-around of a 64-bit signed result. */
  function WrapInt64(x: int): (r: int)
    ensures IsInt64(r)
    ensures IsInt64(x) ==> r == x
  {
    (x + 0x8000_0000_0000_0000) % 0x1_0000_0000_0000_0000 - 0x8000_0000_0000_0000
  }

  /** A terminal is read into a buffer of 32 KiB. */
  const READ_SIZE: nat := 32 * 1024

  /** One result of reading the terminal: data, and whether an error came with it. */
  datatype Chunk<+T> = Chunk(data: seq<T>, failed: bool)

  lemma Associate<T>(a: seq<T>, b: seq<T>, c: seq<T>)
    ensures a + b + c == a + (b + c)
  {
  }
}
