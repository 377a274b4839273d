/**
 The parts of Rust's execution model that the kernel relies on: fixed-width
 unsigned integers, and the ways in which a computation can end.
 */
module Rust {

  const TWO_POW_32 := 0x1_0000_0000
  const TWO_POW_64 := 0x1_0000_0000_0000_0000

  type u8 = n: int | 0 <= n < 0x100
  type u16 = n: int | 0 <= n < 0x1_0000
  type u32 = n: int | 0 <= n < TWO_POW_32
  type u64 = n: int | 0 <= n < TWO_POW_64

  datatype Option<+T> = None | Some(value: T)

  /** How a computation ends.
      - `Returns`: normally, with a value;
      - `Panics`: a check of the dev profile fails (arithmetic overflow, an index or
        slice out of bounds), or an `unwrap`, `assert_eq!` or `panic!` fires;
      - `Strays`: a raw pointer is used outside the memory it was given for. What the
        machine does then is outside the model. */
  datatype Outcome<+T> = Returns(value: T) | Panics | Strays {

    predicate IsFailure() {
      !Returns?
    }

    function PropagateFailure<U>(): Outcome<U>
      requires !Returns?
    {
      if Panics? then Panics else Strays
    }

    function Extract(): T
      requires Returns?
    {
      value
    }
  }

  /** `Option::unwrap`. */
  function Unwrap<T>(o: Option<T>): Outcome<T> {
    match o
    case Some(v) => Returns(v)
    case None => Panics
  }

  /** `b & masks[k] != 0`, for the masks 128, 64, ..., 1: bits counted from the left. */
  predicate BitSet(b: u8, k: nat)
    requires k < 8
  {
    b / [128, 64, 32, 16, 8, 4, 2, 1][k] % 2 == 1
  }
}
