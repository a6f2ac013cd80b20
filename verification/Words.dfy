/** The 32-bit unsigned words of the program, and the result types its error returns become. */
module Words {

  /** One more than the largest 32-bit word. */
  const TWO_TO_THE_32 := 0x1_0000_0000

  type Uint32 = x: int | 0 <= x < TWO_TO_THE_32

  /** The value a 32-bit unsigned register keeps of an exact integer. */
  function Wrap(x: int): Uint32 {
    x % TWO_TO_THE_32
  }

  datatype Option<+T> = None | Some(value: T)

  function Min(a: int, b: int): int {
    if a <= b then a else b
  }

  function Max(a: int, b: int): int {
    if a <= b then b else a
  }
}
