/** Machine words, error numbers and the few shapes every other module needs. */
module Words {

  const UINT_MAX: int := 0xffff_ffff

  /** An `unsigned int`: 32 bits wide on every platform the drivers run on. */
  type Uint = n: int | 0 <= n <= UINT_MAX

  /** `x++` on an unsigned int, with its wrap-around. */
  function Increment(x: Uint): Uint {
    if x == UINT_MAX then 0 else x + 1
  }

  /** `x--` on an unsigned int, with its wrap-around. */
  function Decrement(x: Uint): Uint {
    if x == 0 then UINT_MAX else x - 1
  }

  // errno values, negated as the kernel returns them
  const NOENT := -2
  const IO := -5
  const AGAIN := -11
  const BUSY := -16
  const INVAL := -22
  const PIPE := -32
  const NOSYS := -38
  const BADFD := -77
  const STRPIPE := -86
  const RESTARTSYS := -512
}
