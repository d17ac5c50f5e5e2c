/** Fixed-width words. The firmware's integers are modelled as bounded mathematical
    integers; wherever a C++ expression wraps, the wrap is written out. */
module Words {

  const TWO16: int := 0x1_0000
  const TWO31: int := 0x8000_0000
  const TWO32: int := 0x1_0000_0000

  type u8 = x: int | 0 <= x < 0x100
  type u16 = x: int | 0 <= x < 0x1_0000
  type u32 = x: int | 0 <= x < 0x1_0000_0000

  /** Reduction to an unsigned 32-bit word. */
  function Wrap32(x: int): u32 {
    x % 0x1_0000_0000
  }

  /** `(uint32_t)(a - b)`: elapsed time on a wrapping clock. */
  function Sub32(a: u32, b: u32): u32 {
    Wrap32(a - b)
  }

  /** `(int32_t)x` of a 32-bit pattern, in two's complement. */
  function AsInt32(x: int): int {
    var w := Wrap32(x);
    if w < 0x8000_0000 then w else w - 0x1_0000_0000
  }

  function AbsDiff(a: int, b: int): nat {
    if a > b then a - b else b - a
  }

  function Abs(x: int): nat {
    if x < 0 then -x else x
  }

  function Min(a: int, b: int): int {
    if a <= b then a else b
  }

  function Max(a: int, b: int): int {
    if a <= b then b else a
  }

  function Pow2(n: nat): (p: nat)
    ensures p > 0
  {
    if n == 0 then 1 else 2 * Pow2(n - 1)
  }

  /** `hz ? hz : nominal` */
  function OrNominal(hz: u32, nominal: u32): u32 {
    if hz == 0 then nominal else hz
  }

  datatype Option<T> = None | Some(value: T)
}
