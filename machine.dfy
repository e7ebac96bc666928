/**
 * Fixed-width machine integers, as the programs use them: `uint64_t`
 * arithmetic wraps modulo 2^64, and a value converted to a 32-bit `int`
 * keeps its low 32 bits read as two's complement.
 */
module Machine {
  const TWO_32: int := 0x1_0000_0000
  const TWO_64: int := 0x1_0000_0000_0000_0000

  /** `uint64_t` */
  type u64 = x: int | 0 <= x < TWO_64

  /** An unsigned value converted to `int`: its low 32 bits as a signed number. */
  function ToInt32(x: nat): (r: int)
    ensures -0x8000_0000 <= r < 0x8000_0000
    ensures x < 0x8000_0000 ==> r == x
    ensures (r - x) % TWO_32 == 0
  {
    var low := x % TWO_32;
    if low < 0x8000_0000 then low else low - TWO_32
  }

  /** A value already in `[0, 2^64)` is unchanged by the `uint64_t` wrap; used wherever a time or size is shown not to wrap. */
  lemma SmallMod(x: int)
    requires 0 <= x < TWO_64
    ensures x % TWO_64 == x
  {
  }

  lemma ModAddMod(x: int, b: int)
    ensures (x % TWO_64 + b) % TWO_64 == (x + b) % TWO_64
  {
    var q := x / TWO_64;
    assert x == q * TWO_64 + x % TWO_64;
    assert x + b == (x % TWO_64 + b) + q * TWO_64;
    ModMultiple(x % TWO_64 + b, q);
  }

  lemma ModMultiple(y: int, q: int)
    ensures (y + q * TWO_64) % TWO_64 == y % TWO_64
  {
  }
}
