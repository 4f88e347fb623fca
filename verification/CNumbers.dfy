/** The number conversions of C that the allocators rely on. */
module CNumbers {

  const TWO31: nat := 0x8000_0000
  const TWO32: nat := 0x1_0000_0000
  const TWO64: nat := 0x1_0000_0000_0000_0000

  /** The conversion of an unsigned number to a 32-bit int. */
  function AsInt(n: nat): int { if n < 0x8000_0000 then n else Signed(n % 0x1_0000_0000) }

  function Signed(m: nat): int { if m < 0x8000_0000 then m else m - 0x1_0000_0000 }

  /** The conversion of a number to 64 bits, unsigned. */
  function Wrap(x: int): nat { if 0 <= x < TWO64 then x else x % 0x1_0000_0000_0000_0000 }

  lemma WrapIs(x: int)
    requires 0 <= x + TWO64 && x < 2 * TWO64
    ensures Wrap(x) < TWO64
    ensures Wrap(x) == if x < 0 then x + TWO64 else if x < TWO64 then x else x - TWO64
  {
  }

  lemma AsIntIs(n: nat)
    ensures -0x8000_0000 <= AsInt(n) < 0x8000_0000
    ensures n < 0x8000_0000 ==> AsInt(n) == n
  {
  }
}
