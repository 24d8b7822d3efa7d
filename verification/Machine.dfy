/** Powers of two: the sizes of the machine's words. */
module Machine {
  const TWO31 := 0x8000_0000
  const TWO32 := 0x1_0000_0000

  function Pow2(n: nat): nat { if n == 0 then 1 else 2 * Pow2(n - 1) }
}
