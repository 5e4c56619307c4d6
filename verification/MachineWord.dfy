/** The 64-bit unsigned machine word (`size_t`). */
module MachineWord {
  const TWO64: nat := 0x1_0000_0000_0000_0000

  /** `a + b` in `size_t`. */
  function AddWord(a: nat, b: nat): nat {
    (a + b) % TWO64
  }
}
