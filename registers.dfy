/** The register file layout (`RegisterType` in src/registers.h): eight general registers,
    then the program counter and the condition register. */
module Registers {
  const R0: nat := 0
  const R1: nat := 1
  const R2: nat := 2
  const R3: nat := 3
  const R4: nat := 4
  const R5: nat := 5
  const R6: nat := 6
  const R7: nat := 7
  const PC: nat := 8
  const COND: nat := 9
  /** `TOTAL_COUNT`: the number of slots in the register array. */
  const REG_COUNT: nat := 10

  predicate IsGeneral(r: nat)
  {
    r <= R7
  }
}
