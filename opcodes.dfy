/** Opcode numbering and condition bits (`OpCode` and `ConditionBit` in src/opcodes.h). */
module Opcodes {
  import opened Words

  /** The sixteen opcodes, declared in the order of their numbers 0..15. */
  datatype Opcode =
    | BR | ADD | LD | ST | JSR | AND | LDR | STR
    | RTI | NOT | LDI | STI | JMP | RES | LEA | TRAP

  /** `TOTAL_COUNT`: one past the largest opcode number. */
  const TOTAL_COUNT: nat := 16

  /** The number of an opcode, as the enum assigns it. */
  function Code(op: Opcode): (n: nat)
    ensures n < TOTAL_COUNT
  {
    match op
    case BR => 0
    case ADD => 1
    case LD => 2
    case ST => 3
    case JSR => 4
    case AND => 5
    case LDR => 6
    case STR => 7
    case RTI => 8
    case NOT => 9
    case LDI => 10
    case STI => 11
    case JMP => 12
    case RES => 13
    case LEA => 14
    case TRAP => 15
  }

  /** The opcode a number below `TOTAL_COUNT` names. */
  function FromCode(n: nat): (op: Opcode)
    requires n < TOTAL_COUNT
    ensures Code(op) == n
  {
    match n
    case 0 => BR
    case 1 => ADD
    case 2 => LD
    case 3 => ST
    case 4 => JSR
    case 5 => AND
    case 6 => LDR
    case 7 => STR
    case 8 => RTI
    case 9 => NOT
    case 10 => LDI
    case 11 => STI
    case 12 => JMP
    case 13 => RES
    case 14 => LEA
    case _ => TRAP
  }

  /** RTI is marked unused and RES reserved. */
  predicate Reserved(op: Opcode)
  {
    op == RTI || op == RES
  }

  /** The condition bits: one bit each for positive, zero and negative. */
  const FL_POS: Word := 1
  const FL_ZRO: Word := 2
  const FL_NEG: Word := 4

  predicate IsFlag(c: Word)
  {
    c == FL_POS || c == FL_ZRO || c == FL_NEG
  }
}
