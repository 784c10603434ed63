/** Operand fields of an instruction word, extracted as the handlers in src/main.cc do. */
module Fields {
  import opened Words
  import opened Registers
  import opened Opcodes

  /** Bits 11..9: the destination register, or the source register of a store. */
  function Dr(i: Word): (r: nat)
    ensures IsGeneral(r)
  {
    (i / 0x200) % 8
  }

  /** Bits 8..6 read with mask 0x07: the source of NOT and the base of LDR, STR, JMP, JSRR. */
  function BaseR(i: Word): (r: nat)
    ensures IsGeneral(r)
  {
    (i / 0x40) % 8
  }

  /** Bits 2..0: the second source register of ADD and AND in register mode. */
  function Sr2(i: Word): (r: nat)
    ensures IsGeneral(r)
  {
    i % 8
  }

  /** The first source of ADD and AND, read as `(instruction >> 6) & 0x06`: the mask keeps
      bits 8 and 7 of the instruction in place and drops bit 6, so only R0, R2, R4 and R6 can
      be named. */
  function Sr1Even(i: Word): (r: nat)
    ensures IsGeneral(r) && r % 2 == 0
    ensures r == BaseR(i) - BaseR(i) % 2
  {
    var b := i / 0x40;
    assert i / 0x80 == b / 2;
    assert b / 2 == 4 * (b / 8) + (b % 8) / 2;
    (i / 0x80) % 4 * 2
  }

  /** Bit 5 of ADD and AND: immediate mode. */
  predicate ImmMode(i: Word)
  {
    (i / 0x20) % 2 == 1
  }

  /** Bit 11 of JSR: a PC-relative call (JSR) rather than one through a register (JSRR). */
  predicate LongOffset(i: Word)
  {
    (i / 0x800) % 2 == 1
  }

  function Imm5(i: Word): Word
  {
    assert Pow2(5) == 0x20;
    SignExtend(i % 0x20, 5)
  }

  function Offset6(i: Word): Word
  {
    assert Pow2(6) == 0x40;
    SignExtend(i % 0x40, 6)
  }

  function PcOffset9(i: Word): Word
  {
    assert Pow2(9) == 0x200;
    SignExtend(i % 0x200, 9)
  }

  function PcOffset11(i: Word): Word
  {
    assert Pow2(11) == 0x800;
    SignExtend(i % 0x800, 11)
  }

  /** Each offset field, sign-extended, holds the two's-complement value of its bits: the
      immediate of ADD and AND, the offsets of LDR/STR, of the PC-relative instructions and
      of JSR. */
  lemma OffsetValues(i: Word)
    ensures Signed(Imm5(i)) == FieldValue(i % 0x20, 5)
    ensures Signed(Offset6(i)) == FieldValue(i % 0x40, 6)
    ensures Signed(PcOffset9(i)) == FieldValue(i % 0x200, 9)
    ensures Signed(PcOffset11(i)) == FieldValue(i % 0x800, 11)
  {
    assert Pow2(5) == 0x20 && Pow2(6) == 0x40 && Pow2(9) == 0x200 && Pow2(11) == 0x800;
    SignExtendValue(i % 0x20, 5);
    SignExtendValue(i % 0x40, 6);
    SignExtendValue(i % 0x200, 9);
    SignExtendValue(i % 0x800, 11);
  }

  /** The opcode in bits 15..12 (`instruction >> 12`). */
  function OpcodeOf(i: Word): (op: Opcode)
    ensures Code(op) == i / 0x1000
  {
    FromCode(i / 0x1000)
  }
}
