/** The state of the LC-3 virtual CPU of src/main.cc as a value: the register file, the
    memory, the `running` flag and the terminal, with the faults an operation can end in. */
module MachineState {
  import opened Words
  import opened Registers
  import opened Opcodes

  /** `MEMORY_CAPACITY` is `UINT16_MAX`: 65535 words, so address 0xFFFF lies outside memory. */
  const MEMORY_CAPACITY: nat := 0xFFFF
  /** Keyboard status and data registers. */
  const KBSR: Word := 0xFE00
  const KBDR: Word := 0xFE02
  /** The status word written when a key is available (bit 15). */
  const KEY_READY: Word := 0x8000
  /** `getchar()` returning EOF (-1), stored in a 16-bit word. */
  const EOF_WORD: Word := 0xFFFF

  type Regs = s: seq<Word> | |s| == REG_COUNT witness seq(REG_COUNT, _ => 0)
  type Memory = s: seq<Word> | |s| == MEMORY_CAPACITY witness seq(MEMORY_CAPACITY, _ => 0)

  /** The static arrays `reg` and `memory` start out zero. */
  const ZERO_REGS: Regs := seq(REG_COUNT, _ => 0)
  const ZERO_MEMORY: Memory := seq(MEMORY_CAPACITY, _ => 0)

  /** The machine: registers, memory, the `running` flag and the terminal. `ready` holds the
      answers the keyboard poll will give, one per poll; `input` holds the bytes `getchar` will
      return; `output` holds every byte written so far. */
  datatype State = State(
    reg: Regs,
    mem: Memory,
    running: bool,
    ready: seq<bool>,
    input: seq<Byte>,
    output: seq<Byte>)

  /** An access outside memory (undefined behaviour in the source), or `abort()`. */
  datatype Fault = OutOfBounds(addr: nat) | Aborted(op: Opcode)

  datatype Result<T> = Ok(value: T) | Err(fault: Fault)

  predicate InMemory(addr: nat)
  {
    addr < MEMORY_CAPACITY
  }

  /** `t` equals `s` except possibly in the registers listed in `regs`. */
  predicate SameExceptRegs(s: State, t: State, regs: set<nat>)
  {
    t.(reg := s.reg) == s &&
    forall k :: 0 <= k < REG_COUNT && k !in regs ==> t.reg[k] == s.reg[k]
  }

  /** `t` equals `s` except possibly in the memory word at `addr`. */
  predicate SameExceptWord(s: State, t: State, addr: nat)
  {
    t.(mem := s.mem) == s &&
    forall a :: 0 <= a < MEMORY_CAPACITY && a != addr ==> t.mem[a] == s.mem[a]
  }

  /** `t` equals `s` except that bytes were appended to the output. */
  predicate SameExceptOutput(s: State, t: State)
  {
    t.(output := s.output) == s && |s.output| <= |t.output| && t.output[..|s.output|] == s.output
  }
}
