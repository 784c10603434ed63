/** `Ops::Utils` of src/main.cc: the flag update and the device-mapped memory accesses, as
    functions on the machine state. Each function only computes; the lemma after it states
    what the computation does. */
module Utils {
  import opened Words
  import opened Registers
  import opened Opcodes
  import opened MachineState

  /** The condition bit update_flags picks for a value: ZRO for zero, NEG when bit 15 is set,
      POS otherwise. */
  function FlagFor(v: Word): Word
  {
    if v == 0 then FL_ZRO else if v / 0x8000 == 1 then FL_NEG else FL_POS
  }

  /** The flag is exactly one condition bit, and it is the sign of the value read as a signed
      word. */
  lemma FlagForSign(v: Word)
    ensures IsFlag(FlagFor(v))
    ensures FlagFor(v) == FL_ZRO <==> v == 0
    ensures FlagFor(v) == FL_NEG <==> Signed(v) < 0
    ensures FlagFor(v) == FL_POS <==> Signed(v) > 0
  {
  }

  /** update_flags: COND takes the flag of register `r`. */
  function UpdateFlags(s: State, r: nat): State
    requires r < REG_COUNT
  {
    s.(reg := s.reg[COND := FlagFor(s.reg[r])])
  }

  /** update_flags writes COND and nothing else. */
  lemma UpdateFlagsEffect(s: State, r: nat)
    requires r < REG_COUNT
    ensures UpdateFlags(s, r).reg[COND] == FlagFor(s.reg[r])
    ensures SameExceptRegs(s, UpdateFlags(s, r), {COND})
  {
  }

  /** Writes `v` into general register `d` and then updates the flags from it, as every
      handler that sets a register does. */
  function SetAndFlag(s: State, d: nat, v: Word): State
    requires IsGeneral(d)
  {
    UpdateFlags(s.(reg := s.reg[d := v]), d)
  }

  lemma SetAndFlagEffect(s: State, d: nat, v: Word)
    requires IsGeneral(d)
    ensures SetAndFlag(s, d, v).reg[d] == v && SetAndFlag(s, d, v).reg[COND] == FlagFor(v)
    ensures SameExceptRegs(s, SetAndFlag(s, d, v), {d, COND})
  {
  }

  /** check_keyboard, as an oracle: the next answer in `ready`, or no key once none is left. */
  function Poll(ready: seq<bool>): (bool, seq<bool>)
  {
    if ready == [] then (false, []) else (ready[0], ready[1..])
  }

  /** getchar() stored in a 16-bit word: the next input byte, or EOF as 0xFFFF. */
  function GetChar(input: seq<Byte>): (Word, seq<Byte>)
  {
    if input == [] then (EOF_WORD, []) else (input[0], input[1..])
  }

  /** A character read is the next input byte and consumes it; at the end of the input it is
      EOF, which no byte equals. */
  lemma GetCharNext(input: seq<Byte>)
    ensures input == [] ==> GetChar(input) == (EOF_WORD, [])
    ensures input != [] ==> GetChar(input).0 == input[0] && [input[0]] + GetChar(input).1 == input
    ensures GetChar(input).0 < 0x100 <==> input != []
  {
    assert input != [] ==> [input[0]] + input[1..] == input;
  }

  /** mem_read: reading KBSR polls the keyboard first; when a key is available KBSR becomes
      0x8000 and KBDR the next character, otherwise KBSR becomes 0. The word now stored at
      the address is returned. An address outside memory is a fault. */
  function MemRead(s: State, addr: Word): Result<(Word, State)>
  {
    if !InMemory(addr) then
      Err(OutOfBounds(addr))
    else if addr == KBSR then
      var (key, rest) := Poll(s.ready);
      var t :=
        if key then
          var (c, input) := GetChar(s.input);
          s.(mem := s.mem[KBSR := KEY_READY][KBDR := c], ready := rest, input := input)
        else
          s.(mem := s.mem[KBSR := 0], ready := rest);
      Ok((t.mem[KBSR], t))
    else
      Ok((s.mem[addr], s))
  }

  /** A read returns the word stored at the address afterwards. Outside KBSR it changes
      nothing; at KBSR it consumes one poll answer and, with a key, one input byte into KBDR,
      and leaves the registers, `running`, the output and every other word alone. */
  lemma MemReadEffect(s: State, addr: Word)
    ensures MemRead(s, addr).Err? <==> !InMemory(addr)
    ensures MemRead(s, addr).Err? ==> MemRead(s, addr).fault == OutOfBounds(addr)
    ensures MemRead(s, addr).Ok? ==> MemRead(s, addr).value.0 == MemRead(s, addr).value.1.mem[addr]
    ensures MemRead(s, addr).Ok? && addr != KBSR ==> MemRead(s, addr).value.1 == s
    ensures MemRead(s, addr).Ok? && addr == KBSR ==>
      var t := MemRead(s, addr).value.1;
      var (key, rest) := Poll(s.ready);
      && t.ready == rest
      && t.reg == s.reg && t.running == s.running && t.output == s.output
      && (forall a :: 0 <= a < MEMORY_CAPACITY && a != KBSR && a != KBDR ==> t.mem[a] == s.mem[a])
      && (key ==> t.mem[KBSR] == KEY_READY && (t.mem[KBDR], t.input) == GetChar(s.input))
      && (!key ==> t.mem[KBSR] == 0 && t.mem[KBDR] == s.mem[KBDR] && t.input == s.input)
  {
  }

  /** mem_write: stores `v` at `addr`; no address is write-protected. */
  function MemWrite(s: State, addr: Word, v: Word): Result<State>
  {
    if !InMemory(addr) then Err(OutOfBounds(addr))
    else Ok(s.(mem := s.mem[addr := v]))
  }

  /** A write changes exactly the word at the address, or faults outside memory. */
  lemma MemWriteEffect(s: State, addr: Word, v: Word)
    ensures MemWrite(s, addr, v).Err? <==> !InMemory(addr)
    ensures MemWrite(s, addr, v).Err? ==> MemWrite(s, addr, v).fault == OutOfBounds(addr)
    ensures MemWrite(s, addr, v).Ok? ==>
      MemWrite(s, addr, v).value.mem[addr] == v && SameExceptWord(s, MemWrite(s, addr, v).value, addr)
  {
  }
}
