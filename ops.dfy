/** The sixteen instruction handlers of `Ops` in src/main.cc, the TRAP dispatch and the switch
    of the main loop, as functions on the machine state. Each handler only computes; the lemma
    after it states what it reads, what it writes and what it leaves alone. */
module Ops {
  import opened Words
  import opened Registers
  import opened Opcodes
  import opened TrapCodes
  import opened Fields
  import opened MachineState
  import opened Utils
  import opened TrapRoutine

  /** The address `PC + PCoffset9` of LD, LDI, ST, STI and LEA, kept to 16 bits. */
  function PcRelative(s: State, i: Word): Word
  {
    Wrap(s.reg[PC] + PcOffset9(i))
  }

  /** The address `BaseR + offset6` of LDR and STR, kept to 16 bits. */
  function BaseRelative(s: State, i: Word): Word
  {
    Wrap(s.reg[BaseR(i)] + Offset6(i))
  }

  // ---------------------------------------------------------------------------------------
  // Branches, jumps and calls

  /** BR: the branch is taken when the n/z/p mask in bits 11..9 shares a bit with COND. */
  predicate BranchTaken(s: State, i: Word)
  {
    BranchOn(i, s.reg[COND])
  }

  /** The test of BR: the n, z and p bits of the instruction meet the condition word. */
  predicate BranchOn(i: Word, cond: Word)
  {
    BitAnd((i / 0x200) % 8, cond) != 0
  }

  function Br(s: State, i: Word): State
  {
    if BranchTaken(s, i) then s.(reg := s.reg[PC := Wrap(s.reg[PC] + PcOffset9(i))]) else s
  }

  /** A taken branch moves PC by the offset, modulo 2^16; one not taken changes nothing; only
      PC is ever written. */
  lemma BrEffect(s: State, i: Word)
    ensures BranchTaken(s, i) ==> (Br(s, i).reg[PC] - s.reg[PC] - PcOffset9(i)) % WORD_MODULUS == 0
    ensures !BranchTaken(s, i) ==> Br(s, i) == s
    ensures SameExceptRegs(s, Br(s, i), {PC})
  {
  }

  /** JSR and JSRR: R7 := PC first; then PC += PCoffset11 when bit 11 is set, otherwise
      PC := BaseR, read after R7 was written. */
  function Jsr(s: State, i: Word): State
  {
    var linked := s.(reg := s.reg[R7 := s.reg[PC]]);
    if LongOffset(i) then
      linked.(reg := linked.reg[PC := Wrap(linked.reg[PC] + PcOffset11(i))])
    else
      linked.(reg := linked.reg[PC := linked.reg[BaseR(i)]])
  }

  /** JSR links the return address into R7 and moves PC by the offset; JSRR jumps to its base
      register, so through R7 it stays where it was; nothing but R7 and PC changes. */
  lemma JsrEffect(s: State, i: Word)
    ensures Jsr(s, i).reg[R7] == s.reg[PC]
    ensures LongOffset(i) ==> (Jsr(s, i).reg[PC] - s.reg[PC] - PcOffset11(i)) % WORD_MODULUS == 0
    ensures !LongOffset(i) ==> Jsr(s, i).reg[PC] == if BaseR(i) == R7 then s.reg[PC] else s.reg[BaseR(i)]
    ensures SameExceptRegs(s, Jsr(s, i), {R7, PC})
  {
  }

  /** JMP: PC := BaseR. */
  function Jmp(s: State, i: Word): State
  {
    s.(reg := s.reg[PC := s.reg[BaseR(i)]])
  }

  lemma JmpEffect(s: State, i: Word)
    ensures Jmp(s, i).reg[PC] == s.reg[BaseR(i)]
    ensures SameExceptRegs(s, Jmp(s, i), {PC})
  {
  }

  // ---------------------------------------------------------------------------------------
  // Arithmetic and logic

  /** The second operand of ADD and AND: the sign-extended imm5 or register SR2. */
  function Operand2(s: State, i: Word): Word
  {
    if ImmMode(i) then Imm5(i) else s.reg[Sr2(i)]
  }

  /** ADD: DR := SR1 + operand, modulo 2^16, then the flags. */
  function Add(s: State, i: Word): State
  {
    SetAndFlag(s, Dr(i), Wrap(s.reg[Sr1Even(i)] + Operand2(s, i)))
  }

  /** ADD leaves in DR the sum of SR1 and the operand modulo 2^16, and the flag of that sum in
      COND; nothing else changes. */
  lemma AddEffect(s: State, i: Word)
    ensures (Add(s, i).reg[Dr(i)] - s.reg[Sr1Even(i)] - Operand2(s, i)) % WORD_MODULUS == 0
    ensures Add(s, i).reg[COND] == FlagFor(Add(s, i).reg[Dr(i)])
    ensures SameExceptRegs(s, Add(s, i), {Dr(i), COND})
  {
    SetAndFlagEffect(s, Dr(i), Wrap(s.reg[Sr1Even(i)] + Operand2(s, i)));
  }

  /** AND: DR := SR1 & operand, then the flags. */
  function And(s: State, i: Word): State
  {
    SetAndFlag(s, Dr(i), BitAnd(s.reg[Sr1Even(i)], Operand2(s, i)))
  }

  lemma AndEffect(s: State, i: Word)
    ensures And(s, i).reg[Dr(i)] == BitAnd(s.reg[Sr1Even(i)], Operand2(s, i))
    ensures And(s, i).reg[COND] == FlagFor(And(s, i).reg[Dr(i)])
    ensures SameExceptRegs(s, And(s, i), {Dr(i), COND})
  {
    SetAndFlagEffect(s, Dr(i), BitAnd(s.reg[Sr1Even(i)], Operand2(s, i)));
  }

  /** NOT: DR := ~SR, then the flags. */
  function Not(s: State, i: Word): State
  {
    SetAndFlag(s, Dr(i), BitNot(s.reg[BaseR(i)]))
  }

  /** Read as signed words, NOT gives -SR - 1; nothing but DR and COND changes. */
  lemma NotEffect(s: State, i: Word)
    ensures Signed(Not(s, i).reg[Dr(i)]) == -Signed(s.reg[BaseR(i)]) - 1
    ensures Not(s, i).reg[COND] == FlagFor(Not(s, i).reg[Dr(i)])
    ensures SameExceptRegs(s, Not(s, i), {Dr(i), COND})
  {
    SetAndFlagEffect(s, Dr(i), BitNot(s.reg[BaseR(i)]));
  }

  // ---------------------------------------------------------------------------------------
  // Loads

  /** A load into register `d` from the outcome of a `mem_read`, then the flags. */
  function LoadInto(read: Result<(Word, State)>, d: nat): Result<State>
    requires IsGeneral(d)
  {
    match read
    case Err(f) => Err(f)
    case Ok((w, t)) => Ok(SetAndFlag(t, d, w))
  }

  /** A load into general register `d` from `addr` through mem_read, then the flags. */
  function Load(s: State, addr: Word, d: nat): Result<State>
    requires IsGeneral(d)
  {
    LoadInto(MemRead(s, addr), d)
  }

  /** A load faults exactly outside memory. It puts in `d` the word mem_read returned and its
      flag in COND, and changes nothing else that mem_read did not; at any address but KBSR
      that word is the one stored there and nothing else changes at all. */
  lemma LoadEffect(s: State, addr: Word, d: nat)
    requires IsGeneral(d)
    ensures Load(s, addr, d).Err? <==> !InMemory(addr)
    ensures Load(s, addr, d).Err? ==> Load(s, addr, d).fault == OutOfBounds(addr)
    ensures Load(s, addr, d).Ok? ==>
      && Load(s, addr, d).value.reg[d] == MemRead(s, addr).value.0
      && Load(s, addr, d).value.reg[COND] == FlagFor(Load(s, addr, d).value.reg[d])
      && SameExceptRegs(MemRead(s, addr).value.1, Load(s, addr, d).value, {d, COND})
    ensures Load(s, addr, d).Ok? && addr != KBSR ==>
      && Load(s, addr, d).value.reg[d] == s.mem[addr]
      && SameExceptRegs(s, Load(s, addr, d).value, {d, COND})
  {
    MemReadEffect(s, addr);
    if InMemory(addr) {
      var (w, t) := MemRead(s, addr).value;
      SetAndFlagEffect(t, d, w);
    }
  }

  /** A load through a pointer: the word at `addr`, read through mem_read, is the address
      then loaded into `d`. */
  function LoadIndirect(s: State, addr: Word, d: nat): Result<State>
    requires IsGeneral(d)
  {
    match MemRead(s, addr)
    case Err(f) => Err(f)
    case Ok((p, t)) => Load(t, p, d)
  }

  /** An indirect load faults exactly when the pointer's own address or the address it holds
      after the first mem_read is outside memory; otherwise `d` receives what the second
      mem_read returns, with its flag. Away from KBSR both reads are plain memory reads. */
  lemma LoadIndirectEffect(s: State, addr: Word, d: nat)
    requires IsGeneral(d)
    ensures !InMemory(addr) ==> LoadIndirect(s, addr, d) == Err(OutOfBounds(addr))
    ensures InMemory(addr) ==>
      var (p, t) := MemRead(s, addr).value;
      && (LoadIndirect(s, addr, d).Err? <==> !InMemory(p))
      && (LoadIndirect(s, addr, d).Ok? ==>
            && LoadIndirect(s, addr, d).value.reg[d] == MemRead(t, p).value.0
            && LoadIndirect(s, addr, d).value.reg[COND] == FlagFor(MemRead(t, p).value.0)
            && SameExceptRegs(MemRead(t, p).value.1, LoadIndirect(s, addr, d).value, {d, COND}))
    ensures InMemory(addr) && addr != KBSR ==>
      var p := s.mem[addr];
      && (LoadIndirect(s, addr, d).Err? <==> !InMemory(p))
      && (LoadIndirect(s, addr, d).Ok? && p != KBSR ==>
            && LoadIndirect(s, addr, d).value.reg[d] == s.mem[p]
            && LoadIndirect(s, addr, d).value.reg[COND] == FlagFor(s.mem[p])
            && SameExceptRegs(s, LoadIndirect(s, addr, d).value, {d, COND}))
  {
    MemReadEffect(s, addr);
    if InMemory(addr) {
      var (p, t) := MemRead(s, addr).value;
      LoadEffect(t, p, d);
    }
  }

  /** LD: DR := mem[PC + PCoffset9], read through mem_read. */
  function Ld(s: State, i: Word): Result<State>
  {
    Load(s, PcRelative(s, i), Dr(i))
  }

  /** LD faults exactly when PC + PCoffset9 is outside memory. Otherwise DR receives what
      mem_read returns there, with its flag, and nothing changes that mem_read did not change:
      away from KBSR that is the word stored there and nothing else changes; at KBSR it is the
      keyboard status the poll just wrote, 0x8000 with a key waiting and 0 without. */
  lemma LdEffect(s: State, i: Word)
    ensures Ld(s, i).Err? <==> !InMemory(PcRelative(s, i))
    ensures Ld(s, i).Ok? ==>
      && Ld(s, i).value.reg[Dr(i)] == MemRead(s, PcRelative(s, i)).value.0
      && Ld(s, i).value.reg[COND] == FlagFor(MemRead(s, PcRelative(s, i)).value.0)
      && SameExceptRegs(MemRead(s, PcRelative(s, i)).value.1, Ld(s, i).value, {Dr(i), COND})
    ensures Ld(s, i).Ok? && PcRelative(s, i) == KBSR ==>
      Ld(s, i).value.reg[Dr(i)] == if Poll(s.ready).0 then KEY_READY else 0
    ensures Ld(s, i).Ok? && PcRelative(s, i) != KBSR ==>
      && Ld(s, i).value.reg[Dr(i)] == s.mem[PcRelative(s, i)]
      && Ld(s, i).value.reg[COND] == FlagFor(s.mem[PcRelative(s, i)])
      && SameExceptRegs(s, Ld(s, i).value, {Dr(i), COND})
  {
    LoadEffect(s, PcRelative(s, i), Dr(i));
    MemReadEffect(s, PcRelative(s, i));
  }

  /** LDR: DR := mem[BaseR + offset6], read through mem_read. */
  function Ldr(s: State, i: Word): Result<State>
  {
    Load(s, BaseRelative(s, i), Dr(i))
  }

  /** LDR faults exactly when BaseR + offset6 is outside memory. Otherwise DR receives what
      mem_read returns there, with its flag, and nothing changes that mem_read did not change:
      away from KBSR that is the word stored there and nothing else changes; at KBSR it is the
      keyboard status the poll just wrote, 0x8000 with a key waiting and 0 without. */
  lemma LdrEffect(s: State, i: Word)
    ensures Ldr(s, i).Err? <==> !InMemory(BaseRelative(s, i))
    ensures Ldr(s, i).Ok? ==>
      && Ldr(s, i).value.reg[Dr(i)] == MemRead(s, BaseRelative(s, i)).value.0
      && Ldr(s, i).value.reg[COND] == FlagFor(MemRead(s, BaseRelative(s, i)).value.0)
      && SameExceptRegs(MemRead(s, BaseRelative(s, i)).value.1, Ldr(s, i).value, {Dr(i), COND})
    ensures Ldr(s, i).Ok? && BaseRelative(s, i) == KBSR ==>
      Ldr(s, i).value.reg[Dr(i)] == if Poll(s.ready).0 then KEY_READY else 0
    ensures Ldr(s, i).Ok? && BaseRelative(s, i) != KBSR ==>
      && Ldr(s, i).value.reg[Dr(i)] == s.mem[BaseRelative(s, i)]
      && Ldr(s, i).value.reg[COND] == FlagFor(s.mem[BaseRelative(s, i)])
      && SameExceptRegs(s, Ldr(s, i).value, {Dr(i), COND})
  {
    LoadEffect(s, BaseRelative(s, i), Dr(i));
    MemReadEffect(s, BaseRelative(s, i));
  }

  /** LDI: DR := mem[mem[PC + PCoffset9]], both reads through mem_read. */
  function Ldi(s: State, i: Word): Result<State>
  {
    LoadIndirect(s, PcRelative(s, i), Dr(i))
  }

  /** LDI reads the pointer at PC + PCoffset9 and then the word it points to, both through
      mem_read, into DR. Away from KBSR these are the stored words; a pointer to KBSR polls
      the keyboard and loads its status, 0x8000 with a key waiting and 0 without. */
  lemma LdiEffect(s: State, i: Word)
    ensures !InMemory(PcRelative(s, i)) ==> Ldi(s, i) == Err(OutOfBounds(PcRelative(s, i)))
    ensures InMemory(PcRelative(s, i)) ==>
      var (p, t) := MemRead(s, PcRelative(s, i)).value;
      && (Ldi(s, i).Err? <==> !InMemory(p))
      && (Ldi(s, i).Ok? ==>
            && Ldi(s, i).value.reg[Dr(i)] == MemRead(t, p).value.0
            && Ldi(s, i).value.reg[COND] == FlagFor(MemRead(t, p).value.0)
            && SameExceptRegs(MemRead(t, p).value.1, Ldi(s, i).value, {Dr(i), COND}))
    ensures InMemory(PcRelative(s, i)) && PcRelative(s, i) != KBSR && s.mem[PcRelative(s, i)] == KBSR ==>
      && Ldi(s, i).Ok?
      && Ldi(s, i).value.reg[Dr(i)] == if Poll(s.ready).0 then KEY_READY else 0
    ensures InMemory(PcRelative(s, i)) && PcRelative(s, i) != KBSR ==>
      var p := s.mem[PcRelative(s, i)];
      && (Ldi(s, i).Err? <==> !InMemory(p))
      && (Ldi(s, i).Ok? && p != KBSR ==>
            && Ldi(s, i).value.reg[Dr(i)] == s.mem[p]
            && Ldi(s, i).value.reg[COND] == FlagFor(s.mem[p])
            && SameExceptRegs(s, Ldi(s, i).value, {Dr(i), COND}))
  {
    LoadIndirectEffect(s, PcRelative(s, i), Dr(i));
    if InMemory(PcRelative(s, i)) && PcRelative(s, i) != KBSR && s.mem[PcRelative(s, i)] == KBSR {
      MemReadEffect(s, PcRelative(s, i));
      MemReadEffect(s, KBSR);
    }
  }

  /** LEA: DR := PC + PCoffset9, with no memory access. */
  function Lea(s: State, i: Word): State
  {
    SetAndFlag(s, Dr(i), PcRelative(s, i))
  }

  /** LEA puts in DR the address LD would read, touching no memory. */
  lemma LeaEffect(s: State, i: Word)
    ensures Lea(s, i).reg[Dr(i)] == PcRelative(s, i)
    ensures Lea(s, i).reg[COND] == FlagFor(PcRelative(s, i))
    ensures SameExceptRegs(s, Lea(s, i), {Dr(i), COND})
  {
    SetAndFlagEffect(s, Dr(i), PcRelative(s, i));
  }

  // ---------------------------------------------------------------------------------------
  // Stores

  /** ST: mem[PC + PCoffset9] := SR; no register changes. */
  function St(s: State, i: Word): Result<State>
  {
    MemWrite(s, PcRelative(s, i), s.reg[Dr(i)])
  }

  /** ST writes SR into the word at PC + PCoffset9 and nothing else, or faults outside memory. */
  lemma StEffect(s: State, i: Word)
    ensures St(s, i).Err? <==> !InMemory(PcRelative(s, i))
    ensures St(s, i).Ok? ==>
      St(s, i).value.mem[PcRelative(s, i)] == s.reg[Dr(i)] && SameExceptWord(s, St(s, i).value, PcRelative(s, i))
  {
    MemWriteEffect(s, PcRelative(s, i), s.reg[Dr(i)]);
  }

  /** STR: mem[BaseR + offset6] := SR; no register changes. */
  function Str(s: State, i: Word): Result<State>
  {
    MemWrite(s, BaseRelative(s, i), s.reg[Dr(i)])
  }

  /** STR writes SR into the word at BaseR + offset6 and nothing else, or faults outside
      memory. */
  lemma StrEffect(s: State, i: Word)
    ensures Str(s, i).Err? <==> !InMemory(BaseRelative(s, i))
    ensures Str(s, i).Ok? ==>
      Str(s, i).value.mem[BaseRelative(s, i)] == s.reg[Dr(i)] && SameExceptWord(s, Str(s, i).value, BaseRelative(s, i))
  {
    MemWriteEffect(s, BaseRelative(s, i), s.reg[Dr(i)]);
  }

  /** A store through a pointer: the word at `addr`, read through mem_read, is the address
      `v` is written to. */
  function StoreIndirect(s: State, addr: Word, v: Word): Result<State>
  {
    match MemRead(s, addr)
    case Err(f) => Err(f)
    case Ok((p, t)) => MemWrite(t, p, v)
  }

  /** An indirect store faults exactly when the pointer's address or its target is outside
      memory; otherwise it writes `v` into the one word the pointer, as mem_read returns it,
      points to, after the read's own effect (the keyboard poll when `addr` is KBSR). Away
      from KBSR the pointer is the stored word and nothing else changes. */
  lemma StoreIndirectEffect(s: State, addr: Word, v: Word)
    ensures !InMemory(addr) ==> StoreIndirect(s, addr, v) == Err(OutOfBounds(addr))
    ensures InMemory(addr) ==>
      var (p, t) := MemRead(s, addr).value;
      && (StoreIndirect(s, addr, v).Err? <==> !InMemory(p))
      && (StoreIndirect(s, addr, v).Ok? ==>
            StoreIndirect(s, addr, v).value.mem[p] == v && SameExceptWord(t, StoreIndirect(s, addr, v).value, p))
    ensures InMemory(addr) && addr != KBSR ==>
      var p := s.mem[addr];
      && (StoreIndirect(s, addr, v).Err? <==> !InMemory(p))
      && (StoreIndirect(s, addr, v).Ok? ==>
            StoreIndirect(s, addr, v).value.mem[p] == v && SameExceptWord(s, StoreIndirect(s, addr, v).value, p))
  {
    MemReadEffect(s, addr);
    if InMemory(addr) {
      var (p, t) := MemRead(s, addr).value;
      MemWriteEffect(t, p, v);
    }
  }

  /** STI: mem[mem[PC + PCoffset9]] := SR; the pointer is read through mem_read. */
  function Sti(s: State, i: Word): Result<State>
  {
    StoreIndirect(s, PcRelative(s, i), s.reg[Dr(i)])
  }

  /** STI writes SR into the one word that the pointer read by mem_read at PC + PCoffset9
      points to, after that read's effect; with the pointer slot at KBSR the target is the
      poll's status value. Away from KBSR nothing but the target word changes. */
  lemma StiEffect(s: State, i: Word)
    ensures !InMemory(PcRelative(s, i)) ==> Sti(s, i) == Err(OutOfBounds(PcRelative(s, i)))
    ensures InMemory(PcRelative(s, i)) ==>
      var (p, t) := MemRead(s, PcRelative(s, i)).value;
      && (Sti(s, i).Err? <==> !InMemory(p))
      && (Sti(s, i).Ok? ==> Sti(s, i).value.mem[p] == s.reg[Dr(i)] && SameExceptWord(t, Sti(s, i).value, p))
    ensures PcRelative(s, i) == KBSR ==>
      Sti(s, i).Ok? && Sti(s, i).value.mem[if Poll(s.ready).0 then KEY_READY else 0] == s.reg[Dr(i)]
    ensures InMemory(PcRelative(s, i)) && PcRelative(s, i) != KBSR ==>
      var p := s.mem[PcRelative(s, i)];
      && (Sti(s, i).Err? <==> !InMemory(p))
      && (Sti(s, i).Ok? ==> Sti(s, i).value.mem[p] == s.reg[Dr(i)] && SameExceptWord(s, Sti(s, i).value, p))
  {
    StoreIndirectEffect(s, PcRelative(s, i), s.reg[Dr(i)]);
    if PcRelative(s, i) == KBSR {
      MemReadEffect(s, KBSR);
    }
  }

  // ---------------------------------------------------------------------------------------
  // TRAP and the switch

  /** The trap vector: the low 8 bits of the instruction (`instruction & 0xff`). */
  function TrapVector(i: Word): Word
  {
    i % 0x100
  }

  /** TRAP: dispatches on the trap vector; an unknown vector does nothing. R7 is not written. */
  function Trap(s: State, i: Word): Result<State>
  {
    match RoutineFor(TrapVector(i))
    case None => Ok(s)
    case Some(GetcRoutine) => Ok(Getc(s))
    case Some(OutRoutine) => Ok(Out(s))
    case Some(PutsRoutine) => Puts(s)
    case Some(InRoutine) => Ok(In(s))
    case Some(PutspRoutine) => Putsp(s)
    case Some(HaltRoutine) => Ok(Halt(s))
  }

  /** An unknown vector does nothing; no routine writes R7 or PC; only PUTS and PUTSP can
      fault, and only HALT stops the machine. */
  lemma TrapEffect(s: State, i: Word)
    ensures RoutineFor(TrapVector(i)).None? ==> Trap(s, i) == Ok(s)
    ensures Trap(s, i).Ok? ==> Trap(s, i).value.reg[R7] == s.reg[R7] && Trap(s, i).value.reg[PC] == s.reg[PC]
    ensures Trap(s, i).Err? ==>
      RoutineFor(TrapVector(i)) == Some(PutsRoutine) || RoutineFor(TrapVector(i)) == Some(PutspRoutine)
    ensures Trap(s, i).Ok? && Trap(s, i).value.running != s.running ==>
      RoutineFor(TrapVector(i)) == Some(HaltRoutine)
  {
    match RoutineFor(TrapVector(i))
    case None =>
    case Some(GetcRoutine) => GetcEffect(s);
    case Some(OutRoutine) =>
    case Some(PutsRoutine) => PutsEffect(s);
    case Some(InRoutine) => InEffect(s);
    case Some(PutspRoutine) => PutspEffect(s);
    case Some(HaltRoutine) =>
  }

  /** The switch of the main loop: every 4-bit opcode has its handler; RTI and RES abort. */
  function Execute(s: State, i: Word): Result<State>
  {
    match OpcodeOf(i)
    case BR => Ok(Br(s, i))
    case ADD => Ok(Add(s, i))
    case LD => Ld(s, i)
    case ST => St(s, i)
    case JSR => Ok(Jsr(s, i))
    case AND => Ok(And(s, i))
    case LDR => Ldr(s, i)
    case STR => Str(s, i)
    case RTI => Err(Aborted(RTI))
    case NOT => Ok(Not(s, i))
    case LDI => Ldi(s, i)
    case STI => Sti(s, i)
    case JMP => Ok(Jmp(s, i))
    case RES => Err(Aborted(RES))
    case LEA => Ok(Lea(s, i))
    case TRAP => Trap(s, i)
  }

  /** Exactly the reserved opcodes abort; the other opcodes fail only on a memory fault. */
  lemma ExecuteAborts(s: State, i: Word)
    ensures Reserved(OpcodeOf(i)) <==> Execute(s, i) == Err(Aborted(OpcodeOf(i)))
    ensures Execute(s, i).Err? && !Reserved(OpcodeOf(i)) ==> Execute(s, i).fault.OutOfBounds?
  {
    match OpcodeOf(i)
    case LD => LoadEffect(s, PcRelative(s, i), Dr(i));
    case LDR => LoadEffect(s, BaseRelative(s, i), Dr(i));
    case ST => MemWriteEffect(s, PcRelative(s, i), s.reg[Dr(i)]);
    case STR => MemWriteEffect(s, BaseRelative(s, i), s.reg[Dr(i)]);
    case LDI =>
      MemReadEffect(s, PcRelative(s, i));
      if InMemory(PcRelative(s, i)) {
        var (p, t) := MemRead(s, PcRelative(s, i)).value;
        LoadEffect(t, p, Dr(i));
      }
    case STI =>
      MemReadEffect(s, PcRelative(s, i));
      if InMemory(PcRelative(s, i)) {
        var (p, t) := MemRead(s, PcRelative(s, i)).value;
        MemWriteEffect(t, p, s.reg[Dr(i)]);
      }
    case TRAP =>
      var r := RoutineFor(TrapVector(i));
      if r == Some(PutsRoutine) {
        PutsEffect(s);
      } else if r == Some(PutspRoutine) {
        PutspEffect(s);
      }
    case _ =>
  }
}
