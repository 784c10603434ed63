/** Properties of the machine model that relate several operations: the bit helpers, the
    flags and the branch mask, store/load round trips, calls and returns, what each opcode
    leaves alone, the trap routines and the main loop. */
module Properties {
  import opened Words
  import opened Registers
  import opened Opcodes
  import opened TrapCodes
  import opened Fields
  import opened MachineState
  import opened Utils
  import opened TrapRoutine
  import opened Ops
  import opened MainLoop

  // ---------------------------------------------------------------------------------------
  // sign_extend and swap16

  /** The examples of sign extension: a set top bit fills every bit above it. */
  lemma SignExtendExamples()
    ensures SignExtend(0x1F, 5) == 0xFFFF
    ensures SignExtend(0x0F, 5) == 0x0F
    ensures SignExtend(0x1FF, 9) == 0xFFFF
  {
    assert Pow2(4) == 0x10 && Pow2(5) == 0x20;
    assert Pow2(8) == 0x100 && Pow2(9) == 0x200;
  }

  /** sign_extend keeps the low `n` bits of the field and sets every bit from `n` upwards when
      bit `n - 1` is set, clearing them otherwise; shown for every width the machine decodes. */
  lemma SignExtendBits(x: Word)
    ensures x < 0x20 ==>
      SignExtend(x, 5) % 0x20 == x && SignExtend(x, 5) / 0x20 == if x >= 0x10 then 0x7FF else 0
    ensures x < 0x40 ==>
      SignExtend(x, 6) % 0x40 == x && SignExtend(x, 6) / 0x40 == if x >= 0x20 then 0x3FF else 0
    ensures x < 0x100 ==>
      SignExtend(x, 8) % 0x100 == x && SignExtend(x, 8) / 0x100 == if x >= 0x80 then 0xFF else 0
    ensures x < 0x200 ==>
      SignExtend(x, 9) % 0x200 == x && SignExtend(x, 9) / 0x200 == if x >= 0x100 then 0x7F else 0
    ensures x < 0x800 ==>
      SignExtend(x, 11) % 0x800 == x && SignExtend(x, 11) / 0x800 == if x >= 0x400 then 0x1F else 0
  {
    assert Pow2(4) == 0x10 && Pow2(5) == 0x20 && Pow2(6) == 0x40;
    assert Pow2(7) == 0x80 && Pow2(8) == 0x100 && Pow2(9) == 0x200;
    assert Pow2(10) == 0x400 && Pow2(11) == 0x800;
  }

  /** A word is its high byte times 0x100 plus its low byte. */
  lemma ByteSplit(w: Word)
    ensures w == HighByte(w) * 0x100 + LowByte(w)
  {
  }

  /** swap16 is its own inverse. */
  lemma Swap16Involution(x: Word)
    ensures Swap16(Swap16(x)) == x
  {
    var y := Swap16(x);
    ByteSplit(x);
    ByteSplit(Swap16(y));
    assert LowByte(Swap16(y)) == HighByte(y) == LowByte(x);
    assert HighByte(Swap16(y)) == LowByte(y) == HighByte(x);
  }

  // ---------------------------------------------------------------------------------------
  // Registers, opcodes and condition bits

  /** Every opcode number names its opcode back, and distinct opcodes have distinct numbers. */
  lemma {:induction false} OpcodeRoundTrip(op: Opcode, other: Opcode)
    ensures FromCode(Code(op)) == op
    ensures Code(op) == Code(other) ==> op == other
  {
    match op
    case BR => case ADD => case LD => case ST => case JSR => case AND => case LDR => case STR =>
    case RTI => case NOT => case LDI => case STI => case JMP => case RES => case LEA => case TRAP =>
  }

  /** Every 16-bit instruction names one of the sixteen opcodes, so the switch of the main
      loop always finds its case and never reaches `default`. */
  lemma DecodeTotal(i: Word)
    ensures i / 0x1000 < TOTAL_COUNT
    ensures Code(OpcodeOf(i)) == i / 0x1000
    ensures Reserved(OpcodeOf(i)) <==> i / 0x1000 == 8 || i / 0x1000 == 13
  {
  }

  /** The condition bits are three distinct single bits, together filling the 3-bit BR mask. */
  lemma ConditionBits()
    ensures BitAnd(FL_POS, FL_ZRO) == 0 && BitAnd(FL_POS, FL_NEG) == 0 && BitAnd(FL_ZRO, FL_NEG) == 0
    ensures FL_POS + FL_ZRO + FL_NEG == 7
    ensures BitAnd(7, FL_POS) == FL_POS && BitAnd(7, FL_ZRO) == FL_ZRO && BitAnd(7, FL_NEG) == FL_NEG
  {
  }

  /** Whether COND holds a single condition bit. */
  predicate CondValid(s: State)
  {
    IsFlag(s.reg[COND])
  }

  /** Once COND holds a condition bit, BR with the mask n, z and p all set always branches and
      BR with an empty mask never does. */
  lemma BranchMaskExtremes(s: State, i: Word)
    requires CondValid(s)
    ensures (i / 0x200) % 8 == 7 ==> BranchTaken(s, i)
    ensures (i / 0x200) % 8 == 0 ==> !BranchTaken(s, i)
  {
    ConditionBits();
    assert BitAnd(0, s.reg[COND]) == 0;
  }

  // ---------------------------------------------------------------------------------------
  // Arithmetic handlers

  /** A word and its signed reading agree modulo 2^16. */
  lemma SignedCongruent(w: Word)
    ensures (w - Signed(w)) % WORD_MODULUS == 0
  {
  }

  /** ADD in immediate mode adds the two's-complement value of the imm5 field, modulo 2^16. */
  lemma AddImmediate(s: State, i: Word)
    requires ImmMode(i)
    ensures (Add(s, i).reg[Dr(i)] - s.reg[Sr1Even(i)] - FieldValue(i % 0x20, 5)) % WORD_MODULUS == 0
  {
    AddEffect(s, i);
    OffsetValues(i);
    SignedCongruent(Imm5(i));
    ModSum(Add(s, i).reg[Dr(i)] - s.reg[Sr1Even(i)] - Imm5(i), Imm5(i) - Signed(Imm5(i)));
  }

  /** The sum of two multiples of 2^16 is one. */
  lemma ModSum(x: int, y: int)
    requires x % WORD_MODULUS == 0 && y % WORD_MODULUS == 0
    ensures (x + y) % WORD_MODULUS == 0
  {
    var p, q := x / WORD_MODULUS, y / WORD_MODULUS;
    assert x + y == WORD_MODULUS * (p + q);
  }

  /** `ADD R0, R0, #1` on 0x7FFF gives 0x8000 with the negative flag: signed overflow wraps. */
  lemma AddOverflow(s: State)
    requires s.reg[R0] == 0x7FFF
    ensures Add(s, 0x1021).reg[R0] == 0x8000
    ensures Add(s, 0x1021).reg[COND] == FL_NEG
  {
    assert Pow2(4) == 0x10 && Pow2(5) == 0x20;
    assert Imm5(0x1021) == 1;
    assert Sr1Even(0x1021) == R0 && Dr(0x1021) == R0;
  }

  /** `ADD R0, R1, R0` (0x1040) reads R0 as its first source: the 0x06 mask drops bit 6. */
  lemma Sr1EvenQuirk(s: State)
    ensures BaseR(0x1040) == R1 && Sr1Even(0x1040) == R0
    ensures Add(s, 0x1040).reg[R0] == Wrap(s.reg[R0] as int + s.reg[R0])
  {
  }

  /** `AND DR, SR1, #0` clears DR and sets the zero flag. */
  lemma AndZero(s: State, i: Word)
    requires ImmMode(i) && i % 0x20 == 0
    ensures And(s, i).reg[Dr(i)] == 0 && And(s, i).reg[COND] == FL_ZRO
  {
    assert Pow2(4) == 0x10 && Pow2(5) == 0x20;
    assert Imm5(i) == 0;
    AndEffect(s, i);
  }

  /** AND sets bit `k` of DR exactly where SR1 and the second operand both have it set. */
  lemma AndBits(s: State, i: Word, k: nat)
    ensures (And(s, i).reg[Dr(i)] / Pow2(k)) % 2 ==
      if (s.reg[Sr1Even(i)] / Pow2(k)) % 2 == 1 && (Operand2(s, i) / Pow2(k)) % 2 == 1 then 1 else 0
  {
    AndEffect(s, i);
    BitAndBit(s.reg[Sr1Even(i)], Operand2(s, i), k);
  }

  /** NOT applied twice to the same register gives the register back. */
  lemma NotTwice(s: State, i: Word)
    requires Dr(i) == BaseR(i)
    ensures Not(Not(s, i), i).reg[Dr(i)] == s.reg[Dr(i)]
  {
    NotEffect(s, i);
    NotEffect(Not(s, i), i);
  }

  // ---------------------------------------------------------------------------------------
  // Memory, loads and stores

  /** Writing a word and reading it back through mem_read gives the word and changes nothing,
      unless the address is KBSR, whose read polls the keyboard instead. */
  lemma WriteThenRead(s: State, a: Word, v: Word)
    requires InMemory(a) && a != KBSR
    ensures MemWrite(s, a, v).Ok?
    ensures MemRead(MemWrite(s, a, v).value, a) == Ok((v, MemWrite(s, a, v).value))
  {
    MemWriteEffect(s, a, v);
    MemReadEffect(MemWrite(s, a, v).value, a);
  }

  /** ST followed by LD with the same PC and the same offset loads the stored register. */
  lemma StoreThenLoad(s: State, i: Word, j: Word)
    requires InMemory(PcRelative(s, i)) && PcRelative(s, i) != KBSR
    requires j % 0x200 == i % 0x200
    ensures St(s, i).Ok?
    ensures Ld(St(s, i).value, j).Ok?
    ensures Ld(St(s, i).value, j).value.reg[Dr(j)] == s.reg[Dr(i)]
  {
    StEffect(s, i);
    var t := St(s, i).value;
    assert t.reg == s.reg;
    assert PcRelative(t, j) == PcRelative(s, i);
    LdEffect(t, j);
  }

  /** STI followed by LDI with the same PC and offset loads the stored register, provided the
      pointer does not point at itself (then the store would overwrite the pointer). */
  lemma StoreIndirectThenLoadIndirect(s: State, i: Word, j: Word)
    requires InMemory(PcRelative(s, i)) && PcRelative(s, i) != KBSR
    requires InMemory(s.mem[PcRelative(s, i)]) && s.mem[PcRelative(s, i)] != KBSR
    requires s.mem[PcRelative(s, i)] != PcRelative(s, i)
    requires j % 0x200 == i % 0x200
    ensures Sti(s, i).Ok?
    ensures Ldi(Sti(s, i).value, j).Ok?
    ensures Ldi(Sti(s, i).value, j).value.reg[Dr(j)] == s.reg[Dr(i)]
  {
    StiEffect(s, i);
    var a := PcRelative(s, i);
    var t := Sti(s, i).value;
    assert t.reg == s.reg;
    assert PcRelative(t, j) == a;
    assert t.mem[a] == s.mem[a];
    LdiEffect(t, j);
  }

  /** LD reads the very address LEA computes for the same instruction. */
  lemma LoadReadsEffectiveAddress(s: State, i: Word)
    requires InMemory(PcRelative(s, i)) && PcRelative(s, i) != KBSR
    ensures Ld(s, i).Ok? && Ld(s, i).value.reg[Dr(i)] == s.mem[Lea(s, i).reg[Dr(i)]]
  {
    LdEffect(s, i);
    LeaEffect(s, i);
  }

  // ---------------------------------------------------------------------------------------
  // Calls and returns

  /** `RET` (JMP R7, 0xC1C0) after JSR or JSRR returns to the word after the call. */
  lemma CallThenReturn(s: State, i: Word)
    ensures Jmp(Jsr(s, i), 0xC1C0).reg[PC] == s.reg[PC]
  {
    assert BaseR(0xC1C0) == R7;
    JsrEffect(s, i);
    JmpEffect(Jsr(s, i), 0xC1C0);
  }

  /** `JSRR R7` (0x41C0) links and jumps to the address it just linked: PC stays. */
  lemma JsrrThroughLink(s: State)
    ensures Jsr(s, 0x41C0).reg[PC] == s.reg[PC] && Jsr(s, 0x41C0).reg[R7] == s.reg[PC]
  {
    assert !LongOffset(0x41C0) && BaseR(0x41C0) == R7;
    JsrEffect(s, 0x41C0);
  }

  // ---------------------------------------------------------------------------------------
  // What each opcode leaves alone

  /** The TRAP routines keep a condition bit in COND. */
  lemma TrapKeepsCondValid(s: State, i: Word)
    requires CondValid(s) && Trap(s, i).Ok?
    ensures CondValid(Trap(s, i).value)
  {
    match RoutineFor(TrapVector(i))
    case None =>
    case Some(GetcRoutine) => GetcEffect(s); FlagForSign(Getc(s).reg[R0]);
    case Some(OutRoutine) =>
    case Some(PutsRoutine) => PutsEffect(s);
    case Some(InRoutine) => InEffect(s); FlagForSign(In(s).reg[R0]);
    case Some(PutspRoutine) => PutspEffect(s);
    case Some(HaltRoutine) =>
  }

  /** Every opcode leaves a condition bit in COND, and BR, ST, JSR, STR, STI and JMP leave COND
      as it was: the flags are written only through update_flags. */
  lemma ExecuteKeepsCondValid(s: State, i: Word)
    requires CondValid(s) && Execute(s, i).Ok?
    ensures CondValid(Execute(s, i).value)
    ensures OpcodeOf(i) in {BR, ST, JSR, STR, STI, JMP} ==> Execute(s, i).value.reg[COND] == s.reg[COND]
  {
    match OpcodeOf(i)
    case BR => BrEffect(s, i);
    case ADD => AddEffect(s, i); FlagForSign(Add(s, i).reg[Dr(i)]);
    case LD => LoadEffect(s, PcRelative(s, i), Dr(i)); FlagForSign(Ld(s, i).value.reg[Dr(i)]);
    case ST => StEffect(s, i);
    case JSR => JsrEffect(s, i);
    case AND => AndEffect(s, i); FlagForSign(And(s, i).reg[Dr(i)]);
    case LDR => LoadEffect(s, BaseRelative(s, i), Dr(i)); FlagForSign(Ldr(s, i).value.reg[Dr(i)]);
    case STR => StrEffect(s, i);
    case NOT => NotEffect(s, i); FlagForSign(Not(s, i).reg[Dr(i)]);
    case LDI =>
      var (p, t) := MemRead(s, PcRelative(s, i)).value;
      LoadEffect(t, p, Dr(i));
      FlagForSign(Ldi(s, i).value.reg[Dr(i)]);
    case STI =>
      MemReadEffect(s, PcRelative(s, i));
      var (p, t) := MemRead(s, PcRelative(s, i)).value;
      MemWriteEffect(t, p, s.reg[Dr(i)]);
    case JMP => JmpEffect(s, i);
    case LEA => LeaEffect(s, i); FlagForSign(PcRelative(s, i));
    case TRAP => TrapKeepsCondValid(s, i);
  }

  /** Only BR, JMP and JSR write PC; every other opcode leaves it where the fetch put it. Only
      HALT stops the machine. */
  lemma ExecuteKeepsPc(s: State, i: Word)
    requires Execute(s, i).Ok?
    ensures OpcodeOf(i) !in {BR, JMP, JSR} ==> Execute(s, i).value.reg[PC] == s.reg[PC]
    ensures Execute(s, i).value.running != s.running ==>
      OpcodeOf(i) == TRAP && RoutineFor(TrapVector(i)) == Some(HaltRoutine)
  {
    match OpcodeOf(i)
    case ADD => AddEffect(s, i);
    case LD => MemReadEffect(s, PcRelative(s, i)); LoadEffect(s, PcRelative(s, i), Dr(i));
    case ST => StEffect(s, i);
    case AND => AndEffect(s, i);
    case LDR => MemReadEffect(s, BaseRelative(s, i)); LoadEffect(s, BaseRelative(s, i), Dr(i));
    case STR => StrEffect(s, i);
    case NOT => NotEffect(s, i);
    case LDI =>
      MemReadEffect(s, PcRelative(s, i));
      var (p, t) := MemRead(s, PcRelative(s, i)).value;
      MemReadEffect(t, p);
      LoadEffect(t, p, Dr(i));
    case STI =>
      MemReadEffect(s, PcRelative(s, i));
      var (p, t) := MemRead(s, PcRelative(s, i)).value;
      MemWriteEffect(t, p, s.reg[Dr(i)]);
    case LEA => LeaEffect(s, i);
    case TRAP => TrapEffect(s, i);
    case BR => BrEffect(s, i);
    case JMP => JmpEffect(s, i);
    case JSR => JsrEffect(s, i);
    case RTI =>
    case RES =>
  }

  /** A step keeps a condition bit in COND. */
  lemma StepKeepsCondValid(s: State)
    requires CondValid(s) && Step(s).Ok?
    ensures CondValid(Step(s).value)
  {
    FetchEffect(s);
    MemReadEffect(s.(reg := s.reg[PC := Wrap(s.reg[PC] as int + 1)]), s.reg[PC]);
    var (i, t) := Fetch(s).value;
    ExecuteKeepsCondValid(t, i);
  }

  /** The main loop keeps a condition bit in COND for as long as it runs. */
  lemma {:induction false} RunKeepsCondValid(s: State, fuel: nat)
    requires CondValid(s) && Run(s, fuel).Ok?
    ensures CondValid(Run(s, fuel).value)
    decreases fuel
  {
    if s.running && fuel > 0 {
      RunUnfold(s, fuel);
      StepKeepsCondValid(s);
      RunKeepsCondValid(Step(s).value, fuel - 1);
    }
  }

  /** The machine starts with a condition bit in COND. */
  lemma BootCondValid(mem: Memory, ready: seq<bool>, input: seq<Byte>)
    ensures CondValid(Boot(mem, ready, input))
  {
  }

  // ---------------------------------------------------------------------------------------
  // The main loop

  /** RTI and RES at PC abort the step. */
  lemma ReservedAborts(s: State)
    requires InMemory(s.reg[PC]) && s.reg[PC] != KBSR
    requires Reserved(OpcodeOf(s.mem[s.reg[PC]]))
    ensures Step(s) == Err(Aborted(OpcodeOf(s.mem[s.reg[PC]])))
  {
    StepEffect(s);
  }

  /** `TRAP x25` at PC prints the banner and stops the loop, with PC past the trap and memory
      untouched. */
  lemma HaltStops(s: State, fuel: nat)
    requires s.running && fuel > 0
    requires InMemory(s.reg[PC]) && s.reg[PC] != KBSR && s.mem[s.reg[PC]] == 0xF025
    ensures Run(s, fuel).Ok?
    ensures !Run(s, fuel).value.running
    ensures Run(s, fuel).value.output == s.output + HALT_BANNER
    ensures Run(s, fuel).value.reg[PC] == s.reg[PC] + 1
    ensures Run(s, fuel).value.mem == s.mem
  {
    assert OpcodeOf(0xF025) == TRAP && TrapVector(0xF025) == TRAP_HALT;
    var t := s.(reg := s.reg[PC := s.reg[PC] + 1]);
    StepEffect(s);
    assert Step(s) == Ok(Halt(t));
    RunUnfold(s, fuel);
  }

  /** Once stopped, the loop stays stopped: more fuel changes nothing. */
  lemma {:induction false} RunMoreFuel(s: State, fuel: nat, extra: nat)
    requires Run(s, fuel).Ok? && !Run(s, fuel).value.running
    ensures Run(s, fuel + extra) == Run(s, fuel)
    decreases fuel
  {
    if s.running && fuel > 0 {
      RunUnfold(s, fuel);
      RunUnfold(s, fuel + extra);
      RunMoreFuel(Step(s).value, fuel - 1, extra);
    }
  }

  /** A three-word program: `AND R0, R0, #0`, `ADD R0, R0, #7`, `HALT` at 0x3000 leaves 7 in
      R0, prints the banner and stops, in three steps. */
  lemma SevenProgram(mem: Memory)
    requires mem[0x3000] == 0x5020 && mem[0x3001] == 0x1027 && mem[0x3002] == 0xF025
    ensures Run(Boot(mem, [], []), 3).Ok?
    ensures Run(Boot(mem, [], []), 3).value.reg[R0] == 7
    ensures !Run(Boot(mem, [], []), 3).value.running
    ensures Run(Boot(mem, [], []), 3).value.output == HALT_BANNER
  {
    var s0 := Boot(mem, [], []);
    ClearStep(s0);
    var s1 := Step(s0).value;
    RunUnfold(s0, 3);
    AddSevenStep(s1);
    var s2 := Step(s1).value;
    RunUnfold(s1, 2);
    HaltStops(s2, 1);
  }

  /** The first step of the program above: `AND R0, R0, #0` clears R0. */
  lemma ClearStep(s: State)
    requires s.reg[PC] == 0x3000 && s.mem[0x3000] == 0x5020
    ensures Step(s).Ok?
    ensures Step(s).value.reg[R0] == 0 && Step(s).value.reg[PC] == 0x3001
    ensures Step(s).value.(reg := s.reg) == s
  {
    assert Pow2(4) == 0x10 && Pow2(5) == 0x20;
    assert OpcodeOf(0x5020) == AND && Imm5(0x5020) == 0;
    StepEffect(s);
    AndEffect(s.(reg := s.reg[PC := 0x3001]), 0x5020);
  }

  /** The second step: `ADD R0, R0, #7` on a cleared R0 leaves 7. */
  lemma AddSevenStep(s: State)
    requires s.reg[PC] == 0x3001 && s.mem[0x3001] == 0x1027 && s.reg[R0] == 0
    ensures Step(s).Ok?
    ensures Step(s).value.reg[R0] == 7 && Step(s).value.reg[PC] == 0x3002
    ensures Step(s).value.(reg := s.reg) == s
  {
    assert Pow2(4) == 0x10 && Pow2(5) == 0x20;
    assert OpcodeOf(0x1027) == ADD && Imm5(0x1027) == 7;
    StepEffect(s);
    AddEffect(s.(reg := s.reg[PC := 0x3002]), 0x1027);
  }

  // ---------------------------------------------------------------------------------------
  // Keyboard and trap routines

  /** Polling KBSR with a key ready reads the ready status, and reading KBDR next gives the
      key, which is consumed. */
  lemma KeyboardHandshake(s: State, c: Byte)
    requires s.ready != [] && s.ready[0] && s.input != [] && s.input[0] == c
    ensures MemRead(s, KBSR).Ok? && MemRead(s, KBSR).value.0 == KEY_READY
    ensures MemRead(MemRead(s, KBSR).value.1, KBDR).Ok?
    ensures MemRead(MemRead(s, KBSR).value.1, KBDR).value.0 == c
    ensures MemRead(s, KBSR).value.1.input == s.input[1..]
  {
    MemReadEffect(s, KBSR);
    MemReadEffect(MemRead(s, KBSR).value.1, KBDR);
  }

  /** Polling KBSR with no key ready reads 0 and consumes no input. */
  lemma KeyboardIdle(s: State)
    requires s.ready == [] || !s.ready[0]
    ensures MemRead(s, KBSR).Ok? && MemRead(s, KBSR).value.0 == 0
    ensures MemRead(s, KBSR).value.1.input == s.input
  {
    MemReadEffect(s, KBSR);
  }

  /** GETC then OUT echoes the character read. */
  lemma GetcThenOut(s: State)
    requires s.input != []
    ensures Out(Getc(s)).output == s.output + [s.input[0]]
  {
    GetcEffect(s);
  }

  /** IN stores the character sign-extended, so OUT afterwards writes the same byte IN echoed. */
  lemma InThenOut(s: State)
    ensures Out(In(s)).output ==
      s.output + PROMPT + [LowByte(GetChar(s.input).0), LowByte(GetChar(s.input).0)]
  {
    var ch := LowByte(GetChar(s.input).0);
    SignExtendBits(ch);
    InEffect(s);
  }

  /** A string whose words all have a zero high byte unpacks to one character per word. */
  lemma {:induction false} UnpackPlain(ws: seq<Word>)
    requires forall k :: 0 <= k < |ws| ==> HighByte(ws[k]) == 0
    ensures Unpack(ws) == LowBytes(ws)
  {
    if ws != [] {
      UnpackPlain(ws[1..]);
    }
  }

  /** On a string of plain characters (every high byte zero) PUTSP writes what PUTS writes,
      and the two fault alike on a string memory does not end. */
  lemma PutspOfPlainString(s: State)
    requires StringEnd(s.mem, s.reg[R0]).Some? ==>
      forall k :: s.reg[R0] <= k < StringEnd(s.mem, s.reg[R0]).value ==> HighByte(s.mem[k]) == 0
    ensures Putsp(s) == Puts(s)
  {
    PutsEffect(s);
    PutspEffect(s);
    var a := s.reg[R0];
    if StringEnd(s.mem, a).Some? {
      var ws := s.mem[a..StringEnd(s.mem, a).value];
      assert forall k :: 0 <= k < |ws| ==> ws[k] == s.mem[a + k];
      UnpackPlain(ws);
    }
  }

  /** PUTS of a string: each word's low byte, in order, up to the terminating zero word. */
  lemma PutsString(s: State, text: seq<Word>)
    requires s.reg[R0] + |text| < MEMORY_CAPACITY
    requires s.mem[s.reg[R0]..s.reg[R0] + |text|] == text
    requires forall k :: 0 <= k < |text| ==> text[k] != 0
    requires s.mem[s.reg[R0] + |text|] == 0
    ensures Puts(s).Ok?
    ensures |Puts(s).value.output| == |s.output| + |text|
    ensures forall k :: 0 <= k < |text| ==> Puts(s).value.output[|s.output| + k] == LowByte(text[k])
  {
    var a := s.reg[R0];
    assert forall k :: a <= k < a + |text| ==> s.mem[k] == text[k - a];
    StringEndAt(s.mem, a, |text|);
    PutsEffect(s);
    if |text| > 0 {
      LowBytesAt(text, 0);
    }
    forall k | 0 <= k < |text|
      ensures Puts(s).value.output[|s.output| + k] == LowByte(text[k])
    {
      LowBytesAt(text, k);
    }
  }
}
