/** The main loop of src/main.cc: the start state, one fetch/decode/execute step and the
    `while (running)` loop, as functions on the machine state. */
module MainLoop {
  import opened Words
  import opened Registers
  import opened Opcodes
  import opened MachineState
  import opened Utils
  import opened Ops

  const PC_START: Word := 0x3000

  /** The fetch `mem_read(reg[R_PC]++)`: PC is incremented (modulo 2^16) and then the word at
      the old PC is read through mem_read. */
  function Fetch(s: State): Result<(Word, State)>
  {
    MemRead(s.(reg := s.reg[PC := Wrap(s.reg[PC] as int + 1)]), s.reg[PC])
  }

  /** The fetch faults exactly at PC = 0xFFFF; otherwise PC moves one word on and the
      instruction is the word at the old PC after mem_read's effect (at KBSR, the poll's
      status value). Away from KBSR that is the stored word and nothing else changes. */
  lemma FetchEffect(s: State)
    ensures Fetch(s).Err? <==> !InMemory(s.reg[PC])
    ensures Fetch(s).Err? ==> Fetch(s).fault == OutOfBounds(s.reg[PC])
    ensures Fetch(s).Ok? ==> Fetch(s).value.1.reg[PC] == s.reg[PC] + 1
    ensures Fetch(s).Ok? ==> Fetch(s).value.0 == Fetch(s).value.1.mem[s.reg[PC]]
    ensures s.reg[PC] == KBSR ==> Fetch(s).Ok? && Fetch(s).value.0 == if Poll(s.ready).0 then KEY_READY else 0
    ensures Fetch(s).Ok? && s.reg[PC] != KBSR ==>
      Fetch(s).value == (s.mem[s.reg[PC]], s.(reg := s.reg[PC := s.reg[PC] + 1]))
  {
    MemReadEffect(s.(reg := s.reg[PC := Wrap(s.reg[PC] as int + 1)]), s.reg[PC]);
  }

  /** One iteration of the main loop: fetch, then execute. */
  function Step(s: State): Result<State>
  {
    match Fetch(s)
    case Err(f) => Err(f)
    case Ok((i, t)) => Execute(t, i)
  }

  /** A step faults at PC = 0xFFFF; away from KBSR it executes the word at PC with PC already
      moved past it; at KBSR it executes the poll's status value in the state the poll leaves. */
  lemma StepEffect(s: State)
    ensures !InMemory(s.reg[PC]) ==> Step(s) == Err(OutOfBounds(s.reg[PC]))
    ensures s.reg[PC] == KBSR ==>
      Fetch(s).Ok? && Step(s) == Execute(Fetch(s).value.1, if Poll(s.ready).0 then KEY_READY else 0)
    ensures InMemory(s.reg[PC]) && s.reg[PC] != KBSR ==>
      Step(s) == Execute(s.(reg := s.reg[PC := s.reg[PC] + 1]), s.mem[s.reg[PC]])
  {
    FetchEffect(s);
  }

  /** The main loop `while (running)`, for at most `fuel` steps. */
  function Run(s: State, fuel: nat): (r: Result<State>)
    decreases fuel, 0
    ensures !s.running ==> r == Ok(s)
  {
    if !s.running || fuel == 0 then Ok(s) else StepThenRun(s, fuel - 1)
  }

  /** One iteration of the loop, then the rest of it. */
  function StepThenRun(s: State, fuel: nat): Result<State>
    decreases fuel, 1
  {
    match Step(s)
    case Err(f) => Err(f)
    case Ok(t) => Run(t, fuel)
  }

  /** One turn of the main loop: a step that succeeds continues the loop from the state it
      leaves, and one that fails ends the loop with its fault. */
  lemma RunUnfold(s: State, fuel: nat)
    requires s.running && fuel > 0
    ensures Step(s).Ok? ==> Run(s, fuel) == Run(Step(s).value, fuel - 1)
    ensures Step(s).Err? ==> Run(s, fuel) == Err(Step(s).fault)
  {
  }

  /** The state `main` starts the loop in: registers zero except COND = ZRO and PC = 0x3000,
      memory as loaded, running. */
  function Boot(mem: Memory, ready: seq<bool>, input: seq<Byte>): (s: State)
    ensures s.reg[PC] == PC_START && s.reg[COND] == FL_ZRO && s.running
    ensures forall k :: 0 <= k <= R7 ==> s.reg[k] == 0
    ensures s.mem == mem && s.ready == ready && s.input == input && s.output == []
  {
    var zero: Regs := seq(REG_COUNT, _ => 0);
    State(zero[COND := FL_ZRO][PC := PC_START], mem, true, ready, input, [])
  }
}
