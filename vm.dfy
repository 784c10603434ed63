/** The virtual CPU of src/main.cc with its state kept as the program keeps it: the register
    file and the memory are arrays updated in place, and `running` and the terminal are
    fields. Every method is proved to leave the machine in the state the function of the same
    name in `Utils`, `TrapRoutine`, `Ops`, `MainLoop` or `Loader` computes from the state
    before the call. One departure: `LoadImage` byte-swaps the origin word of an image, as
    `Loader.LoadFile` does and load_file does not (see `Loader.OriginNotSwapped`). */
module Emulator {
  import opened Words
  import opened Registers
  import opened Opcodes
  import opened TrapCodes
  import opened Fields
  import opened MachineState
  import Utils
  import TrapRoutine
  import Ops
  import MainLoop
  import Loader

  /** A method's outcome `r`, leaving the machine in `now`, is the one `expected` describes:
      the same state when it succeeds, the same fault when it fails. */
  predicate Matches(expected: Result<State>, r: Result<()>, now: State)
  {
    match expected
    case Ok(t) => r == Ok(()) && now == t
    case Err(f) => r == Err(f)
  }

  class Vm {
    /** `uint16_t reg[R_COUNT]` and `uint16_t memory[MEMORY_CAPACITY]`. */
    const reg: array<Word>
    const memory: array<Word>
    /** `bool running`. */
    var running: bool
    /** The keyboard poll's coming answers, the bytes `getchar` will return, and every byte
        written so far. */
    var ready: seq<bool>
    var input: seq<Byte>
    var output: seq<Byte>

    ghost predicate Valid()
    {
      reg.Length == REG_COUNT && memory.Length == MEMORY_CAPACITY && reg != memory
    }

    /** The machine as a value. */
    ghost function View(): State
      requires Valid()
      reads this, reg, memory
    {
      State(reg[..], memory[..], running, ready, input, output)
    }

    /** The static arrays start out zero and the machine is not running. */
    constructor (ready: seq<bool>, input: seq<Byte>)
      ensures Valid() && fresh(reg) && fresh(memory)
      ensures View() == State(ZERO_REGS, ZERO_MEMORY, false, ready, input, [])
    {
      reg := new Word[REG_COUNT](_ => 0);
      memory := new Word[MEMORY_CAPACITY](_ => 0);
      running := false;
      this.ready := ready;
      this.input := input;
      output := [];
      new;
      assert reg[..] == ZERO_REGS;
      assert memory[..] == ZERO_MEMORY;
    }

    // -------------------------------------------------------------------------------------
    // Utils

    /** update_flags. */
    method UpdateFlags(r: nat)
      requires Valid() && r < REG_COUNT
      modifies reg
      ensures View() == Utils.UpdateFlags(old(View()), r)
    {
      if reg[r] == 0 {
        reg[COND] := FL_ZRO;
      } else if reg[r] / 0x8000 != 0 {
        reg[COND] := FL_NEG;
      } else {
        reg[COND] := FL_POS;
      }
    }

    /** check_keyboard, answered from `ready`. */
    method CheckKeyboard() returns (key: bool)
      requires Valid()
      modifies this
      ensures (key, ready) == Utils.Poll(old(ready))
      ensures View() == old(View()).(ready := ready)
    {
      if ready == [] {
        key := false;
      } else {
        key := ready[0];
        ready := ready[1..];
      }
    }

    /** getchar, answered from `input`, its result kept in a 16-bit word. */
    method ReadChar() returns (c: Word)
      requires Valid()
      modifies this
      ensures (c, input) == Utils.GetChar(old(input))
      ensures View() == old(View()).(input := input)
    {
      if input == [] {
        c := EOF_WORD;
      } else {
        c := input[0];
        input := input[1..];
      }
    }

    /** mem_read. */
    method MemRead(addr: Word) returns (r: Result<Word>)
      requires Valid()
      modifies this, memory
      ensures Utils.MemRead(old(View()), addr) == if r.Ok? then Ok((r.value, View())) else Err(r.fault)
    {
      if !InMemory(addr) {
        return Err(OutOfBounds(addr));
      }
      if addr == KBSR {
        var key := CheckKeyboard();
        if key {
          memory[KBSR] := KEY_READY;
          var c := ReadChar();
          memory[KBDR] := c;
        } else {
          memory[KBSR] := 0;
        }
      }
      return Ok(memory[addr]);
    }

    /** mem_write. */
    method MemWrite(addr: Word, v: Word) returns (r: Result<()>)
      requires Valid()
      modifies memory
      ensures Matches(Utils.MemWrite(old(View()), addr, v), r, View())
    {
      if !InMemory(addr) {
        return Err(OutOfBounds(addr));
      }
      memory[addr] := v;
      return Ok(());
    }

    // -------------------------------------------------------------------------------------
    // TrapRoutine

    method Getc()
      requires Valid()
      modifies this, reg
      ensures View() == TrapRoutine.Getc(old(View()))
    {
      var c := ReadChar();
      reg[R0] := c;
      UpdateFlags(R0);
    }

    method Out()
      requires Valid()
      modifies this
      ensures View() == TrapRoutine.Out(old(View()))
    {
      output := output + [LowByte(reg[R0])];
    }

    /** puts: walks the words from R0 to the first zero word, writing each low byte. A string
        that memory does not end is a fault (the walk would leave the array). */
    method Puts() returns (r: Result<()>)
      requires Valid()
      modifies this
      ensures Matches(TrapRoutine.Puts(old(View())), r, View())
    {
      ghost var s := View();
      var a := reg[R0];
      var c: nat := a;
      while c < MEMORY_CAPACITY && memory[c] != 0
        invariant a <= c <= MEMORY_CAPACITY
        invariant forall k :: a <= k < c ==> memory[k] != 0
        invariant output == old(output) + TrapRoutine.LowBytes(memory[a..c])
        invariant running == old(running) && ready == old(ready) && input == old(input)
        decreases MEMORY_CAPACITY - c
      {
        output := output + [LowByte(memory[c])];
        TrapRoutine.LowBytesStep(memory[..], a, c);
        c := c + 1;
      }
      TrapRoutine.PutsWalk(s, c);
      if c == MEMORY_CAPACITY {
        return Err(OutOfBounds(MEMORY_CAPACITY));
      }
      assert View() == s.(output := s.output + TrapRoutine.LowBytes(memory[a..c]));
      return Ok(());
    }

    /** in: prompt, read one character into a signed `char`, echo it, and store it in R0. */
    method In()
      requires Valid()
      modifies this, reg
      ensures View() == TrapRoutine.In(old(View()))
    {
      output := output + TrapRoutine.PROMPT;
      var c := ReadChar();
      var ch := LowByte(c);
      output := output + [ch];
      assert Pow2(8) == 0x100;
      reg[R0] := SignExtend(ch, 8);
      UpdateFlags(R0);
    }

    /** putsp: like puts, but each word holds two characters, low byte first; a zero high
        byte is not written. */
    method Putsp() returns (r: Result<()>)
      requires Valid()
      modifies this
      ensures Matches(TrapRoutine.Putsp(old(View())), r, View())
    {
      ghost var s := View();
      var a := reg[R0];
      var c: nat := a;
      while c < MEMORY_CAPACITY && memory[c] != 0
        invariant a <= c <= MEMORY_CAPACITY
        invariant forall k :: a <= k < c ==> memory[k] != 0
        invariant output == old(output) + TrapRoutine.Unpack(memory[a..c])
        invariant running == old(running) && ready == old(ready) && input == old(input)
        decreases MEMORY_CAPACITY - c
      {
        PutPacked(memory[c]);
        TrapRoutine.UnpackStep(memory[..], a, c);
        c := c + 1;
      }
      TrapRoutine.PutspWalk(s, c);
      if c == MEMORY_CAPACITY {
        return Err(OutOfBounds(MEMORY_CAPACITY));
      }
      assert View() == s.(output := s.output + TrapRoutine.Unpack(memory[a..c]));
      return Ok(());
    }

    /** One word of putsp: the low byte, then the high byte unless it is zero. */
    method PutPacked(w: Word)
      requires Valid()
      modifies this
      ensures output == old(output) + TrapRoutine.PackedChars(w)
      ensures running == old(running) && ready == old(ready) && input == old(input)
    {
      var c1 := LowByte(w);
      output := output + [c1];
      var c2 := HighByte(w);
      if c2 != 0 {
        output := output + [c2];
      }
    }

    method Halt()
      requires Valid()
      modifies this
      ensures View() == TrapRoutine.Halt(old(View()))
    {
      output := output + TrapRoutine.HALT_BANNER;
      running := false;
    }

    // -------------------------------------------------------------------------------------
    // Ops

    method Br(i: Word)
      requires Valid()
      modifies reg
      ensures View() == Ops.Br(old(View()), i)
    {
      if Ops.BranchOn(i, reg[COND]) {
        reg[PC] := Wrap(reg[PC] as int + PcOffset9(i));
      }
    }

    method Add(i: Word)
      requires Valid()
      modifies reg
      ensures View() == Ops.Add(old(View()), i)
    {
      var r0 := Dr(i);
      var r1 := Sr1Even(i);
      if ImmMode(i) {
        reg[r0] := Wrap(reg[r1] as int + Imm5(i));
      } else {
        reg[r0] := Wrap(reg[r1] as int + reg[Sr2(i)]);
      }
      UpdateFlags(r0);
    }

    /** A load into general register `d` through mem_read, then the flags. */
    method Load(addr: Word, d: nat) returns (r: Result<()>)
      requires Valid() && IsGeneral(d)
      modifies this, reg, memory
      ensures Matches(Ops.Load(old(View()), addr, d), r, View())
    {
      var w := MemRead(addr);
      if w.Err? {
        return Err(w.fault);
      }
      reg[d] := w.value;
      UpdateFlags(d);
      return Ok(());
    }

    method Ld(i: Word) returns (r: Result<()>)
      requires Valid()
      modifies this, reg, memory
      ensures Matches(Ops.Ld(old(View()), i), r, View())
    {
      r := Load(Wrap(reg[PC] as int + PcOffset9(i)), Dr(i));
    }

    method St(i: Word) returns (r: Result<()>)
      requires Valid()
      modifies memory
      ensures Matches(Ops.St(old(View()), i), r, View())
    {
      r := MemWrite(Wrap(reg[PC] as int + PcOffset9(i)), reg[Dr(i)]);
    }

    method Jsr(i: Word)
      requires Valid()
      modifies reg
      ensures View() == Ops.Jsr(old(View()), i)
    {
      reg[R7] := reg[PC];
      if LongOffset(i) {
        reg[PC] := Wrap(reg[PC] as int + PcOffset11(i));
      } else {
        reg[PC] := reg[BaseR(i)];
      }
    }

    method And(i: Word)
      requires Valid()
      modifies reg
      ensures View() == Ops.And(old(View()), i)
    {
      var r0 := Dr(i);
      var r1 := Sr1Even(i);
      if ImmMode(i) {
        reg[r0] := BitAnd(reg[r1], Imm5(i));
      } else {
        reg[r0] := BitAnd(reg[r1], reg[Sr2(i)]);
      }
      UpdateFlags(r0);
    }

    method Ldr(i: Word) returns (r: Result<()>)
      requires Valid()
      modifies this, reg, memory
      ensures Matches(Ops.Ldr(old(View()), i), r, View())
    {
      r := Load(Wrap(reg[BaseR(i)] as int + Offset6(i)), Dr(i));
    }

    method Str(i: Word) returns (r: Result<()>)
      requires Valid()
      modifies memory
      ensures Matches(Ops.Str(old(View()), i), r, View())
    {
      r := MemWrite(Wrap(reg[BaseR(i)] as int + Offset6(i)), reg[Dr(i)]);
    }

    method Not(i: Word)
      requires Valid()
      modifies reg
      ensures View() == Ops.Not(old(View()), i)
    {
      var r0 := Dr(i);
      reg[r0] := BitNot(reg[BaseR(i)]);
      UpdateFlags(r0);
    }

    method Ldi(i: Word) returns (r: Result<()>)
      requires Valid()
      modifies this, reg, memory
      ensures Matches(Ops.Ldi(old(View()), i), r, View())
    {
      var p := MemRead(Wrap(reg[PC] as int + PcOffset9(i)));
      if p.Err? {
        return Err(p.fault);
      }
      r := Load(p.value, Dr(i));
    }

    method Sti(i: Word) returns (r: Result<()>)
      requires Valid()
      modifies this, memory
      ensures Matches(Ops.Sti(old(View()), i), r, View())
    {
      var v := reg[Dr(i)];
      var p := MemRead(Wrap(reg[PC] as int + PcOffset9(i)));
      if p.Err? {
        return Err(p.fault);
      }
      r := MemWrite(p.value, v);
    }

    method Jmp(i: Word)
      requires Valid()
      modifies reg
      ensures View() == Ops.Jmp(old(View()), i)
    {
      reg[PC] := reg[BaseR(i)];
    }

    method Lea(i: Word)
      requires Valid()
      modifies reg
      ensures View() == Ops.Lea(old(View()), i)
    {
      var r0 := Dr(i);
      reg[r0] := Wrap(reg[PC] as int + PcOffset9(i));
      UpdateFlags(r0);
    }

    method Trap(i: Word) returns (r: Result<()>)
      requires Valid()
      modifies this, reg
      ensures Matches(Ops.Trap(old(View()), i), r, View())
    {
      r := Ok(());
      match RoutineFor(Ops.TrapVector(i))
      case None =>
      case Some(GetcRoutine) => Getc();
      case Some(OutRoutine) => Out();
      case Some(PutsRoutine) => r := Puts();
      case Some(InRoutine) => In();
      case Some(PutspRoutine) => r := Putsp();
      case Some(HaltRoutine) => Halt();
    }

    // -------------------------------------------------------------------------------------
    // main

    /** The switch on `instruction >> 12`. */
    method Execute(i: Word) returns (r: Result<()>)
      requires Valid()
      modifies this, reg, memory
      ensures Matches(Ops.Execute(old(View()), i), r, View())
    {
      r := Ok(());
      match OpcodeOf(i)
      case BR => Br(i);
      case ADD => Add(i);
      case LD => r := Ld(i);
      case ST => r := St(i);
      case JSR => Jsr(i);
      case AND => And(i);
      case LDR => r := Ldr(i);
      case STR => r := Str(i);
      case RTI => r := Err(Aborted(RTI));
      case NOT => Not(i);
      case LDI => r := Ldi(i);
      case STI => r := Sti(i);
      case JMP => Jmp(i);
      case RES => r := Err(Aborted(RES));
      case LEA => Lea(i);
      case TRAP => r := Trap(i);
    }

    /** One turn of the loop: `mem_read(reg[R_PC]++)`, then the switch. */
    method Step() returns (r: Result<()>)
      requires Valid()
      modifies this, reg, memory
      ensures Matches(MainLoop.Step(old(View())), r, View())
    {
      var pc := reg[PC];
      reg[PC] := Wrap(pc as int + 1);
      var instruction := MemRead(pc);
      if instruction.Err? {
        return Err(instruction.fault);
      }
      r := Execute(instruction.value);
    }

    /** The start of the loop: COND := ZRO, PC := 0x3000, running := true. */
    method Start()
      requires Valid()
      modifies this, reg
      ensures View() == old(View()).(reg := old(reg[..])[COND := FL_ZRO][PC := MainLoop.PC_START], running := true)
    {
      reg[COND] := FL_ZRO;
      reg[PC] := MainLoop.PC_START;
      running := true;
    }

    /** `while (running)`, for at most `fuel` turns. */
    method Run(fuel: nat) returns (r: Result<()>)
      requires Valid()
      modifies this, reg, memory
      ensures Matches(MainLoop.Run(old(View()), fuel), r, View())
    {
      var n := fuel;
      while running && n > 0
        invariant MainLoop.Run(old(View()), fuel) == MainLoop.Run(View(), n)
        decreases n
      {
        MainLoop.RunUnfold(View(), n);
        r := Step();
        if r.Err? {
          return;
        }
        n := n - 1;
      }
      return Ok(());
    }

    /** load_file for an image held in `bytes`: the origin word, then as many words as fit
        from there on, each swapped from the file's big-endian order. */
    method LoadImage(bytes: seq<Byte>)
      requires Valid()
      modifies memory
      ensures memory[..] == Loader.LoadFile(old(memory[..]), bytes)
    {
      ghost var file := Loader.HostWords(bytes);
      if |bytes| < 2 {
        return;
      }
      var origin: Word := (bytes[1] as int) * 0x100 + bytes[0];
      assert origin == file[0];
      origin := Swap16(origin);
      var maxRead := MEMORY_CAPACITY - origin;
      var available := |bytes| / 2 - 1;
      var readCnt := if available < maxRead then available else maxRead;
      ghost var before := memory[..];
      ReadWords(bytes, origin, readCnt);
      ghost var read := memory[..];
      SwapWords(origin, readCnt);
      assert Loader.LoadCount(origin, |file| - 1) == readCnt;
      forall a | 0 <= a < MEMORY_CAPACITY
        ensures memory[..][a] == if origin <= a < origin + readCnt then Swap16(file[a - origin + 1]) else before[a]
      {
        assert read[a] == if origin <= a < origin + readCnt then file[a - origin + 1] else before[a];
      }
      Loader.PlacedFile(before, memory[..], bytes);
    }

    /** The `fread` of load_file: `count` words of the image after its origin word, each in
        the host's byte order (first byte low), stored from `origin` on. */
    method ReadWords(bytes: seq<Byte>, origin: nat, count: nat)
      requires Valid() && origin + count <= MEMORY_CAPACITY && 2 * count + 2 <= |bytes|
      modifies memory
      ensures forall a :: 0 <= a < MEMORY_CAPACITY ==>
        memory[a] == if origin <= a < origin + count then Loader.HostWords(bytes)[a - origin + 1] else old(memory[a])
    {
      ghost var file := Loader.HostWords(bytes);
      var k := 0;
      while k < count
        invariant 0 <= k <= count
        invariant forall a :: 0 <= a < MEMORY_CAPACITY && !(origin <= a < origin + k) ==> memory[a] == old(memory[a])
        invariant forall a :: origin <= a < origin + k ==> memory[a] == file[a - origin + 1]
      {
        memory[origin + k] := (bytes[2 * k + 3] as int) * 0x100 + bytes[2 * k + 2];
        k := k + 1;
      }
    }

    /** The swap loop of load_file: `swap16` applied in place to the `count` words from
        `origin` on, walking a pointer and counting down. */
    method SwapWords(origin: nat, count: nat)
      requires Valid() && origin + count <= MEMORY_CAPACITY
      modifies memory
      ensures forall a :: 0 <= a < MEMORY_CAPACITY ==>
        memory[a] == if origin <= a < origin + count then Swap16(old(memory[a])) else old(memory[a])
    {
      var p := origin;
      var readCnt := count;
      while readCnt != 0
        invariant 0 <= readCnt <= count && p == origin + (count - readCnt)
        invariant forall a :: 0 <= a < MEMORY_CAPACITY && !(origin <= a < p) ==> memory[a] == old(memory[a])
        invariant forall a :: origin <= a < p ==> memory[a] == Swap16(old(memory[a]))
        decreases readCnt
      {
        memory[p] := Swap16(memory[p]);
        p := p + 1;
        readCnt := readCnt - 1;
      }
    }
  }

  /** `main`: every image in order into zeroed memory, then the loop from 0x3000. */
  method Emulate(images: seq<seq<Byte>>, ready: seq<bool>, input: seq<Byte>, fuel: nat)
    returns (vm: Vm, r: Result<()>)
    ensures vm.Valid()
    ensures images == [] ==> r == Ok(()) && vm.View() == State(ZERO_REGS, ZERO_MEMORY, false, ready, input, [])
    ensures images != [] ==>
      Matches(MainLoop.Run(MainLoop.Boot(Loader.LoadFiles(ZERO_MEMORY, images), ready, input), fuel), r, vm.View())
  {
    vm := new Vm(ready, input);
    if images == [] {
      return vm, Ok(());
    }
    var j := 0;
    while j < |images|
      invariant j <= |images|
      invariant vm.Valid()
      invariant vm.View() == State(ZERO_REGS, Loader.LoadFiles(ZERO_MEMORY, images[..j]), false, ready, input, [])
      modifies vm.memory
    {
      vm.LoadImage(images[j]);
      assert images[..j + 1][..j] == images[..j];
      j := j + 1;
    }
    assert images[..j] == images;
    vm.Start();
    r := vm.Run(fuel);
  }
}
