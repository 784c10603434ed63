/** `Ops::TrapRoutine` of src/main.cc: the six routines the TRAP instruction runs, as
    functions on the machine state, each followed by the lemma that states what it does. */
module TrapRoutine {
  import opened Words
  import opened Registers
  import opened TrapCodes
  import opened MachineState
  import opened Utils

  /** The bytes of "enter a character\n", which `in` prints before reading. */
  const PROMPT: seq<Byte> :=
    [0x65, 0x6E, 0x74, 0x65, 0x72, 0x20, 0x61, 0x20, 0x63,
     0x68, 0x61, 0x72, 0x61, 0x63, 0x74, 0x65, 0x72, 0x0A]
  /** The bytes of "HALT\n", which `halt` prints. */
  const HALT_BANNER: seq<Byte> := [0x48, 0x41, 0x4C, 0x54, 0x0A]

  // ---------------------------------------------------------------------------------------
  // getc and out

  /** getc: R0 := getchar() as a 16-bit word, then the flags. */
  function Getc(s: State): State
  {
    var (c, input) := GetChar(s.input);
    SetAndFlag(s.(input := input), R0, c)
  }

  /** getc consumes one input byte (or finds EOF), stores it in R0 and sets the flags from it;
      no other register and no memory changes. */
  lemma GetcEffect(s: State)
    ensures (Getc(s).reg[R0], Getc(s).input) == GetChar(s.input)
    ensures Getc(s).reg[COND] == FlagFor(Getc(s).reg[R0])
    ensures SameExceptRegs(s.(input := Getc(s).input), Getc(s), {R0, COND})
  {
    var (c, input) := GetChar(s.input);
    SetAndFlagEffect(s.(input := input), R0, c);
  }

  /** out: writes `(char)R0`, the low byte of R0. */
  function Out(s: State): State
  {
    s.(output := s.output + [LowByte(s.reg[R0])])
  }

  /** out appends exactly one byte, the low byte of R0, and changes nothing else. */
  lemma OutEffect(s: State)
    ensures SameExceptOutput(s, Out(s))
    ensures |Out(s).output| == |s.output| + 1 && Out(s).output[|s.output|] == LowByte(s.reg[R0])
  {
  }

  // ---------------------------------------------------------------------------------------
  // puts and putsp

  /** The address of the first zero word at or after `a`, if memory holds one. */
  function StringEnd(mem: Memory, a: nat): (z: Option<nat>)
    requires a <= MEMORY_CAPACITY
    decreases MEMORY_CAPACITY - a
    ensures z.Some? ==> a <= z.value < MEMORY_CAPACITY && mem[z.value] == 0
    ensures z.Some? ==> forall k :: a <= k < z.value ==> mem[k] != 0
    ensures z.None? ==> forall k :: a <= k < MEMORY_CAPACITY ==> mem[k] != 0
  {
    if a == MEMORY_CAPACITY then None
    else if mem[a] == 0 then Some(a)
    else StringEnd(mem, a + 1)
  }

  /** A run of `n` non-zero words followed by a zero word ends at the zero word. */
  lemma StringEndAt(mem: Memory, a: nat, n: nat)
    requires a + n < MEMORY_CAPACITY && mem[a + n] == 0
    requires forall k :: a <= k < a + n ==> mem[k] != 0
    ensures StringEnd(mem, a) == Some(a + n)
  {
    var z := StringEnd(mem, a);
    assert z.Some? ==> mem[z.value] == 0;
  }

  /** The characters of a string stored one per word: the low byte of each word. */
  function LowBytes(ws: seq<Word>): seq<Byte>
  {
    if ws == [] then [] else [LowByte(ws[0])] + LowBytes(ws[1..])
  }

  lemma {:induction false} LowBytesAt(ws: seq<Word>, k: nat)
    requires k < |ws|
    ensures |LowBytes(ws)| == |ws| && LowBytes(ws)[k] == LowByte(ws[k])
  {
    if k > 0 {
      LowBytesAt(ws[1..], k - 1);
    } else if |ws| > 1 {
      LowBytesAt(ws[1..], 0);
    }
  }

  /** One more word, one more character at the end. */
  lemma {:induction false} LowBytesAppend(ws: seq<Word>, w: Word)
    ensures LowBytes(ws + [w]) == LowBytes(ws) + [LowByte(w)]
  {
    if ws != [] {
      assert (ws + [w])[1..] == ws[1..] + [w];
      LowBytesAppend(ws[1..], w);
    }
  }

  /** Walking one word further along memory adds that word's character. */
  lemma LowBytesStep(mem: seq<Word>, a: nat, c: nat)
    requires a <= c < |mem|
    ensures LowBytes(mem[a..c + 1]) == LowBytes(mem[a..c]) + [LowByte(mem[c])]
  {
    assert mem[a..c + 1] == mem[a..c] + [mem[c]];
    LowBytesAppend(mem[a..c], mem[c]);
  }

  /** The bytes `puts` writes when its pointer starts at `a`: the low byte of each word up to
      the first zero word. Walking past the end of memory is a fault. */
  function PutsFrom(mem: Memory, a: nat): Result<seq<Byte>>
    requires a <= MEMORY_CAPACITY
    decreases MEMORY_CAPACITY - a
  {
    if a == MEMORY_CAPACITY then Err(OutOfBounds(MEMORY_CAPACITY))
    else if mem[a] == 0 then Ok([])
    else
      match PutsFrom(mem, a + 1)
      case Err(f) => Err(f)
      case Ok(rest) => Ok([LowByte(mem[a])] + rest)
  }

  /** `puts` from `a` succeeds exactly when a zero word ends the string inside memory, and
      then writes the characters of the words before it. */
  lemma {:induction false} PutsFromString(mem: Memory, a: nat)
    requires a <= MEMORY_CAPACITY
    decreases MEMORY_CAPACITY - a
    ensures PutsFrom(mem, a).Ok? <==> StringEnd(mem, a).Some?
    ensures PutsFrom(mem, a).Err? ==> PutsFrom(mem, a).fault == OutOfBounds(MEMORY_CAPACITY)
    ensures PutsFrom(mem, a).Ok? ==> PutsFrom(mem, a).value == LowBytes(mem[a..StringEnd(mem, a).value])
  {
    if a < MEMORY_CAPACITY && mem[a] != 0 {
      PutsFromString(mem, a + 1);
      if StringEnd(mem, a).Some? {
        assert mem[a..StringEnd(mem, a).value][1..] == mem[a + 1..StringEnd(mem, a + 1).value];
      }
    }
  }

  /** The bytes `putsp` writes for one word: the low byte, then the high byte if it is not 0. */
  function PackedChars(w: Word): seq<Byte>
  {
    [LowByte(w)] + if HighByte(w) != 0 then [HighByte(w)] else []
  }

  /** A word gives its low byte, then its high byte exactly when that is not zero. */
  lemma PackedCharsBytes(w: Word)
    ensures 1 <= |PackedChars(w)| <= 2 && PackedChars(w)[0] == LowByte(w)
    ensures |PackedChars(w)| == 2 <==> HighByte(w) != 0
    ensures |PackedChars(w)| == 2 ==> PackedChars(w)[1] == HighByte(w)
  {
  }

  /** The characters of a string stored two per word. */
  function Unpack(ws: seq<Word>): seq<Byte>
  {
    if ws == [] then [] else PackedChars(ws[0]) + Unpack(ws[1..])
  }

  lemma {:induction false} UnpackAppend(ws: seq<Word>, w: Word)
    ensures Unpack(ws + [w]) == Unpack(ws) + PackedChars(w)
  {
    if ws != [] {
      assert (ws + [w])[1..] == ws[1..] + [w];
      UnpackAppend(ws[1..], w);
    }
  }

  /** Walking one word further along memory adds that word's packed characters. */
  lemma UnpackStep(mem: seq<Word>, a: nat, c: nat)
    requires a <= c < |mem|
    ensures Unpack(mem[a..c + 1]) == Unpack(mem[a..c]) + PackedChars(mem[c])
  {
    assert mem[a..c + 1] == mem[a..c] + [mem[c]];
    UnpackAppend(mem[a..c], mem[c]);
  }

  /** The bytes `putsp` writes when its pointer starts at `a`: the packed characters of each
      word up to the first zero word. Walking past the end of memory is a fault. */
  function PutspFrom(mem: Memory, a: nat): Result<seq<Byte>>
    requires a <= MEMORY_CAPACITY
    decreases MEMORY_CAPACITY - a
  {
    if a == MEMORY_CAPACITY then Err(OutOfBounds(MEMORY_CAPACITY))
    else if mem[a] == 0 then Ok([])
    else
      match PutspFrom(mem, a + 1)
      case Err(f) => Err(f)
      case Ok(rest) => Ok(PackedChars(mem[a]) + rest)
  }

  /** `putsp` from `a` succeeds exactly when a zero word ends the string inside memory, and
      then writes the packed characters of the words before it. */
  lemma {:induction false} PutspFromString(mem: Memory, a: nat)
    requires a <= MEMORY_CAPACITY
    decreases MEMORY_CAPACITY - a
    ensures PutspFrom(mem, a).Ok? <==> StringEnd(mem, a).Some?
    ensures PutspFrom(mem, a).Err? ==> PutspFrom(mem, a).fault == OutOfBounds(MEMORY_CAPACITY)
    ensures PutspFrom(mem, a).Ok? ==> PutspFrom(mem, a).value == Unpack(mem[a..StringEnd(mem, a).value])
  {
    if a < MEMORY_CAPACITY && mem[a] != 0 {
      PutspFromString(mem, a + 1);
      if StringEnd(mem, a).Some? {
        assert mem[a..StringEnd(mem, a).value][1..] == mem[a + 1..StringEnd(mem, a + 1).value];
      }
    }
  }

  /** Appends the outcome of a string routine to the output. */
  function Emit(s: State, out: Result<seq<Byte>>): Result<State>
  {
    match out
    case Err(f) => Err(f)
    case Ok(bytes) => Ok(s.(output := s.output + bytes))
  }

  /** puts: writes the string of one character per word that R0 points to. */
  function Puts(s: State): Result<State>
  {
    Emit(s, PutsFrom(s.mem, s.reg[R0]))
  }

  /** puts fails exactly when no zero word ends the string inside memory; otherwise it
      appends the string's characters and changes nothing else. */
  lemma PutsEffect(s: State)
    ensures Puts(s).Err? <==> StringEnd(s.mem, s.reg[R0]).None?
    ensures Puts(s).Err? ==> Puts(s).fault == OutOfBounds(MEMORY_CAPACITY)
    ensures Puts(s).Ok? ==>
      Puts(s).value == s.(output := s.output + LowBytes(s.mem[s.reg[R0]..StringEnd(s.mem, s.reg[R0]).value]))
  {
    PutsFromString(s.mem, s.reg[R0]);
  }

  /** A walk from R0 over non-zero words that stops at `c`, at a zero word or at the end of
      memory, decides puts: the end of memory is a fault, a zero word ends the string. */
  lemma PutsWalk(s: State, c: nat)
    requires s.reg[R0] <= c <= MEMORY_CAPACITY
    requires forall k :: s.reg[R0] <= k < c ==> s.mem[k] != 0
    requires c < MEMORY_CAPACITY ==> s.mem[c] == 0
    ensures c == MEMORY_CAPACITY ==> Puts(s) == Err(OutOfBounds(MEMORY_CAPACITY))
    ensures c < MEMORY_CAPACITY ==> Puts(s) == Ok(s.(output := s.output + LowBytes(s.mem[s.reg[R0]..c])))
  {
    PutsEffect(s);
    if c < MEMORY_CAPACITY {
      StringEndAt(s.mem, s.reg[R0], c - s.reg[R0]);
    }
  }

  /** putsp: writes the string of two characters per word that R0 points to. */
  function Putsp(s: State): Result<State>
  {
    Emit(s, PutspFrom(s.mem, s.reg[R0]))
  }

  /** putsp fails exactly when no zero word ends the string inside memory; otherwise it
      appends the string's packed characters and changes nothing else. */
  lemma PutspEffect(s: State)
    ensures Putsp(s).Err? <==> StringEnd(s.mem, s.reg[R0]).None?
    ensures Putsp(s).Err? ==> Putsp(s).fault == OutOfBounds(MEMORY_CAPACITY)
    ensures Putsp(s).Ok? ==>
      Putsp(s).value == s.(output := s.output + Unpack(s.mem[s.reg[R0]..StringEnd(s.mem, s.reg[R0]).value]))
  {
    PutspFromString(s.mem, s.reg[R0]);
  }

  /** The same for putsp. */
  lemma PutspWalk(s: State, c: nat)
    requires s.reg[R0] <= c <= MEMORY_CAPACITY
    requires forall k :: s.reg[R0] <= k < c ==> s.mem[k] != 0
    requires c < MEMORY_CAPACITY ==> s.mem[c] == 0
    ensures c == MEMORY_CAPACITY ==> Putsp(s) == Err(OutOfBounds(MEMORY_CAPACITY))
    ensures c < MEMORY_CAPACITY ==> Putsp(s) == Ok(s.(output := s.output + Unpack(s.mem[s.reg[R0]..c])))
  {
    PutspEffect(s);
    if c < MEMORY_CAPACITY {
      StringEndAt(s.mem, s.reg[R0], c - s.reg[R0]);
    }
  }

  // ---------------------------------------------------------------------------------------
  // in and halt

  /** in: prints the prompt, reads a character into a `char` (signed, as on the common
      platforms), echoes it, and stores it in R0 sign-extended from 8 bits, then the flags. */
  function In(s: State): State
  {
    var (c, input) := GetChar(s.input);
    var ch := LowByte(c);
    assert Pow2(8) == 0x100;
    SetAndFlag(s.(input := input, output := s.output + PROMPT + [ch]), R0, SignExtend(ch, 8))
  }

  /** in consumes one input byte, prints the prompt and echoes the byte, and leaves in R0 the
      value of the byte read as a signed `char` (EOF becomes -1); no other register and no
      memory changes. */
  lemma InEffect(s: State)
    ensures In(s).input == GetChar(s.input).1
    ensures In(s).output == s.output + PROMPT + [LowByte(GetChar(s.input).0)]
    ensures Signed(In(s).reg[R0]) == FieldValue(LowByte(GetChar(s.input).0), 8)
    ensures s.input == [] ==> In(s).reg[R0] == 0xFFFF
    ensures In(s).reg[COND] == FlagFor(In(s).reg[R0])
    ensures SameExceptRegs(s.(input := In(s).input, output := In(s).output), In(s), {R0, COND})
  {
    var (c, input) := GetChar(s.input);
    var ch := LowByte(c);
    assert Pow2(8) == 0x100;
    SignExtendValue(ch, 8);
    SetAndFlagEffect(s.(input := input, output := s.output + PROMPT + [ch]), R0, SignExtend(ch, 8));
  }

  /** halt: prints the banner and clears `running`. */
  function Halt(s: State): State
  {
    s.(running := false, output := s.output + HALT_BANNER)
  }

  /** After halt the machine is stopped, the banner was appended, and nothing else changed. */
  lemma HaltEffect(s: State)
    ensures !Halt(s).running
    ensures SameExceptOutput(s.(running := false), Halt(s))
    ensures Halt(s).output[|s.output|..] == HALT_BANNER
  {
  }
}
