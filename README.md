# LC-3 virtual machine

A model of the core of a small LC-3 virtual machine written in C++ (`src/main.cc`,
`src/opcodes.h`, `src/registers.h`).

The machine has:

- ten 16-bit registers: R0..R7, the program counter and the condition register;
- a memory of `MEMORY_CAPACITY` 16-bit words;
- a `running` flag.

At start-up the images named on the command line are loaded into memory. The machine then
sets COND to Z and PC to 0x3000. It fetches, decodes and executes instructions until the
HALT trap clears `running`.

The model comes in two layers:

- **Functions on a `State` value.** The registers, the memory, `running` and the terminal
  are one `State`. The terminal is three sequences:
  - the answers the keyboard poll will give;
  - the bytes `getchar` will return;
  - the bytes written so far.

  Every operation of the source is a function from `State` to `State`, or to
  `Result<State>` when it can fail. The lemma beside each function states what the
  operation does.
- **The `Emulator.Vm` class.** It mirrors the source's static variables: two arrays
  (`reg`, `memory`), the `running` flag and the terminal sequences. Its methods update
  them in place, as the C++ functions do. Each method is proved to leave exactly the state
  the corresponding function computes (`View()`). Puts, Putsp and load_file keep their
  loops, with invariants.

The modules, in dependency order:

| module | file | models |
|---|---|---|
| `Words` | words.dfy | `uint16_t` arithmetic, `sign_extend`, `swap16`, `&`, `~` |
| `Registers` | registers.dfy | `RegisterType` |
| `Opcodes` | opcodes.dfy | `OpCode`, `ConditionBit` |
| `TrapCodes` | traps.dfy | the trap vectors |
| `Fields` | fields.dfy | the instruction fields each handler extracts |
| `MachineState` | machine_state.dfy | the machine state and the faults |
| `Utils` | utils.dfy | `update_flags`, `check_keyboard`, `mem_read`, `mem_write` |
| `TrapRoutine` | trap_routines.dfy | getc, out, puts, in, putsp, halt |
| `Ops` | ops.dfy | the sixteen instruction handlers and the opcode dispatch |
| `MainLoop` | main_loop.dfy | fetch, one step, the run loop, the initial state |
| `Loader` | loader.dfy | `load_file` |
| `Properties` | properties.dfy | properties that relate several operations |
| `Emulator` | vm.dfy | the machine as a mutable object; `main` |

Undefined behaviour in the source becomes a `Fault`:

- `OutOfBounds(addr)` is an access to `memory[addr]` outside the array. This includes the
  address 0xFFFF, because the array holds `UINT16_MAX` = 65535 words, and a PUTS/PUTSP
  that walks off the end of memory.
- `Aborted(op)` is the `abort()` of the reserved opcodes RTI and RES.

## Model

| member | source | states |
|---|---|---|
| Words.Wrap | src/main.cc:19 | a value stored in a `uint16_t` register is congruent to it modulo 2^16 and equal to it when it already fits |
| Words.SignExtendValue | src/main.cc:32-37 | a sign-extended n-bit field, read as a signed word, has the field's n-bit two's-complement value |
| Words.Swap16 | src/main.cc:309 | the low byte of the result is the high byte of the argument and vice versa |
| Words.BitAnd | src/main.cc:209-213 | `a & b` is no larger than either operand |
| Words.BitAndBit | src/main.cc:209-213 | bit k of `a & b` is set exactly when bit k is set in both `a` and `b` |
| Opcodes.Code | src/opcodes.h:4-22 | every opcode's number is below `TOTAL_COUNT` (16) |
| Opcodes.FromCode | src/opcodes.h:4-22 | every number below `TOTAL_COUNT` is the number of the opcode it decodes to |
| TrapCodes.Vector | src/main.cc:280-305 | each trap routine has a vector in 0x20..0x25 |
| TrapCodes.RoutineFor | src/main.cc:280-305 | a vector selects a routine exactly when it lies in 0x20..0x25, and that routine's vector is the vector; any other vector selects none |
| Fields.Dr | src/main.cc:158 | the 3-bit destination field always names a general register R0..R7 |
| Fields.BaseR | src/main.cc:220 | the 3-bit base register field always names a general register |
| Fields.Sr2 | src/main.cc:168 | the second source field always names a general register |
| Fields.Sr1Even | src/main.cc:159 | SR1 as decoded with mask 0x06 is the base field with its low bit cleared, so it is always an even general register |
| Fields.OffsetValues | src/main.cc:128 | imm5, offset6, PCoffset9 and PCoffset11, sign-extended, read as signed words equal their fields as two's-complement numbers |
| Fields.OpcodeOf | src/main.cc:373 | the decoded opcode's number is the instruction's top four bits |
| Utils.FlagForSign | src/main.cc:39-47 | the flag is exactly one condition bit: Z iff the value is zero, N iff it is negative as a signed word, P iff it is positive |
| Utils.UpdateFlagsEffect | src/main.cc:39-47 | update_flags sets COND to the flag of the register and changes nothing else |
| Utils.SetAndFlagEffect | src/main.cc:177-178 | writing a general register then updating the flags changes just that register and COND |
| Utils.GetCharNext | src/main.cc:65 | getchar returns and consumes the next input byte; at end of input it returns EOF (0xFFFF), which no byte equals |
| Utils.MemReadEffect | src/main.cc:60-71 | a read faults exactly outside memory; it returns the word stored at the address afterwards; outside KBSR it changes nothing; at KBSR it consumes one poll and, with a key, sets KBSR to 0x8000 and KBDR to the next character, otherwise clears KBSR, leaving everything else alone |
| Utils.MemWriteEffect | src/main.cc:72 | a write faults exactly outside memory and otherwise changes exactly the addressed word to the value |
| TrapRoutine.GetcEffect | src/main.cc:77-80 | R0 receives the next input character (or EOF), COND its flag, and nothing else changes |
| TrapRoutine.OutEffect | src/main.cc:82 | exactly one byte, the low byte of R0, is appended to the output |
| TrapRoutine.StringEnd | src/main.cc:84-92 | finds the first zero word at or after an address, with all words before it nonzero, or reports that memory ends first |
| TrapRoutine.StringEndAt | src/main.cc:86-90 | a zero word preceded only by nonzero words is where the string ends |
| TrapRoutine.LowBytesAt | src/main.cc:88 | the characters of a word sequence are, one per word, the words' low bytes |
| TrapRoutine.LowBytesAppend | src/main.cc:87-90 | one more word adds exactly its low byte |
| TrapRoutine.LowBytesStep | src/main.cc:87-90 | one step of the puts loop extends the output of the slice by the low byte of the next word |
| TrapRoutine.PutsFromString | src/main.cc:84-92 | the puts walk succeeds exactly when the string ends inside memory, and then writes the low bytes of the words before the terminator |
| TrapRoutine.PutsEffect | src/main.cc:84-92 | puts faults exactly when no zero word follows R0 in memory; otherwise it appends the string's characters and changes nothing else |
| TrapRoutine.PutsWalk | src/main.cc:84-92 | where the nonzero run starting at R0 stops decides puts: at the end of memory it is a fault, at a zero word the output grows by the run's low bytes |
| TrapRoutine.PackedCharsBytes | src/main.cc:110-115 | a packed word writes its low byte, then its high byte exactly when that is nonzero |
| TrapRoutine.UnpackAppend | src/main.cc:109-117 | one more word adds exactly its packed characters |
| TrapRoutine.UnpackStep | src/main.cc:109-117 | one step of the putsp loop extends the output of the slice by the packed characters of the next word |
| TrapRoutine.PutspFromString | src/main.cc:103-119 | the putsp walk succeeds exactly when the string ends inside memory, and then writes the packed characters of the words before the terminator |
| TrapRoutine.PutspEffect | src/main.cc:103-119 | putsp faults exactly when no zero word follows R0; otherwise it appends the packed characters and changes nothing else |
| TrapRoutine.PutspWalk | src/main.cc:103-119 | where the nonzero run starting at R0 stops decides putsp, as for puts |
| TrapRoutine.InEffect | src/main.cc:94-101 | in prints the prompt, consumes one byte and echoes it; R0 holds that byte as a signed char (EOF becomes 0xFFFF), COND its flag, and nothing else changes |
| TrapRoutine.HaltEffect | src/main.cc:121-124 | halt clears `running`, appends the HALT banner and changes nothing else |
| Ops.BrEffect | src/main.cc:127-133 | a taken branch adds the sign-extended PCoffset9 to PC modulo 2^16; an untaken branch changes nothing; only PC can change |
| Ops.JsrEffect | src/main.cc:187-198 | R7 receives the old PC; PC gets PC + PCoffset11 (long form) or the base register read after R7 was written; only R7 and PC change |
| Ops.JmpEffect | src/main.cc:266-269 | PC receives the base register and nothing else changes |
| Ops.AddEffect | src/main.cc:156-172 | DR receives SR1 + operand 2 modulo 2^16, COND its flag; only DR and COND change |
| Ops.AndEffect | src/main.cc:200-216 | DR receives SR1 & operand 2, COND its flag; only DR and COND change |
| Ops.NotEffect | src/main.cc:235-240 | DR receives the complement of the base register (as signed words, -x - 1), COND its flag; only DR and COND change |
| Ops.LoadEffect | src/main.cc:177-178 | loading into a register faults exactly outside memory; otherwise the register receives the word read and COND its flag |
| Ops.LoadIndirectEffect | src/main.cc:254-256 | the indirect load faults exactly when the pointer's address, or the address it holds, is outside memory; otherwise the register receives what the second mem_read returns, with its flag, for every address including KBSR; away from KBSR these are the stored words and nothing else changes |
| Ops.LdEffect | src/main.cc:174-179 | LD faults exactly when PC + PCoffset9 is outside memory; otherwise DR receives what mem_read returns there, with its flag, and nothing changes beyond what mem_read changed; away from KBSR that is the stored word and nothing else changes; at KBSR it is the keyboard status, 0x8000 with a key waiting and 0 without |
| Ops.LdrEffect | src/main.cc:218-224 | LDR faults exactly when base + offset6 is outside memory; otherwise DR receives what mem_read returns there, with its flag, and nothing changes beyond what mem_read changed; away from KBSR that is the stored word and nothing else changes; at KBSR (the polling idiom `LDR R0, R1, #0`) it is 0x8000 with a key waiting and 0 without |
| Ops.LdiEffect | src/main.cc:251-257 | LDI faults exactly when PC + PCoffset9, or the pointer read there, is outside memory; otherwise DR receives what the second mem_read returns, with its flag; away from KBSR these are the stored words; through a pointer to KBSR it loads the keyboard status, 0x8000 with a key waiting and 0 without |
| Ops.LeaEffect | src/main.cc:273-278 | DR receives the effective address PC + PCoffset9 (not a memory word), COND its flag |
| Ops.StEffect | src/main.cc:181-185 | ST faults exactly outside memory; otherwise it writes the source register at PC + PCoffset9 and changes nothing else |
| Ops.StrEffect | src/main.cc:226-231 | STR faults exactly outside memory; otherwise it writes the source register at base + offset6 and changes nothing else |
| Ops.StoreIndirectEffect | src/main.cc:262-263 | the indirect store faults exactly when the pointer slot or the pointer is outside memory; otherwise it writes the value at the pointer mem_read returns, for every slot including KBSR, and changes nothing else beyond that read's own effect (none away from KBSR) |
| Ops.StiEffect | src/main.cc:259-264 | STI writes the source register at the pointer mem_read returns from PC + PCoffset9, or faults outside memory, changing nothing else beyond that read's effect; with the slot at KBSR the poll's status value (0x8000 or 0) is the target |
| Ops.TrapEffect | src/main.cc:280-305 | an unknown vector does nothing; a trap never changes R7 or PC (R7 is not saved); only a HALT clears `running`; only puts/putsp can fault |
| Ops.ExecuteAborts | src/main.cc:373-428 | executing aborts exactly for the reserved opcodes RTI and RES; every other fault is an out-of-bounds access |
| MainLoop.FetchEffect | src/main.cc:372 | the fetch faults exactly when PC is outside memory; otherwise PC is incremented and the instruction is the word at the old PC after mem_read's effect: at KBSR the poll's status value, elsewhere the stored word with nothing else changed |
| MainLoop.StepEffect | src/main.cc:370-429 | away from KBSR one step executes the word at PC with PC already moved past it; at KBSR it executes the poll's status value in the state the poll leaves |
| MainLoop.Run | src/main.cc:370-429 | a machine that is not running is left as it is |
| MainLoop.RunUnfold | src/main.cc:370-429 | a running machine takes one step and continues, and a failing step ends the run with its fault |
| MainLoop.Boot | src/main.cc:365-369 | the machine starts with PC = 0x3000, COND = Z, R0..R7 zero, `running` set, memory as loaded and no output |
| Loader.LoadCount | src/main.cc:318-320 | as many words as the file holds, capped so that none lies past the end of memory |
| Loader.Place | src/main.cc:319-325 | the words read are stored swapped from the origin on; every other memory word is kept |
| Loader.SwapHostWords | src/main.cc:320-322 | swapping the words read in host byte order gives the image's big-endian words |
| Loader.PlacedFile | src/main.cc:311-327 | a memory holding the swapped image from the origin as far as it fits, and the old words elsewhere, is what loading leaves |
| Loader.OriginNotSwapped | src/main.cc:316-317 | as written, an image whose origin is 0x3000 is placed at 0x0030 |
| Loader.ImagePlacedAtOrigin | src/main.cc:311-327 | with the origin swapped, word k of the image lands at origin + k - 1 as far as memory reaches, and every other word is kept |
| Properties.SignExtendExamples | src/main.cc:32-37 | 0x1F as 5 bits extends to 0xFFFF, 0x0F stays 0x0F, 0x1FF as 9 bits extends to 0xFFFF |
| Properties.SignExtendBits | src/main.cc:32-37 | each field width the handlers use extends to the field's two's-complement value |
| Properties.ByteSplit | src/main.cc:309 | a word is its high byte times 256 plus its low byte |
| Properties.Swap16Involution | src/main.cc:309 | swapping the bytes twice gives back the word |
| Properties.OpcodeRoundTrip | src/opcodes.h:4-22 | opcode numbering is injective and decoding inverts it |
| Properties.DecodeTotal | src/opcodes.h:4-22 | every top-four-bits value decodes to an opcode; it is reserved exactly for 8 (RTI) and 13 (RES) |
| Properties.ConditionBits | src/opcodes.h:24-28 | P, Z and N are distinct single bits whose union is 7 |
| Properties.BranchMaskExtremes | src/main.cc:127-133 | with a valid COND, a BR with all three mask bits always branches and one with none never does |
| Properties.SignedCongruent | src/main.cc:19 | a word and its signed reading agree modulo 2^16 |
| Properties.AddImmediate | src/main.cc:162-165 | immediate ADD adds imm5 as a signed 5-bit number, modulo 2^16 |
| Properties.AddOverflow | src/main.cc:165 | 0x7FFF + 1 wraps to 0x8000 and sets N |
| Properties.Sr1EvenQuirk | src/main.cc:159 | ADD R0, R1, R0 (0x1040) reads R0, not R1, as its first source |
| Properties.AndBits | src/main.cc:200-216 | AND sets bit k of DR exactly where SR1 and the second operand (imm5 or SR2) both have it set |
| Properties.AndZero | src/main.cc:200-216 | AND with immediate 0 clears DR and sets Z |
| Properties.NotTwice | src/main.cc:235-240 | NOT of a register into itself, applied twice, restores it |
| Properties.WriteThenRead | src/main.cc:60-72 | reading an address other than KBSR after writing it returns the value written and changes nothing |
| Properties.StoreThenLoad | src/main.cc:174-185 | LD with the same offset after ST loads the value stored |
| Properties.StoreIndirectThenLoadIndirect | src/main.cc:251-264 | LDI after STI with the same offset loads the value stored |
| Properties.LoadReadsEffectiveAddress | src/main.cc:174-179 | LD loads the word at the address LEA computes |
| Properties.CallThenReturn | src/main.cc:187-198 | JSR followed by RET (JMP R7) returns to the instruction after the call |
| Properties.JsrrThroughLink | src/main.cc:188-196 | JSRR R7 jumps to the old PC, because R7 is written before it is read |
| Properties.TrapKeepsCondValid | src/main.cc:280-305 | a trap leaves COND holding exactly one condition bit |
| Properties.ExecuteKeepsCondValid | src/main.cc:373-428 | every instruction keeps COND a single condition bit; BR, ST, STR, STI, JSR and JMP leave it unchanged |
| Properties.ExecuteKeepsPc | src/main.cc:373-428 | only BR, JMP and JSR change PC; only the HALT trap changes `running` |
| Properties.StepKeepsCondValid | src/main.cc:370-429 | one step keeps COND a single condition bit |
| Properties.RunKeepsCondValid | src/main.cc:370-429 | the whole run keeps COND a single condition bit |
| Properties.BootCondValid | src/main.cc:365 | the initial COND is a single condition bit |
| Properties.ReservedAborts | src/main.cc:406-411 | fetching RTI or RES aborts the machine |
| Properties.HaltStops | src/main.cc:121-124 | a step over TRAP x25 ends the run with the banner printed, PC past the trap and memory untouched |
| Properties.RunMoreFuel | src/main.cc:370 | once the machine has stopped, more steps change nothing |
| Properties.SevenProgram | src/main.cc:365-429 | AND R0,R0,#0; ADD R0,R0,#7; HALT at 0x3000 ends with R0 = 7, stopped, having printed only the banner |
| Properties.ClearStep | src/main.cc:200-216 | the step over AND R0,R0,#0 at 0x3000 clears R0, moves PC on and changes no memory or terminal state |
| Properties.AddSevenStep | src/main.cc:156-172 | the step over ADD R0,R0,#7 sets R0 to 7, moves PC on and changes no memory or terminal state |
| Properties.KeyboardHandshake | src/main.cc:60-71 | with a key waiting, reading KBSR gives 0x8000 and then KBDR gives the key, consuming it |
| Properties.KeyboardIdle | src/main.cc:60-71 | with no key waiting, reading KBSR gives 0 and consumes no input |
| Properties.GetcThenOut | src/main.cc:77-82 | GETC then OUT echoes the next input byte |
| Properties.InThenOut | src/main.cc:94-101 | IN then OUT prints the prompt and the character twice |
| Properties.UnpackPlain | src/main.cc:110-115 | words whose high byte is zero unpack to their low bytes |
| Properties.PutspOfPlainString | src/main.cc:84-119 | on a string of one character per word, PUTSP prints what PUTS prints |
| Properties.PutsString | src/main.cc:84-92 | PUTS of a stored zero-terminated string appends exactly its characters |
| Emulator.Vm.constructor | src/main.cc:19-25 | the register file and memory start zero, `running` false and no output |
| Emulator.Vm.UpdateFlags | src/main.cc:39-47 | the in-place flag update leaves the state `Utils.UpdateFlags` computes |
| Emulator.Vm.CheckKeyboard | src/main.cc:49-58 | the poll answers the next `ready` answer and consumes it |
| Emulator.Vm.ReadChar | src/main.cc:65 | getchar returns the next input byte or EOF and consumes it |
| Emulator.Vm.MemRead | src/main.cc:60-71 | the in-place read returns the word and leaves the state `Utils.MemRead` computes, or its fault |
| Emulator.Vm.MemWrite | src/main.cc:72 | the in-place write leaves the state `Utils.MemWrite` computes, or its fault |
| Emulator.Vm.Getc | src/main.cc:77-80 | leaves the state `TrapRoutine.Getc` computes |
| Emulator.Vm.Out | src/main.cc:82 | leaves the state `TrapRoutine.Out` computes |
| Emulator.Vm.Puts | src/main.cc:84-92 | the pointer loop leaves the state `TrapRoutine.Puts` computes, or its fault |
| Emulator.Vm.In | src/main.cc:94-101 | leaves the state `TrapRoutine.In` computes |
| Emulator.Vm.Putsp | src/main.cc:103-119 | the pointer loop leaves the state `TrapRoutine.Putsp` computes, or its fault |
| Emulator.Vm.PutPacked | src/main.cc:110-115 | one word's body of the putsp loop appends exactly its packed characters |
| Emulator.Vm.Halt | src/main.cc:121-124 | leaves the state `TrapRoutine.Halt` computes |
| Emulator.Vm.Br | src/main.cc:127-133 | leaves the state `Ops.Br` computes |
| Emulator.Vm.Add | src/main.cc:156-172 | leaves the state `Ops.Add` computes |
| Emulator.Vm.Load | src/main.cc:177-178 | leaves the state `Ops.Load` computes, or its fault |
| Emulator.Vm.Ld | src/main.cc:174-179 | leaves the state `Ops.Ld` computes, or its fault |
| Emulator.Vm.St | src/main.cc:181-185 | leaves the state `Ops.St` computes, or its fault |
| Emulator.Vm.Jsr | src/main.cc:187-198 | leaves the state `Ops.Jsr` computes |
| Emulator.Vm.And | src/main.cc:200-216 | leaves the state `Ops.And` computes |
| Emulator.Vm.Ldr | src/main.cc:218-224 | leaves the state `Ops.Ldr` computes, or its fault |
| Emulator.Vm.Str | src/main.cc:226-231 | leaves the state `Ops.Str` computes, or its fault |
| Emulator.Vm.Not | src/main.cc:235-240 | leaves the state `Ops.Not` computes |
| Emulator.Vm.Ldi | src/main.cc:251-257 | leaves the state `Ops.Ldi` computes, or its fault |
| Emulator.Vm.Sti | src/main.cc:259-264 | leaves the state `Ops.Sti` computes, or its fault |
| Emulator.Vm.Jmp | src/main.cc:266-269 | leaves the state `Ops.Jmp` computes |
| Emulator.Vm.Lea | src/main.cc:273-278 | leaves the state `Ops.Lea` computes |
| Emulator.Vm.Trap | src/main.cc:280-305 | leaves the state `Ops.Trap` computes, or its fault |
| Emulator.Vm.Execute | src/main.cc:373-428 | the opcode dispatch leaves the state `Ops.Execute` computes, or its fault (RTI/RES abort) |
| Emulator.Vm.Step | src/main.cc:372-428 | one fetch-and-execute leaves the state `MainLoop.Step` computes, or its fault |
| Emulator.Vm.Start | src/main.cc:365-369 | sets COND to Z, PC to 0x3000 and `running`, and changes nothing else |
| Emulator.Vm.Run | src/main.cc:370-429 | the `while (running)` loop ends in the state `MainLoop.Run` computes, or with its fault |
| Emulator.Vm.LoadImage | src/main.cc:311-327 | the fread and swap loops leave exactly the memory `Loader.LoadFile` computes (the corrected loader, with the origin swapped) |
| Emulator.Vm.ReadWords | src/main.cc:320 | the fread stores the image's words after the origin, in host byte order, from the origin on, and changes no other word |
| Emulator.Vm.SwapWords | src/main.cc:321-325 | the swap loop byte-swaps exactly the words read and changes no other word |
| Emulator.Emulate | src/main.cc:350-429 | with no image it stops before the loop, leaving the machine untouched; otherwise loading every image in order, initialising and running ends in the state `MainLoop.Run` computes from `MainLoop.Boot` over the loaded memory |

## Left out

- Terminal set-up is left out because it has no effect on the machine's state. This covers
  `disable_input_buffering`, `restore_input_buffering`, the SIGINT handler and the usage
  message. The `argc` check itself is modelled: `Emulate` with no image returns before the
  loop.
- A file that cannot be opened is not modelled. `Emulate` takes the images' bytes as input.
- `check_keyboard` (`select`), `getchar`, `putc` and `printf` are modelled as oracles:
  - `ready` is the sequence of poll answers; once it is exhausted, the poll says no key.
  - `input` is the sequence of bytes `getchar` returns; once it is exhausted, getchar
    returns EOF.
  - `output` is every byte written.

  Flushing and timing are not modelled.
- The trap vector values live in `src/definitions.h`, which is not part of this model. The
  standard LC-3 vectors 0x20..0x25 are assumed.
- `MainLoop.Run`: the `while (running)` loop takes a `fuel` bound on its steps. A program
  that never halts is therefore only followed for `fuel` steps.
- `TrapRoutine.In`: `char` is taken to be signed, as on the common platforms, so a byte of
  0x80 or above and EOF land in R0 sign-extended.
- `Words.SignExtend` requires its argument to be already masked to `bit_count` bits, as
  every call in the source is. Unmasked arguments are not modelled.
- `abort()` and the undefined behaviour of an access outside `memory` both end the run with
  a `Fault` rather than a crash.
- The `default: abort()` branch of the main loop cannot be reached, because the top four
  bits of a word always decode to one of the sixteen opcodes (`Properties.DecodeTotal`).
- `Loader.HostWords`: assumes a little-endian host, as `fread` into a `uint16_t` gives on
  x86 and most ARM targets; a big-endian host is not modelled (there load_file as written
  would read the origin correctly and swap every program word wrongly). A trailing odd byte
  of an image file is not modelled either. `fread` does
  not count it as a read element, and ISO C leaves the value of that partially read element
  indeterminate (an implementation may copy the byte into the word after the last one
  read). The model keeps the old word there.
- Emulator.Vm methods that return a fault do not state the state left behind, because the
  source has no defined state after undefined behaviour. `MemRead`, `MemWrite`, `Puts`,
  `Putsp`, `Load`, `Ld`, `St`, `Ldr`, `Str`, `Ldi`, `Sti`, `Trap`, `Execute`, `Step`,
  `Run` and `Emulate` state only the fault in that case.
- Where the code departs from the LC-3 standard, the model follows the code:
  - ADD and AND decode SR1 with the mask `0x06`, so only R0, R2, R4 and R6 are readable as
    SR1.
  - TRAP does not save the return address in R7.
  - Memory holds 65535 words, not 65536.
  - PUTS and PUTSP walk until a zero word with no bound, which is a fault past the end of
    memory.
- `Loader.LoadFile` is the corrected loader (the origin swapped), and the rest of the model
  loads with it. In particular `Emulator.Vm.LoadImage` swaps the origin word and
  `Emulator.Emulate` loads every image that way, unlike load_file as written.
  `Loader.LoadFileAsWritten` records the code as written (see Findings).

## Findings

| source | as written | input that shows it | evidently intended | confidence | as-written member | corrected member |
|---|---|---|---|---|---|---|
| src/main.cc:316-317 | the origin word is read with `fread` in host byte order and used without `swap16`, while every program word is swapped | an image file with bytes 30 00 F0 25 (origin 0x3000, then HALT) places the HALT at 0x0030 on a little-endian host and leaves 0x3000 untouched | `origin = swap16(origin)` before it is used, so the program lands at 0x3000 | not executed | Loader.OriginNotSwapped | Loader.ImagePlacedAtOrigin |
