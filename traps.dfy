/** The trap vectors the TRAP instruction dispatches on. Their values come from a header that is
    not part of this model; the LC-3 standard vectors 0x20..0x25 are assumed. */
module TrapCodes {
  import opened Words

  datatype Option<T> = None | Some(value: T)

  datatype Routine = GetcRoutine | OutRoutine | PutsRoutine | InRoutine | PutspRoutine | HaltRoutine

  const TRAP_GETC: Word := 0x20
  const TRAP_OUT: Word := 0x21
  const TRAP_PUTS: Word := 0x22
  const TRAP_IN: Word := 0x23
  const TRAP_PUTSP: Word := 0x24
  const TRAP_HALT: Word := 0x25

  function Vector(r: Routine): (v: Word)
    ensures TRAP_GETC <= v <= TRAP_HALT
  {
    match r
    case GetcRoutine => TRAP_GETC
    case OutRoutine => TRAP_OUT
    case PutsRoutine => TRAP_PUTS
    case InRoutine => TRAP_IN
    case PutspRoutine => TRAP_PUTSP
    case HaltRoutine => TRAP_HALT
  }

  /** The routine a trap vector selects; any other vector selects none (the `default` case). */
  function RoutineFor(vec: Word): (r: Option<Routine>)
    ensures r.Some? <==> TRAP_GETC <= vec <= TRAP_HALT
    ensures r.Some? ==> Vector(r.value) == vec
  {
    if vec == TRAP_GETC then Some(GetcRoutine)
    else if vec == TRAP_OUT then Some(OutRoutine)
    else if vec == TRAP_PUTS then Some(PutsRoutine)
    else if vec == TRAP_IN then Some(InRoutine)
    else if vec == TRAP_PUTSP then Some(PutspRoutine)
    else if vec == TRAP_HALT then Some(HaltRoutine)
    else None
  }
}
