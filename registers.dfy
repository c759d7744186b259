/**
 * The CHIP-8 register file: sixteen 8-bit registers V0..VF, the 16-bit
 * index register I, the program counter, the stack pointer and the two
 * timer slots, with the name-based `write`/`read` path and the dedicated
 * PC/SP accessors.
 */
module RegisterFile {

  import opened Bits
  import opened Options

  /**
   * Register names. `V(x)` is register Vx; `Unknown` stands for a name with
   * no slot in the object (`this[name] === undefined`).
   */
  datatype RegName = V(x: nibble) | I | PC | SP | DT | ST | Unknown

  /** The names the generic `write`/`read` path accepts: not PC, not SP, not unknown. */
  predicate Accessible(name: RegName) {
    !(name.PC? || name.SP? || name.Unknown?)
  }

  /** The values of all register slots. */
  datatype RegFile = RegFile(v: seq<byte>, i: u16, pc: u16, sp: byte, dt: byte, st: byte)

  predicate WellFormed(r: RegFile) {
    |r.v| == 16
  }

  /** Every slot starts at zero. */
  function Zero(): (r: RegFile)
    ensures WellFormed(r)
  {
    RegFile(seq(16, _ => 0), 0, 0, 0, 0, 0)
  }

  /** What `write` stores for `value`: the low 16 bits for I, the low 8 for the rest. */
  function Masked(name: RegName, value: int): int {
    if name == I then Mask16(value) else Mask8(value)
  }

  /** `read(name)`: the stored value, or nothing for a rejected name. */
  function ValueOf(r: RegFile, name: RegName): Option<int>
    requires WellFormed(r)
  {
    match name
    case V(x) => Some(r.v[x])
    case I => Some(r.i)
    case DT => Some(r.dt)
    case ST => Some(r.st)
    case _ => None
  }

  /** `write(name, value)`: store the masked value, or change nothing for a rejected name. */
  function AfterWrite(r: RegFile, name: RegName, value: int): (r': RegFile)
    requires WellFormed(r)
    ensures WellFormed(r')
  {
    match name
    case V(x) => r.(v := r.v[x := Mask8(value)])
    case I => r.(i := Mask16(value))
    case DT => r.(dt := Mask8(value))
    case ST => r.(st := Mask8(value))
    case _ => r
  }

  /** `setPC(value)`. */
  function WithPC(r: RegFile, value: int): RegFile {
    r.(pc := Mask16(value))
  }

  /** `setSP(value)`. */
  function WithSP(r: RegFile, value: int): RegFile {
    r.(sp := Mask8(value))
  }

  /** `incrementSP()`. */
  function SPIncremented(r: RegFile): RegFile {
    r.(sp := Mask8(r.sp + 1))
  }

  /** `decrementSP()`. */
  function SPDecremented(r: RegFile): RegFile {
    r.(sp := Mask8(r.sp - 1))
  }

  /** Slot `name` holds the same value in `a` and `b` (there is no slot for `Unknown`). */
  predicate Agree(a: RegFile, b: RegFile, name: RegName)
    requires WellFormed(a) && WellFormed(b)
  {
    match name
    case V(x) => a.v[x] == b.v[x]
    case I => a.i == b.i
    case PC => a.pc == b.pc
    case SP => a.sp == b.sp
    case DT => a.dt == b.dt
    case ST => a.st == b.st
    case Unknown => true
  }

  /** `a` and `b` differ at most in the slots named in `changed`. */
  ghost predicate SameExcept(a: RegFile, b: RegFile, changed: set<RegName>)
    requires WellFormed(a) && WellFormed(b)
  {
    forall name :: name !in changed ==> Agree(a, b, name)
  }

  /** Register files that agree on every slot are equal. */
  lemma SameEverywhere(a: RegFile, b: RegFile)
    requires WellFormed(a) && WellFormed(b)
    requires SameExcept(a, b, {})
    ensures a == b
  {
    forall x: nibble ensures a.v[x] == b.v[x] {
      assert Agree(a, b, V(x));
    }
    assert Agree(a, b, I) && Agree(a, b, PC) && Agree(a, b, SP);
    assert Agree(a, b, DT) && Agree(a, b, ST);
  }

  /**
   * Writing an accepted register and reading it back gives the value masked
   * to 16 bits for I and to 8 bits for V0..VF, DT and ST.
   */
  lemma ReadAfterWrite(r: RegFile, name: RegName, value: int)
    requires WellFormed(r)
    requires Accessible(name)
    ensures ValueOf(AfterWrite(r, name, value), name) == Some(Masked(name, value))
    ensures name == I ==> ValueOf(AfterWrite(r, name, value), name) == Some(value % 0x1_0000)
    ensures name != I ==> ValueOf(AfterWrite(r, name, value), name) == Some(value % 0x100)
  {
  }

  /** A write changes the named slot and no other. */
  lemma WriteChangesOnlyTarget(r: RegFile, name: RegName, value: int)
    requires WellFormed(r)
    ensures SameExcept(r, AfterWrite(r, name, value), {name})
  {
  }

  /** `write` and `read` reject PC, SP and unknown names: no slot changes and no value comes back. */
  lemma RejectedAccess(r: RegFile, name: RegName, value: int)
    requires WellFormed(r)
    ensures !Accessible(name) <==> ValueOf(r, name) == None
    ensures !Accessible(name) ==> AfterWrite(r, name, value) == r
  {
  }

  /** What `read` returns is always within the register's width: masking it again changes nothing. */
  lemma ReadIsMasked(r: RegFile, name: RegName)
    requires WellFormed(r)
    requires ValueOf(r, name).Some?
    ensures Masked(name, ValueOf(r, name).value) == ValueOf(r, name).value
  {
  }

  /** `setPC` keeps the low 16 bits, `setSP` the low 8, and nothing else changes. */
  lemma DedicatedSetters(r: RegFile, value: int)
    requires WellFormed(r)
    ensures WithPC(r, value).pc == value % 0x1_0000 && WellFormed(WithPC(r, value))
    ensures SameExcept(r, WithPC(r, value), {PC})
    ensures WithSP(r, value).sp == value % 0x100 && WellFormed(WithSP(r, value))
    ensures SameExcept(r, WithSP(r, value), {SP})
  {
  }

  /**
   * `incrementSP` and `decrementSP` undo each other in either order, also
   * across the 255/0 boundary.
   */
  lemma StackPointerRoundTrip(r: RegFile)
    ensures SPDecremented(SPIncremented(r)) == r
    ensures SPIncremented(SPDecremented(r)) == r
    ensures r.sp == 0xFF ==> SPIncremented(r).sp == 0
    ensures r.sp == 0 ==> SPDecremented(r).sp == 0xFF
  {
  }

  /** The register file as the emulator holds it: one field per slot, updated in place. */
  class Registers {

    /** V0..VF; VF is the flag register. */
    var v: seq<byte>
    var i: u16
    var pc: u16
    var sp: byte
    /** The delay and sound timers: stored, never decremented. */
    var dt: byte
    var st: byte

    ghost predicate Valid()
      reads this
    {
      |v| == 16
    }

    /** The values of all slots. */
    ghost function State(): (r: RegFile)
      reads this
      requires Valid()
      ensures WellFormed(r)
    {
      RegFile(v, i, pc, sp, dt, st)
    }

    constructor ()
      ensures Valid() && State() == Zero()
    {
      v := seq(16, _ => 0);
      i, pc, sp, dt, st := 0, 0, 0, 0, 0;
    }

    /** `write(regName, value)`. */
    method Write(name: RegName, value: int)
      requires Valid()
      modifies this
      ensures Valid() && State() == AfterWrite(old(State()), name, value)
    {
      match name
      case V(x) => v := v[x := Mask8(value)];
      case I => i := Mask16(value);
      case DT => dt := Mask8(value);
      case ST => st := Mask8(value);
      case PC =>  // rejected: it has a dedicated accessor
      case SP =>  // rejected: it has a dedicated accessor
      case Unknown =>  // rejected: no such register
    }

    /** `read(regName)`; `None` models the `undefined` a rejected name yields. */
    method Read(name: RegName) returns (value: Option<int>)
      requires Valid()
      ensures value == ValueOf(State(), name)
      ensures value.Some? <==> Accessible(name)
    {
      match name
      case V(x) => value := Some(v[x]);
      case I => value := Some(i);
      case DT => value := Some(dt);
      case ST => value := Some(st);
      case PC => value := None;
      case SP => value := None;
      case Unknown => value := None;
    }

    method SetPC(value: int)
      requires Valid()
      modifies this`pc
      ensures Valid() && State() == WithPC(old(State()), value)
    {
      pc := Mask16(value);
    }

    method GetPC() returns (value: u16)
      requires Valid()
      ensures value == State().pc
    {
      value := pc;
    }

    method GetSP() returns (value: byte)
      requires Valid()
      ensures value == State().sp
    {
      value := sp;
    }

    method IncrementSP()
      requires Valid()
      modifies this`sp
      ensures Valid() && State() == SPIncremented(old(State()))
    {
      sp := Mask8(sp + 1);
    }

    method DecrementSP()
      requires Valid()
      modifies this`sp
      ensures Valid() && State() == SPDecremented(old(State()))
    {
      sp := Mask8(sp - 1);
    }

    method SetSP(value: int)
      requires Valid()
      modifies this`sp
      ensures Valid() && State() == WithSP(old(State()), value)
    {
      sp := Mask8(value);
    }
  }
}
