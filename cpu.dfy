/**
 * The CHIP-8 instruction handlers: CLS, RET, JP, CALL, SE, SNE, LD and
 * DRW over the register file, a return-address stack, memory and the
 * screen.
 *
 * Each handler is first given as a transition on a `Machine` value; the
 * `CPU` class performs the same transition in place and is proved to match.
 */
module Cpu {

  import opened Bits
  import opened Options
  import opened Display
  import opened RegisterFile
  import Memory

  /** The second argument of SE, SNE and LD: an immediate or a register name. */
  datatype Operand = Imm(value: int) | Reg(name: RegName)

  /**
   * The state the handlers act on. `stack` maps a stack-pointer value to
   * the return address stored there; it starts empty and has no depth limit.
   */
  datatype Machine = Machine(regs: RegFile, stack: map<byte, u16>, ram: seq<byte>, lit: set<Cell>)

  predicate WellFormedMachine(m: Machine) {
    RegisterFile.WellFormed(m.regs) && Memory.WellFormed(m.ram)
  }

  /** The registers differ at most in `changed`; stack, memory and screen are untouched. */
  ghost predicate OnlyRegsChanged(m: Machine, m': Machine, changed: set<RegName>)
    requires WellFormedMachine(m) && WellFormedMachine(m')
  {
    m'.stack == m.stack && m'.ram == m.ram && m'.lit == m.lit && SameExcept(m.regs, m'.regs, changed)
  }

  /**
   * `stack[SP]`. A slot never written holds `undefined`, which `setPC`
   * masks to 0; this model reads such a slot as 0.
   */
  function StackTop(m: Machine): u16 {
    if m.regs.sp in m.stack then m.stack[m.regs.sp] else 0
  }

  /** What the second argument of SE/SNE/LD contributes: an immediate's low 8 bits, or `read(reg2)`. */
  function OperandValue(r: RegFile, b: Operand): Option<int>
    requires RegisterFile.WellFormed(r)
  {
    match b
    case Imm(value) => Some(Mask8(value))
    case Reg(name) => ValueOf(r, name)
  }

  /**
   * The comparison SE and SNE make, `read(reg) === b`. Two rejected reads
   * are both `undefined` and so compare equal.
   */
  predicate Matches(m: Machine, reg: RegName, b: Operand)
    requires WellFormedMachine(m)
  {
    ValueOf(m.regs, reg) == OperandValue(m.regs, b)
  }

  /** `setPC(getPC() + 2)`. */
  function SkipNext(m: Machine): Machine {
    m.(regs := WithPC(m.regs, m.regs.pc + 2))
  }

  function AfterCLS(m: Machine): Machine {
    m.(lit := {})
  }

  function AfterRET(m: Machine): Machine {
    m.(regs := SPDecremented(WithPC(m.regs, StackTop(m))))
  }

  function AfterJP(m: Machine, addr: int): Machine {
    m.(regs := WithPC(m.regs, Mask12(addr)))
  }

  function AfterCALL(m: Machine, addr: int): Machine {
    var pushed := SPIncremented(m.regs);
    m.(regs := WithPC(pushed, Mask12(addr)), stack := m.stack[pushed.sp := m.regs.pc])
  }

  function AfterSE(m: Machine, reg: RegName, b: Operand): Machine
    requires WellFormedMachine(m)
  {
    if Matches(m, reg, b) then SkipNext(m) else m
  }

  function AfterSNE(m: Machine, reg: RegName, b: Operand): Machine
    requires WellFormedMachine(m)
  {
    if !Matches(m, reg, b) then SkipNext(m) else m
  }

  /**
   * `LD`: write the operand's value; a rejected source read is `undefined`,
   * which the write's mask turns into 0.
   */
  function AfterLD(m: Machine, reg: RegName, b: Operand): Machine
    requires WellFormedMachine(m)
  {
    m.(regs := AfterWrite(m.regs, reg, OperandValue(m.regs, b).GetOr(0)))
  }

  /** The sprite DRW draws: `ram.read(I, n & 0xF)`. */
  function Sprite(m: Machine, n: int): seq<byte> {
    Memory.Read(m.ram, m.regs.i, Mask4(n))
  }

  /**
   * The draw DRW performs. When `rx` or `ry` cannot be read the coordinate
   * is `undefined`: `undefined % 64` is NaN, no `NaN + i < 64` comparison holds,
   * and nothing is drawn.
   */
  function DrawFor(m: Machine, rx: RegName, ry: RegName, n: int): Drawn
    requires WellFormedMachine(m)
  {
    var x, y := ValueOf(m.regs, rx), ValueOf(m.regs, ry);
    if x.Some? && y.Some? then DrawOn(m.lit, Sprite(m, n), x.value, y.value)
    else Drawn(m.lit, false)
  }

  function AfterDRW(m: Machine, rx: RegName, ry: RegName, n: int): Machine
    requires WellFormedMachine(m)
  {
    var d := DrawFor(m, rx, ry, n);
    m.(lit := d.lit, regs := AfterWrite(m.regs, V(15), if d.collision then 1 else 0))
  }

  // ---------------------------------------------------------------------------
  // Properties of the handlers
  // ---------------------------------------------------------------------------

  /** CLS switches every cell off and touches nothing else. */
  lemma ClsClears(m: Machine)
    requires WellFormedMachine(m)
    ensures AfterCLS(m).lit == {}
    ensures AfterCLS(m).regs == m.regs && AfterCLS(m).stack == m.stack && AfterCLS(m).ram == m.ram
  {
  }

  /** JP lands inside the 12-bit address space and changes only PC. */
  lemma JpTarget(m: Machine, addr: int)
    requires WellFormedMachine(m)
    ensures WellFormedMachine(AfterJP(m, addr))
    ensures AfterJP(m, addr).regs.pc == addr % 0x1000 < 0x1000
    ensures OnlyRegsChanged(m, AfterJP(m, addr), {PC})
  {
  }

  /**
   * CALL bumps SP (mod 256), stores the pre-call PC in the new slot and
   * jumps to the 12-bit address; nothing else changes.
   */
  lemma CallPushes(m: Machine, addr: int)
    requires WellFormedMachine(m)
    ensures WellFormedMachine(AfterCALL(m, addr))
    ensures AfterCALL(m, addr).regs.sp == (m.regs.sp + 1) % 0x100
    ensures AfterCALL(m, addr).stack == m.stack[AfterCALL(m, addr).regs.sp := m.regs.pc]
    ensures AfterCALL(m, addr).regs.pc == addr % 0x1000
    ensures AfterCALL(m, addr).ram == m.ram && AfterCALL(m, addr).lit == m.lit
    ensures SameExcept(m.regs, AfterCALL(m, addr).regs, {PC, SP})
  {
  }

  /** CALL 0x300 from PC 0x202 with SP 0 stores 0x202 in slot 1 and jumps to 0x300. */
  lemma CallExample(m: Machine)
    requires WellFormedMachine(m) && m.regs.pc == 0x202 && m.regs.sp == 0
    ensures AfterCALL(m, 0x300).regs.sp == 1
    ensures 1 in AfterCALL(m, 0x300).stack && AfterCALL(m, 0x300).stack[1] == 0x202
    ensures AfterCALL(m, 0x300).regs.pc == 0x300
  {
  }

  /** A RET right after a CALL restores every register, PC and SP included. */
  lemma CallThenRet(m: Machine, addr: int)
    requires WellFormedMachine(m)
    ensures AfterRET(AfterCALL(m, addr)).regs == m.regs
    ensures AfterRET(AfterCALL(m, addr)).ram == m.ram && AfterRET(AfterCALL(m, addr)).lit == m.lit
  {
    var called := AfterCALL(m, addr);
    assert StackTop(called) == m.regs.pc;
  }

  /**
   * For the same operands exactly one of SE and SNE moves PC on by 2
   * (mod 2^16); the other changes nothing, and no other register moves.
   * SE is the one that skips iff the compared values are equal.
   */
  lemma SeSneComplement(m: Machine, reg: RegName, b: Operand)
    requires WellFormedMachine(m)
    ensures SkipNext(m) != m
    ensures SkipNext(m).regs.pc == (m.regs.pc + 2) % 0x1_0000
    ensures (AfterSE(m, reg, b) == SkipNext(m)) <==> Matches(m, reg, b)
    ensures (AfterSNE(m, reg, b) == SkipNext(m)) <==> !Matches(m, reg, b)
    ensures (AfterSE(m, reg, b) == m) <==> (AfterSNE(m, reg, b) == SkipNext(m))
    ensures WellFormedMachine(AfterSE(m, reg, b)) && OnlyRegsChanged(m, AfterSE(m, reg, b), {PC})
    ensures WellFormedMachine(AfterSNE(m, reg, b)) && OnlyRegsChanged(m, AfterSNE(m, reg, b), {PC})
  {
    assert SkipNext(m).regs.pc != m.regs.pc;
  }

  /**
   * The comparisons through `read`: an immediate never matches a rejected
   * register (undefined is not a number), while two rejected registers
   * always match (undefined === undefined).
   */
  lemma RejectedComparisons(m: Machine, reg: RegName, other: RegName, value: int)
    requires WellFormedMachine(m)
    requires !Accessible(reg)
    ensures !Matches(m, reg, Imm(value))
    ensures Matches(m, reg, Reg(other)) <==> !Accessible(other)
  {
    RejectedAccess(m.regs, reg, 0);
    RejectedAccess(m.regs, other, 0);
  }

  /** `LD(reg, imm)` stores the immediate's low 8 bits in `reg` and changes no other slot. */
  lemma LdImmediate(m: Machine, reg: RegName, value: int)
    requires WellFormedMachine(m)
    requires Accessible(reg)
    ensures WellFormedMachine(AfterLD(m, reg, Imm(value)))
    ensures ValueOf(AfterLD(m, reg, Imm(value)).regs, reg) == Some(value % 0x100)
    ensures OnlyRegsChanged(m, AfterLD(m, reg, Imm(value)), {reg})
  {
    WriteChangesOnlyTarget(m.regs, reg, Mask8(value));
  }

  /**
   * `LD(reg, src)` stores `read(src)` in `reg`, masked to `reg`'s width
   * (and 0 when `src` cannot be read); between two accepted registers of
   * the same width it is an exact copy. No other slot changes.
   */
  lemma LdRegister(m: Machine, reg: RegName, src: RegName)
    requires WellFormedMachine(m)
    requires Accessible(reg)
    ensures WellFormedMachine(AfterLD(m, reg, Reg(src)))
    ensures ValueOf(AfterLD(m, reg, Reg(src)).regs, reg) == Some(Masked(reg, ValueOf(m.regs, src).GetOr(0)))
    ensures Accessible(src) && (reg == I <==> src == I) ==>
      ValueOf(AfterLD(m, reg, Reg(src)).regs, reg) == ValueOf(m.regs, src)
    ensures !Accessible(src) ==> ValueOf(AfterLD(m, reg, Reg(src)).regs, reg) == Some(0)
    ensures OnlyRegsChanged(m, AfterLD(m, reg, Reg(src)), {reg})
  {
    WriteChangesOnlyTarget(m.regs, reg, ValueOf(m.regs, src).GetOr(0));
    if Accessible(src) {
      ReadIsMasked(m.regs, src);
    }
  }

  /** `LD` into PC, SP or an unknown name is rejected by `write`: nothing changes. */
  lemma LdRejectedTarget(m: Machine, reg: RegName, b: Operand)
    requires WellFormedMachine(m)
    requires !Accessible(reg)
    ensures AfterLD(m, reg, b) == m
  {
  }

  /**
   * DRW draws `ram.read(I, n & 0xF)` at `(read(rx), read(ry))` and sets VF
   * to 1 on a collision and to 0 otherwise; memory, the stack and every
   * register other than VF are left alone.
   */
  lemma DrwSetsFlag(m: Machine, rx: RegName, ry: RegName, n: int)
    requires WellFormedMachine(m)
    ensures WellFormedMachine(AfterDRW(m, rx, ry, n))
    ensures |Sprite(m, n)| ==
      if m.regs.i >= 0x1000 then 0 else if n % 0x10 <= 0x1000 - m.regs.i then n % 0x10 else 0x1000 - m.regs.i
    ensures AfterDRW(m, rx, ry, n).regs.v[15] in {0, 1}
    ensures AfterDRW(m, rx, ry, n).regs.v[15] == 1 <==> DrawFor(m, rx, ry, n).collision
    ensures Accessible(rx) && Accessible(ry) ==>
      AfterDRW(m, rx, ry, n).lit ==
        DrawOn(m.lit, Sprite(m, n), ValueOf(m.regs, rx).value, ValueOf(m.regs, ry).value).lit
    ensures !(Accessible(rx) && Accessible(ry)) ==>
      AfterDRW(m, rx, ry, n).lit == m.lit && AfterDRW(m, rx, ry, n).regs.v[15] == 0
    ensures m.lit <= AfterDRW(m, rx, ry, n).lit
    ensures AfterDRW(m, rx, ry, n).ram == m.ram && AfterDRW(m, rx, ry, n).stack == m.stack
    ensures SameExcept(m.regs, AfterDRW(m, rx, ry, n).regs, {V(15)})
  {
    WriteChangesOnlyTarget(m.regs, V(15), if DrawFor(m, rx, ry, n).collision then 1 else 0);
  }

  // ---------------------------------------------------------------------------
  // The CPU object
  // ---------------------------------------------------------------------------

  class CPU {

    var screen: Screen
    /** The memory bank (`ram.content`). */
    var ram: seq<byte>
    var registers: Registers
    /** The return-address stack, indexed by SP. */
    var stack: map<byte, u16>

    ghost predicate Valid()
      reads this, registers, screen
    {
      registers.Valid() && screen.Valid() && Memory.WellFormed(ram)
    }

    ghost function State(): (m: Machine)
      reads this, registers, screen, screen.cells
      requires Valid()
      ensures WellFormedMachine(m)
    {
      Machine(registers.State(), stack, ram, screen.Lit())
    }

    /** A fresh machine: zeroed registers and memory, an empty stack, a blank screen. */
    constructor ()
      ensures Valid() && fresh(registers) && fresh(screen) && fresh(screen.cells)
      ensures State() == Machine(Zero(), map[], Memory.Blank(), {})
    {
      screen := new Screen();
      ram := Memory.Blank();
      registers := new Registers();
      stack := map[];
    }

    method CLS()
      requires Valid()
      modifies screen.cells
      ensures Valid() && State() == AfterCLS(old(State()))
    {
      screen.Clear();
    }

    method RET()
      requires Valid()
      modifies registers
      ensures Valid() && State() == AfterRET(old(State()))
    {
      var sp := registers.GetSP();
      registers.SetPC(if sp in stack then stack[sp] else 0);
      registers.DecrementSP();
    }

    method JP(addr: int)
      requires Valid()
      modifies registers
      ensures Valid() && State() == AfterJP(old(State()), addr)
    {
      registers.SetPC(Mask12(addr));
    }

    method CALL(addr: int)
      requires Valid()
      modifies this`stack, registers
      ensures Valid() && State() == AfterCALL(old(State()), addr)
    {
      registers.IncrementSP();
      var sp := registers.GetSP();
      var pc := registers.GetPC();
      stack := stack[sp := pc];
      registers.SetPC(Mask12(addr));
    }

    method SE(reg: RegName, b: Operand)
      requires Valid()
      modifies registers
      ensures Valid() && State() == AfterSE(old(State()), reg, b)
    {
      var a := registers.Read(reg);
      var c: Option<int>;
      match b {
        case Reg(reg2) => c := registers.Read(reg2);
        case Imm(value) => c := Some(Mask8(value));
      }
      if a == c {
        var pc: int := registers.GetPC();
        registers.SetPC(pc + 2);
      }
    }

    method SNE(reg: RegName, b: Operand)
      requires Valid()
      modifies registers
      ensures Valid() && State() == AfterSNE(old(State()), reg, b)
    {
      var a := registers.Read(reg);
      var c: Option<int>;
      match b {
        case Reg(reg2) => c := registers.Read(reg2);
        case Imm(value) => c := Some(Mask8(value));
      }
      if a != c {
        var pc: int := registers.GetPC();
        registers.SetPC(pc + 2);
      }
    }

    method LD(reg: RegName, b: Operand)
      requires Valid()
      modifies registers
      ensures Valid() && State() == AfterLD(old(State()), reg, b)
    {
      match b
      case Reg(reg2) =>
        var value := registers.Read(reg2);
        // a rejected read is `undefined`, and `undefined & mask` is 0
        registers.Write(reg, value.GetOr(0));
      case Imm(value) =>
        registers.Write(reg, Mask8(value));
    }

    method DRW(regX: RegName, regY: RegName, nibble: int)
      requires Valid()
      modifies registers, screen.cells
      ensures Valid() && State() == AfterDRW(old(State()), regX, regY, nibble)
    {
      var index := registers.Read(I);
      var sprite := Memory.Read(ram, index.value, Mask4(nibble));
      var x := registers.Read(regX);
      var y := registers.Read(regY);
      var collision := false;
      if x.Some? && y.Some? {
        collision := screen.Draw(sprite, x.value, y.value);
      }
      registers.Write(V(15), if collision then 1 else 0);
    }
  }
}
