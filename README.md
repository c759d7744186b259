# CHIP-8 register file, instruction handlers, display and memory

A Dafny model of the core of a small TypeScript CHIP-8 emulator:

- the register file (`Registers` in `src/cpu.ts`): sixteen 8-bit registers
  V0..VF, the 16-bit index register I, the program counter PC (16 bits), the
  stack pointer SP (8 bits) and the timer slots DT and ST. A generic
  name-based `write`/`read` path rejects PC, SP and unknown names. PC and SP
  have their own accessors. Every write is masked.
- the instruction handlers of `CPU` (`src/cpu.ts`): CLS, RET, JP, CALL,
  SE/SNE/LD (each with an immediate or a register as second operand) and DRW.
  They act on the register file, a return-address stack, memory and the
  screen.
- the sprite-drawing display (`src/chip8screen.ts`): a 64x32 monochrome grid.
  `draw` reduces the origin modulo 64x32, paints the on-pixels of each sprite
  row, clips at the right and bottom edges instead of wrapping, never turns a
  cell off, and reports a collision when it paints a cell that was already
  lit.
- memory (`src/ram.ts`): 4096 cells read with `slice` semantics.

## Structure

| file | module | what it holds |
|---|---|---|
| `bits.dfy` | `Bits` | byte/12-bit/16-bit types, the masks `& 0xF`, `& 0xFF`, `& 0xFFF`, `& 0xFFFF`, and JavaScript's truncating `%` |
| `options.dfy` | `Options` | `Option`, the value a rejected register read gives back (`undefined`) |
| `memory.dfy` | `Memory` | the 4096-cell bank and `Read`, i.e. `content.slice(index, index + n)` |
| `display.dfy` | `Display` | `BinaryDigits` (`toString(2)`), the drawing specification `DrawOn` over a set of lit cells, its lemmas, and class `Screen` over an `array2<bool>` |
| `registers.dfy` | `RegisterFile` | `RegName`, the value-level register file `RegFile` with `ValueOf`/`AfterWrite` and the PC/SP updates, its lemmas, and class `Registers` |
| `cpu.dfy` | `Cpu` | `Operand`, the value-level `Machine` with one transition function per handler (`AfterCLS` … `AfterDRW`), their lemmas, and class `CPU` |

Each class is the emulator's object with its fields updated in place. Its
methods are proved to perform the transition that the value-level function
of the same module describes (`State() == AfterCALL(old(State()), addr)`).
The lemmas then state what the source promises about those functions.

Modelling decisions:

- JavaScript numbers become Dafny integers. On an integer, `v & (2^k - 1)` is
  the Euclidean remainder `v % 2^k`, because the 32-bit wrap that `&` applies
  first is a multiple of 2^k. The masks are written that way.
- Register names form a closed enumeration `V(0)..V(15) | I | PC | SP | DT | ST | Unknown`.
  `Unknown` stands for a name with no slot in the object
  (`this[name] === undefined`). A method name such as `write` behaves like
  `Unknown` only for `write`. Its `read` returns the method object, and that
  path is left out (see below).
- A rejected `read` returns `None` (`undefined`). SE and SNE compare `Option`
  values, so, as with `===`, two rejected reads are equal and a rejected read
  never equals an immediate. `LD(reg, src)` with a rejected `src` writes
  `undefined & mask`, which is 0.
- In DRW, if `regX` or `regY` cannot be read, the coordinate is `undefined`.
  `undefined % 64` is NaN and no `NaN + i < 64` comparison holds, so nothing is
  drawn and VF becomes 0.
- The stack is never initialised in the source, so there CALL and RET would
  throw. Here it is a map from SP values to return addresses. It starts
  empty and has no depth limit. RET on a slot never written reads 0, which is
  what `setPC(undefined)` stores (`undefined & 0xFFFF` is 0).
- Memory cells are bytes and start at 0. The source leaves them unset, and
  drawing an unset cell would throw.
- The canvas is abstracted as a grid of lit cells. `isEmpty(x, y, 1, 1)` is
  "the cell is off" and `fillRect(x, y, 1, 1)` is "switch the cell on". An
  off-canvas cell is never lit and painting it has no effect. That matters
  only for negative coordinates, which JavaScript's truncating `%` can
  produce from a negative origin.
- The bits of a sprite row come from `row.toString(2)`, which is not padded
  with zeros. Column `i` is painted iff character `i` of that string is '1'.
  So `0x0F` ("1111") lights columns 0 to 3, exactly like `0xF0`
  (`Display.UnpaddedRows`). Reading the row bit by bit, most significant
  first, would instead put `0x0F` in columns 4 to 7
  (`src/chip8screen.ts:32`).
- The modelled files contain no fetch/decode/`step` routine, no ROM loader
  and no memory `write`, so none is modelled.
- `RegisterFile.SameEverywhere` is a helper. It shows that `SameExcept(a, b, {})`
  covers every slot, so the "only these registers change" clauses leave
  nothing unstated.

## Model

| member | source | states |
|---|---|---|
| `Bits.JsRemTruncates` | src/chip8screen.ts:28-29 | `x % 64` (`Bits.JsRem`) is JavaScript's remainder: `a == m * q + r` with the quotient `q` truncated toward zero, `-m < r < m`, and `r` takes the sign of `a` (the Euclidean remainder for a non-negative `a`) |
| `Memory.Blank` | src/ram.ts:2 | a fresh bank has exactly 4096 cells, all zero |
| `Memory.Read` | src/ram.ts:4-6 | for `index >= 0` and `n >= 0` the result has length `min(n, max(0, 4096 - index))` and element k is `content[index + k]`; with `index` at or past the end, or `n == 0`, it is empty; a function of `content`, so nothing changes |
| `Display.BinaryDigits` | src/chip8screen.ts:32 | `toString(2)`: at least one character, all '0' or '1', "0" exactly for zero, and a leading '1' for every positive number (no padding) |
| `Display.BinaryDigitsRoundTrip` | src/chip8screen.ts:32 | reading the digits back as a binary number gives the row value again |
| `Display.BinaryDigitsLength` | src/chip8screen.ts:32 | a positive n has exactly its bit length L of digits: 2^(L-1) <= n < 2^L |
| `Display.ByteDigits` | src/chip8screen.ts:32-33 | a byte has at most 8 digits, and exactly 8 iff its top bit is set, so only such rows are laid out bit for bit |
| `Display.UnpaddedRows` | src/chip8screen.ts:32-35 | `0x0F` lights columns 0..3 and no others, the same columns as `0xF0` |
| `Display.GlyphSideRow` | src/chip8screen.ts:32-35 | `0x90` lights columns 0 and 3 only |
| `Display.FootprintMembership` | src/chip8screen.ts:28-38 | helper that unfolds the definition of `Footprint`, against which `Screen.Draw` is proved: a cell is painted iff it is on the grid, lies in row `cy - y%32` of the sprite and column `cx - x%64 < 8`, and that character of the row's binary string is '1' |
| `Display.DrawNeverErases` | src/chip8screen.ts:34-43 | the lit cells after a draw are a superset of those before |
| `Display.DrawPaintsExactly` | src/chip8screen.ts:30-43 | a grid cell is lit after the draw iff it was lit before or the sprite's pixel for it is on, in both directions |
| `Display.DrawConfined` | src/chip8screen.ts:28-38 | a newly lit cell lies on the grid and inside `[x%64, x%64+8) x [y%32, y%32+len)`: clipped, never wrapped |
| `Display.DrawCollision` | src/chip8screen.ts:27 | the result is true iff some cell the sprite paints was already lit, in both directions |
| `Display.DrawOnCleared` | src/chip8screen.ts:30-44 | on a cleared grid the draw reports no collision and lights exactly its footprint |
| `Display.DrawIdempotent` | src/chip8screen.ts:34-43 | drawing the same sprite at the same origin again leaves the grid unchanged, and the second draw collides iff the sprite paints any cell |
| `Display.ZeroGlyphDraw` | src/chip8screen.ts:26-47 | the "0" glyph F0 90 90 90 F0 drawn at (0,0) on a cleared grid lights exactly a 4x5 outline without collision; drawing it again collides |
| `Display.Screen.constructor` | src/chip8screen.ts:2-11 | a new 64x32 screen has no lit cell |
| `Display.Screen.Clear` | src/chip8screen.ts:49-51 | afterwards no cell of the 64x32 grid is lit |
| `Display.Screen.IsEmpty` | src/chip8screen.ts:16-24 | true iff the single cell is not lit; cells off the canvas are always empty; changes nothing |
| `Display.Screen.Draw` | src/chip8screen.ts:26-47 | the nested row/column loop leaves exactly the lit cells `DrawOn(old, sprite, x, y)` describes and returns its collision flag (the loop invariants show that checking against the partly drawn grid equals checking against the grid before) |
| `RegisterFile.ReadAfterWrite` | src/cpu.ts:52-60 | for an accepted name, reading after `write(name, v)` gives `v & 0xFFFF` for I and `v & 0xFF` for V0..VF, DT and ST |
| `RegisterFile.WriteChangesOnlyTarget` | src/cpu.ts:36-61 | a write leaves every other slot, PC and SP included, unchanged |
| `RegisterFile.RejectedAccess` | src/cpu.ts:37-50 | `read` returns nothing exactly for PC, SP and unknown names (cpu.ts:64-73), and `write` to them changes nothing |
| `RegisterFile.ReadIsMasked` | src/cpu.ts:79 | a value that `read` returns is already within the register's width |
| `RegisterFile.DedicatedSetters` | src/cpu.ts:82-106 | `setPC` stores `v & 0xFFFF`, `setSP` stores `v & 0xFF`, and each changes only its own slot |
| `RegisterFile.StackPointerRoundTrip` | src/cpu.ts:94-102 | `incrementSP` then `decrementSP`, and the reverse, restore SP, including 255 -> 0 and 0 -> 255 |
| `RegisterFile.Registers.constructor` | src/cpu.ts:11-34 | every slot starts at zero |
| `RegisterFile.Registers.Write` | src/cpu.ts:36-61 | the new register file is `AfterWrite(old, name, value)` |
| `RegisterFile.Registers.Read` | src/cpu.ts:63-80 | returns `ValueOf(state, name)`, a value iff the name is accepted; changes nothing |
| `RegisterFile.Registers.SetPC` | src/cpu.ts:82-84 | only PC changes, to `value & 0xFFFF` |
| `RegisterFile.Registers.GetPC` | src/cpu.ts:86-88 | returns PC |
| `RegisterFile.Registers.GetSP` | src/cpu.ts:90-92 | returns SP |
| `RegisterFile.Registers.IncrementSP` | src/cpu.ts:94-97 | only SP changes, to `(SP + 1) & 0xFF` |
| `RegisterFile.Registers.DecrementSP` | src/cpu.ts:99-102 | only SP changes, to `(SP - 1) & 0xFF` |
| `RegisterFile.Registers.SetSP` | src/cpu.ts:104-106 | only SP changes, to `value & 0xFF` |
| `Cpu.ClsClears` | src/cpu.ts:123-125 | CLS leaves no cell lit and registers, stack and memory unchanged |
| `Cpu.JpTarget` | src/cpu.ts:132-134 | after JP, PC is `addr & 0xFFF` (< 0x1000) and nothing else changes |
| `Cpu.CallPushes` | src/cpu.ts:136-140 | CALL increments SP mod 256, stores the pre-call PC at `stack[new SP]`, sets PC to `addr & 0xFFF`; memory, screen and the other registers are unchanged |
| `Cpu.CallExample` | src/cpu.ts:136-140 | CALL 0x300 from PC 0x202, SP 0 gives SP 1, stack slot 1 = 0x202, PC 0x300 |
| `Cpu.CallThenRet` | src/cpu.ts:127-140 | a RET right after a CALL restores the whole register file, original PC and SP included |
| `Cpu.SeSneComplement` | src/cpu.ts:142-182 | for the same operands exactly one of SE and SNE advances PC by 2 mod 2^16, the other changes nothing; SE is the one that advances iff the compared values are equal; neither touches any other register, the stack, memory or the screen |
| `Cpu.RejectedComparisons` | src/cpu.ts:147-155 | a rejected register never equals an immediate, and equals another register iff that one is rejected too (`undefined === undefined`) |
| `Cpu.LdImmediate` | src/cpu.ts:192-195 | `LD(reg, imm)` makes `read(reg)` return `imm & 0xFF`; only `reg` changes |
| `Cpu.LdRejectedTarget` | src/cpu.ts:41-45 | `LD` into PC, SP or an unknown name changes nothing, because `write` rejects it |
| `Cpu.LdRegister` | src/cpu.ts:188-191 | `LD(reg, src)` stores `read(src)` masked to `reg`'s width, or 0 when `src` is rejected; an exact copy between accepted registers of the same width; only `reg` changes |
| `Cpu.DrwSetsFlag` | src/cpu.ts:200-207 | DRW draws `ram.read(I, n & 0xF)` (length `min(n & 0xF, 4096 - I)`, 0 past the end) at `(read(rx), read(ry))`; VF ends in {0, 1} and is 1 iff that draw collided; with an unreadable coordinate register nothing is drawn and VF is 0; lit cells only grow; memory, stack and all registers other than VF are unchanged |
| `Cpu.CPU.constructor` | src/cpu.ts:110-117 | a new machine has zeroed registers and memory, an empty stack and a blank screen |
| `Cpu.CPU.CLS` | src/cpu.ts:123-125 | the new machine state is `AfterCLS(old)` |
| `Cpu.CPU.RET` | src/cpu.ts:127-130 | the new state is `AfterRET(old)`: PC from the current stack slot (0 if unset), then SP decremented |
| `Cpu.CPU.JP` | src/cpu.ts:132-134 | the new state is `AfterJP(old, addr)` |
| `Cpu.CPU.CALL` | src/cpu.ts:136-140 | the new state is `AfterCALL(old, addr)` |
| `Cpu.CPU.SE` | src/cpu.ts:142-161 | the new state is `AfterSE(old, reg, b)` |
| `Cpu.CPU.SNE` | src/cpu.ts:163-182 | the new state is `AfterSNE(old, reg, b)` |
| `Cpu.CPU.LD` | src/cpu.ts:184-198 | the new state is `AfterLD(old, reg, b)` |
| `Cpu.CPU.DRW` | src/cpu.ts:200-207 | the new state is `AfterDRW(old, regX, regY, nibble)` |

## Left out

- Canvas and 2D-context calls (`getContext`, `fillStyle`, `getImageData`, the `Uint32Array` scan, `fillRect`, `clearRect`): browser APIs, replaced by the boolean grid. `isEmpty` is modelled only for the 1x1 regions the source queries.
- `src/index.ts`: host glue that pokes bytes into memory on page load. It holds no logic.
- `console.error` / `console.warn` diagnostics and `CPU.NotImplemented`: output only. A rejected register access is a no-op or a `None`.
- Runtime name lookup (`this[regName]`, the `typeof` checks): replaced by the closed `RegName` enumeration. In the source, `read` of a slot that is not a number (a method name such as `write`) logs and still returns that slot, the method object. The enumeration has no such name, so that path is not modelled. For example, `SE('write', 'read')` compares two different method objects and does not skip in the source. No operand of this model reaches that case.
- Numbers that are not integers (fractions, NaN, Infinity) passed to the handlers or to `draw`: all arguments are integers here.
- `Display.Screen.Draw`: sprite rows are non-negative integers. `toString(2)` of a negative row, which starts with '-', is not modelled. DRW only draws memory bytes, so this does not restrict DRW.
- The delay and sound timers are slots only. The source never decrements them.
- The uninitialised stack and unset memory cells: replaced by an empty map and zero bytes, as described above.
- Fetch/decode/`step`, ROM loading, dispatch of opcodes 6..F and memory writes with bounds checks: the modelled files contain none of them.
