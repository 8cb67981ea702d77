# A verified model of the chip-8-rs interpreter core

This project models the `Chip` interpreter in `chip/src/lib.rs` of
chip-8-rs, a CHIP-8 emulator written in Rust. It covers:

- the machine state: 4 KiB of memory, sixteen 8-bit registers V0..VF, the
  16-bit index register, pc, a 16-entry return stack, the delay and sound
  timers, the 16-key keypad and the 64 x 32 monochrome framebuffer;
- the operations a host drives it with: `new`, `reset`, `load_rom`,
  `set_keypad`, `tone` and `tick`;
- the fetch/decode/execute cycle behind `tick`, with every instruction
  handler and the built-in hexadecimal font.

Every operation is a pure function of the machine before the call and its
other arguments. The operations that cannot fail return their result directly: `new` and `reset`
return a machine, `set_keypad` a machine, `tone` a boolean, fetching an
instruction word a number, and the handlers that cannot fail (`load_reg`,
`skip_if_eq`/`skip_if_ne`, the timer count-down, and `wait_for_key`, whose
key test returns a boolean) a machine or a value. `disp_clr` and `load_i` are
written inline in `execute`, as an update to the screen (with the blank
screen `Sprite.Blank`) and to the index register. The operations that can
fail (`load_rom`, `tick`, `execute`, and the handlers `ret`, `jump`, `call`,
`draw_sprite`, `store_reg_bcd`, `store_regs` and `load_regs`) return an
`Outcome`:

- `Ok(chip)` is the machine afterwards.
- `Err(exn, chip)` is one of the source's `Exception` values. It carries the
  machine as the caller sees it after the error. This matters because the
  source mutates in place: after a refused Fx55, the registers that fit have
  already been stored.
- `Panicked(cause)` is a place where the Rust code does not return an error
  but panics. Integer overflow is treated as in a debug build.

Files:

- `bits.dfy`: 8-bit values, bits, and bitwise OR/AND/XOR, each proved to act
  bit by bit.
- `font.dfy`: the font table and the glyph of each hexadecimal digit.
- `machine.dfy`: the state and the host-facing operations.
- `opcode.dfy`: splitting an instruction word into fields, proved to be a
  bijection with the nibbles.
- `sprite.dfy`: drawing. It follows the source's two loops pixel by pixel,
  and is proved equal to an independent closed-form description: every
  framebuffer index is mapped back to the one sprite pixel that can land on
  it.
- `cpu.dfy`: `tick`, `execute` and the handlers.
- `instructions.dfy`: per-instruction laws over all machines and operands,
  and laws combining instructions: call then return, store then load,
  drawing twice, sixteen nested calls.
- `scenarios.dfy`: the repository's unit tests and a few concrete examples,
  as lemmas.

## Model

| member | source | states |
|---|---|---|
| Bits.Or | chip/src/lib.rs:233 | every bit of the result is the OR of the operands' bits at that position |
| Bits.And | chip/src/lib.rs:234 | every bit of the result is the AND of the operands' bits |
| Bits.Xor | chip/src/lib.rs:235 | every bit of the result is the XOR of the operands' bits |
| Bits.HighBit | chip/src/lib.rs:256 | the `vx & 0x80` test of 8xyE is the same as `vx >= 0x80` |
| Machine.New | chip/src/lib.rs:112-128 | the font occupies the first 80 bytes; the rest of memory, registers, stack, timers, keypad and screen are zero; pc is 512 |
| Machine.Reset | chip/src/lib.rs:182-194 | every field returns to its initial value, and all of memory is zero, the font included |
| Machine.ResetForgets | chip/src/lib.rs:182-194 | the machine after reset does not depend on the machine before |
| Machine.ResetVersusNew | chip/src/lib.rs:182-194 | after reset the machine equals a new one except for the font area, which reset leaves zero (address 0 holds 0 instead of 0xF0) |
| Machine.SetKeypad | chip/src/lib.rs:150-160 | keys 0..15 take the new state, other keys are unchanged, key numbers above 15 change nothing, and no other field changes |
| Machine.LoadRom | chip/src/lib.rs:163-169 | the load succeeds exactly when offset + length <= 4096, and then the slice holds the program and nothing else changes; otherwise it fails with OutOfMemory(length mod 65536), the length cast to 16 bits, with the machine untouched; an offset above 4096 panics |
| Instructions.ToneAfterTick | chip/src/lib.rs:177-179 | after a tick the tone is on exactly when the sound timer was above 1 before it; after Fx18 it is on exactly when the loaded Vx is nonzero |
| Opcode.Decode | chip/src/lib.rs:204-209 | the four nibbles reassemble to the word; nn and nnn are its low 8 and 12 bits |
| Opcode.DecodeEncode | chip/src/lib.rs:204-209 | decoding a word built from four nibbles gives back those nibbles |
| Opcode.EncodeDecode | chip/src/lib.rs:204-209 | every word is rebuilt from its decoded nibbles |
| Opcode.DecodeAddress | chip/src/lib.rs:209 | a word built from a family and a 12-bit address decodes to that family and address |
| Sprite.PixelIndex | chip/src/lib.rs:382 | a sprite pixel's framebuffer index wraps around both screen edges and stays on the screen |
| Sprite.PixelInverse | chip/src/lib.rs:382 | the sprite row and column of a landed pixel can be recovered from its index |
| Sprite.PixelOnto | chip/src/lib.rs:382 | every framebuffer index is where the recovered sprite pixel lands |
| Font.Glyph | chip/src/lib.rs:24-41 | each digit's glyph is five rows, and every row lights some of the left four pixels and none of the right four |
| Sprite.Blank | chip/src/lib.rs:311-313 | every pixel of the 64 x 32 screen is off |
| Sprite.DrawRow | chip/src/lib.rs:379-388 | the inner loop over one sprite row keeps the framebuffer at 64 x 32 pixels |
| Sprite.DrawRows | chip/src/lib.rs:377-389 | the outer loop over the sprite rows keeps the framebuffer at 64 x 32 pixels |
| Sprite.DrawRowSpec | chip/src/lib.rs:379-388 | the inner loop toggles exactly the lit pixels of one sprite row, and accumulates whether one of them was on |
| Sprite.DrawRowsSpec | chip/src/lib.rs:377-389 | the outer loop toggles exactly the pixels the remaining rows cover, and accumulates whether one of them was on |
| Sprite.Draw | chip/src/lib.rs:372-391 | each pixel becomes its old value XOR whether the sprite covers it; the collision flag holds exactly when a covered pixel was on |
| Sprite.DrawTwice | chip/src/lib.rs:372-391 | drawing the same sprite twice at the same place restores the framebuffer; the second collision flag holds exactly when a covered pixel was originally off |
| Cpu.Fetch | chip/src/lib.rs:197-200 | the instruction word is big-endian: its high byte is mem[pc] and its low byte mem[pc+1] |
| Cpu.Tick | chip/src/lib.rs:131-147 | a tick keeps the machine well-formed and never touches the keypad |
| Cpu.Execute | chip/src/lib.rs:203-309 | execution keeps the machine well-formed, never touches the keypad, and changes the timers only through Fx15/Fx18, which load Vx |
| Cpu.Ret | chip/src/lib.rs:315-324 | fails with StackUnderflow(0) exactly on an empty stack, otherwise pops the top return address into pc |
| Cpu.Jump | chip/src/lib.rs:326-333 | succeeds exactly for addresses up to 0xFFF, setting pc; otherwise fails with IllegalAddress(addr) |
| Cpu.CountDown | chip/src/lib.rs:132-137 | a nonzero timer goes down by one and a zero timer stays at zero |
| Cpu.Call | chip/src/lib.rs:335-350 | a full stack gives StackOverflow(sp); otherwise pc is pushed first, then the jump is made when the address fits in 12 bits, and an address past 0xFFF fails with IllegalAddress(addr) after the push |
| Cpu.SkipIf | chip/src/lib.rs:352-362 | pc advances by 2 exactly when the condition holds, and nothing else changes |
| Cpu.SetReg | chip/src/lib.rs:364-366 | register x takes the value, every other register keeps its value, and no other field changes |
| Cpu.Arith | chip/src/lib.rs:231-260 | the register-to-register family never aborts and changes nothing but the registers |
| Cpu.DrawSprite | chip/src/lib.rs:372-391 | succeeds exactly when the sprite's rows lie inside memory; then each pixel becomes its old value XOR whether the sprite covers it, VF is 1 exactly when a covered pixel was on and 0 otherwise, and no other register changes |
| Cpu.FirstPressedFrom | chip/src/lib.rs:272 | finds the lowest-numbered pressed key, or reports that none is pressed |
| Cpu.KeyDown | chip/src/lib.rs:393-404 | the test of Fx0A holds exactly when some key numbered Vx exists and is pressed |
| Cpu.KeyOp | chip/src/lib.rs:269-289 | the key-skip instructions change at most pc |
| Cpu.Misc | chip/src/lib.rs:290-305 | the F family keeps the machine well-formed, leaves the keypad alone, and changes the timers exactly as Fx15/Fx18 demand |
| Cpu.StoreBcd | chip/src/lib.rs:406-415 | writes three decimal digits (hundreds at most 2) that recombine to Vx, and changes no other byte; succeeds exactly when the three bytes fit in memory, and aborts otherwise |
| Cpu.StoreRegs | chip/src/lib.rs:417-429 | V0..V(x-1) land at i..; it succeeds exactly when the block fits; otherwise it fails with the first address past memory, after storing the registers that fit |
| Cpu.LoadRegs | chip/src/lib.rs:431-443 | memory at i.. is loaded into V0..V(x-1); it succeeds and fails exactly as the store does, after loading the registers that fit |
| Instructions.TickCycle | chip/src/lib.rs:131-147 | timers count down first; a pc at or past 4096 gives OutOfMemory(pc) with the timers already decremented; pc = 4095 aborts; otherwise the big-endian word runs with pc already advanced by 2 |
| Instructions.TimersCountDown | chip/src/lib.rs:132-137 | after a tick, a timer is one lower, or stays at zero, unless the instruction loaded it |
| Instructions.IllegalOpcodeExactly | chip/src/lib.rs:216-307 | IllegalOpcode, with the machine untouched, occurs exactly for the unassigned encodings in families 0, 8, E and F |
| Instructions.AbortsExactly | chip/src/lib.rs:264-300 | execution aborts exactly in four cases: Cxnn with nn = 0; a sprite read past memory; Fx1E overflowing 16 bits; a BCD slice past memory |
| Instructions.LoadInstructions | chip/src/lib.rs:229-232 | 6xnn loads nn into Vx; 8xy0 copies Vy into Vx |
| Instructions.AddWithCarry | chip/src/lib.rs:236-240 | 8xy4: VF is the carry, written after Vx; for x != F, Vx + 256 * VF is the true sum; other registers are kept |
| Instructions.SubtractWithBorrow | chip/src/lib.rs:241-245 | 8xy5: VF is 1 exactly when Vx >= Vy, written last; for x != F, Vx - 256 * (1 - VF) is the true difference |
| Instructions.ReverseSubtract | chip/src/lib.rs:250-254 | 8xy7: the same with Vy - Vx |
| Instructions.ShiftRight | chip/src/lib.rs:246-249 | 8xy6: VF gets bit 0 and is written first, then Vx is halved; for x != F, 2 * Vx + VF is the old Vx |
| Instructions.ShiftLeft | chip/src/lib.rs:255-258 | 8xyE: VF gets bit 7 and is written first, then Vx is doubled mod 256; for x != F, Vx + 256 * VF is twice the old Vx |
| Instructions.BitwiseLogic | chip/src/lib.rs:233-235 | 8xy1/8xy2/8xy3 succeed, change nothing but Vx, and set each of its bits to the OR/AND/XOR of the operand bits |
| Instructions.AddImmediate | chip/src/lib.rs:230 | 7xnn adds nn to Vx modulo 256 and sets no flag |
| Instructions.NoOperation | chip/src/lib.rs:217-219 | 0X00, for any x nibble, changes nothing |
| Instructions.ReturnInstruction | chip/src/lib.rs:217-221 | 0XEE, for any x nibble, underflows on an empty stack and otherwise pops pc |
| Instructions.CallInstruction | chip/src/lib.rs:225 | 2nnn overflows with StackOverflow(sp) on a full stack; otherwise it pushes pc and jumps to nnn |
| Instructions.CallThenReturn | chip/src/lib.rs:315-350 | a call, then (on a balanced stack) a return, restores the stack depth and resumes after the call instruction |
| Instructions.CallsNest | chip/src/lib.rs:335-350 | nested calls succeed while the stack has room, each one level deeper |
| Instructions.StackDepthLimit | chip/src/lib.rs:336-338 | from an empty stack sixteen nested calls succeed and the seventeenth fails with StackOverflow(16) |
| Instructions.JumpInstructions | chip/src/lib.rs:224-263 | 1nnn jumps to nnn; Bnnn jumps to V0 + nnn, and fails with IllegalAddress when that passes 0xFFF |
| Instructions.SkipInstructions | chip/src/lib.rs:226-261 | 3xnn/4xnn/5xyN/9xyN skip exactly when their comparison holds; the low nibble of 5xyN/9xyN is ignored |
| Instructions.KeyInstructions | chip/src/lib.rs:269-292 | Ex9E skips exactly when Vx is the lowest pressed key; ExA1 exactly when some key is pressed and the lowest is not Vx; Fx0A exactly when key Vx is pressed |
| Instructions.TimerInstructions | chip/src/lib.rs:291-298 | Fx07 reads the delay timer; Fx15 and Fx18 load the delay and sound timers |
| Instructions.IndexInstructions | chip/src/lib.rs:262-300 | Annn sets the index register; Fx1E adds Vx and aborts on 16-bit overflow; Fx29 sets it to 5 * Vx |
| Instructions.FontLookup | chip/src/lib.rs:112-114 | on a new machine, the five bytes at 5 * d are the glyph of digit d |
| Instructions.BcdInstruction | chip/src/lib.rs:301 | Fx33 writes [Vx / 100, Vx / 10 % 10, Vx % 10] at the index register, and changes no other byte |
| Instructions.StoreInstruction | chip/src/lib.rs:302 | Fx55 stores V0..V(x-1), excluding Vx; it succeeds exactly when x = 0 or i + x <= 4096; otherwise it fails with the first address past memory |
| Instructions.LoadInstruction | chip/src/lib.rs:303 | Fx65 loads V0..V(x-1) from the index register, succeeding and failing exactly as Fx55 does |
| Instructions.StoreLoadRoundTrip | chip/src/lib.rs:417-443 | loading a block just stored changes nothing, and neither does storing a block just loaded |
| Instructions.ClearInstruction | chip/src/lib.rs:217-220 | 0XE0, for any x nibble, turns every pixel off and changes nothing else |
| Instructions.RandomInstruction | chip/src/lib.rs:264-267 | Cxnn sets Vx to the random byte modulo nn, below nn, and changes nothing else; nn = 0 divides by zero and aborts |
| Instructions.DrawInstruction | chip/src/lib.rs:268 | Dxyn XORs the n bytes at the index register onto the screen at (Vx, Vy), changes no register but VF, and sets VF to 1 exactly on a collision |
| Instructions.DrawTwiceRestores | chip/src/lib.rs:372-391 | executing the same Dxyn twice restores the screen when neither coordinate register is VF |
| Scenarios.RegisterProgramRun | chip/src/lib.rs:462-483 | the repository's register test: four ticks give V0 = 15, V1 = 15, V0 = 25, V0 = 31 |
| Scenarios.LoadRomAnywhere | chip/src/lib.rs:453-459 | the repository's load test: eight bytes at any offset below 4088 load and read back |
| Scenarios.BcdOf234 | chip/src/lib.rs:406-415 | the BCD of 234 is 2, 3, 4 |
| Scenarios.OpcodeLegality | chip/src/lib.rs:217-228 | 0x5001 executes and 0x0123 is an illegal opcode |
| Scenarios.SpriteWraps | chip/src/lib.rs:382 | a full row drawn at column 60 lights columns 60..63 and 0..3 and nothing else |
| Scenarios.DrawFullRowTwice | chip/src/lib.rs:372-391 | drawing a full row twice clears it and reports a collision |

## Left out

- `Halt` is a variant of the source's `Exception` that the core never raises, so it is not in the model.
- The `Display` implementation that formats the state is not modelled.
- The random generator (`SmallRng` and its seed) is not modelled. Cxnn receives its random byte as a parameter of `Tick` and `Execute`, and `new`/`reset` take no seed.
- `framebuffer()` is not modelled separately: it returns the `fb` field.
- The frontend crate and `examples/emu.rs` are not part of this model. They cover windowing, key mapping, audio and the 10 ms tick loop.
- Arithmetic overflow follows a debug build, where Fx1E panics on 16-bit overflow. A release build would wrap around instead.
- Cpu.Execute: the model requires `pc <= 4096`. Its only caller, `tick`, guarantees this, and it keeps the pc + 2 of a skip from overflowing 16 bits. Its own contract covers well-formedness, the keypad and the timers only. Each instruction's effect is proved in a lemma of `Instructions`.
- Cpu.Tick: the model requires a stack pointer of at most 16 (part of `Valid`). Every reachable machine meets this because `call` refuses to push past 16. Its own contract states only well-formedness and the untouched keypad. The full cycle is proved in `Instructions.TickCycle`.
- Cpu.KeyOp: its contract says only that at most pc changes. The exact skip conditions are proved in `Instructions.KeyInstructions`.
- Cpu.Arith: its contract says only that registers alone change. The value of each instruction is proved in the `Instructions` lemmas.
- Sprite.DrawRow: its own contract states only that the framebuffer keeps its size. What the inner loop toggles is proved in `Sprite.DrawRowSpec`.
- Sprite.DrawRows: its own contract states only that the framebuffer keeps its size. What the outer loop toggles is proved in `Sprite.DrawRowsSpec`.
- Cpu.Misc: its contract covers well-formedness, the keypad and the timers. The other F instructions are proved in `Instructions.TimerInstructions`, `IndexInstructions`, `BcdInstruction`, `StoreInstruction`, `LoadInstruction` and `KeyInstructions`.

## Where the code departs from its comments or from common CHIP-8 behaviour

The model follows the code in each case:

- Ex9E and ExA1 (`chip/src/lib.rs:269-287`): the comments say "skip if the key numbered Vx is pressed" and "skip if it is not pressed". The code instead finds the lowest-numbered pressed key and compares Vx with it. So Ex9E does not skip when key Vx is pressed together with a lower key, and ExA1 never skips when no key is pressed (`Instructions.KeyInstructions`).
- `reset` (`chip/src/lib.rs:182-194`) zeroes all of memory. Unlike `new`, it does not load the font, so a reset machine is not a new one (`Machine.ResetVersusNew`).
- Fx55 and Fx65 (`chip/src/lib.rs:417-443`) copy V0..V(x-1) (`for i in 0..x`). Common CHIP-8 interpreters copy V0..Vx.
- Cxnn (`chip/src/lib.rs:264-267`) computes the random byte `% nn`, where common CHIP-8 interpreters use `& nn`. With nn = 0 this divides by zero and panics (`Instructions.RandomInstruction`).
- Fx0A (`chip/src/lib.rs:393-404`) neither waits for a key nor stores one in Vx, as common CHIP-8 interpreters do. Since pc has already moved past Fx0A, a pressed key Vx skips the next instruction; otherwise execution simply falls through (`Instructions.KeyInstructions`).
