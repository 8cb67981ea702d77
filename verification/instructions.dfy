/**
 What each instruction does, stated per instruction over all machines and
 operands, and how instructions combine (call and return, store and load,
 drawing twice).
 */
module Instructions {
  import opened Bits
  import opened Machine
  import opened Opcode
  import opened Cpu
  import Sprite
  import Font

  // ---------------------------------------------------------------------------
  // The cycle

  /** One tick counts each running timer down by one, reports a pc at or past
      the end of memory, aborts on a pc at the last byte, and otherwise runs
      the big-endian word at pc with pc already advanced past it. */
  lemma TickCycle(m: Chip, rand: Byte)
    requires Valid(m)
    ensures var t := m.(dt := if m.dt > 0 then m.dt - 1 else 0,
                        st := if m.st > 0 then m.st - 1 else 0);
      && (m.pc >= MemSize ==> Tick(m, rand) == Err(OutOfMemory(m.pc), t))
      && (m.pc == MemSize - 1 ==> Tick(m, rand) == Panicked(FetchPastEnd))
      && (m.pc < MemSize - 1 ==>
            Tick(m, rand) == Execute(t.(pc := m.pc + 2), m.mem[m.pc] as int * 0x100 + m.mem[m.pc + 1], rand))
  {
  }

  /** Unless the instruction loads a timer, a tick leaves each timer one lower,
      or at zero if it was zero. */
  lemma TimersCountDown(m: Chip, rand: Byte)
    requires Valid(m) && Tick(m, rand).Live()
    ensures m.pc + 1 < MemSize && !SetsDelay(Fetch(m)) ==>
              Tick(m, rand).chip.dt == if m.dt == 0 then 0 else m.dt - 1
    ensures m.pc + 1 < MemSize && !SetsSound(Fetch(m)) ==>
              Tick(m, rand).chip.st == if m.st == 0 then 0 else m.st - 1
    ensures m.pc >= MemSize ==>
              Tick(m, rand).chip.dt == (if m.dt == 0 then 0 else m.dt - 1) &&
              Tick(m, rand).chip.st == (if m.st == 0 then 0 else m.st - 1)
  {
  }

  /** After a tick the tone sounds exactly when the sound timer was above one
      before it, unless the instruction was Fx18, in which case it sounds
      exactly when the loaded Vx is nonzero. */
  lemma ToneAfterTick(m: Chip, rand: Byte)
    requires Valid(m) && Tick(m, rand).Live()
    ensures m.pc + 1 < MemSize && !SetsSound(Fetch(m)) ==>
              (Tone(Tick(m, rand).chip) <==> m.st > 1)
    ensures m.pc + 1 < MemSize && SetsSound(Fetch(m)) ==>
              (Tone(Tick(m, rand).chip) <==> m.v[Decode(Fetch(m)).x] > 0)
    ensures m.pc >= MemSize ==> (Tone(Tick(m, rand).chip) <==> m.st > 1)
  {
    TimersCountDown(m, rand);
    if m.pc + 1 < MemSize {
      TickCycle(m, rand);
    }
  }

  // ---------------------------------------------------------------------------
  // Decoding

  /** The encodings no instruction is assigned to. */
  predicate Unassigned(op: Word)
  {
    var f := Decode(op);
    || (f.d == 0x0 && f.nn !in {0x00, 0xE0, 0xEE})
    || (f.d == 0x8 && f.n !in {0x0, 0x1, 0x2, 0x3, 0x4, 0x5, 0x6, 0x7, 0xE})
    || (f.d == 0xE && f.nn !in {0x9E, 0xA1})
    || (f.d == 0xF && f.nn !in {0x07, 0x0A, 0x15, 0x18, 0x1E, 0x29, 0x33, 0x55, 0x65})
  }

  /** An unassigned word is refused as an illegal opcode with the machine
      untouched, and every other word is executed: it never yields that
      error. */
  lemma IllegalOpcodeExactly(m: Chip, op: Word, rand: Byte)
    requires Valid(m) && m.pc <= MemSize
    ensures Unassigned(op) ==> Execute(m, op, rand) == Err(IllegalOpcode(op), m)
    ensures !Unassigned(op) ==> !(Execute(m, op, rand).Err? && Execute(m, op, rand).exn.IllegalOpcode?)
  {
  }

  /** The instructions that abort the interpreter: a random number modulo
      zero, a sprite or BCD slice past the end of memory, and an index
      register pushed past 16 bits. */
  predicate Aborts(m: Chip, op: Word)
    requires Valid(m)
  {
    var f := Decode(op);
    || (f.d == 0xC && f.nn == 0)
    || (f.d == 0xD && f.n > 0 && m.i + f.n > MemSize)
    || (f.d == 0xF && f.nn == 0x1E && m.i + m.v[f.x] > 0xFFFF)
    || (f.d == 0xF && f.nn == 0x33 && m.i + 3 > MemSize)
  }

  lemma AbortsExactly(m: Chip, op: Word, rand: Byte)
    requires Valid(m) && m.pc <= MemSize
    ensures Execute(m, op, rand).Panicked? <==> Aborts(m, op)
  {
  }

  // ---------------------------------------------------------------------------
  // Register arithmetic (family 8 and 7xnn)

  /** Registers other than `x` and VF keep their values. */
  ghost predicate OthersKept(m: Chip, c: Chip, x: Nibble)
    requires Valid(m) && Valid(c)
  {
    forall k :: 0 <= k < RegCount && k != x && k != Flag ==> c.v[k] == m.v[k]
  }

  /** 6xnn loads nn into Vx; 8xy0 copies Vy into Vx. */
  lemma LoadInstructions(m: Chip, x: Nibble, y: Nibble, n: Nibble, rand: Byte)
    requires Valid(m) && m.pc <= MemSize
    ensures Execute(m, Encode(0x6, x, y, n), rand) == Ok(m.(v := m.v[x := y * 0x10 + n]))
    ensures Execute(m, Encode(0x8, x, y, 0x0), rand) == Ok(m.(v := m.v[x := m.v[y]]))
  {
    DecodeEncode(0x6, x, y, n);
    DecodeEncode(0x8, x, y, 0x0);
  }

  /** 8xy4: Vx gets the sum modulo 256 and VF the carry; VF is written last,
      so for x = F only the carry remains. Result and carry together are the
      full sum. */
  lemma AddWithCarry(m: Chip, x: Nibble, y: Nibble, rand: Byte)
    requires Valid(m) && m.pc <= MemSize
    ensures var r := Execute(m, Encode(0x8, x, y, 0x4), rand);
      var sum := m.v[x] as int + m.v[y];
      && r.Ok? && r.chip == m.(v := r.chip.v) && OthersKept(m, r.chip, x)
      && r.chip.v[Flag] == (if sum >= 0x100 then 1 else 0)
      && (x != Flag ==> r.chip.v[x] == sum % 0x100)
      && (x != Flag ==> r.chip.v[x] as int + 0x100 * (r.chip.v[Flag] as int) == sum)
  {
    DecodeEncode(0x8, x, y, 0x4);
  }

  /** 8xy5: Vx gets Vx - Vy modulo 256 and VF is 1 exactly when Vx >= Vy
      (no borrow); VF is written last. */
  lemma SubtractWithBorrow(m: Chip, x: Nibble, y: Nibble, rand: Byte)
    requires Valid(m) && m.pc <= MemSize
    ensures var r := Execute(m, Encode(0x8, x, y, 0x5), rand);
      var diff := m.v[x] as int - m.v[y];
      && r.Ok? && r.chip == m.(v := r.chip.v) && OthersKept(m, r.chip, x)
      && r.chip.v[Flag] == (if m.v[x] >= m.v[y] then 1 else 0)
      && (x != Flag ==> r.chip.v[x] == diff % 0x100)
      && (x != Flag ==> r.chip.v[x] as int - 0x100 * (1 - r.chip.v[Flag] as int) == diff)
  {
    DecodeEncode(0x8, x, y, 0x5);
  }

  /** 8xy7: as 8xy5 with the operands swapped: Vx gets Vy - Vx. */
  lemma ReverseSubtract(m: Chip, x: Nibble, y: Nibble, rand: Byte)
    requires Valid(m) && m.pc <= MemSize
    ensures var r := Execute(m, Encode(0x8, x, y, 0x7), rand);
      var diff := m.v[y] as int - m.v[x];
      && r.Ok? && r.chip == m.(v := r.chip.v) && OthersKept(m, r.chip, x)
      && r.chip.v[Flag] == (if m.v[y] >= m.v[x] then 1 else 0)
      && (x != Flag ==> r.chip.v[x] == diff % 0x100)
      && (x != Flag ==> r.chip.v[x] as int - 0x100 * (1 - r.chip.v[Flag] as int) == diff)
  {
    DecodeEncode(0x8, x, y, 0x7);
  }

  /** 8xy6: VF gets bit 0 of Vx, then Vx is halved; VF is written first, so
      for x = F only the shifted value remains. Vx is rebuilt from the two. */
  lemma ShiftRight(m: Chip, x: Nibble, y: Nibble, rand: Byte)
    requires Valid(m) && m.pc <= MemSize
    ensures var r := Execute(m, Encode(0x8, x, y, 0x6), rand);
      var vx := m.v[x];
      && r.Ok? && r.chip == m.(v := r.chip.v) && OthersKept(m, r.chip, x)
      && r.chip.v[x] == vx / 2
      && (x != Flag ==> (r.chip.v[Flag] == 1 <==> Bit(vx, 0)) && r.chip.v[Flag] <= 1)
      && (x != Flag ==> 2 * r.chip.v[x] as int + r.chip.v[Flag] == vx)
  {
    DecodeEncode(0x8, x, y, 0x6);
  }

  /** 8xyE: VF gets bit 7 of Vx, then Vx is doubled modulo 256; VF is written
      first. The shifted-out bit and the result together are twice Vx. */
  lemma ShiftLeft(m: Chip, x: Nibble, y: Nibble, rand: Byte)
    requires Valid(m) && m.pc <= MemSize
    ensures var r := Execute(m, Encode(0x8, x, y, 0xE), rand);
      var vx := m.v[x];
      && r.Ok? && r.chip == m.(v := r.chip.v) && OthersKept(m, r.chip, x)
      && r.chip.v[x] == (2 * vx as int) % 0x100
      && (x != Flag ==> (r.chip.v[Flag] == 1 <==> Bit(vx, 7)) && r.chip.v[Flag] <= 1)
      && (x != Flag ==> r.chip.v[x] as int + 0x100 * (r.chip.v[Flag] as int) == 2 * vx as int)
  {
    DecodeEncode(0x8, x, y, 0xE);
    HighBit(m.v[x]);
  }

  /** 8xy1, 8xy2, 8xy3: every bit of Vx becomes the OR, AND or XOR of the
      corresponding bits of Vx and Vy; VF is untouched unless x = F. */
  lemma BitwiseLogic(m: Chip, x: Nibble, y: Nibble, rand: Byte)
    requires Valid(m) && m.pc <= MemSize
    ensures var r := Execute(m, Encode(0x8, x, y, 0x1), rand);
      && r.Ok? && r.chip == m.(v := r.chip.v) && r.chip.v == m.v[x := r.chip.v[x]]
      && forall k: nat :: Bit(r.chip.v[x], k) == (Bit(m.v[x], k) || Bit(m.v[y], k))
    ensures var r := Execute(m, Encode(0x8, x, y, 0x2), rand);
      && r.Ok? && r.chip == m.(v := r.chip.v) && r.chip.v == m.v[x := r.chip.v[x]]
      && forall k: nat :: Bit(r.chip.v[x], k) == (Bit(m.v[x], k) && Bit(m.v[y], k))
    ensures var r := Execute(m, Encode(0x8, x, y, 0x3), rand);
      && r.Ok? && r.chip == m.(v := r.chip.v) && r.chip.v == m.v[x := r.chip.v[x]]
      && forall k: nat :: Bit(r.chip.v[x], k) == (Bit(m.v[x], k) != Bit(m.v[y], k))
  {
    DecodeEncode(0x8, x, y, 0x1);
    DecodeEncode(0x8, x, y, 0x2);
    DecodeEncode(0x8, x, y, 0x3);
  }

  /** 7xnn: Vx grows by nn modulo 256 and no flag is set. */
  lemma AddImmediate(m: Chip, x: Nibble, y: Nibble, n: Nibble, rand: Byte)
    requires Valid(m) && m.pc <= MemSize
    ensures var r := Execute(m, Encode(0x7, x, y, n), rand);
      && r.Ok?
      && r.chip == m.(v := m.v[x := (m.v[x] as int + y * 0x10 + n) % 0x100])
  {
    DecodeEncode(0x7, x, y, n);
  }

  // ---------------------------------------------------------------------------
  // Control flow and the stack

  /** 0xEE (00EE, and likewise 0xEE for any x, since only the low byte is
      looked at) on an empty stack is refused; otherwise it pops pc. */
  lemma ReturnInstruction(m: Chip, x: Nibble, rand: Byte)
    requires Valid(m) && m.pc <= MemSize
    ensures m.sp == 0 ==> Execute(m, Encode(0x0, x, 0xE, 0xE), rand) == Err(StackUnderflow(0), m)
    ensures m.sp > 0 ==>
              Execute(m, Encode(0x0, x, 0xE, 0xE), rand) == Ok(m.(sp := m.sp - 1, pc := m.stack[m.sp - 1]))
  {
    DecodeEncode(0x0, x, 0xE, 0xE);
  }

  /** 2nnn on a full stack is refused; otherwise it pushes pc and jumps. */
  lemma CallInstruction(m: Chip, nnn: int, rand: Byte)
    requires Valid(m) && m.pc <= MemSize && 0 <= nnn < 0x1000
    ensures m.sp >= StackSize ==> Execute(m, 0x2000 + nnn, rand) == Err(StackOverflow(m.sp), m)
    ensures m.sp < StackSize ==>
              Execute(m, 0x2000 + nnn, rand) == Ok(m.(stack := m.stack[m.sp := m.pc], sp := m.sp + 1, pc := nnn))
  {
    DecodeAddress(0x2, nnn);
  }

  /** A tick that executes a call, followed (after any instructions that
      leave the stack balanced) by a tick that executes a return, restores the
      stack depth and continues right after the call instruction. */
  lemma CallThenReturn(m: Chip, rand1: Byte, m2: Chip, rand2: Byte)
    requires Valid(m) && m.pc + 1 < MemSize && m.mem[m.pc] / 0x10 == 0x2
    requires Tick(m, rand1).Ok?
    requires Valid(m2) && m2.sp == Tick(m, rand1).chip.sp && m2.stack == Tick(m, rand1).chip.stack
    requires m2.pc + 1 < MemSize && m2.mem[m2.pc] == 0x00 && m2.mem[m2.pc + 1] == 0xEE
    ensures Tick(m2, rand2).Ok?
    ensures Tick(m2, rand2).chip.sp == m.sp
    ensures Tick(m2, rand2).chip.pc == m.pc + 2
  {
    var op := Fetch(m);
    assert Decode(op).d == 0x2;
    assert Fetch(m2) == 0x00EE;
    DecodeEncode(0x0, 0x0, 0xE, 0xE);
  }

  /** `k` calls of subroutine `nnn` in a row, each from the previous one. */
  function NestedCalls(m: Chip, nnn: int, k: nat): (r: Outcome)
    requires Valid(m) && m.pc <= MemSize && 0 <= nnn < 0x1000
    ensures r.Ok? ==> Valid(r.chip) && r.chip.pc <= MemSize
    decreases k
  {
    if k == 0 then Ok(m)
    else
      CallInstruction(m, nnn, 0);
      var r := Execute(m, 0x2000 + nnn, 0);
      if r.Ok? then NestedCalls(r.chip, nnn, k - 1) else r
  }

  /** `k` nested calls succeed while the stack has room for `k` more, each one
      level deeper. */
  lemma {:induction false} CallsNest(m: Chip, nnn: int, k: nat)
    requires Valid(m) && m.pc <= MemSize && 0 <= nnn < 0x1000
    requires m.sp as int + k <= StackSize
    ensures NestedCalls(m, nnn, k).Ok?
    ensures NestedCalls(m, nnn, k).chip.sp == m.sp as int + k
    decreases k
  {
    if k > 0 {
      CallInstruction(m, nnn, 0);
      var m' := Execute(m, 0x2000 + nnn, 0).chip;
      CallsNest(m', nnn, k - 1);
    }
  }

  /** Sixteen nested calls fill the stack; the seventeenth overflows it. */
  lemma StackDepthLimit(m: Chip, nnn: int)
    requires Valid(m) && m.pc <= MemSize && 0 <= nnn < 0x1000 && m.sp == 0
    ensures NestedCalls(m, nnn, 16).Ok?
    ensures NestedCalls(m, nnn, 17).Err?
    ensures NestedCalls(m, nnn, 17).exn == StackOverflow(16)
  {
    CallsNest(m, nnn, 16);
    NestedCallsSplit(m, nnn, 16);
    var full := NestedCalls(m, nnn, 16).chip;
    CallInstruction(full, nnn, 0);
  }

  /** One more nested call is one more call on the result. */
  lemma {:induction false} NestedCallsSplit(m: Chip, nnn: int, k: nat)
    requires Valid(m) && m.pc <= MemSize && 0 <= nnn < 0x1000
    requires NestedCalls(m, nnn, k).Ok?
    ensures NestedCalls(m, nnn, k + 1) == NestedCalls(NestedCalls(m, nnn, k).chip, nnn, 1)
    decreases k
  {
    if k > 0 {
      CallInstruction(m, nnn, 0);
      var m' := Execute(m, 0x2000 + nnn, 0).chip;
      NestedCallsSplit(m', nnn, k - 1);
    }
  }

  /** 1nnn jumps; Bnnn jumps to V0 + nnn and is refused when that passes
      0xFFF, which it can. */
  lemma JumpInstructions(m: Chip, nnn: int, rand: Byte)
    requires Valid(m) && m.pc <= MemSize && 0 <= nnn < 0x1000
    ensures Execute(m, 0x1000 + nnn, rand) == Ok(m.(pc := nnn))
    ensures var target := m.v[0] as int + nnn;
      Execute(m, 0xB000 + nnn, rand) ==
        if target > 0xFFF then Err(IllegalAddress(target), m) else Ok(m.(pc := target))
  {
    DecodeAddress(0x1, nnn);
    DecodeAddress(0xB, nnn);
  }

  /** 3xnn, 4xnn, 5xyN and 9xyN skip the next instruction when the comparison
      holds; the low nibble of 5xyN and 9xyN is not looked at. */
  lemma SkipInstructions(m: Chip, x: Nibble, y: Nibble, n: Nibble, rand: Byte)
    requires Valid(m) && m.pc <= MemSize
    ensures var nn := y * 0x10 + n;
      Execute(m, Encode(0x3, x, y, n), rand) == Ok(m.(pc := if m.v[x] == nn then m.pc + 2 else m.pc))
    ensures var nn := y * 0x10 + n;
      Execute(m, Encode(0x4, x, y, n), rand) == Ok(m.(pc := if m.v[x] != nn then m.pc + 2 else m.pc))
    ensures Execute(m, Encode(0x5, x, y, n), rand) == Ok(m.(pc := if m.v[x] == m.v[y] then m.pc + 2 else m.pc))
    ensures Execute(m, Encode(0x9, x, y, n), rand) == Ok(m.(pc := if m.v[x] != m.v[y] then m.pc + 2 else m.pc))
  {
    DecodeEncode(0x3, x, y, n);
    DecodeEncode(0x4, x, y, n);
    DecodeEncode(0x5, x, y, n);
    DecodeEncode(0x9, x, y, n);
  }

  // ---------------------------------------------------------------------------
  // Keys

  /** Key `k` is the lowest-numbered key held down. */
  ghost predicate LowestPressed(m: Chip, k: int)
    requires Valid(m)
  {
    0 <= k < KeyCount && m.keypad[k] && forall j :: 0 <= j < k ==> !m.keypad[j]
  }

  /** Ex9E skips exactly when Vx is the lowest pressed key; ExA1 exactly when
      some key is pressed and the lowest one is not Vx; Fx0A exactly when the
      key numbered Vx is pressed (it does not wait). Nothing else changes. */
  lemma KeyInstructions(m: Chip, x: Nibble, rand: Byte)
    requires Valid(m) && m.pc <= MemSize
    ensures var r := Execute(m, Encode(0xE, x, 0x9, 0xE), rand);
      r.Ok? && r.chip == m.(pc := if LowestPressed(m, m.v[x]) then m.pc + 2 else m.pc)
    ensures var r := Execute(m, Encode(0xE, x, 0xA, 0x1), rand);
      var other := exists k :: LowestPressed(m, k) && k != m.v[x];
      r.Ok? && r.chip == m.(pc := if other then m.pc + 2 else m.pc)
    ensures var r := Execute(m, Encode(0xF, x, 0x0, 0xA), rand);
      var down := m.v[x] < KeyCount && m.keypad[m.v[x]];
      r.Ok? && r.chip == m.(pc := if down then m.pc + 2 else m.pc)
  {
    DecodeEncode(0xE, x, 0x9, 0xE);
    DecodeEncode(0xE, x, 0xA, 0x1);
    DecodeEncode(0xF, x, 0x0, 0xA);
    var first := FirstPressedFrom(m.keypad, 0);
    if first.Some? {
      assert LowestPressed(m, first.value);
      assert forall k :: LowestPressed(m, k) ==> k == first.value;
    } else {
      forall k | 0 <= k < KeyCount ensures !LowestPressed(m, k) {
        assert !m.keypad[k];
      }
    }
  }

  // ---------------------------------------------------------------------------
  // Timers, the index register and memory

  /** Fx07 reads the delay timer; Fx15 and Fx18 set the delay and sound timers. */
  lemma TimerInstructions(m: Chip, x: Nibble, rand: Byte)
    requires Valid(m) && m.pc <= MemSize
    ensures Execute(m, Encode(0xF, x, 0x0, 0x7), rand) == Ok(m.(v := m.v[x := m.dt]))
    ensures Execute(m, Encode(0xF, x, 0x1, 0x5), rand) == Ok(m.(dt := m.v[x]))
    ensures Execute(m, Encode(0xF, x, 0x1, 0x8), rand) == Ok(m.(st := m.v[x]))
  {
    DecodeEncode(0xF, x, 0x0, 0x7);
    DecodeEncode(0xF, x, 0x1, 0x5);
    DecodeEncode(0xF, x, 0x1, 0x8);
  }

  /** Annn sets the index register; Fx1E adds Vx to it, aborting on 16-bit
      overflow; Fx29 points it at the font glyph for the digit in Vx. */
  lemma IndexInstructions(m: Chip, x: Nibble, y: Nibble, n: Nibble, rand: Byte)
    requires Valid(m) && m.pc <= MemSize
    ensures Execute(m, Encode(0xA, x, y, n), rand) == Ok(m.(i := x * 0x100 + y * 0x10 + n))
    ensures Execute(m, Encode(0xF, x, 0x1, 0xE), rand) ==
              if m.i + m.v[x] as int > 0xFFFF then Panicked(IndexOverflow) else Ok(m.(i := m.i + m.v[x] as int))
    ensures Execute(m, Encode(0xF, x, 0x2, 0x9), rand) == Ok(m.(i := 5 * m.v[x] as int))
  {
    DecodeEncode(0xA, x, y, n);
    DecodeEncode(0xF, x, 0x1, 0xE);
    DecodeEncode(0xF, x, 0x2, 0x9);
  }

  /** On a freshly constructed machine, the address Fx29 computes for a digit
      holds that digit's glyph. */
  lemma FontLookup(d: Nibble)
    ensures New().mem[Font.GlyphSize * d .. Font.GlyphSize * d + Font.GlyphSize] == Font.Glyph(d)
  {
    assert New().mem[..|Font.Chars|] == Font.Chars;
    assert Font.GlyphSize * d + Font.GlyphSize <= |Font.Chars|;
  }

  /** Fx33 writes the three decimal digits of Vx at the index register, most
      significant first; they recombine to Vx. */
  lemma BcdInstruction(m: Chip, x: Nibble, rand: Byte)
    requires Valid(m) && m.pc <= MemSize && m.i + 3 <= MemSize
    ensures var r := Execute(m, Encode(0xF, x, 0x3, 0x3), rand);
      && r.Ok? && r.chip == m.(mem := r.chip.mem)
      && r.chip.mem[m.i .. m.i + 3] == [m.v[x] / 100, (m.v[x] / 10) % 10, m.v[x] % 10]
      && 100 * r.chip.mem[m.i] as int + 10 * r.chip.mem[m.i + 1] as int + r.chip.mem[m.i + 2] as int == m.v[x]
      && forall a :: 0 <= a < MemSize && !(m.i <= a < m.i + 3) ==> r.chip.mem[a] == m.mem[a]
  {
    DecodeEncode(0xF, x, 0x3, 0x3);
    assert Execute(m, Encode(0xF, x, 0x3, 0x3), rand) == StoreBcd(m, m.v[x]);
    BcdDigits(m, m.v[x]);
  }

  /** The three bytes `store_reg_bcd` writes are the decimal digits of `vx`. */
  lemma BcdDigits(m: Chip, vx: Byte)
    requires Valid(m) && m.i + 3 <= MemSize
    ensures StoreBcd(m, vx).Ok?
    ensures StoreBcd(m, vx).chip.mem[m.i .. m.i + 3] == [vx / 100, (vx / 10) % 10, vx % 10]
  {
    var bcd := [vx / 100, (vx % 100) / 10, (vx % 100) % 10];
    DecimalDigits(vx);
    var mem := m.mem[..m.i] + bcd + m.mem[m.i + 3..];
    assert StoreBcd(m, vx) == Ok(m.(mem := mem));
    assert mem[m.i .. m.i + 3] == bcd;
  }

  /** Taking the hundreds off first does not change the tens and units. */
  lemma DecimalDigits(vx: Byte)
    ensures (vx % 100) / 10 == (vx / 10) % 10 && (vx % 100) % 10 == vx % 10
  {
    var h := vx / 100;
    assert vx == 100 * h + vx % 100;
    assert vx / 10 == 10 * h + (vx % 100) / 10;
  }

  /** Fx55 copies V0..V(x-1) (Vx itself excluded) to memory at the index
      register. It is refused with the first offending address when the block
      reaches past memory, after storing what fits. */
  lemma StoreInstruction(m: Chip, x: Nibble, rand: Byte)
    requires Valid(m) && m.pc <= MemSize
    ensures var r := Execute(m, Encode(0xF, x, 0x5, 0x5), rand);
      && r.Live() && r.chip == m.(mem := r.chip.mem)
      && (r.Ok? <==> x == 0 || m.i + x <= MemSize)
      && (r.Err? ==> r.exn == IllegalAddress(if m.i >= MemSize then m.i else MemSize))
      && forall a :: 0 <= a < MemSize ==>
           r.chip.mem[a] == if m.i <= a < m.i + x then m.v[a - m.i] else m.mem[a]
  {
    DecodeEncode(0xF, x, 0x5, 0x5);
  }

  /** Fx65 copies memory at the index register into V0..V(x-1); refused like
      Fx55, after loading what fits. */
  lemma LoadInstruction(m: Chip, x: Nibble, rand: Byte)
    requires Valid(m) && m.pc <= MemSize
    ensures var r := Execute(m, Encode(0xF, x, 0x6, 0x5), rand);
      && r.Live() && r.chip == m.(v := r.chip.v)
      && (r.Ok? <==> x == 0 || m.i + x <= MemSize)
      && (r.Err? ==> r.exn == IllegalAddress(if m.i >= MemSize then m.i else MemSize))
      && forall j :: 0 <= j < RegCount ==>
           r.chip.v[j] == if j < x && m.i + j < MemSize then m.mem[m.i + j] else m.v[j]
  {
    DecodeEncode(0xF, x, 0x6, 0x5);
  }

  /** Loading back a block just stored changes nothing, and storing back a
      block just loaded changes nothing. */
  lemma StoreLoadRoundTrip(m: Chip, x: Nibble, rand1: Byte, rand2: Byte)
    requires Valid(m) && m.pc <= MemSize && m.i + x <= MemSize
    ensures var s := Execute(m, Encode(0xF, x, 0x5, 0x5), rand1);
      s.Ok? && Execute(s.chip, Encode(0xF, x, 0x6, 0x5), rand2) == s
    ensures var l := Execute(m, Encode(0xF, x, 0x6, 0x5), rand1);
      l.Ok? && Execute(l.chip, Encode(0xF, x, 0x5, 0x5), rand2) == l
  {
    StoreInstruction(m, x, rand1);
    LoadInstruction(m, x, rand1);
    var s := Execute(m, Encode(0xF, x, 0x5, 0x5), rand1).chip;
    var l := Execute(m, Encode(0xF, x, 0x6, 0x5), rand1).chip;
    LoadInstruction(s, x, rand2);
    StoreInstruction(l, x, rand2);
    var s2 := Execute(s, Encode(0xF, x, 0x6, 0x5), rand2).chip;
    var l2 := Execute(l, Encode(0xF, x, 0x5, 0x5), rand2).chip;
    assert s2.v == s.v;
    assert l2.mem == l.mem;
  }

  // ---------------------------------------------------------------------------
  // The screen

  /** 00E0 (and 0xE0 with any x) turns every pixel off and changes nothing
      else. */
  lemma ClearInstruction(m: Chip, x: Nibble, rand: Byte)
    requires Valid(m) && m.pc <= MemSize
    ensures var r := Execute(m, Encode(0x0, x, 0xE, 0x0), rand);
      && r.Ok? && r.chip == m.(fb := r.chip.fb) && Valid(r.chip)
      && forall p :: 0 <= p < Sprite.Pixels ==> !r.chip.fb[p]
  {
    DecodeEncode(0x0, x, 0xE, 0x0);
  }

  /** A word of family 0 with low byte 00 does nothing. */
  lemma NoOperation(m: Chip, x: Nibble, rand: Byte)
    requires Valid(m) && m.pc <= MemSize
    ensures Execute(m, Encode(0x0, x, 0x0, 0x0), rand) == Ok(m)
  {
    DecodeEncode(0x0, x, 0x0, 0x0);
  }

  /** Cxnn sets Vx to the random byte modulo nn and changes nothing else; with
      nn = 0 the modulo divides by zero and aborts. */
  lemma RandomInstruction(m: Chip, x: Nibble, y: Nibble, n: Nibble, rand: Byte)
    requires Valid(m) && m.pc <= MemSize
    ensures var nn := y * 0x10 + n;
      Execute(m, Encode(0xC, x, y, n), rand) ==
        if nn == 0 then Panicked(DivideByZero) else Ok(m.(v := m.v[x := rand % nn]))
    ensures var r := Execute(m, Encode(0xC, x, y, n), rand);
      r.Ok? ==> r.chip.v[x] < y * 0x10 + n
  {
    DecodeEncode(0xC, x, y, n);
  }

  /** Dxyn XORs the n-byte sprite at the index register onto the screen at
      (Vx, Vy) and sets VF to 1 exactly when a lit pixel was turned off. */
  lemma DrawInstruction(m: Chip, x: Nibble, y: Nibble, n: Nibble, rand: Byte)
    requires Valid(m) && m.pc <= MemSize && (n == 0 || m.i + n <= MemSize)
    ensures var r := Execute(m, Encode(0xD, x, y, n), rand);
      var sprite := if n == 0 then [] else m.mem[m.i .. m.i + n];
      && r.Ok? && r.chip == m.(fb := r.chip.fb, v := r.chip.v) && Valid(r.chip)
      && (forall p :: 0 <= p < Sprite.Pixels ==>
            r.chip.fb[p] == (m.fb[p] != Sprite.Covers(sprite, m.v[x], m.v[y], p)))
      && r.chip.v == m.v[Flag := r.chip.v[Flag]]
      && r.chip.v[Flag] <= 1
      && (r.chip.v[Flag] == 1 <==>
            exists p :: 0 <= p < Sprite.Pixels && Sprite.Covers(sprite, m.v[x], m.v[y], p) && m.fb[p])
  {
    DecodeEncode(0xD, x, y, n);
  }

  /** Executing the same Dxyn twice restores the screen, as long as neither
      coordinate register is VF (which the first draw overwrites). */
  lemma DrawTwiceRestores(m: Chip, x: Nibble, y: Nibble, n: Nibble, rand1: Byte, rand2: Byte)
    requires Valid(m) && m.pc <= MemSize && (n == 0 || m.i + n <= MemSize) && x != Flag && y != Flag
    ensures var op := Encode(0xD, x, y, n);
      var r1 := Execute(m, op, rand1);
      && r1.Ok?
      && Execute(r1.chip, op, rand2).Ok?
      && Execute(r1.chip, op, rand2).chip.fb == m.fb
  {
    var op := Encode(0xD, x, y, n);
    DrawInstruction(m, x, y, n, rand1);
    var m1 := Execute(m, op, rand1).chip;
    DrawInstruction(m1, x, y, n, rand2);
    var sprite := if n == 0 then [] else m.mem[m.i .. m.i + n];
    Sprite.DrawTwice(m.fb, sprite, m.v[x], m.v[y]);
    var once := Sprite.Draw(m.fb, sprite, m.v[x], m.v[y]).0;
    assert m1.fb == once;
  }
}
