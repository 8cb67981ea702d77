/**
 Concrete runs of the interpreter: the repository's own unit-test programs
 and a few single-instruction examples, each stated as a lemma about the
 model.
 */
module Scenarios {
  import opened Bits
  import opened Machine
  import opened Opcode
  import opened Cpu
  import Sprite
  import Instructions

  /** The register-operations test program: V0 := 0x0F; V1 := V0; V0 += 10;
      V0 |= V1. */
  const RegisterProgram: seq<Byte> := [0x60, 0x0F, 0x81, 0x00, 0x70, 0x0A, 0x80, 0x11]

  /** A new machine given the register-operations program at the entry
      address runs it one instruction per tick: V0 = 15, then V1 = 15, then
      V0 = 25, then V0 = 31. */
  lemma RegisterProgramRun(rand: Byte)
    ensures LoadRom(New(), EntryAddr, RegisterProgram).Ok?
    ensures var m0 := LoadRom(New(), EntryAddr, RegisterProgram).chip;
      var r1 := Tick(m0, rand);
      && r1.Ok? && r1.chip.v[0] == 15
      && var r2 := Tick(r1.chip, rand);
      && r2.Ok? && r2.chip.v[1] == 15
      && var r3 := Tick(r2.chip, rand);
      && r3.Ok? && r3.chip.v[0] == 25
      && var r4 := Tick(r3.chip, rand);
      && r4.Ok? && r4.chip.v[0] == 31 && r4.chip.pc == EntryAddr + 8
  {
    var m0 := LoadRom(New(), EntryAddr, RegisterProgram).chip;
    assert m0.mem[EntryAddr .. EntryAddr + 8] == RegisterProgram;
    RunRegisterProgram(m0, rand);
  }

  /** The program's four ticks from any machine holding it at pc. */
  lemma RunRegisterProgram(m0: Chip, rand: Byte)
    requires Valid(m0) && m0.pc == EntryAddr && m0.mem[EntryAddr .. EntryAddr + 8] == RegisterProgram
    ensures var r1 := Tick(m0, rand);
      && r1.Ok? && r1.chip.v[0] == 15
      && var r2 := Tick(r1.chip, rand);
      && r2.Ok? && r2.chip.v[1] == 15
      && var r3 := Tick(r2.chip, rand);
      && r3.Ok? && r3.chip.v[0] == 25
      && var r4 := Tick(r3.chip, rand);
      && r4.Ok? && r4.chip.v[0] == 31 && r4.chip.pc == EntryAddr + 8
  {
    assert m0.mem[512] == 0x60 && m0.mem[513] == 0x0F;
    assert m0.mem[514] == 0x81 && m0.mem[515] == 0x00;
    assert m0.mem[516] == 0x70 && m0.mem[517] == 0x0A;
    assert m0.mem[518] == 0x80 && m0.mem[519] == 0x11;
    var r1 := StepOne(m0, rand);
    var r2 := StepTwo(r1, rand);
    var r3 := StepThree(r2, rand);
    var r4 := StepFour(r3, rand);
  }

  /** 6xnn at pc: V0 := 0x0F. */
  lemma StepOne(m: Chip, rand: Byte) returns (r: Chip)
    requires Valid(m) && m.pc == 512 && m.mem[512] == 0x60 && m.mem[513] == 0x0F
    ensures Valid(r) && Tick(m, rand) == Ok(r)
    ensures r.pc == 514 && r.mem == m.mem && r.v == m.v[0 := 15]
  {
    var t := TickRuns(m, rand, 0x6, 0x0, 0x0, 0xF);
    Instructions.LoadInstructions(t, 0x0, 0x0, 0xF, rand);
    r := t.(v := t.v[0 := 15]);
  }

  /** 8xy0 at pc: V1 := V0. */
  lemma StepTwo(m: Chip, rand: Byte) returns (r: Chip)
    requires Valid(m) && m.pc == 514 && m.mem[514] == 0x81 && m.mem[515] == 0x00
    ensures Valid(r) && Tick(m, rand) == Ok(r)
    ensures r.pc == 516 && r.mem == m.mem && r.v == m.v[1 := m.v[0]]
  {
    var t := TickRuns(m, rand, 0x8, 0x1, 0x0, 0x0);
    Instructions.LoadInstructions(t, 0x1, 0x0, 0x0, rand);
    r := t.(v := t.v[1 := t.v[0]]);
  }

  /** 7xnn at pc: V0 += 0x0A. */
  lemma StepThree(m: Chip, rand: Byte) returns (r: Chip)
    requires Valid(m) && m.pc == 516 && m.mem[516] == 0x70 && m.mem[517] == 0x0A && m.v[0] == 15
    ensures Valid(r) && Tick(m, rand) == Ok(r)
    ensures r.pc == 518 && r.mem == m.mem && r.v == m.v[0 := 25]
  {
    var t := TickRuns(m, rand, 0x7, 0x0, 0x0, 0xA);
    Instructions.AddImmediate(t, 0x0, 0x0, 0xA, rand);
    r := t.(v := t.v[0 := 25]);
  }

  /** 8xy1 at pc: V0 |= V1. */
  lemma StepFour(m: Chip, rand: Byte) returns (r: Chip)
    requires Valid(m) && m.pc == 518 && m.mem[518] == 0x80 && m.mem[519] == 0x11
    requires m.v[0] == 25 && m.v[1] == 15
    ensures Valid(r) && Tick(m, rand) == Ok(r)
    ensures r.pc == 520 && r.mem == m.mem && r.v == m.v[0 := 31]
  {
    var t := TickRuns(m, rand, 0x8, 0x0, 0x1, 0x1);
    DecodeEncode(0x8, 0x0, 0x1, 0x1);
    OrExample();
    r := t.(v := t.v[0 := 31]);
    assert Execute(t, Encode(0x8, 0x0, 0x1, 0x1), rand) == Ok(t.(v := t.v[0 := Bits.Or(25, 15)]));
  }

  /** A tick at a pc holding the instruction with nibbles d, x, y, n runs that
      instruction on the machine with its timers counted down and pc advanced,
      which is returned. */
  lemma TickRuns(m: Chip, rand: Byte, d: Nibble, x: Nibble, y: Nibble, n: Nibble) returns (t: Chip)
    requires Valid(m) && m.pc + 1 < MemSize
    requires m.mem[m.pc] == d * 0x10 + x && m.mem[m.pc + 1] == y * 0x10 + n
    ensures Valid(t) && t.pc == m.pc + 2 && t.v == m.v && t.mem == m.mem
    ensures Tick(m, rand) == Execute(t, Encode(d, x, y, n), rand)
  {
    Instructions.TickCycle(m, rand);
    var op := m.mem[m.pc] as int * 0x100 + m.mem[m.pc + 1];
    assert op == Encode(d, x, y, n);
    t := m.(dt := if m.dt > 0 then m.dt - 1 else 0, st := if m.st > 0 then m.st - 1 else 0, pc := m.pc + 2);
    assert Tick(m, rand) == Execute(t, op, rand);
  }

  /** 25 | 15 == 31, bit by bit. */
  lemma OrExample()
    ensures Bits.Or(25, 15) == 31
  {
    var r := Bits.Or(25, 15);
    assert Bit(25, 0) && !Bit(25, 1) && !Bit(25, 2) && Bit(25, 3) && Bit(25, 4);
    assert Bit(15, 0) && Bit(15, 1) && Bit(15, 2) && Bit(15, 3) && !Bit(15, 4);
    assert Bit(r, 0) && Bit(r, 1) && Bit(r, 2) && Bit(r, 3) && Bit(r, 4);
    BitsDetermine(r, 31);
  }

  /** The ROM-loading test: eight bytes fit at any offset below 4088 of a new
      machine and land there. */
  lemma LoadRomAnywhere(offset: Word)
    requires offset < MemSize - 8
    ensures var r := LoadRom(New(), offset, [1, 2, 3, 4, 5, 6, 7, 8]);
      r.Ok? && r.chip.mem[offset .. offset + 8] == [1, 2, 3, 4, 5, 6, 7, 8]
  {
  }

  /** Storing the BCD of 234 writes the digits 2, 3 and 4. */
  lemma BcdOf234(m: Chip, rand: Byte)
    requires Valid(m) && m.pc <= MemSize && m.i + 3 <= MemSize && m.v[0] == 234
    ensures var r := Execute(m, 0xF033, rand);
      r.Ok? && r.chip.mem[m.i .. m.i + 3] == [2, 3, 4]
  {
    Instructions.BcdInstruction(m, 0x0, rand);
    assert Encode(0xF, 0x0, 0x3, 0x3) == 0xF033;
  }

  /** 5xy1 is accepted (its low nibble is ignored) while 0x0123 is refused. */
  lemma OpcodeLegality(m: Chip, rand: Byte)
    requires Valid(m) && m.pc <= MemSize
    ensures Execute(m, 0x5001, rand).Ok?
    ensures Execute(m, 0x0123, rand) == Err(IllegalOpcode(0x0123), m)
  {
    Instructions.SkipInstructions(m, 0x0, 0x0, 0x1, rand);
    assert Encode(0x5, 0x0, 0x0, 0x1) == 0x5001;
    Instructions.IllegalOpcodeExactly(m, 0x0123, rand);
    DecodeEncode(0x0, 0x1, 0x2, 0x3);
    assert Encode(0x0, 0x1, 0x2, 0x3) == 0x0123;
  }

  /** A one-row sprite 0xFF drawn at column 60 of the top row wraps: it
      lights columns 60..63 and 0..3 of that row and nothing else. */
  lemma SpriteWraps()
    ensures var r := Sprite.Draw(Sprite.Blank(), [0xFF], 60, 0);
      && !r.1
      && forall p :: 0 <= p < Sprite.Pixels ==> (r.0[p] <==> p < 4 || 60 <= p < 64)
  {
    forall p | 0 <= p < Sprite.Pixels
      ensures Sprite.Covers([0xFF], 60, 0, p) <==> p < 4 || 60 <= p < 64
    {
      WrappedCover(p);
    }
  }

  lemma WrappedCover(p: nat)
    requires p < Sprite.Pixels
    ensures Sprite.Covers([0xFF], 60, 0, p) <==> p < 4 || 60 <= p < 64
  {
    assert Sprite.RowOf(0, p) == p / 64;
    var c := p % 64;
    assert Sprite.ColOf(60, p) == (c - 60) % 64;
    if c < 4 {
      assert (c - 60) % 64 == c + 4;
    } else if c < 60 {
      assert (c - 60) % 64 == c + 4;
    } else {
      assert (c - 60) % 64 == c - 60;
    }
    if Sprite.RowOf(0, p) == 0 && Sprite.ColOf(60, p) < 8 {
      AllBitsOfFF(7 - Sprite.ColOf(60, p));
    }
  }

  /** Drawing the full row 0xFF twice at the top-left corner leaves the row
      dark and reports the collision. */
  lemma DrawFullRowTwice(fb: seq<bool>)
    requires fb == Sprite.Blank()
    ensures var once := Sprite.Draw(fb, [0xFF], 0, 0);
      var twice := Sprite.Draw(once.0, [0xFF], 0, 0);
      && twice.0 == fb && twice.1
  {
    Sprite.DrawTwice(fb, [0xFF], 0, 0);
    AllBitsOfFF(7);
    assert Sprite.RowOf(0, 0) == 0 && Sprite.ColOf(0, 0) == 0;
    assert Sprite.Covers([0xFF], 0, 0, 0) && !fb[0];
  }

  /** Every bit of 0xFF is set. */
  lemma AllBitsOfFF(k: nat)
    requires k < 8
    ensures Bit(0xFF, k)
  {
    assert Pow2(2) == 4 && Pow2(4) == 16 && Pow2(6) == 64 && Pow2(8) == 256;
    OnesSet(8, k);
  }

  /** 2^w - 1 has bits 0..w-1 set. */
  lemma {:induction false} OnesSet(w: nat, j: nat)
    requires j < w
    ensures Bit(Pow2(w) - 1, j)
    decreases j
  {
    if j > 0 {
      assert (Pow2(w) - 1) / 2 == Pow2(w - 1) - 1;
      OnesSet(w - 1, j - 1);
    }
  }

  /** Two numbers below 32 with the same five low bits are equal. */
  lemma BitsDetermine(a: nat, b: nat)
    requires a < 32 && b < 32
    requires forall k: nat :: k < 5 ==> Bit(a, k) == Bit(b, k)
    ensures a == b
  {
    BitsDetermineFrom(a, b, 5);
  }

  lemma {:induction false} BitsDetermineFrom(a: nat, b: nat, w: nat)
    requires a < Pow2(w) && b < Pow2(w)
    requires forall k: nat :: k < w ==> Bit(a, k) == Bit(b, k)
    ensures a == b
    decreases w
  {
    if w > 0 {
      assert Bit(a, 0) == Bit(b, 0);
      forall k: nat | k < w - 1 ensures Bit(a / 2, k) == Bit(b / 2, k) {
        assert Bit(a, k + 1) == Bit(b, k + 1);
      }
      BitsDetermineFrom(a / 2, b / 2, w - 1);
    }
  }
}
