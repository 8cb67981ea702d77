/**
 The fetch-decode-execute cycle: `Tick` and the instruction handlers.

 Every handler is a pure function from the machine before the instruction to
 an `Outcome`. The random byte that `Cxnn` draws from the machine's generator
 is a parameter of `Tick` and `Execute`.
 */
module Cpu {
  import opened Bits
  import opened Machine
  import opened Opcode
  import Sprite
  import Font

  datatype Option<T> = None | Some(value: T)

  /** The instruction word at `pc`, high byte first (big-endian). */
  function Fetch(m: Chip): (op: Word)
    requires Valid(m) && m.pc + 1 < MemSize
    ensures op / 0x100 == m.mem[m.pc] && op % 0x100 == m.mem[m.pc + 1]
  {
    m.mem[m.pc] as int * 0x100 + m.mem[m.pc + 1]
  }

  /** One step of a timer: down by one, stopping at zero. */
  function CountDown(t: Byte): (r: Byte)
    ensures t > 0 ==> r + 1 == t
    ensures t == 0 ==> r == 0
  {
    if t > 0 then t - 1 else 0
  }

  /** `tick`: count both timers down, then fetch, advance pc past the word,
      and execute it. A pc at or past the end of memory is reported; a pc on
      the very last byte makes the fetch read past memory. */
  function Tick(m: Chip, rand: Byte): (r: Outcome)
    requires Valid(m)
    ensures r.Live() ==> Valid(r.chip)
    ensures r.Live() ==> r.chip.keypad == m.keypad
  {
    var t := m.(dt := CountDown(m.dt), st := CountDown(m.st));
    if t.pc >= MemSize then Err(OutOfMemory(t.pc), t)
    else if t.pc + 1 >= MemSize then Panicked(FetchPastEnd)
    else Execute(t.(pc := t.pc + 2), Fetch(t), rand)
  }

  /** `op` is Fx15, which loads the delay timer. */
  predicate SetsDelay(op: Word)
  {
    Decode(op).d == 0xF && Decode(op).nn == 0x15
  }

  /** `op` is Fx18, which loads the sound timer. */
  predicate SetsSound(op: Word)
  {
    Decode(op).d == 0xF && Decode(op).nn == 0x18
  }

  /** `execute`. Only the timer instructions touch the timers and no
      instruction touches the keypad. */
  function Execute(m: Chip, op: Word, rand: Byte): (r: Outcome)
    requires Valid(m) && m.pc <= MemSize
    ensures r.Live() ==> Valid(r.chip)
    ensures r.Live() ==> r.chip.keypad == m.keypad
    ensures r.Live() ==> r.chip.dt == if SetsDelay(op) then m.v[Decode(op).x] else m.dt
    ensures r.Live() ==> r.chip.st == if SetsSound(op) then m.v[Decode(op).x] else m.st
  {
    var f := Decode(op);
    var vx := m.v[f.x];
    var vy := m.v[f.y];
    match f.d
    case 0x0 =>
      if f.nn == 0x00 then Ok(m)
      else if f.nn == 0xE0 then Ok(m.(fb := Sprite.Blank()))
      else if f.nn == 0xEE then Ret(m)
      else Err(IllegalOpcode(op), m)
    case 0x1 => Jump(m, f.nnn)
    case 0x2 => Call(m, f.nnn)
    case 0x3 => Ok(SkipIf(m, vx == f.nn))
    case 0x4 => Ok(SkipIf(m, vx != f.nn))
    case 0x5 => Ok(SkipIf(m, vx == vy))
    case 0x6 => Ok(SetReg(m, f.x, f.nn))
    case 0x7 => Ok(SetReg(m, f.x, (vx + f.nn) % 0x100))
    case 0x8 => Arith(m, op, f.x, f.n, vx, vy)
    case 0x9 => Ok(SkipIf(m, vx != vy))
    case 0xA => Ok(m.(i := f.nnn))
    case 0xB => Jump(m, m.v[0] + f.nnn)
    case 0xC =>
      // `random % nn` divides by zero when nn = 0
      if f.nn == 0 then Panicked(DivideByZero) else Ok(SetReg(m, f.x, rand % f.nn))
    case 0xD => DrawSprite(m, f.x, f.y, f.n)
    case 0xE => KeyOp(m, op, f.nn, vx)
    case 0xF => Misc(m, op, f.x, f.nn, vx)
    case _ => Err(IllegalOpcode(op), m)
  }

  /** `load_reg`: register `x` takes `val`; nothing else changes. */
  function SetReg(m: Chip, x: Nibble, val: Byte): (r: Chip)
    requires Valid(m)
    ensures Valid(r) && r == m.(v := r.v)
    ensures r.v[x] == val
    ensures forall k :: 0 <= k < RegCount && k != x ==> r.v[k] == m.v[k]
  {
    m.(v := m.v[x := val])
  }

  /** `skip_if_eq` / `skip_if_ne`, given the outcome of the comparison. */
  function SkipIf(m: Chip, c: bool): (r: Chip)
    requires m.pc <= MemSize
    ensures r == m.(pc := r.pc)
    ensures r.pc == m.pc + 2 <==> c
    ensures !c ==> r.pc == m.pc
  {
    if c then m.(pc := m.pc + 2) else m
  }

  /** `ret`: pop a return address into pc. */
  function Ret(m: Chip): (r: Outcome)
    requires Valid(m)
    ensures r.Live() && Valid(r.chip)
    ensures r.Err? <==> m.sp == 0
    ensures r.Err? ==> r == Err(StackUnderflow(0), m)
    ensures r.Ok? ==> r.chip == m.(sp := m.sp - 1, pc := m.stack[m.sp - 1])
  {
    if m.sp == 0 then Err(StackUnderflow(m.sp), m)
    else Ok(m.(sp := m.sp - 1, pc := m.stack[m.sp - 1]))
  }

  /** `jump`: addresses beyond 12 bits are refused. */
  function Jump(m: Chip, addr: Word): (r: Outcome)
    requires Valid(m)
    ensures r.Live() && Valid(r.chip)
    ensures r.Ok? <==> addr <= 0xFFF
    ensures r.Ok? ==> r.chip == m.(pc := addr)
    ensures r.Err? ==> r == Err(IllegalAddress(addr), m)
  {
    if addr > 0xFFF then Err(IllegalAddress(addr), m) else Ok(m.(pc := addr))
  }

  /** `call`: push pc, then jump. The push happens before the address check,
      so a refused address leaves the return address on the stack. */
  function Call(m: Chip, addr: Word): (r: Outcome)
    requires Valid(m)
    ensures r.Live() && Valid(r.chip)
    ensures m.sp >= StackSize ==> r == Err(StackOverflow(m.sp), m)
    ensures r.Ok? <==> m.sp < StackSize && addr <= 0xFFF
    ensures m.sp < StackSize && addr > 0xFFF ==> r.Err? && r.exn == IllegalAddress(addr)
    ensures m.sp < StackSize ==>
              && r.chip.sp == m.sp + 1
              && r.chip.stack == m.stack[m.sp := m.pc]
              && r.chip.pc == (if addr <= 0xFFF then addr else m.pc)
              && r.chip == m.(sp := r.chip.sp, stack := r.chip.stack, pc := r.chip.pc)
  {
    if m.sp >= StackSize then Err(StackOverflow(m.sp), m)
    else
      var pushed := m.(stack := m.stack[m.sp := m.pc], sp := m.sp + 1);
      if addr > 0xFFF then Err(IllegalAddress(addr), pushed)
      else Ok(pushed.(pc := addr))
  }

  /** Family 8: register-to-register arithmetic and logic. In the
      carry/borrow instructions VF is written after Vx; in the shifts, before. */
  function Arith(m: Chip, op: Word, x: Nibble, n: Nibble, vx: Byte, vy: Byte): (r: Outcome)
    requires Valid(m)
    ensures r.Live() && Valid(r.chip)
    ensures r.chip == m.(v := r.chip.v)
  {
    match n
    case 0x0 => Ok(SetReg(m, x, vy))
    case 0x1 => Ok(SetReg(m, x, Or(vx, vy)))
    case 0x2 => Ok(SetReg(m, x, And(vx, vy)))
    case 0x3 => Ok(SetReg(m, x, Xor(vx, vy)))
    case 0x4 =>
      // `overflowing_add`: carry when the true sum needs 9 bits
      Ok(SetReg(SetReg(m, x, (vx + vy) % 0x100), Flag, if vx + vy >= 0x100 then 1 else 0))
    case 0x5 =>
      // `overflowing_sub`: borrow when vx < vy; VF is 1 when there is none
      Ok(SetReg(SetReg(m, x, (vx - vy) % 0x100), Flag, if vx < vy then 0 else 1))
    case 0x6 =>
      // VF := vx & 1, then vx >> 1
      Ok(SetReg(SetReg(m, Flag, vx % 2), x, vx / 2))
    case 0x7 =>
      Ok(SetReg(SetReg(m, x, (vy - vx) % 0x100), Flag, if vy < vx then 0 else 1))
    case 0xE =>
      // VF := (vx & 0x80 != 0), then vx << 1, whose ninth bit is dropped
      Ok(SetReg(SetReg(m, Flag, if vx < 0x80 then 0 else 1), x, (vx * 2) % 0x100))
    case _ => Err(IllegalOpcode(op), m)
  }

  /** `draw_sprite`: draw the `n` bytes at the index register at (Vx, Vy) and
      set VF to the collision flag. Reading a sprite row past the last byte of
      memory aborts. */
  function DrawSprite(m: Chip, x: Nibble, y: Nibble, n: Nibble): (r: Outcome)
    requires Valid(m)
    ensures r.Panicked? <==> n > 0 && m.i + n > MemSize
    ensures r.Ok? <==> !(n > 0 && m.i + n > MemSize)
    ensures r.Ok? ==> Valid(r.chip) && r.chip == m.(fb := r.chip.fb, v := r.chip.v)
    ensures r.Ok? ==> r.chip.v == m.v[Flag := r.chip.v[Flag]] && r.chip.v[Flag] <= 1
    ensures r.Ok? ==>
              var sprite := if n == 0 then [] else m.mem[m.i .. m.i + n];
              && (forall p :: 0 <= p < Sprite.Pixels ==>
                    r.chip.fb[p] == (m.fb[p] != Sprite.Covers(sprite, m.v[x], m.v[y], p)))
              && (r.chip.v[Flag] == 1 <==>
                    exists p :: 0 <= p < Sprite.Pixels && Sprite.Covers(sprite, m.v[x], m.v[y], p) && m.fb[p])
  {
    if n > 0 && m.i + n > MemSize then Panicked(MemoryIndex)
    else
      var sprite := if n == 0 then [] else m.mem[m.i .. m.i + n];
      var (fb, flipped) := Sprite.Draw(m.fb, sprite, m.v[x], m.v[y]);
      Ok(m.(fb := fb, v := m.v[Flag := if flipped then 1 else 0]))
  }

  /** The lowest-numbered pressed key among `keys[k..]`, if any. */
  function FirstPressedFrom(keys: seq<bool>, k: nat): (r: Option<nat>)
    requires k <= |keys|
    ensures r.Some? ==> k <= r.value < |keys| && keys[r.value]
    ensures r.Some? ==> forall j :: k <= j < r.value ==> !keys[j]
    ensures r.None? ==> forall j :: k <= j < |keys| ==> !keys[j]
    decreases |keys| - k
  {
    if k == |keys| then None
    else if keys[k] then Some(k)
    else FirstPressedFrom(keys, k + 1)
  }

  /** Family E: skip on the key state. Both instructions compare Vx with the
      lowest-numbered pressed key; with no key pressed neither skips. */
  function KeyOp(m: Chip, op: Word, nn: Byte, vx: Byte): (r: Outcome)
    requires Valid(m) && m.pc <= MemSize
    ensures r.Live() && Valid(r.chip)
    ensures r.chip == m.(pc := r.chip.pc)
  {
    if nn == 0x9E then
      match FirstPressedFrom(m.keypad, 0)
      case Some(k) => Ok(SkipIf(m, vx == k))
      case None => Ok(m)
    else if nn == 0xA1 then
      match FirstPressedFrom(m.keypad, 0)
      case Some(k) => Ok(SkipIf(m, vx != k))
      case None => Ok(m)
    else Err(IllegalOpcode(op), m)
  }

  /** `wait_for_key`: the key numbered Vx exists and is pressed. */
  function KeyDown(m: Chip, vx: Byte): (down: bool)
    requires Valid(m)
    ensures down <==> exists k :: 0 <= k < KeyCount && k == vx && m.keypad[k]
  {
    vx < KeyCount && m.keypad[vx]
  }

  /** Family F: timers, the index register, BCD and register blocks. */
  function Misc(m: Chip, op: Word, x: Nibble, nn: Byte, vx: Byte): (r: Outcome)
    requires Valid(m) && m.pc <= MemSize
    ensures r.Live() ==> Valid(r.chip)
    ensures r.Live() ==> r.chip.keypad == m.keypad
    ensures r.Live() ==> r.chip.dt == if nn == 0x15 then vx else m.dt
    ensures r.Live() ==> r.chip.st == if nn == 0x18 then vx else m.st
  {
    if nn == 0x07 then Ok(SetReg(m, x, m.dt))
    else if nn == 0x0A then Ok(SkipIf(m, KeyDown(m, vx)))
    else if nn == 0x15 then Ok(m.(dt := vx))
    else if nn == 0x18 then Ok(m.(st := vx))
    else if nn == 0x1E then
      // u16 addition with overflow checks
      if m.i + vx > 0xFFFF then Panicked(IndexOverflow) else Ok(m.(i := m.i + vx))
    else if nn == 0x29 then Ok(m.(i := Font.GlyphSize * vx))
    else if nn == 0x33 then StoreBcd(m, vx)
    else if nn == 0x55 then StoreRegs(m, x, 0)
    else if nn == 0x65 then LoadRegs(m, x, 0)
    else Err(IllegalOpcode(op), m)
  }

  /** `store_reg_bcd`: the hundreds, tens and units digits of `vx` at the
      index register. The three-byte slice must lie inside memory. */
  function StoreBcd(m: Chip, vx: Byte): (r: Outcome)
    requires Valid(m)
    ensures r.Panicked? <==> m.i + 3 > MemSize
    ensures r.Ok? <==> m.i + 3 <= MemSize
    ensures r.Ok? ==> Valid(r.chip) && r.chip == m.(mem := r.chip.mem)
    ensures r.Ok? ==> forall a :: 0 <= a < MemSize && !(m.i <= a < m.i + 3) ==> r.chip.mem[a] == m.mem[a]
    ensures r.Ok? ==> 100 * r.chip.mem[m.i] as int + 10 * r.chip.mem[m.i + 1] as int + r.chip.mem[m.i + 2] as int == vx
    ensures r.Ok? ==> r.chip.mem[m.i] <= 2 && r.chip.mem[m.i + 1] < 10 && r.chip.mem[m.i + 2] < 10
  {
    if m.i + 3 > MemSize then Panicked(MemoryIndex)
    else
      var rest := vx % 100;
      var bcd := [vx / 100, rest / 10, rest % 10];
      Ok(m.(mem := m.mem[..m.i] + bcd + m.mem[m.i + 3..]))
  }

  /** Registers V0..V(x-1) land at addresses i.. ; V(x) and up are not stored. */
  ghost predicate StoredFrom(m: Chip, x: nat, k: nat, mem: seq<Byte>)
    requires Valid(m) && |mem| == MemSize && x <= RegCount
  {
    forall a :: 0 <= a < MemSize ==>
      mem[a] == if m.i + k <= a < m.i + x then m.v[a - m.i] else m.mem[a]
  }

  /** `store_regs` from loop iteration `k` on: copy V[k..x) to memory at
      i + k.., refusing the first address at or past the end of memory. */
  function StoreRegs(m: Chip, x: nat, k: nat): (r: Outcome)
    requires Valid(m) && k <= x <= RegCount
    requires k == 0 || m.i + k <= MemSize
    ensures r.Live() && Valid(r.chip) && r.chip == m.(mem := r.chip.mem)
    ensures r.Ok? <==> k == x || m.i + x <= MemSize
    ensures r.Err? ==> r.exn == IllegalAddress(if m.i >= MemSize then m.i else MemSize)
    ensures StoredFrom(m, x, k, r.chip.mem)
    decreases x - k
  {
    if k == x then Ok(m)
    else if m.i + k < MemSize then StoreRegs(m.(mem := m.mem[m.i + k := m.v[k]]), x, k + 1)
    else Err(IllegalAddress((m.i + k) % 0x1_0000), m)
  }

  /** `load_regs` from loop iteration `k` on: copy memory at i + k.. into
      V[k..x), refusing the first address at or past the end of memory. */
  function LoadRegs(m: Chip, x: nat, k: nat): (r: Outcome)
    requires Valid(m) && k <= x <= RegCount
    requires k == 0 || m.i + k <= MemSize
    ensures r.Live() && Valid(r.chip) && r.chip == m.(v := r.chip.v)
    ensures r.Ok? <==> k == x || m.i + x <= MemSize
    ensures r.Err? ==> r.exn == IllegalAddress(if m.i >= MemSize then m.i else MemSize)
    ensures forall j :: 0 <= j < RegCount ==>
              r.chip.v[j] == if k <= j < x && m.i + j < MemSize then m.mem[m.i + j] else m.v[j]
    decreases x - k
  {
    if k == x then Ok(m)
    else if m.i + k < MemSize then LoadRegs(m.(v := m.v[k := m.mem[m.i + k]]), x, k + 1)
    else Err(IllegalAddress((m.i + k) % 0x1_0000), m)
  }
}
