/**
 The CHIP-8 machine state, the interpreter's error results, and the
 operations that set the state up from outside: construction, reset, program
 loading, the keypad and the tone output.

 The random-number generator the source keeps inside the machine is not part
 of this state: the one instruction that uses it receives its random byte as a
 parameter (see `Cpu.Execute`), so seeds play no role here.
 */
module Machine {
  import opened Bits
  import Font
  import Sprite

  const MemSize := 4096
  const StackSize := 16
  const RegCount := 16
  const KeyCount := 16
  /** Where programs are conventionally loaded and where execution starts. */
  const EntryAddr := 512
  /** Register VF, which doubles as the carry, borrow, shift and collision flag. */
  const Flag := 0xF

  datatype Chip = Chip(
    mem: seq<Byte>,       // 4 KiB of memory
    v: seq<Byte>,         // registers V0..VF
    i: Word,              // index register
    pc: Word,             // program counter
    stack: seq<Word>,     // return addresses
    sp: Byte,             // number of occupied stack slots
    dt: Byte,             // delay timer
    st: Byte,             // sound timer
    keypad: seq<bool>,    // key 0x0..0xF pressed?
    fb: seq<bool>         // 64 x 32 pixels, row-major
  )

  /** The fixed array sizes of the source's state, and a stack pointer that
      never exceeds the stack's capacity (calls refuse to push past it). */
  predicate Valid(m: Chip)
  {
    && |m.mem| == MemSize
    && |m.v| == RegCount
    && |m.stack| == StackSize
    && m.sp <= StackSize
    && |m.keypad| == KeyCount
    && |m.fb| == Sprite.Pixels
  }

  /** The conditions the source reports as errors. Each carries the same
      payload as the source: the offending address, size, stack pointer or
      instruction word, truncated to its field's width. `OutOfMemory` carries
      the program length for `load_rom` and the pc for `tick`. */
  datatype Exception =
    | OutOfMemory(value: Word)
    | StackOverflow(depth: Byte)
    | StackUnderflow(level: Byte)
    | IllegalOpcode(opcode: Word)
    | IllegalAddress(addr: Word)

  /** The places where the source does not return an error but aborts the
      process (a Rust panic, with overflow checks on as in a debug build). */
  datatype PanicCause =
    | FetchPastEnd        // fetching at pc = 4095 reads mem[4096]
    | DivideByZero        // Cxnn with nn = 0 computes `random % 0`
    | MemoryIndex         // a sprite or BCD access beyond the last byte
    | IndexOverflow       // Fx1E overflows the 16-bit index register
    | OffsetPastEnd       // load_rom with an offset above 4096

  /** The outcome of an operation that can fail. An error carries the machine
      as the caller observes it afterwards: the source mutates in place and
      keeps whatever it changed before it detected the error. */
  datatype Outcome =
    | Ok(chip: Chip)
    | Err(exn: Exception, chip: Chip)
    | Panicked(cause: PanicCause)
  {
    /** The machine is still usable after this outcome. */
    predicate Live()
    {
      Ok? || Err?
    }
  }

  /** Everything but memory as it is right after construction. */
  predicate Cleared(m: Chip)
  {
    && Valid(m)
    && (forall r :: 0 <= r < RegCount ==> m.v[r] == 0)
    && m.i == 0
    && m.pc == EntryAddr
    && (forall s :: 0 <= s < StackSize ==> m.stack[s] == 0)
    && m.sp == 0
    && m.dt == 0
    && m.st == 0
    && (forall k :: 0 <= k < KeyCount ==> !m.keypad[k])
    && (forall p :: 0 <= p < Sprite.Pixels ==> !m.fb[p])
  }

  /** `Chip::new`: the font at address 0, all other memory and state zero,
      execution starting at the entry address. */
  function New(): (m: Chip)
    ensures Cleared(m)
    ensures m.mem[..|Font.Chars|] == Font.Chars
    ensures forall a :: |Font.Chars| <= a < MemSize ==> m.mem[a] == 0
  {
    Chip(Font.Chars + seq(MemSize - |Font.Chars|, _ => 0),
         seq(RegCount, _ => 0), 0, EntryAddr,
         seq(StackSize, _ => 0), 0, 0, 0,
         seq(KeyCount, _ => false),
         Sprite.Blank())
  }

  /** `Chip::reset`: every field back to its initial value, except that ALL of
      memory is zeroed, the font included. */
  function Reset(m: Chip): (r: Chip)
    ensures Cleared(r)
    ensures forall a :: 0 <= a < MemSize ==> r.mem[a] == 0
  {
    Chip(seq(MemSize, _ => 0),
         seq(RegCount, _ => 0), 0, EntryAddr,
         seq(StackSize, _ => 0), 0, 0, 0,
         seq(KeyCount, _ => false),
         Sprite.Blank())
  }

  /** `set_keypad`: keys 0x0..0xF are updated, any other key number is ignored. */
  function SetKeypad(m: Chip, key: Byte, pressed: bool): (r: Chip)
    requires Valid(m)
    ensures Valid(r)
    ensures key < KeyCount ==> r.keypad[key] == pressed
    ensures forall k :: 0 <= k < KeyCount && k != key ==> r.keypad[k] == m.keypad[k]
    ensures r.(keypad := m.keypad) == m
  {
    if key < KeyCount then m.(keypad := m.keypad[key := pressed]) else m
  }

  /** `load_rom`: copies `bin` to memory at `offset` when it fits. */
  function LoadRom(m: Chip, offset: Word, bin: seq<Byte>): (r: Outcome)
    requires Valid(m)
    ensures r.Panicked? <==> offset > MemSize
    ensures r.Ok? <==> offset + |bin| <= MemSize
    ensures r.Err? ==> r == Err(OutOfMemory(|bin| % 0x1_0000), m)
    ensures r.Ok? ==> Valid(r.chip) && r.chip == m.(mem := r.chip.mem)
    ensures r.Ok? ==> r.chip.mem[offset .. offset + |bin|] == bin
    ensures r.Ok? ==> forall a :: 0 <= a < MemSize && !(offset <= a < offset + |bin|) ==>
                        r.chip.mem[a] == m.mem[a]
  {
    if offset > MemSize then
      // `MEM_SIZE - offset as usize` underflows
      Panicked(OffsetPastEnd)
    else if |bin| > MemSize - offset then
      Err(OutOfMemory(|bin| % 0x1_0000), m)
    else
      Ok(m.(mem := m.mem[..offset] + bin + m.mem[offset + |bin|..]))
  }

  /** `tone`: the sound is on exactly while the sound timer runs. */
  function Tone(m: Chip): (on: bool)
    ensures on <==> m.st > 0
  {
    m.st != 0
  }

  /** Reset discards everything about the machine it is applied to. */
  lemma ResetForgets(m1: Chip, m2: Chip)
    ensures Reset(m1) == Reset(m2)
  {
  }

  /** A reset machine agrees with a new one everywhere except the font area,
      which reset leaves zeroed while construction fills it with the font. */
  lemma ResetVersusNew(m: Chip)
    ensures Reset(m).(mem := New().mem) == New()
    ensures Reset(m).mem[|Font.Chars|..] == New().mem[|Font.Chars|..]
    ensures Reset(m).mem[0] == 0 && New().mem[0] == 0xF0
  {
    assert Font.Chars[0] == 0xF0;
    assert New().mem[0] == Font.Chars[0];
  }
}
