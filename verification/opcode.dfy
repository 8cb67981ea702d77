/**
 Splitting a 16-bit instruction word into its fields.

 The source extracts the fields with masks and shifts. On unsigned values
 `(op & 0xF000) >> 12` is `op / 0x1000` and `op & 0x0FFF` is `op % 0x1000`;
 the narrower fields are taken from the wider ones in the same way.
 */
module Opcode {
  import opened Bits

  /** d: the instruction family (top nibble); x, y: register indices;
      n: low nibble; nn: low byte; nnn: low 12 bits, an address. */
  datatype Fields = Fields(d: Nibble, x: Nibble, y: Nibble, n: Nibble, nn: Byte, nnn: Word)

  /** The fields of `op`, which reassemble to `op`, with nn and nnn being the
      low 8 and 12 bits. */
  function Decode(op: Word): (f: Fields)
    ensures op == f.d * 0x1000 + f.x * 0x100 + f.y * 0x10 + f.n
    ensures f.nn == f.y * 0x10 + f.n
    ensures f.nnn == f.x * 0x100 + f.nn
  {
    var nnn := op % 0x1000;
    var nn := nnn % 0x100;
    Fields(op / 0x1000, nnn / 0x100, nn / 0x10, nn % 0x10, nn, nnn)
  }

  /** The instruction word with the four given nibbles, most significant first. */
  function Encode(d: Nibble, x: Nibble, y: Nibble, n: Nibble): (op: Word)
  {
    d * 0x1000 + x * 0x100 + y * 0x10 + n
  }

  /** Decoding recovers exactly the nibbles an instruction was built from. */
  lemma DecodeEncode(d: Nibble, x: Nibble, y: Nibble, n: Nibble)
    ensures Decode(Encode(d, x, y, n)) == Fields(d, x, y, n, y * 0x10 + n, x * 0x100 + y * 0x10 + n)
  {
    var op := Encode(d, x, y, n);
    var f := Decode(op);
    NibblesUnique(f.d, f.x, f.y, f.n, d, x, y, n);
  }

  /** Decoding loses nothing: every word is rebuilt from its fields. */
  lemma EncodeDecode(op: Word)
    ensures var f := Decode(op); Encode(f.d, f.x, f.y, f.n) == op
  {
  }

  /** An instruction given as family and 12-bit address decodes to them. */
  lemma DecodeAddress(d: Nibble, nnn: int)
    requires 0 <= nnn < 0x1000
    ensures Decode(d * 0x1000 + nnn).d == d && Decode(d * 0x1000 + nnn).nnn == nnn
  {
  }

  /** Base-16 digits are unique. */
  lemma NibblesUnique(d: Nibble, x: Nibble, y: Nibble, n: Nibble,
                      d': Nibble, x': Nibble, y': Nibble, n': Nibble)
    requires d * 0x1000 + x * 0x100 + y * 0x10 + n == d' * 0x1000 + x' * 0x100 + y' * 0x10 + n'
    ensures d == d' && x == x' && y == y' && n == n'
  {
    var lo := x * 0x100 + y * 0x10 + n;
    var lo' := x' * 0x100 + y' * 0x10 + n';
    assert lo < 0x1000 && lo' < 0x1000;
    assert d == d';
    assert y * 0x10 + n < 0x100 && y' * 0x10 + n' < 0x100;
    assert x == x';
    assert y == y';
  }
}
