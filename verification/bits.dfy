/**
 Fixed-width machine integers and the bitwise operations the interpreter uses.

 Bytes and 16-bit words are modelled as bounded integers, so wrap-around is
 always written out explicitly (`% 0x100`, `% 0x1_0000`). Bitwise OR, AND and
 XOR are defined bit by bit on naturals and proved to act independently on
 every bit position.
 */
module Bits {

  /** An unsigned 8-bit value (Rust `u8`). */
  type Byte = x: int | 0 <= x < 0x100

  /** An unsigned 16-bit value (Rust `u16`). */
  type Word = x: int | 0 <= x < 0x1_0000

  /** A 4-bit field of an instruction word. */
  type Nibble = x: int | 0 <= x < 0x10

  function Pow2(k: nat): (r: nat)
    ensures r >= 1
  {
    if k == 0 then 1 else 2 * Pow2(k - 1)
  }

  /** Bit `k` of `a`, counting from the least significant bit. */
  predicate Bit(a: nat, k: nat)
  {
    if k == 0 then a % 2 == 1 else Bit(a / 2, k - 1)
  }

  /** Applies `f` to every pair of corresponding bits of `a` and `b`.
      Only meaningful when `f(false, false)` is false, which holds of
      OR, AND and XOR. */
  function Combine(f: (bool, bool) -> bool, a: nat, b: nat): nat
    decreases a + b
  {
    if a == 0 && b == 0 then 0
    else 2 * Combine(f, a / 2, b / 2) + (if f(a % 2 == 1, b % 2 == 1) then 1 else 0)
  }

  /** Combining two k-bit numbers yields a k-bit number. */
  lemma {:induction false} CombineBound(f: (bool, bool) -> bool, a: nat, b: nat, k: nat)
    requires a < Pow2(k) && b < Pow2(k)
    ensures Combine(f, a, b) < Pow2(k)
    decreases k
  {
    if a == 0 && b == 0 {
    } else {
      assert k > 0;
      CombineBound(f, a / 2, b / 2, k - 1);
    }
  }

  /** Bit `k` of the combination is `f` of the two operands' bits `k`. */
  lemma {:induction false} CombineBit(f: (bool, bool) -> bool, a: nat, b: nat, k: nat)
    requires !f(false, false)
    ensures Bit(Combine(f, a, b), k) == f(Bit(a, k), Bit(b, k))
    decreases k
  {
    if a == 0 && b == 0 {
      ZeroHasNoBits(k);
    } else if k > 0 {
      var r := Combine(f, a, b);
      assert r / 2 == Combine(f, a / 2, b / 2);
      CombineBit(f, a / 2, b / 2, k - 1);
    }
  }

  lemma {:induction false} ZeroHasNoBits(k: nat)
    ensures !Bit(0, k)
  {
    if k > 0 {
      ZeroHasNoBits(k - 1);
    }
  }

  lemma CombineByte(f: (bool, bool) -> bool, a: Byte, b: Byte)
    requires !f(false, false)
    ensures Combine(f, a, b) < 0x100
    ensures forall k: nat :: Bit(Combine(f, a, b), k) == f(Bit(a, k), Bit(b, k))
  {
    assert Pow2(8) == 0x100;
    CombineBound(f, a, b, 8);
    forall k: nat ensures Bit(Combine(f, a, b), k) == f(Bit(a, k), Bit(b, k)) {
      CombineBit(f, a, b, k);
    }
  }

  /** Rust `a | b` on `u8`. */
  function Or(a: Byte, b: Byte): (r: Byte)
    ensures forall k: nat :: Bit(r, k) == (Bit(a, k) || Bit(b, k))
  {
    CombineByte((p, q) => p || q, a, b);
    Combine((p, q) => p || q, a, b)
  }

  /** Rust `a & b` on `u8`. */
  function And(a: Byte, b: Byte): (r: Byte)
    ensures forall k: nat :: Bit(r, k) == (Bit(a, k) && Bit(b, k))
  {
    CombineByte((p, q) => p && q, a, b);
    Combine((p, q) => p && q, a, b)
  }

  /** Rust `a ^ b` on `u8`. */
  function Xor(a: Byte, b: Byte): (r: Byte)
    ensures forall k: nat :: Bit(r, k) == (Bit(a, k) != Bit(b, k))
  {
    CombineByte((p, q) => p != q, a, b);
    Combine((p, q) => p != q, a, b)
  }

  /** Bit 7 of a byte is its sign bit: set exactly for values of 128 and up,
      which is what `vx & 0x80 != 0` tests. */
  lemma {:induction false} HighBit(a: Byte)
    ensures Bit(a, 7) <==> a >= 0x80
  {
    var a1 := a / 2;
    var a2 := a1 / 2;
    var a3 := a2 / 2;
    var a4 := a3 / 2;
    var a5 := a4 / 2;
    var a6 := a5 / 2;
    var a7 := a6 / 2;
    assert Bit(a, 7) == Bit(a1, 6) == Bit(a2, 5) == Bit(a3, 4) == Bit(a4, 3)
        == Bit(a5, 2) == Bit(a6, 1) == Bit(a7, 0);
    assert a7 < 2;
    assert a7 == 1 <==> a6 >= 2;
    assert a6 >= 2 <==> a5 >= 4;
    assert a5 >= 4 <==> a4 >= 8;
    assert a4 >= 8 <==> a3 >= 16;
    assert a3 >= 16 <==> a2 >= 32;
    assert a2 >= 32 <==> a1 >= 64;
    assert a1 >= 64 <==> a >= 128;
  }
}
