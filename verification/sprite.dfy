/**
 Sprite drawing on the 64 x 32 monochrome framebuffer.

 `Draw` follows the source's two nested loops pixel by pixel. `Covers` is an
 independent description of the same picture: the framebuffer index each
 sprite pixel lands on, inverted, so that for every framebuffer index it names
 the one sprite pixel (if any) that can land there. The main lemma shows that
 drawing XORs exactly the covered pixels and reports a collision exactly when
 a covered pixel was already on.
 */
module Sprite {
  import opened Bits

  const Width := 64
  const Height := 32
  const Pixels := Width * Height

  /** A screen with every pixel off, as `disp_clr` leaves it. */
  function Blank(): (fb: seq<bool>)
    ensures |fb| == Pixels && forall p :: 0 <= p < Pixels ==> !fb[p]
  {
    seq(Pixels, _ => false)
  }

  /** Column `j` of a sprite row, counted from the left: `row & (0x80 >> j) != 0`. */
  predicate Lit(row: Byte, j: nat)
    requires j < 8
  {
    Bit(row, 7 - j)
  }

  /** Where pixel (row `i`, column `j`) of a sprite drawn at (`x`, `y`) lands,
      wrapping around both edges of the screen. */
  function PixelIndex(x: nat, y: nat, i: nat, j: nat): (p: nat)
    ensures p < Pixels
  {
    (x + j) % Width + ((y + i) % Height) * Width
  }

  /** The sprite row whose pixels land on the screen row of index `p`. */
  function RowOf(y: nat, p: nat): nat
  {
    (p / Width - y) % Height
  }

  /** The sprite column whose pixels land on the screen column of index `p`. */
  function ColOf(x: nat, p: nat): nat
  {
    (p % Width - x) % Width
  }

  /** A set bit of the sprite lands on index `p`. */
  predicate Covers(sprite: seq<Byte>, x: nat, y: nat, p: nat)
  {
    RowOf(y, p) < |sprite| && ColOf(x, p) < 8 && Lit(sprite[RowOf(y, p)], ColOf(x, p))
  }

  /** The source's inner loop: columns `j`..7 of sprite row `i`, toggling every
      lit pixel and accumulating whether one of them was on. */
  function DrawRow(fb: seq<bool>, row: Byte, x: nat, y: nat, i: nat, j: nat, flipped: bool): (r: (seq<bool>, bool))
    requires |fb| == Pixels && j <= 8
    ensures |r.0| == Pixels
    decreases 8 - j
  {
    if j == 8 then (fb, flipped)
    else if Lit(row, j) then
      var p := PixelIndex(x, y, i, j);
      DrawRow(fb[p := !fb[p]], row, x, y, i, j + 1, flipped || fb[p])
    else
      DrawRow(fb, row, x, y, i, j + 1, flipped)
  }

  /** The source's outer loop: sprite rows `i`.. to the end. */
  function DrawRows(fb: seq<bool>, sprite: seq<Byte>, x: nat, y: nat, i: nat, flipped: bool): (r: (seq<bool>, bool))
    requires |fb| == Pixels && i <= |sprite|
    ensures |r.0| == Pixels
    decreases |sprite| - i
  {
    if i == |sprite| then (fb, flipped)
    else
      var (fb', flipped') := DrawRow(fb, sprite[i], x, y, i, 0, flipped);
      DrawRows(fb', sprite, x, y, i + 1, flipped')
  }

  /** Draws `sprite` with its top-left corner at (`x`, `y`); the result is the
      new framebuffer and whether some pixel went from on to off. The sprite
      height is an instruction nibble, so below 16. */
  function Draw(fb: seq<bool>, sprite: seq<Byte>, x: Byte, y: Byte): (r: (seq<bool>, bool))
    requires |fb| == Pixels && |sprite| < 16
    ensures |r.0| == Pixels
    ensures forall p :: 0 <= p < Pixels ==> r.0[p] == (fb[p] != Covers(sprite, x, y, p))
    ensures r.1 <==> exists p :: 0 <= p < Pixels && Covers(sprite, x, y, p) && fb[p]
  {
    DrawRowsSpec(fb, sprite, x, y, 0, false);
    DrawRows(fb, sprite, x, y, 0, false)
  }

  /** Columns `j`..7 of sprite row `i` cover index `p`. */
  predicate RowCovers(row: Byte, x: nat, y: nat, i: nat, j: nat, p: nat)
  {
    RowOf(y, p) == i && j <= ColOf(x, p) < 8 && Lit(row, ColOf(x, p))
  }

  /** Sprite rows `i`.. cover index `p`. */
  predicate RowsCovers(sprite: seq<Byte>, x: nat, y: nat, i: nat, p: nat)
  {
    i <= RowOf(y, p) < |sprite| && ColOf(x, p) < 8 && Lit(sprite[RowOf(y, p)], ColOf(x, p))
  }

  /** `RowOf` and `ColOf` recover the sprite coordinates of a landed pixel. */
  lemma PixelInverse(x: nat, y: nat, i: nat, j: nat)
    requires i < Height && j < Width
    ensures RowOf(y, PixelIndex(x, y, i, j)) == i
    ensures ColOf(x, PixelIndex(x, y, i, j)) == j
  {
    var c := (x + j) % Width;
    var r := (y + i) % Height;
    assert PixelIndex(x, y, i, j) == c + r * Width;
    assert (c + r * Width) / Width == r;
    assert (c + r * Width) % Width == c;
    ModDiff(y, i, Height);
    ModDiff(x, j, Width);
  }

  lemma ModDiff(a: nat, k: nat, m: nat)
    requires (m == Height || m == Width) && k < m
    ensures ((a + k) % m - a) % m == k
  {
    var q := (a + k) / m;
    if m == Height {
      assert (a + k) % Height - a == k - q * Height;
    } else {
      assert (a + k) % Width - a == k - q * Width;
    }
    ModMultiple(k, q, m);
  }

  lemma ModMultiple(k: int, q: int, m: int)
    requires m == Height || m == Width
    ensures (k - q * m) % m == k % m
  {
    var e, d := k / m, k % m;
    assert k - q * m == (e - q) * m + d;
    if m == Height {
      assert k - q * Height == (e - q) * Height + d;
    } else {
      assert k - q * Width == (e - q) * Width + d;
    }
  }

  /** Every index is where the sprite pixel named by `RowOf` and `ColOf` lands. */
  lemma PixelOnto(x: nat, y: nat, p: nat)
    requires p < Pixels
    ensures PixelIndex(x, y, RowOf(y, p), ColOf(x, p)) == p
  {
    var r := p / Width;
    var c := p % Width;
    assert p == c + r * Width;
    ModBack(y, r, Height);
    ModBack(x, c, Width);
  }

  lemma ModBack(a: nat, t: nat, m: nat)
    requires (m == Height || m == Width) && t < m
    ensures (a + (t - a) % m) % m == t
  {
    var k := (t - a) % m;
    var q := (t - a) / m;
    assert t - a == k + q * m;
    assert a + k == t - q * m;
    ModMultiple(t, q, m);
  }

  lemma {:induction false} DrawRowSpec(fb: seq<bool>, row: Byte, x: nat, y: nat, i: nat, j: nat, flipped: bool)
    requires |fb| == Pixels && j <= 8 && i < Height
    ensures var r := DrawRow(fb, row, x, y, i, j, flipped);
      && (forall p :: 0 <= p < Pixels ==> r.0[p] == (fb[p] != RowCovers(row, x, y, i, j, p)))
      && (r.1 <==> flipped || exists p :: 0 <= p < Pixels && RowCovers(row, x, y, i, j, p) && fb[p])
    decreases 8 - j
  {
    var r := DrawRow(fb, row, x, y, i, j, flipped);
    if j == 8 {
    } else if Lit(row, j) {
      var p0 := PixelIndex(x, y, i, j);
      PixelInverse(x, y, i, j);
      var fb1 := fb[p0 := !fb[p0]];
      DrawRowSpec(fb1, row, x, y, i, j + 1, flipped || fb[p0]);
      assert RowCovers(row, x, y, i, j, p0) && !RowCovers(row, x, y, i, j + 1, p0);
      forall p | 0 <= p < Pixels
        ensures RowCovers(row, x, y, i, j, p) <==> p == p0 || RowCovers(row, x, y, i, j + 1, p)
      {
        if RowCovers(row, x, y, i, j, p) && ColOf(x, p) == j {
          PixelOnto(x, y, p);
        }
      }
      if r.1 && !flipped && !fb[p0] {
        var p :| 0 <= p < Pixels && RowCovers(row, x, y, i, j + 1, p) && fb1[p];
        assert RowCovers(row, x, y, i, j, p) && fb[p];
      }
    } else {
      DrawRowSpec(fb, row, x, y, i, j + 1, flipped);
      assert forall p :: 0 <= p < Pixels ==>
        (RowCovers(row, x, y, i, j, p) <==> RowCovers(row, x, y, i, j + 1, p));
    }
  }

  lemma {:induction false} DrawRowsSpec(fb: seq<bool>, sprite: seq<Byte>, x: nat, y: nat, i: nat, flipped: bool)
    requires |fb| == Pixels && i <= |sprite| <= Height
    ensures var r := DrawRows(fb, sprite, x, y, i, flipped);
      && (forall p :: 0 <= p < Pixels ==> r.0[p] == (fb[p] != RowsCovers(sprite, x, y, i, p)))
      && (r.1 <==> flipped || exists p :: 0 <= p < Pixels && RowsCovers(sprite, x, y, i, p) && fb[p])
    decreases |sprite| - i
  {
    if i < |sprite| {
      var (fb1, f1) := DrawRow(fb, sprite[i], x, y, i, 0, flipped);
      DrawRowSpec(fb, sprite[i], x, y, i, 0, flipped);
      DrawRowsSpec(fb1, sprite, x, y, i + 1, f1);
      assert forall p :: 0 <= p < Pixels ==>
        (RowsCovers(sprite, x, y, i, p) <==>
           RowCovers(sprite[i], x, y, i, 0, p) || RowsCovers(sprite, x, y, i + 1, p));
      var r := DrawRows(fb, sprite, x, y, i, flipped);
      if r.1 && !f1 {
        var p :| 0 <= p < Pixels && RowsCovers(sprite, x, y, i + 1, p) && fb1[p];
        assert RowsCovers(sprite, x, y, i, p) && fb[p];
      }
      if f1 && !flipped {
        var p :| 0 <= p < Pixels && RowCovers(sprite[i], x, y, i, 0, p) && fb[p];
        assert RowsCovers(sprite, x, y, i, p);
      }
    }
  }

  /** Drawing a sprite twice at the same place restores the framebuffer; the
      second draw reports a collision exactly when some pixel of the sprite
      was off before the first. */
  lemma DrawTwice(fb: seq<bool>, sprite: seq<Byte>, x: Byte, y: Byte)
    requires |fb| == Pixels && |sprite| < 16
    ensures Draw(Draw(fb, sprite, x, y).0, sprite, x, y).0 == fb
    ensures Draw(Draw(fb, sprite, x, y).0, sprite, x, y).1 <==>
              exists p :: 0 <= p < Pixels && Covers(sprite, x, y, p) && !fb[p]
  {
    var once := Draw(fb, sprite, x, y);
    var twice := Draw(once.0, sprite, x, y);
    assert forall p :: 0 <= p < Pixels ==> once.0[p] == !fb[p] || !Covers(sprite, x, y, p);
  }
}
