/**
 * The presentation surface of the viewer: a w x h buffer of RGB cells that
 * the renderer writes through `putpixel`, clears with a fill, and outlines
 * with `drawrectangle`.
 *
 * Coordinates handed to `putpixel` and `drawrectangle` are 16-bit unsigned
 * integers, so every int the program computes for them is reduced modulo
 * 2^16 on the way in (`Wrap16`); colour channels are 8-bit (`Wrap8`).
 */
module Surface {

  /** Values of a `uint16_t` parameter. */
  type U16 = v: int | 0 <= v < 0x1_0000

  /** Values of a `uint8_t` parameter. */
  type U8 = v: int | 0 <= v < 0x100

  /** Conversion of an int to `uint16_t`: reduction modulo 2^16. */
  function Wrap16(v: int): (r: U16)
    ensures (v - r) % 0x1_0000 == 0
    ensures 0 <= v < 0x1_0000 ==> r == v
  {
    v % 0x1_0000
  }

  /** Conversion of an int to `uint8_t`: reduction modulo 2^8. */
  function Wrap8(v: int): (r: U8)
    ensures (v - r) % 0x100 == 0
    ensures 0 <= v < 0x100 ==> r == v
  {
    v % 0x100
  }

  /** The colour stored in one cell, as the three channels handed to the pixel-format mapping. */
  datatype Colour = Rgb(r: U8, g: U8, b: U8)

  const White := Rgb(0xFF, 0xFF, 0xFF)
  const Black := Rgb(0, 0, 0)

  /**
   * The cells `putpixel` writes: it turns away column 0 and row 0 as well as
   * everything at or beyond the width or the height.
   */
  predicate Accepts(w: int, h: int, x: int, y: int)
  {
    0 < x < w && 0 < y < h
  }

  /**
   * Whether the 16-bit coordinate `a` is one of `lo, lo + 1, ..., lo + len - 1`
   * once each of those is reduced modulo 2^16.
   */
  predicate InRun(a: int, lo: int, len: int)
  {
    (a - lo) % 0x1_0000 < len
  }

  /**
   * The cells the four loops of `drawrectangle(x, y, base, height)` have
   * handed to `putpixel` after `top`, `bottom`, `left` and `right` passes of
   * each loop. The rectangle's corner is `(x - base / 2, y - height / 2)`.
   */
  predicate Traced(x: U16, y: U16, base: U16, height: U16, top: int, bottom: int, left: int, right: int, a: int, b: int)
  {
    var x0 := x - base / 2;
    var y0 := y - height / 2;
    || (InRun(a, x0, top) && b == Wrap16(y0))
    || (InRun(a, x0, bottom) && b == Wrap16(y0 + height - 1))
    || (InRun(b, y0, left) && a == Wrap16(x0))
    || (InRun(b, y0, right) && a == Wrap16(x0 + base - 1))
  }

  /** The cells on the outline `drawrectangle(x, y, base, height)` draws. */
  predicate OnOutline(x: U16, y: U16, base: U16, height: U16, a: int, b: int)
  {
    Traced(x, y, base, height, base, base, height, height, a, b)
  }

  /** One more pass of a loop adds exactly the next coordinate of its run. */
  lemma RunGrows(lo: int, n: int)
    requires 0 <= n < 0x1_0000
    ensures forall a | 0 <= a < 0x1_0000 :: InRun(a, lo, n + 1) <==> InRun(a, lo, n) || a == Wrap16(lo + n)
  {
  }

  /** A run that does not cross 0 or 2^16 is the plain interval `[lo, lo + len)`. */
  lemma RunIsInterval(a: int, lo: int, len: int)
    requires 0 <= a < 0x1_0000
    requires 0 <= lo && 0 <= len && lo + len <= 0x1_0000
    ensures InRun(a, lo, len) <==> lo <= a < lo + len
  {
  }

  /**
   * For a rectangle that lies within the 16-bit coordinate range, the cells
   * `drawrectangle` draws are exactly the perimeter of
   * `[x0, x0 + base) x [y0, y0 + height)`: the interior is left alone.
   */
  lemma OutlineIsPerimeter(x: U16, y: U16, base: U16, height: U16, a: U16, b: U16)
    requires 1 <= base && 1 <= height
    requires base / 2 <= x && x - base / 2 + base <= 0x1_0000
    requires height / 2 <= y && y - height / 2 + height <= 0x1_0000
    ensures var x0, y0 := x - base / 2, y - height / 2;
      OnOutline(x, y, base, height, a, b) <==>
        && x0 <= a < x0 + base && y0 <= b < y0 + height
        && (a == x0 || a == x0 + base - 1 || b == y0 || b == y0 + height - 1)
  {
    RunIsInterval(a, x - base / 2, base);
    RunIsInterval(b, y - height / 2, height);
  }

  /** A 1 x 5 tick centred at `(x, y)` is column `x`, rows `y - 2 .. y + 2` (modulo 2^16). */
  lemma VerticalTick(x: U16, y: U16)
    ensures forall a, b | 0 <= a < 0x1_0000 && 0 <= b < 0x1_0000 ::
      OnOutline(x, y, 1, 5, a, b) <==> a == x && InRun(b, y - 2, 5)
  {
    forall a, b | 0 <= a < 0x1_0000 && 0 <= b < 0x1_0000
      ensures OnOutline(x, y, 1, 5, a, b) <==> a == x && InRun(b, y - 2, 5)
    {
      RunGrows(x, 0);
      RunGrows(y - 2, 0);
      RunGrows(y - 2, 1);
      RunGrows(y - 2, 2);
      RunGrows(y - 2, 3);
      RunGrows(y - 2, 4);
    }
  }

  /** A 5 x 1 tick centred at `(x, y)` is row `y`, columns `x - 2 .. x + 2` (modulo 2^16). */
  lemma HorizontalTick(x: U16, y: U16)
    ensures forall a, b | 0 <= a < 0x1_0000 && 0 <= b < 0x1_0000 ::
      OnOutline(x, y, 5, 1, a, b) <==> b == y && InRun(a, x - 2, 5)
  {
    forall a, b | 0 <= a < 0x1_0000 && 0 <= b < 0x1_0000
      ensures OnOutline(x, y, 5, 1, a, b) <==> b == y && InRun(a, x - 2, 5)
    {
      RunGrows(y, 0);
      RunGrows(x - 2, 0);
      RunGrows(x - 2, 1);
      RunGrows(x - 2, 2);
      RunGrows(x - 2, 3);
      RunGrows(x - 2, 4);
    }
  }

  /**
   * The SDL surface the viewer draws on. Cell `(x, y)` is `pixels[x, y]`;
   * the surface is never wider or taller than the 16-bit coordinates that
   * address it.
   */
  class Screen {
    const w: nat
    const h: nat
    const pixels: array2<Colour>

    ghost predicate Valid()
    {
      pixels.Length0 == w && pixels.Length1 == h && w < 0x1_0000 && h < 0x1_0000
    }

    /** A freshly created surface, every cell black. */
    constructor (w: nat, h: nat)
      requires w < 0x1_0000 && h < 0x1_0000
      ensures Valid() && this.w == w && this.h == h && fresh(pixels)
      ensures forall i, j | 0 <= i < w && 0 <= j < h :: pixels[i, j] == Black
    {
      this.w, this.h := w, h;
      pixels := new Colour[w, h]((i, j) => Black);
    }

    /**
     * `putpixel`: writes `c` into cell `(x, y)` when that cell is accepted,
     * and changes nothing otherwise.
     */
    method PutPixel(x: U16, y: U16, c: Colour)
      requires Valid()
      modifies pixels
      ensures forall i, j | 0 <= i < w && 0 <= j < h ::
        pixels[i, j] == if i == x && j == y && Accepts(w, h, x, y) then c else old(pixels[i, j])
    {
      if x <= 0 || y <= 0 {
        return;
      }
      if x >= w || y >= h {
        return;
      }
      pixels[x, y] := c;
    }

    /** `SDL_FillRect` over the whole surface. */
    method Fill(c: Colour)
      requires Valid()
      modifies pixels
      ensures forall i, j | 0 <= i < w && 0 <= j < h :: pixels[i, j] == c
    {
      forall i, j | 0 <= i < w && 0 <= j < h {
        pixels[i, j] := c;
      }
    }

    /**
     * `drawrectangle`: four loops of `putpixel` along the top, bottom, left
     * and right edges of the rectangle centred at `(x, y)`. Exactly the
     * accepted cells of the outline change, all to `c`.
     */
    method DrawRectangle(x: U16, y: U16, base: U16, height: U16, c: Colour)
      requires Valid()
      modifies pixels
      ensures forall i, j | 0 <= i < w && 0 <= j < h ::
        pixels[i, j] == if Accepts(w, h, i, j) && OnOutline(x, y, base, height, i, j) then c else old(pixels[i, j])
    {
      var x0 := x - base / 2;
      var y0 := y - height / 2;
      var k := 0;
      while k < base
        invariant 0 <= k <= base
        invariant forall i, j | 0 <= i < w && 0 <= j < h ::
          pixels[i, j] == if Accepts(w, h, i, j) && Traced(x, y, base, height, k, 0, 0, 0, i, j) then c else old(pixels[i, j])
      {
        RunGrows(x0, k);
        PutPixel(Wrap16(x0 + k), Wrap16(y0), c);
        k := k + 1;
      }
      k := 0;
      while k < base
        invariant 0 <= k <= base
        invariant forall i, j | 0 <= i < w && 0 <= j < h ::
          pixels[i, j] == if Accepts(w, h, i, j) && Traced(x, y, base, height, base, k, 0, 0, i, j) then c else old(pixels[i, j])
      {
        RunGrows(x0, k);
        PutPixel(Wrap16(x0 + k), Wrap16(y0 + height - 1), c);
        k := k + 1;
      }
      k := 0;
      while k < height
        invariant 0 <= k <= height
        invariant forall i, j | 0 <= i < w && 0 <= j < h ::
          pixels[i, j] == if Accepts(w, h, i, j) && Traced(x, y, base, height, base, base, k, 0, i, j) then c else old(pixels[i, j])
      {
        RunGrows(y0, k);
        PutPixel(Wrap16(x0), Wrap16(y0 + k), c);
        k := k + 1;
      }
      k := 0;
      while k < height
        invariant 0 <= k <= height
        invariant forall i, j | 0 <= i < w && 0 <= j < h ::
          pixels[i, j] == if Accepts(w, h, i, j) && Traced(x, y, base, height, base, base, height, k, i, j) then c else old(pixels[i, j])
      {
        RunGrows(y0, k);
        PutPixel(Wrap16(x0 + base - 1), Wrap16(y0 + k), c);
        k := k + 1;
      }
    }
  }
}
