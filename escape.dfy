/**
 * The escape-count loop of the Mandelbrot pass. The complex arithmetic is
 * kept abstract: a `Plane` supplies the point a pixel stands for, the step
 * `z -> z*z + c`, and the test `|z| > 2`. Only the integer counting is
 * modelled exactly.
 */
module Escape {

  /**
   * The numeric side of one render pass: the point each pixel stands for,
   * one step of the iteration, and whether a value has escaped.
   */
  datatype Plane<!Z> = Plane(point: (int, int) -> Z, step: (Z, Z) -> Z, escaped: Z -> bool)

  function Max(a: int, b: int): (r: int)
    ensures r >= a && r >= b && (r == a || r == b)
  {
    if a < b then b else a
  }

  /** The k-th iterate for the point c, starting from z = c (not from 0). */
  function Iterate<Z>(p: Plane<Z>, c: Z, k: nat): (r: Z)
  {
    if k == 0 then c else p.step(Iterate(p, c, k - 1), c)
  }

  /**
   * The count the loop ends with when it is entered holding `z` and `count`,
   * for the iteration cap `n`.
   */
  function CountFrom<Z>(p: Plane<Z>, c: Z, z: Z, count: int, n: int): (r: int)
    ensures count <= r <= Max(count, n)
    decreases n - count
  {
    if p.escaped(z) || count >= n then count
    else CountFrom(p, c, p.step(z, c), count + 1, n)
  }

  /** The escape count of point `c` under the iteration cap `n`. */
  function EscapeTime<Z>(p: Plane<Z>, c: Z, n: int): (r: int)
    ensures 1 <= r <= Max(1, n)
  {
    CountFrom(p, c, c, 1, n)
  }

  /**
   * The escape-count loop: `count` starts at 1 and `z` at `c`; while `z` has
   * not escaped and `count` is below the cap, step `z` and count.
   */
  method EscapeCount<Z>(p: Plane<Z>, c: Z, n: int) returns (count: int)
    ensures count == EscapeTime(p, c, n)
    ensures 1 <= count <= Max(1, n)
  {
    var z := c;
    count := 1;
    while !p.escaped(z) && count < n
      invariant 1 <= count <= Max(1, n)
      invariant CountFrom(p, c, z, count, n) == EscapeTime(p, c, n)
      decreases n - count
    {
      z := p.step(z, c);
      count := count + 1;
    }
  }

  /**
   * What `CountFrom` computes when entered after `count - 1` steps: no iterate
   * before the result has escaped, and unless the cap stopped the loop the
   * last one examined has.
   */
  lemma {:induction false} CountFromMeaning<Z>(p: Plane<Z>, c: Z, count: int, n: int)
    requires 1 <= count
    requires forall k :: 0 <= k < count - 1 ==> !p.escaped(Iterate(p, c, k))
    ensures var r := CountFrom(p, c, Iterate(p, c, count - 1), count, n);
      && (forall k :: 0 <= k < r - 1 ==> !p.escaped(Iterate(p, c, k)))
      && (r < Max(count, n) ==> p.escaped(Iterate(p, c, r - 1)))
    decreases n - count
  {
    var z := Iterate(p, c, count - 1);
    if p.escaped(z) || count >= n {
    } else {
      assert Iterate(p, c, count) == p.step(z, c);
      CountFromMeaning(p, c, count + 1, n);
    }
  }

  /**
   * The escape count is pinned down by the iterates: all iterates before it
   * stay bounded, and it falls short of the cap only when the iterate it
   * stops at has escaped.
   */
  lemma EscapeTimeMeaning<Z>(p: Plane<Z>, c: Z, n: int)
    ensures var r := EscapeTime(p, c, n);
      && 1 <= r <= Max(1, n)
      && (forall k :: 0 <= k < r - 1 ==> !p.escaped(Iterate(p, c, k)))
      && (r < Max(1, n) ==> p.escaped(Iterate(p, c, r - 1)))
  {
    CountFromMeaning(p, c, 1, n);
  }

  /** Since `z` starts at `c`, a point that has already escaped counts 1. */
  lemma EscapedAtStart<Z>(p: Plane<Z>, c: Z, n: int)
    requires p.escaped(c)
    ensures EscapeTime(p, c, n) == 1
  {
  }

  /**
   * The count reaches the cap `max(1, n)` exactly when none of the iterates
   * the loop examines before the cap escapes.
   */
  lemma ReachesCap<Z>(p: Plane<Z>, c: Z, n: int)
    ensures EscapeTime(p, c, n) == Max(1, n) <==>
      forall k :: 0 <= k < Max(1, n) - 1 ==> !p.escaped(Iterate(p, c, k))
  {
    EscapeTimeMeaning(p, c, n);
  }
}
