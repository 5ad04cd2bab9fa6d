/**
 * One pass of the Mandelbrot renderer (the worker-thread function
 * `mandelbrot`): clear the surface to white, sweep the inner region column by
 * column writing one escape-count colour per pixel while polling the
 * liveness flag, present every few columns, and finally draw the metric
 * border and its tick marks.
 *
 * The liveness flag is an input: `alive(x, y)` is the value the pass reads
 * just before pixel `(x, y)`. Presenting the surface to the display is
 * recorded in a ghost log of `Present` events.
 */
module Render {
  import opened Surface
  import opened Escape

  datatype Option<T> = None | Some(value: T)

  /** What the pass function returns: it returns -1 when it gives up. */
  datatype PassResult = Finished | Aborted

  /** A present of the surface: after the white fill, after a sweep column, and at the end. */
  datatype Present = Blank | Column(x: int) | Final

  /**
   * The swept region: a margin of `w / 30` columns on the left and right and
   * `h / 30` rows at the top and bottom is left for the metric.
   */
  predicate InSweep(w: int, h: int, x: int, y: int)
  {
    w / 30 <= x < w - w / 30 && h / 30 <= y < h - h / 30
  }

  /** `(a, b)` comes strictly before `(x, y)` in the column-major sweep order. */
  predicate Precedes(a: int, b: int, x: int, y: int)
  {
    a < x || (a == x && b < y)
  }

  /**
   * The first pixel, from `(x, y)` on in sweep order, at which the pass reads
   * the liveness flag as false.
   */
  function FirstDead(w: nat, h: nat, alive: (int, int) -> bool, x: int, y: int): (r: Option<(int, int)>)
    requires w / 30 <= x <= w - w / 30 && h / 30 <= y <= h - h / 30
    decreases w - w / 30 - x, h - h / 30 - y
  {
    if x == w - w / 30 then None
    else if y == h - h / 30 then FirstDead(w, h, alive, x + 1, h / 30)
    else if !alive(x, y) then Some((x, y))
    else FirstDead(w, h, alive, x, y + 1)
  }

  /** The pixel at which the whole pass is cancelled, if any. */
  function StopPoint(w: nat, h: nat, alive: (int, int) -> bool): (r: Option<(int, int)>)
  {
    FirstDead(w, h, alive, w / 30, h / 30)
  }

  /** Whether the sweep gets as far as computing pixel `(i, j)`. */
  predicate Reached(w: nat, h: nat, alive: (int, int) -> bool, i: int, j: int)
  {
    match StopPoint(w, h, alive)
    case None => true
    case Some(q) => Precedes(i, j, q.0, q.1)
  }

  /** The first sweep column that is not completed. */
  function StopColumn(w: nat, h: nat, alive: (int, int) -> bool): (r: int)
  {
    match StopPoint(w, h, alive)
    case None => w - w / 30
    case Some(q) => q.0
  }

  /** The presents made after the sweep columns `lo .. hi - 1`: one after each column divisible by `every`. */
  function FlipColumns(lo: int, hi: int, every: int): (r: seq<Present>)
    requires every > 0
    decreases hi - lo
  {
    if hi <= lo then []
    else FlipColumns(lo, hi - 1, every) + (if (hi - 1) % every == 0 then [Column(hi - 1)] else [])
  }

  /** The colour a swept pixel gets from its escape count: `(count, count, 2 * count)` as 8-bit channels. */
  function SweepColour(count: int): (r: Colour)
  {
    Rgb(Wrap8(count), Wrap8(count), Wrap8(2 * count))
  }

  /** The colour the sweep computes for pixel `(i, j)` under iteration cap `n`. */
  function PixelColour<Z>(p: Plane<Z>, n: int, i: int, j: int): (r: Colour)
  {
    SweepColour(EscapeTime(p, p.point(i, j), n))
  }

  /** The outline drawn by the border call of the pass. */
  predicate OnBorder(w: U16, h: U16, i: int, j: int)
  {
    OnOutline(w / 2, h / 2, w - 2 * (w / 30), h - 2 * (h / 30), i, j)
  }

  /**
   * The cells the top and bottom tick loop has drawn once it has looked at
   * the columns before `upTo`: a 1 x 5 tick centred on rows `h / 30` and
   * `h - h / 30` at every column divisible by `w / 10`.
   */
  predicate ColumnTick(w: int, h: int, upTo: int, i: int, j: int)
    requires w >= 10
  {
    w / 30 <= i < upTo && i % (w / 10) == 0 &&
    (InRun(j, h / 30 - 2, 5) || InRun(j, h - h / 30 - 2, 5))
  }

  /**
   * The cells the left and right tick loop has drawn once it has looked at
   * the rows before `upTo`: a 5 x 1 tick centred on columns `w / 30` and
   * `w - w / 30` at every row divisible by `h / 10`.
   */
  predicate RowTick(w: int, h: int, upTo: int, i: int, j: int)
    requires h >= 10
  {
    h / 30 <= j < upTo && j % (h / 10) == 0 &&
    (InRun(i, w / 30 - 2, 5) || InRun(i, w - w / 30 - 2, 5))
  }

  /** Everything the metric drawing of a completed pass covers. */
  predicate OnOverlay(w: U16, h: U16, i: int, j: int)
    requires w >= 10 && h >= 10
  {
    OnBorder(w, h, i, j) || ColumnTick(w, h, w - w / 30, i, j) || RowTick(w, h, h - h / 30, i, j)
  }

  /**
   * The surface after a pass on a `w x h` screen that got past loading its
   * font: the metric in black when the pass was not cancelled, over the
   * swept pixels it reached, over white.
   */
  function Frame<Z>(w: U16, h: U16, n: int, p: Plane<Z>, alive: (int, int) -> bool, i: int, j: int): (r: Colour)
    requires w >= 10 && h >= 10
  {
    if Accepts(w, h, i, j) && StopPoint(w, h, alive) == None && OnOverlay(w, h, i, j) then Black
    else if Accepts(w, h, i, j) && InSweep(w, h, i, j) && Reached(w, h, alive, i, j) then PixelColour(p, n, i, j)
    else White
  }

  /**
   * The column-major sweep over the inner region. Before each pixel the
   * flag is polled; a false flag ends the sweep at once. Every swept pixel
   * reached gets its escape-count colour (through `putpixel`, so row 0 is
   * left alone); everything else is untouched. A present follows every
   * completed column divisible by `w / 80`.
   */
  method Sweep<Z>(s: Screen, n: int, p: Plane<Z>, alive: (int, int) -> bool)
    returns (finished: bool, ghost flips: seq<Present>)
    requires s.Valid() && 80 <= s.w
    modifies s.pixels
    ensures finished <==> StopPoint(s.w, s.h, alive) == None
    ensures flips == FlipColumns(s.w / 30, StopColumn(s.w, s.h, alive), s.w / 80)
    ensures forall i, j | 0 <= i < s.w && 0 <= j < s.h ::
      s.pixels[i, j] ==
        if Accepts(s.w, s.h, i, j) && InSweep(s.w, s.h, i, j) && Reached(s.w, s.h, alive, i, j)
        then PixelColour(p, n, i, j)
        else old(s.pixels[i, j])
  {
    flips := [];
    var x: U16 := s.w / 30;
    while x < s.w - s.w / 30
      invariant s.w / 30 <= x <= s.w - s.w / 30
      invariant StopPoint(s.w, s.h, alive) == FirstDead(s.w, s.h, alive, x, s.h / 30)
      invariant flips == FlipColumns(s.w / 30, x, s.w / 80)
      invariant forall i, j | 0 <= i < s.w && 0 <= j < s.h ::
        s.pixels[i, j] ==
          if Accepts(s.w, s.h, i, j) && InSweep(s.w, s.h, i, j) && i < x
          then PixelColour(p, n, i, j)
          else old(s.pixels[i, j])
    {
      var y: U16 := s.h / 30;
      while y < s.h - s.h / 30
        invariant s.h / 30 <= y <= s.h - s.h / 30
        invariant StopPoint(s.w, s.h, alive) == FirstDead(s.w, s.h, alive, x, y)
        invariant forall i, j | 0 <= i < s.w && 0 <= j < s.h ::
          s.pixels[i, j] ==
            if Accepts(s.w, s.h, i, j) && InSweep(s.w, s.h, i, j) && Precedes(i, j, x, y)
            then PixelColour(p, n, i, j)
            else old(s.pixels[i, j])
      {
        if !alive(x, y) {
          finished := false;
          return;
        }
        var count := EscapeCount(p, p.point(x, y), n);
        s.PutPixel(x, y, SweepColour(count));
        y := y + 1;
      }
      if x % (s.w / 80) == 0 {
        flips := flips + [Column(x)];
      }
      x := x + 1;
    }
    finished := true;
  }

  /**
   * The metric: the border around the swept region, then the 1 x 5 ticks
   * along the top and bottom and the 5 x 1 ticks along the left and right,
   * all in black through `drawrectangle`.
   */
  method DrawOverlay(s: Screen)
    requires s.Valid() && 10 <= s.w && 10 <= s.h
    modifies s.pixels
    ensures forall i, j | 0 <= i < s.w && 0 <= j < s.h ::
      s.pixels[i, j] == if Accepts(s.w, s.h, i, j) && OnOverlay(s.w, s.h, i, j) then Black else old(s.pixels[i, j])
  {
    s.DrawRectangle(s.w / 2, s.h / 2, s.w - 2 * (s.w / 30), s.h - 2 * (s.h / 30), Black);
    var x: U16 := s.w / 30;
    while x < s.w - s.w / 30
      invariant s.w / 30 <= x <= s.w - s.w / 30
      invariant forall i, j | 0 <= i < s.w && 0 <= j < s.h ::
        s.pixels[i, j] ==
          if Accepts(s.w, s.h, i, j) && (OnBorder(s.w, s.h, i, j) || ColumnTick(s.w, s.h, x, i, j))
          then Black
          else old(s.pixels[i, j])
    {
      if x % (s.w / 10) == 0 {
        VerticalTick(x, s.h / 30);
        s.DrawRectangle(x, s.h / 30, 1, 5, Black);
        VerticalTick(x, s.h - s.h / 30);
        s.DrawRectangle(x, s.h - s.h / 30, 1, 5, Black);
      }
      x := x + 1;
    }
    var y: U16 := s.h / 30;
    while y < s.h - s.h / 30
      invariant s.h / 30 <= y <= s.h - s.h / 30
      invariant forall i, j | 0 <= i < s.w && 0 <= j < s.h ::
        s.pixels[i, j] ==
          if Accepts(s.w, s.h, i, j) &&
             (OnBorder(s.w, s.h, i, j) || ColumnTick(s.w, s.h, s.w - s.w / 30, i, j) || RowTick(s.w, s.h, y, i, j))
          then Black
          else old(s.pixels[i, j])
    {
      if y % (s.h / 10) == 0 {
        HorizontalTick(s.w / 30, y);
        s.DrawRectangle(s.w / 30, y, 5, 1, Black);
        HorizontalTick(s.w - s.w / 30, y);
        s.DrawRectangle(s.w - s.w / 30, y, 5, 1, Black);
      }
      y := y + 1;
    }
  }

  /**
   * One pass of `mandelbrot`. A pass whose font cannot be loaded gives up
   * before touching the surface. Otherwise the surface is filled white and
   * presented, swept, and, unless the flag was read false, overlaid with the
   * metric and presented once more.
   */
  method Mandelbrot<Z>(s: Screen, n: int, p: Plane<Z>, alive: (int, int) -> bool, fontLoaded: bool)
    returns (result: PassResult, ghost presents: seq<Present>)
    requires s.Valid() && 80 <= s.w && 10 <= s.h
    modifies s.pixels
    ensures result == if fontLoaded && StopPoint(s.w, s.h, alive) == None then Finished else Aborted
    ensures !fontLoaded ==> unchanged(s.pixels) && presents == []
    ensures fontLoaded ==> forall i, j | 0 <= i < s.w && 0 <= j < s.h ::
      s.pixels[i, j] == Frame(s.w, s.h, n, p, alive, i, j)
    ensures fontLoaded ==>
      presents == [Blank] + FlipColumns(s.w / 30, StopColumn(s.w, s.h, alive), s.w / 80)
                  + (if result == Finished then [Final] else [])
  {
    if !fontLoaded {
      return Aborted, [];
    }
    s.Fill(White);
    presents := [Blank];
    var finished, flips := Sweep(s, n, p, alive);
    presents := presents + flips;
    if !finished {
      return Aborted, presents;
    }
    DrawOverlay(s);
    presents := presents + [Final];
    result := Finished;
  }

  /**
   * What the search for the stopping pixel finds from `(x, y)` on: nothing
   * when every swept pixel from there on reads the flag true; otherwise a
   * swept pixel reading it false, at or after `(x, y)`, with every swept
   * pixel between reading it true.
   */
  lemma {:induction false} FirstDeadMeaning(w: nat, h: nat, alive: (int, int) -> bool, x: int, y: int)
    requires w / 30 <= x <= w - w / 30 && h / 30 <= y <= h - h / 30
    ensures match FirstDead(w, h, alive, x, y)
      case None =>
        forall a, b | InSweep(w, h, a, b) && !Precedes(a, b, x, y) :: alive(a, b)
      case Some(q) =>
        && InSweep(w, h, q.0, q.1) && !alive(q.0, q.1) && !Precedes(q.0, q.1, x, y)
        && forall a, b | InSweep(w, h, a, b) && !Precedes(a, b, x, y) && Precedes(a, b, q.0, q.1) :: alive(a, b)
    decreases w - w / 30 - x, h - h / 30 - y
  {
    if x == w - w / 30 {
    } else if y == h - h / 30 {
      FirstDeadMeaning(w, h, alive, x + 1, h / 30);
    } else if !alive(x, y) {
    } else {
      FirstDeadMeaning(w, h, alive, x, y + 1);
    }
  }

  /**
   * Cancellation as `mandelbrot` polls it: the sweep computes swept pixel
   * `(i, j)` exactly when the flag read true at that pixel and at every
   * swept pixel before it.
   */
  lemma ReachedIffAliveBefore(w: nat, h: nat, alive: (int, int) -> bool, i: int, j: int)
    requires InSweep(w, h, i, j)
    ensures Reached(w, h, alive, i, j) <==>
      forall a, b | InSweep(w, h, a, b) && (Precedes(a, b, i, j) || (a == i && b == j)) :: alive(a, b)
  {
    FirstDeadMeaning(w, h, alive, w / 30, h / 30);
  }

  /**
   * A flag read false at swept pixel `(x, y)` aborts the pass, and neither
   * that pixel nor any later one is computed.
   */
  lemma CancelStopsAt(w: nat, h: nat, alive: (int, int) -> bool, x: int, y: int)
    requires InSweep(w, h, x, y) && !alive(x, y)
    ensures StopPoint(w, h, alive) != None
    ensures forall i, j | InSweep(w, h, i, j) && !Precedes(i, j, x, y) :: !Reached(w, h, alive, i, j)
  {
    FirstDeadMeaning(w, h, alive, w / 30, h / 30);
  }

  /**
   * The partial presents: one after each column in `[lo, hi)` divisible by
   * `every`, and no other, in increasing column order.
   */
  lemma {:induction false} FlipColumnsExact(lo: int, hi: int, every: int)
    requires every > 0
    ensures forall x :: Column(x) in FlipColumns(lo, hi, every) <==> lo <= x < hi && x % every == 0
    ensures forall e | e in FlipColumns(lo, hi, every) :: e.Column?
    ensures forall k, l | 0 <= k < l < |FlipColumns(lo, hi, every)| ::
      FlipColumns(lo, hi, every)[k].x < FlipColumns(lo, hi, every)[l].x
    decreases hi - lo
  {
    if hi > lo {
      FlipColumnsExact(lo, hi - 1, every);
      var prefix := FlipColumns(lo, hi - 1, every);
      forall k | 0 <= k < |prefix|
        ensures prefix[k].x < hi - 1
      {
        assert prefix[k] in prefix;
      }
    }
  }

  /**
   * The border call draws exactly the outline of the swept region:
   * columns `w / 30` and `w - w / 30 - 1`, rows `h / 30` and `h - h / 30 - 1`.
   */
  lemma BorderIsRegionOutline(w: U16, h: U16, i: U16, j: U16)
    requires w >= 80 && h >= 10
    ensures OnBorder(w, h, i, j) <==>
      && w / 30 <= i < w - w / 30 && h / 30 <= j < h - h / 30
      && (i == w / 30 || i == w - w / 30 - 1 || j == h / 30 || j == h - h / 30 - 1)
  {
    var base, height := w - 2 * (w / 30), h - 2 * (h / 30);
    assert w / 2 - base / 2 == w / 30;
    assert h / 2 - height / 2 == h / 30;
    OutlineIsPerimeter(w / 2, h / 2, base, height, i, j);
  }

  /**
   * Where the ticks land, for a surface tall enough that no tick wraps
   * around: 1 x 5 ticks at the region columns divisible by `w / 10`, centred
   * on rows `h / 30` and `h - h / 30`; 5 x 1 ticks at the region rows
   * divisible by `h / 10`, centred on columns `w / 30` and `w - w / 30`.
   */
  lemma TickPlacement(w: U16, h: U16, i: U16, j: U16)
    requires w >= 80 && h >= 60
    ensures ColumnTick(w, h, w - w / 30, i, j) <==>
      && w / 30 <= i < w - w / 30 && i % (w / 10) == 0
      && (h / 30 - 2 <= j <= h / 30 + 2 || h - h / 30 - 2 <= j <= h - h / 30 + 2)
    ensures RowTick(w, h, h - h / 30, i, j) <==>
      && h / 30 <= j < h - h / 30 && j % (h / 10) == 0
      && (w / 30 - 2 <= i <= w / 30 + 2 || w - w / 30 - 2 <= i <= w - w / 30 + 2)
  {
    RunIsInterval(j, h / 30 - 2, 5);
    RunIsInterval(j, h - h / 30 - 2, 5);
    RunIsInterval(i, w / 30 - 2, 5);
    RunIsInterval(i, w - w / 30 - 2, 5);
  }

  /**
   * A reached swept pixel off the metric shows its escape count `k`, which
   * lies in `[1, max(1, n)]`, as `(k mod 256, k mod 256, 2k mod 256)`.
   */
  lemma SweptPixelColour<Z>(w: U16, h: U16, n: int, p: Plane<Z>, alive: (int, int) -> bool, i: int, j: int)
    requires w >= 80 && h >= 10
    requires Accepts(w, h, i, j) && InSweep(w, h, i, j) && Reached(w, h, alive, i, j)
    requires StopPoint(w, h, alive) != None || !OnOverlay(w, h, i, j)
    ensures var k := EscapeTime(p, p.point(i, j), n);
      && 1 <= k <= Max(1, n)
      && Frame(w, h, n, p, alive, i, j) == Rgb(k % 256, k % 256, (2 * k) % 256)
  {
  }

  /**
   * With the default cap of 256 iterations, a reached swept pixel whose
   * point never escapes is black, on the metric or off it.
   */
  lemma InsideSetIsBlack<Z>(w: U16, h: U16, p: Plane<Z>, alive: (int, int) -> bool, i: int, j: int)
    requires w >= 80 && h >= 10
    requires Accepts(w, h, i, j) && InSweep(w, h, i, j) && Reached(w, h, alive, i, j)
    requires forall k :: 0 <= k < 255 ==> !p.escaped(Iterate(p, p.point(i, j), k))
    ensures Frame(w, h, 256, p, alive, i, j) == Black
  {
    ReachesCap(p, p.point(i, j), 256);
  }

  /**
   * Outside the swept region, and inside it beyond the cancellation point,
   * a cell keeps the white fill unless the metric of a completed pass
   * covers it.
   */
  lemma UnsweptCellsStayWhite<Z>(w: U16, h: U16, n: int, p: Plane<Z>, alive: (int, int) -> bool, i: int, j: int)
    requires w >= 80 && h >= 10
    requires !InSweep(w, h, i, j) || !Reached(w, h, alive, i, j)
    requires StopPoint(w, h, alive) != None || !OnOverlay(w, h, i, j)
    ensures Frame(w, h, n, p, alive, i, j) == White
  {
  }
}
