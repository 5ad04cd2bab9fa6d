# Ledmantrob Mandelbrot viewer: the integer core

`ldt.cpp` is an SDL Mandelbrot viewer. A worker thread (`mandelbrot`) renders
one pass into the window surface while the main loop waits for the window to
close. This project models the sequential integer logic of that pass, and of
the option that sets the resolution, in Dafny:

- **The surface** (`surface.dfy`, module `Surface`). A class `Screen` holds a
  `w x h` `array2` of RGB cells. `PutPixel` is `putpixel`, a bounds-checked
  write that turns away column 0, row 0 and everything at or beyond `w`/`h`.
  `Fill` is the white `SDL_FillRect`. `DrawRectangle` is `drawrectangle`: four
  loops of `putpixel` along the edges of a rectangle whose corner is
  `(x - base/2, y - height/2)`. All coordinates pass through 16-bit unsigned
  parameters. So a negative coordinate wraps modulo 2^16 (`Wrap16`, `InRun`),
  and `putpixel` then turns it away on any surface narrower than the wrapped
  value.
- **The escape count** (`escape.dfy`, module `Escape`). The loop starts with
  `count = 1` and `z = c`. It steps `z` while `|z| <= 2` and
  `count < iterations`. The complex arithmetic is abstract: a `Plane` value
  supplies the pixel-to-point mapping, the step `z*z + c` and the escape test
  `|z| > 2`. `EscapeCount` is the loop and `EscapeTime` its specification.
  The lemmas pin the count down in terms of the iterates.
- **The pass** (`render.dfy`, module `Render`). `Mandelbrot` checks that the
  font was loaded, fills the surface white and presents it. `Sweep` then runs
  column-major over `[w/30, w - w/30) x [h/30, h - h/30)`. Before each pixel
  it polls the liveness flag, and it writes `(count, count, 2*count)`
  truncated to 8 bits. It presents after every column divisible by `w/80`.
  After a full sweep, `DrawOverlay` draws the black border around the region
  and the tick marks at multiples of `w/10` and `h/10`. The liveness flag is
  an input: `alive(x, y)` is what the pass reads before pixel `(x, y)`.
  Presents are recorded in a ghost log. `Frame` gives the colour of every
  cell after a pass.
- **The `-r WxH` option** (`resolution.dfy`, module `Resolution`). The
  argument is split at its first `'x'` with `find`/`substr`, and each side
  goes through `atoi`. With no `'x'`, `find` returns `npos`. Then
  `substr(0, npos)` is the whole string, and `npos + 1` wraps to 0 in
  `size_t`, so both dimensions are parsed from the whole string.

Details of the code that the model keeps:

- The iterate starts at `z = c`, not at `z = 0`, so a point that has already
  escaped counts 1.
- `putpixel` accepts the cells `[1, w-1] x [1, h-1]`. Column 0 and row 0 are
  turned away although they lie inside the buffer.
- When `h < 30`, the sweep starts on row 0, which `putpixel` turns away. Such
  pixels keep the white fill.

## Model

| member | source | states |
|---|---|---|
| `Surface.Screen.PutPixel` | ldt.cpp:251-264 | Cell `(x, y)` becomes `c` exactly when `0 < x < w` and `0 < y < h`. Every other cell, and that cell otherwise, keeps its old colour. |
| `Surface.Screen.Fill` | ldt.cpp:157 | Every cell of the surface, row 0 and column 0 included, gets the fill colour. |
| `Surface.Screen.DrawRectangle` | ldt.cpp:284-308 | Exactly the cells on the 16-bit-wrapped outline of the rectangle with corner `(x - base/2, y - height/2)` that `putpixel` accepts become `c`. Every other cell is unchanged. |
| `Surface.RunGrows` | ldt.cpp:294-304 | One more pass of an edge loop adds exactly the next wrapped coordinate of that edge. |
| `Surface.OutlineIsPerimeter` | ldt.cpp:289-304 | For a rectangle within the 16-bit range, the outline is exactly the perimeter of `[x0, x0+base) x [y0, y0+height)`, so interior cells are never drawn. |
| `Surface.VerticalTick` | ldt.cpp:206-207 | A 1x5 rectangle centred at `(x, y)` is column `x`, rows `y-2 .. y+2` (modulo 2^16). |
| `Surface.HorizontalTick` | ldt.cpp:216-217 | A 5x1 rectangle centred at `(x, y)` is row `y`, columns `x-2 .. x+2` (modulo 2^16). |
| `Escape.CountFrom` | ldt.cpp:179-183 | A loop entered with counter `count` ends with a count between `count` and `max(count, iterations)`. |
| `Escape.EscapeTime` | ldt.cpp:173-183 | The escape count lies in `[1, max(1, iterations)]`. |
| `Escape.EscapeCount` | ldt.cpp:173-183 | The loop returns the escape count `EscapeTime`, which lies in `[1, max(1, iterations)]`. |
| `Escape.CountFromMeaning` | ldt.cpp:179-183 | Entered after `count - 1` bounded steps, the loop ends at a count `r` with no escaped iterate before `r - 1`. Unless the cap stopped it, iterate `r - 1` has escaped. |
| `Escape.EscapeTimeMeaning` | ldt.cpp:173-183 | The count is determined by the iterates of `z = c`. All iterates before it are bounded. It is below the cap only if the iterate it stops at has escaped. |
| `Escape.EscapedAtStart` | ldt.cpp:178-179 | A point `c` that already has `abs(c) > 2` counts 1, because `z` starts at `c`. |
| `Escape.ReachesCap` | ldt.cpp:179 | The count equals `max(1, iterations)` if and only if none of the iterates examined before the cap escapes. |
| `Render.Sweep` | ldt.cpp:161-192 | Returns unfinished exactly when some swept pixel reads the flag false. Exactly the swept, accepted pixels the sweep reaches get `(k, k, 2k)` mod 256 of their escape count `k`. All other cells are unchanged. The present log lists the completed columns divisible by `w/80`. |
| `Render.DrawOverlay` | ldt.cpp:195-218 | Exactly the accepted cells on the border outline or on a tick turn black. Every other cell is unchanged. |
| `Render.Mandelbrot` | ldt.cpp:138-249 | If the font did not load, the pass returns -1 (`Aborted`) and leaves the surface alone. Otherwise every cell ends as `Frame`: metric in black only if no pixel read the flag false, then the reached swept colours, then white. The pass returns `Aborted` when cancelled. Presents happen after the fill, after each completed column divisible by `w/80`, and at the end only for a completed pass. |
| `Render.FirstDeadMeaning` | ldt.cpp:161-166 | The search for the stopping pixel finds the first swept pixel in column-major order that reads the flag false, or finds none when all read true. |
| `Render.ReachedIffAliveBefore` | ldt.cpp:161-166 | A swept pixel is computed if and only if the flag read true at it and at every swept pixel before it in column-major order. |
| `Render.CancelStopsAt` | ldt.cpp:165-166 | If the flag reads false at a swept pixel, the pass is cancelled, and neither that pixel nor any later one is computed. |
| `Render.FlipColumnsExact` | ldt.cpp:189-191 | The partial presents come after exactly the completed columns divisible by `w/80`, in increasing order. |
| `Render.BorderIsRegionOutline` | ldt.cpp:195 | The border call draws exactly the outline of the swept region: columns `w/30` and `w - w/30 - 1`, rows `h/30` and `h - h/30 - 1`. |
| `Render.TickPlacement` | ldt.cpp:200-218 | When `h >= 60`: 1x5 ticks are drawn exactly at the region columns divisible by `w/10`, on rows `h/30 ± 2` and `h - h/30 ± 2`. 5x1 ticks are drawn exactly at the region rows divisible by `h/10`, on columns `w/30 ± 2` and `w - w/30 ± 2`. |
| `Render.SweptPixelColour` | ldt.cpp:186 | A reached swept pixel off the metric shows `(k mod 256, k mod 256, 2k mod 256)`, where its count `k` lies in `[1, max(1, iterations)]`. |
| `Render.InsideSetIsBlack` | ldt.cpp:179-186 | With the default cap of 256, a reached swept pixel whose point never escapes is black (`(0, 0, 0)`). |
| `Render.UnsweptCellsStayWhite` | ldt.cpp:157-163 | A cell outside the sweep, or beyond the cancellation point, keeps the white fill unless the metric of a completed pass covers it. |
| `Resolution.Find` | ldt.cpp:75 | `res.find('x')` is `npos` exactly when the argument holds no `'x'`. Otherwise it is the index of the first `'x'`. |
| `Resolution.Substr` | ldt.cpp:76-77 | `substr(pos, count)` holds `min(count, length - pos)` characters, those of the argument from `pos` on. With the default `count` of `npos` it is the whole rest of the string. |
| `Resolution.Atoi` | ldt.cpp:76-77 | `atoi` gives 0 when, after leading white space, no sign or digit follows. Its result is negative only after a `'-'`. |
| `Resolution.SplitResolution` | ldt.cpp:74-77 | With an `'x'`, the width is `atoi` of the text before the first `'x'` and the height is `atoi` of the text after it. With no `'x'`, `find` gives `npos`: `substr(0, npos)` is the whole argument, and `npos + 1` wraps to 0 in `size_t`, so both dimensions are `atoi` of the whole argument. |
| `Resolution.FindFrom` | ldt.cpp:75 | `find` returns the first index holding the character, or `npos` when the character does not occur. |
| `Resolution.AtoiDecimal` | ldt.cpp:76-77 | `atoi` of a decimal number followed by a non-digit (or nothing) is that number. |
| `Resolution.SplitAtFirstX` | ldt.cpp:74-77 | The width is `atoi` of the text before the first `'x'`. The height is `atoi` of everything after it. |
| `Resolution.SplitRoundTrip` | ldt.cpp:74-77 | `-r WxH` with `W` and `H` written in decimal sets exactly width `W` and height `H`. |
| `Resolution.SplitSingleNumber` | ldt.cpp:75-77 | `-r N` with a single decimal number sets an `N x N` surface. |

## Left out

- Display I/O is not modelled: `SDL_Init`, `SDL_SetVideoMode`, `SDL_Flip`, `SDL_UpdateRects` (the partial present at the end of `drawrectangle`) and `SDL_MapRGB`. A cell holds the `(R, G, B)` triple handed to the pixel-format mapping. Full presents appear only as the ghost `Present` log.
- The surface is addressed as `pixels[x, y]`. The `pitch / bpp` row stride is taken to be the surface width.
- Text rendering is not modelled: `TTF_Init`, `putstring`, and the axis labels formatted to 4 decimals (ldt.cpp:149-155, 197-198, 220-247, 266-282). These are a foreign library plus double formatting. Whether the first font loads is the `fontLoaded` input. The unchecked second `TTF_OpenFont` is not modelled.
- Floating point is not modelled: the `complex<double>` arithmetic and the pixel-to-plane mapping `X`/`Y` (ldt.cpp:169-170) stay abstract behind `Plane.point`, `Plane.step` and `Plane.escaped`.
- Concurrency is not modelled: the thread, `SDL_WaitThread`, the event loop and the shared `alive` global (ldt.cpp:112-132). Only the per-pixel poll is modelled, as the sequential input `alive(x, y)`.
- CLI plumbing is not modelled: `getopt`, `--help`, `atof` of the plane bounds, and `atoi` of `-i` (ldt.cpp:50-95, except the `-r` split). The iteration cap enters `Sweep` and `Mandelbrot` as the integer `n`.
- Render.Mandelbrot: on a completed pass `mandelbrot` returns no value (it falls off the end of an `int` function). The model reports `Finished` there.
- Resolution.Atoi: returns the mathematical value of the digits. C's `atoi` is undefined when the value does not fit in an `int`.
- Surface.Screen: the model keeps to surfaces at most 65535 cells wide and tall, the ones the 16-bit coordinates of `putpixel` and of the loop counters can address. Larger surfaces are not modelled. On them the `uint16_t` sweep counter never ends only once `w - w/30 > 65535` (from `w = 67795`), and likewise for `h`. Between 65536 and that bound, the loops end but columns and rows beyond 65535 cannot be addressed.
- Render.TickPlacement: states the tick rows in plain integers only for `h >= 60`. For lower surfaces the top tick starts at a negative row, and `ColumnTick` states that case modulo 2^16.
- Render.Mandelbrot, Render.Sweep: require `80 <= w`. The source accepts any `-r WxH`. With `w < 80` it divides by zero at `x % (w/80)` (ldt.cpp:190) once the first sweep column is complete, which is undefined behaviour in C. That crash is not modelled. Neither is the clean `-1` return of such a pass when it is cancelled inside the first column.
- Render.Mandelbrot, Render.DrawOverlay: require `10 <= h`, and `DrawOverlay` also requires `10 <= w`. With smaller values a completed sweep divides by zero at `x % (w/10)` (ldt.cpp:202) or `y % (h/10)` (ldt.cpp:212). That crash is not modelled either. Neither is the clean `-1` return of a pass on such a surface that is cancelled before the overlay.
