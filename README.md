# Loading spinner: gradient, rotation and frame capture

This project models the deterministic core of a small browser page that draws a
"loading spinner": `NUM_CIRCLES` circles (8) sit on a ring, each painted with one
colour of a two-point grey gradient (50 → 200 per channel). A timer rotates the
colour list one step every `ANIMATION_INTERVAL` (400 ms), so the shades chase each
other around the ring. A "Save as APNG" button stops the timer, captures one frame
per rotation step from a copy of the list, hands the frames and their delays to an
encoding worker, and restarts the timer when the worker answers.

The model has four modules:

- `Palette` (`palette.dfy`) holds colours as integer triples `Rgb(r, g, b)`, the shipped
  constants, and the gradient. `Math.round(start + (end - start) * i / (n - 1))` is
  computed exactly in integers. Its contract is the defining property of
  `Math.round`: the channel `c` satisfies `c - 1/2 <= x < c + 1/2` for the exact value
  `x`, so halves round up. `BuildGradient` is the initialisation loop that pushes
  one colour per circle.
- `Rotation` (`rotation.dfy`) holds the step `colors.unshift(colors.pop())` as the pure
  function `RotR` (last entry to the front). `RotateInPlace` is the same step done in
  place on an array. `RotRN` is `k` steps in a row, with lemmas for the slot formula,
  for composition, for the full turn and for periodicity.
- `Spinner` (`spinner.dfy`) holds the page as a class. The live `colors` array and the
  slot colours (`circleElements[k].style.backgroundColor`) are arrays. The timer and
  the save button are boolean flags. `UpdateColors` is the timer tick, and
  `CaptureFrames` is the save handler's capture: it copies the list and runs the
  capture loop `CaptureFrom` on the copy. `Film` is the frame list that
  loop must produce.
- `Arith` (`arith.dfy`) holds the multiplication and remainder facts the other proofs share.

The central property: the export started at any moment records, as frame `i`, the
colour `colors[(j - i) mod N]` at slot `j`. This is exactly what the live view shows
after `i` more ticks (`FilmSlotAt`, `FilmMatchesLive`, and the `Valid()` invariant of
`Spinner`, which keeps `colors == RotRN(initial, ticks)` and `slots == colors`).

Two facts about `script.js` worth keeping in mind:

- The rotation step is last-to-front (`unshift(pop())`). `RotL` (front-to-back)
  exists only as `RotR`'s inverse.
- Every frame's delay is `ANIMATION_INTERVAL`.

## Model

| member | source | states |
|---|---|---|
| Palette.Lerp | script.js:25-28 | a channel is `Math.round` of `s + (e - s) * i / (n - 1)`: the integer within a half below / strictly less than a half above the exact value, halves rounding up; needs `n >= 2` since the ratio divides by `n - 1` |
| Palette.RoundingUnique | script.js:26-28 | at most one integer is the `Math.round` of a value, so the rounding characterisation fixes each channel |
| Palette.LerpAtStart | script.js:22-28 | entry 0 of a channel equals the start channel exactly |
| Palette.LerpAtEnd | script.js:22-28 | entry `n - 1` of a channel equals the end channel exactly |
| Palette.LerpBetween | script.js:25-28 | every channel value lies between the start and end channel, whichever is larger |
| Palette.ExactMonotone | script.js:25-27 | the exact value `s + (e - s) * i / (n - 1)` moves in the direction of `e - s` as `i` grows |
| Palette.LerpMonotone | script.js:24-28 | along the list a channel never decreases when end >= start and never increases when end <= start |
| Palette.GradientEndpoints | script.js:22-30 | the gradient has `n` entries, entry 0 is `startColor` and entry `n - 1` is `endColor`, channel by channel |
| Palette.GradientBetween | script.js:24-30 | every gradient entry lies channel by channel between `startColor` and `endColor` |
| Palette.GradientMonotone | script.js:24-30 | each channel that rises from start to end is non-decreasing in `i` |
| Palette.ShippedGradient | script.js:5-30 | with 8 circles and 50 → 200 the channels run 50, 71, 93, 114, 136, 157, 179, 200 |
| Palette.BuildGradient | script.js:24-30 | the push loop yields exactly the gradient: `n` entries, entry `i` is the rounded interpolation at `i` |
| Rotation.RotR | script.js:47 | one rotation step keeps the length |
| Rotation.RotRAt | script.js:47 | after one step slot 0 holds the old last entry and slot `k > 0` holds the old entry `k - 1` |
| Rotation.RotRPermutes | script.js:47 | one step keeps the multiset of colours |
| Rotation.RotInverse | script.js:47 | the front-to-back step undoes the last-to-front step and vice versa |
| Rotation.RotRN | script.js:46-52 | `k` timer ticks in a row, each one `unshift(pop())` step, keep the list's length |
| Rotation.RotRNPermutes | script.js:83 | any number of steps keeps the multiset of colours |
| Rotation.RotRNAt | script.js:47-49 | after `k` steps slot `j` holds the starting entry `(j - k) mod n` |
| Rotation.RotRNAdd | script.js:46-52 | `a` steps followed by `b` steps are `a + b` steps |
| Rotation.RotRNFull | script.js:67-84 | `n` steps restore the original order, so the export's working copy ends equal to `colors` |
| Rotation.RotRNPeriodic | script.js:46-52 | the live animation repeats with period `n`: `k` steps equal `k mod n` steps |
| Rotation.RotateInPlace | script.js:47 | `a.unshift(a.pop())` on an array leaves `a` equal to `RotR` of its old contents |
| Spinner.Film | script.js:65-84 | the frame list of `m` passes has exactly `m` frames, one pushed per pass |
| Spinner.FilmAt | script.js:69-84 | pass `k` of the capture loop records the start list rotated `k` times |
| Spinner.FilmSlotAt | script.js:72-83 | in a full export, frame `i` gives slot `j` the colour `start[(j - i) mod n]` |
| Spinner.FilmMatchesLive | script.js:46-84 | an export begun after `t` ticks records as frame `i` the slot colours the live view shows after `t + i` ticks |
| Spinner.DrawFrame | script.js:72-80 | the inner drawing loop paints slot `j`, in ascending order, with `currentColors[j]`, so the frame is the working list's contents |
| Spinner.Repaint | script.js:48-50 | after the `forEach`, every slot `k` shows `colors[k]`; the list itself is only read |
| Spinner.CopyOf | script.js:67 | `[...colors]` is a fresh array with the same entries |
| Spinner.CaptureFrom | script.js:69-84 | the capture loop yields one delay of `ANIMATION_INTERVAL` per slot and the frames `Film(start, n)` of the copy's starting contents, and leaves the copy back in its starting order after the full turn |
| Spinner.Spinner.constructor | script.js:22-52 | page load builds the gradient, every slot shows `colors[k]`, the timer runs and the button is enabled |
| Spinner.Spinner.UpdateColors | script.js:46-51 | a tick rotates `colors` one step last-to-front and repaints every slot `k` with `colors[k]`, keeping `colors == RotRN(initial, ticks)` |
| Spinner.Spinner.CaptureFrames | script.js:65-84 | the capture works on a fresh copy, so `colors` is only read. It yields `n` frames equal to `Film(colors, n)` and `n` delays, each `ANIMATION_INTERVAL`. Frame `i` is the list the live view shows after `i` more ticks (`RotRN(initial, ticks + i)`); with `FilmSlotAt` this means frame `i` gives slot `j` the colour `colors[(j - i) mod n]` |
| Spinner.Spinner.Save | script.js:55-91 | the click handler stops the timer and disables the button, then captures the frames of the current live list; frame `i` is the list the live view would show after `i` more ticks |
| Spinner.Spinner.Finish | script.js:94-126 | both the `onmessage` path (success or failure) and the `onerror` path re-enable the button and restart the timer |

## Left out

- Slot geometry (`angle`, `x`, `y` from `Math.cos`/`Math.sin`) is floating-point trigonometry. It is not modelled. Only the integer `RADIUS = (CONTAINER_SIZE - CIRCLE_SIZE) / 2 = 125` is kept, declared as a `nat`, so it is non-negative.
- Canvas drawing (`clearRect`, `arc`, `fill`, `getImageData`) is a foreign rendering library. A frame is modelled as the slot-to-colour sequence that drawing paints, in ascending slot order.
- The `rgb(r, g, b)` CSS strings are not modelled. Colours are integer triples.
- DOM element creation and styling are left out. Only the relation "slot `k` shows `colors[k]`" is kept, as the `slots` array.
- The timer, the `Worker`, the `Blob` and the download are event, concurrency and I/O plumbing. They are reduced to the `timerRunning` and `saveEnabled` flags. The posted message, the download on success and the alert on failure are not modelled.
- The APNG encoder in `worker.js` is not part of this model.
- Palette.Lerp: the source computes in IEEE doubles (`i / (n - 1)` then a multiply), while the model uses exact rational arithmetic. The two could differ only when the exact value is an integer plus one half whose floating-point product misses that half; the shipped constants never do.
- Palette.Lerp: a single circle (`NUM_CIRCLES = 1`) gives `NaN` channels in the source. This is excluded by requiring at least two circles.
- Rotation.RotR: on an empty list JavaScript's `unshift(pop())` yields `[undefined]`. The model keeps the empty list. The live list always holds `NUM_CIRCLES >= 2` entries, so this case never arises.
- Spinner.Spinner.UpdateColors: it requires the timer to be running, because a tick is only ever delivered by the active `setInterval` timer. So no tick can interleave with an export.
