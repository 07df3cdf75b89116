# Portfolio scroll effects, modelled in Dafny

This project models the three pieces of stateful logic in a React portfolio
site and proves properties about them.

- **The "cyber matrix" hero background** (`CyberMatrixHero.tsx`). A canvas
  holds a grid of glyph tiles on a 70-pixel lattice, five screens tall.
  - A throttled `update` makes tiles near the cursor glow and fades the
    others. It counts glitch frames down and drops finished tiles from the
    `activeGlitches` list.
  - `draw` paints the tiles in the first screen, plus the tiles in the
    scroll window that glow or glitch.
  - A click may start a glitch on the tiles under it, but only while the
    list is below `MAX_ACTIVE_GLITCH`. That cap is 0 in the source.
- **The developer section** (`Developer.tsx`).
  - A banner slides sideways at a velocity set by page scrolling, and its
    offset wraps within half of the banner's width.
  - Once the entrance animations are complete, an exit timeline fades three
    element groups out in a fixed order as scroll progress grows.
  - The exit trigger's callbacks force all six tracked elements fully
    visible or fully hidden.
- **The navigation bar's text scramble** (`Navbar.tsx`). A frame counter
  cycles through 0..20. Each tick shows a growing prefix of the text, with
  symbols from a fixed alphabet in the other positions.

Each module covers one part:

- `CyberMatrixSpec` (matrix_spec.dfy) holds the value-level rules for one
  tile, one update tick, one click and one draw, and the lemmas about them.
- `CyberMatrix` (matrix_engine.dfy) is the effect's closure as a class,
  `MatrixEngine`, over mutable `Tile` records. Each handler is a method
  whose postcondition ties the new state to the functions of
  `CyberMatrixSpec`. The class invariant `Valid` says:
  - the grid is `columns * rows` distinct records on the lattice, in
    row-major order;
  - every tile keeps its bounds (intensity in [0, 1], countdown in [0, 5],
    scale in [1, 1.3]);
  - the active list stays within its cap.
- `Developer` (developer.dfy) covers the banner, with a class for its
  mutable offset, velocity and last scroll position. It also covers the
  exit schedule, as functions from progress to opacity tweens, and the
  completion gate, as a class holding the flag and the current opacities.
- `NavbarScramble` (navbar_scramble.dfy) has the pure frame function and a
  class for the component's counter and displayed string.
- `Randomness` (randomness.dfy) stands in for `Math.random()`. Each use takes
  a stream of draws in [0, 1), indexed by tile or text position.

The "entrance complete" gate is not a one-way latch: `onEnterBack` of the
entrance trigger clears `allAnimationsComplete` again
(src/components/Developer/Developer.tsx:99-102). The model does the same,
and `Developer.GateIsNotLatched` states it.

`createGrid` empties `tiles` but not `activeGlitches`
(src/components/ui/CyberMatrixHero.tsx:72). The model keeps this:
`CyberMatrix.MatrixEngine.CreateGrid` leaves the list as it was.

## Model

| member | source | states |
|---|---|---|
| Randomness.PickIndex | src/components/ui/CyberMatrixHero.tsx:78 | `Math.floor(r * n)` for a draw in [0, 1) is an index below `n`, and it is the floor of `r * n` |
| Randomness.Pick | src/components/Navbar/Navbar.tsx:20 | a glyph picked by a draw always comes from the alphabet |
| CyberMatrixSpec.FreshTile | src/components/ui/CyberMatrixHero.tsx:75-83 | a tile built by `createGrid` is within its bounds (no glow, no glitch, scale 1), and its glyph is one of `chars` |
| CyberMatrixSpec.CellIndex | src/components/ui/CyberMatrixHero.tsx:73-77 | the flat index `r * columns + c` of row `r`, column `c` decodes back to `r` and `c`, so no two cells share an index |
| CyberMatrixSpec.FreshTileAtCell | src/components/ui/CyberMatrixHero.tsx:76-77 | the fresh tile at the flat index of row `r`, column `c` has centre `(c*70+35, r*70+35)` |
| CyberMatrixSpec.EaseIsConvex | src/components/ui/CyberMatrixHero.tsx:118-128 | each smoothing step `v += (target - v) * rate` with a rate in [0, 1] lands between `v` and the target |
| CyberMatrixSpec.TargetIntensity | src/components/ui/CyberMatrixHero.tsx:117-121 | the cursor's pull target lies in [0, 1]; it is 1 exactly at distance 0 and 0 exactly from distance 250 on |
| CyberMatrixSpec.IsActive | src/components/ui/CyberMatrixHero.tsx:100-110 | `update` processes every first-band tile and every tile on the visible screen (the window less its 300 px buffers); a processed tile below the band lies inside the window |
| CyberMatrixSpec.StepTile | src/components/ui/CyberMatrixHero.tsx:98-134 | one tick never moves a tile or changes its glyph |
| CyberMatrixSpec.StepSkippedTile | src/components/ui/CyberMatrixHero.tsx:102-110 | a tile outside the window and the first band only fades, to 0.9 of its intensity when positive; countdown, scale and timestamp stay |
| CyberMatrixSpec.StepProcessedTile | src/components/ui/CyberMatrixHero.tsx:123-133 | a processed glitching tile counts down by exactly 1, never below 0, and glows at 1; a quiet one moves its scale a fifth of the way to 1; both are stamped with the time |
| CyberMatrixSpec.StepTileBounded | src/components/ui/CyberMatrixHero.tsx:106-128 | every tick keeps intensity in [0, 1], the countdown in [0, 5] and the scale in [1, 1.3] |
| CyberMatrixSpec.StepTileIntensity | src/components/ui/CyberMatrixHero.tsx:113-127 | a processed tile that is not glitching gets `Ease(intensity, TargetIntensity(distance), rate)`, with rate 0.2 inside the radius and 0.05 outside, so its new intensity lies between the old one and the target |
| CyberMatrixSpec.Distance | src/components/ui/CyberMatrixHero.tsx:113-115 | with a true square root, the distance is non-negative and its square is `dx² + dy²` |
| CyberMatrixSpec.DistanceWithinRadius | src/components/ui/CyberMatrixHero.tsx:113-117 | the cursor reaches a tile (distance below 250) exactly when the squared distance is below 250² |
| CyberMatrixSpec.OffCanvasOutOfReach | src/components/ui/CyberMatrixHero.tsx:38-39 | before any mouse move the cursor at (-9999, -9999) is out of reach of every tile, so processed quiet tiles only fade |
| CyberMatrixSpec.UpdatedStates | src/components/ui/CyberMatrixHero.tsx:98-134 | one update tick keeps the number of tiles |
| CyberMatrixSpec.UpdatedPrefix | src/components/ui/CyberMatrixHero.tsx:98-134 | the contents after the loop has visited the first `n` tiles: exactly `n` records, each characterised by `UpdatedPrefixAt` |
| CyberMatrixSpec.UpdatedStatesBounded | src/components/ui/CyberMatrixHero.tsx:98-134 | one update tick keeps every tile within its bounds |
| CyberMatrixSpec.UpdatedPrefixAt | src/components/ui/CyberMatrixHero.tsx:98-133 | after the loop has visited the first `n` tiles, tile `j < n` holds `StepTile` of its old contents, with its own window test, cursor distance and jitter draw |
| CyberMatrixSpec.UpdatedStatesAt | src/components/ui/CyberMatrixHero.tsx:98-133 | one update tick steps every tile by `StepTile` with that tile's window test, cursor distance and jitter draw |
| CyberMatrixSpec.Settled | src/components/ui/CyberMatrixHero.tsx:127-131 | an update takes no more tiles off the active list than it visits |
| CyberMatrixSpec.SettledRemovalStep | src/components/ui/CyberMatrixHero.tsx:123-131 | visiting tile `i` splices it out of the list exactly when it is processed with its countdown at 0, and otherwise leaves the list alone |
| CyberMatrixSpec.Swept | src/components/ui/CyberMatrixHero.tsx:129-130 | the list as the loop leaves it after the first `n` tiles, one `indexOf`/`splice` per settling tile; what it equals is stated by `SweptIsRemoveAll`, and that it never grows by `RemoveAllShrinks` |
| CyberMatrixSpec.SweptIsRemoveAll | src/components/ui/CyberMatrixHero.tsx:98-131 | the list the loop leaves, one splice per settling tile in grid order, is the original list with the `Settled` tiles removed one occurrence each |
| CyberMatrixSpec.SettledExcludesLater | src/components/ui/CyberMatrixHero.tsx:98-131 | among distinct tiles, a tile the loop has not reached yet is never among the removals |
| CyberMatrixSpec.SettledExactly | src/components/ui/CyberMatrixHero.tsx:99-131 | among distinct tiles, a tile is removed exactly when it is in the window or the first band and its countdown was already 0; a skipped or still-glitching tile stays listed |
| CyberMatrixSpec.IndexOf | src/components/ui/CyberMatrixHero.tsx:129 | `indexOf` is -1 exactly when the tile is absent; otherwise it is the first position holding it |
| CyberMatrixSpec.RemoveFirst | src/components/ui/CyberMatrixHero.tsx:129-130 | removing a tile never lengthens the list |
| CyberMatrixSpec.RemoveFirstIsSplice | src/components/ui/CyberMatrixHero.tsx:129-130 | removing the first occurrence is exactly `indexOf` followed by `splice(index, 1)`, and a no-op at index -1 |
| CyberMatrixSpec.RemoveFirstRemovesOne | src/components/ui/CyberMatrixHero.tsx:129-130 | a present tile loses exactly one occurrence (one element shorter, the multiset less that tile); an absent one leaves the list as it was |
| CyberMatrixSpec.RemoveAllSnoc | src/components/ui/CyberMatrixHero.tsx:129-130 | proof step for the splice loop: removing one more tile is one more `RemoveFirst` |
| CyberMatrixSpec.RemoveAllShrinks | src/components/ui/CyberMatrixHero.tsx:129-130 | removals never lengthen the active list |
| CyberMatrixSpec.RemoveAllKeeps | src/components/ui/CyberMatrixHero.tsx:129-130 | a tile that is not removed keeps all its occurrences in the active list |
| CyberMatrixSpec.InHitbox | src/components/ui/CyberMatrixHero.tsx:204-209 | the click lies in the tile's 70-pixel square, so it is at most 35√2 from the tile's centre |
| CyberMatrixSpec.ClickStarts | src/components/ui/CyberMatrixHero.tsx:203-217 | the click loop starts glitches only at tiles it has visited |
| CyberMatrixSpec.ClickStartsIncreasing | src/components/ui/CyberMatrixHero.tsx:203-217 | the glitches start at strictly increasing tile indices: in grid order, each tile at most once |
| CyberMatrixSpec.ClickStartsAreHits | src/components/ui/CyberMatrixHero.tsx:205-211 | a glitch starts only on a tile whose square hitbox holds the click, and only on a coin draw below 0.5 |
| CyberMatrixSpec.ClickStartsWithinCap | src/components/ui/CyberMatrixHero.tsx:211 | the active list never grows past the cap, and with the cap at 0 no glitch starts |
| CyberMatrixSpec.ClickSkipsOnlyAtCap | src/components/ui/CyberMatrixHero.tsx:211 | a hit tile with a winning coin is passed over only once the list has reached the cap |
| CyberMatrixSpec.StartGlitch | src/components/ui/CyberMatrixHero.tsx:212-213 | a started glitch gives a glyph from `chars` and a countdown of 5, and changes nothing else |
| CyberMatrixSpec.Clicked | src/components/ui/CyberMatrixHero.tsx:203-217 | a click keeps the number of tiles |
| CyberMatrixSpec.ClickedSnoc | src/components/ui/CyberMatrixHero.tsx:211-214 | proof step for the click loop: one more started glitch changes that one tile, to `StartGlitch` of its contents |
| CyberMatrixSpec.ClickedAt | src/components/ui/CyberMatrixHero.tsx:203-217 | after a click, exactly the tiles where glitches started hold a new glyph and a 5-frame countdown; every other tile is as it was |
| CyberMatrixSpec.ClickStep | src/components/ui/CyberMatrixHero.tsx:205-215 | visiting tile `i` starts a glitch there exactly on a hit below the cap with a coin below 0.5, and the grid then agrees with the first `i + 1` tiles of the click |
| CyberMatrixSpec.ClickChangesOnlyHits | src/components/ui/CyberMatrixHero.tsx:203-217 | a click leaves alone every tile whose hitbox does not hold it, and every tile when the cap is 0 |
| CyberMatrixSpec.ClickedBounded | src/components/ui/CyberMatrixHero.tsx:212-213 | a click keeps every tile within its bounds |
| CyberMatrixSpec.ScrollRedraws | src/components/ui/CyberMatrixHero.tsx:235 | the scroll handler redraws exactly after a move of more than 50 px up or down from the last redraw |
| CyberMatrixSpec.Alpha | src/components/ui/CyberMatrixHero.tsx:178 | for an intensity in [0, 1] the paint alpha is in [0.1, 1] |
| CyberMatrixSpec.PaintList | src/components/ui/CyberMatrixHero.tsx:144-181 | a draw never paints more glyphs than there are tiles |
| CyberMatrixSpec.Drawn | src/components/ui/CyberMatrixHero.tsx:146-160 | the `draw` skip rule: first-band tiles are always painted, and a painted tile is always one that `update` processes |
| CyberMatrixSpec.PaintListExact | src/components/ui/CyberMatrixHero.tsx:144-181 | every tile that passes the skip rule is painted, and every painted glyph comes from such a tile |
| CyberMatrixSpec.PaintAlphaBounded | src/components/ui/CyberMatrixHero.tsx:178 | every glyph painted from bounded tiles has an alpha in [0.1, 1] |
| CyberMatrix.Tile.constructor | src/components/ui/CyberMatrixHero.tsx:75-83 | a new record has no glow, no glitch and scale 1 |
| CyberMatrix.MatrixEngine.constructor | src/components/ui/CyberMatrixHero.tsx:37-54 | mounting leaves the cursor off canvas, the clock and scroll at 0, and the list empty; the canvas is `innerWidth` by `5 * innerHeight`, the first band is `innerHeight` tall, the tiles are new records in the fresh state, and the window is set; the invariant holds |
| CyberMatrix.MatrixEngine.UpdateViewport | src/components/ui/CyberMatrixHero.tsx:56-60 | the window runs from 300 px above the scroll position to 300 px below the screen's bottom, so it strictly contains the visible screen; nothing else changes |
| CyberMatrix.MatrixEngine.CreateGrid | src/components/ui/CyberMatrixHero.tsx:62-86 | the canvas is one screen wide and five tall, with `floor(w/70)` columns and `floor(5h/70)` rows; the grid is all new records; a screen too small for one cell gives no tiles; the invariant holds |
| CyberMatrix.BuildGrid | src/components/ui/CyberMatrixHero.tsx:73-85 | the nested loops build `columns * rows` new records, record `k` made for cell `k` (so no record appears twice) and holding `FreshTile(k)`: at its lattice centre and within its bounds |
| CyberMatrix.BuildRow | src/components/ui/CyberMatrixHero.tsx:74-84 | row `y` appends `columns` new records after the rows before it, which it keeps, each holding `FreshTile` of its index |
| CyberMatrix.MatrixEngine.UpdateTile | src/components/ui/CyberMatrixHero.tsx:99-133 | the callback leaves the record as `StepTile` of its old contents; it takes the record off the list exactly when it was processed with its countdown at 0 |
| CyberMatrix.MatrixEngine.UpdateVisit | src/components/ui/CyberMatrixHero.tsx:98-133 | one turn of the loop at tile `i` gives that tile its stepped contents, touches no other tile, and splices it from the list exactly when it settles |
| CyberMatrix.MatrixEngine.ForEachTile | src/components/ui/CyberMatrixHero.tsx:98-134 | the loop leaves the grid as `UpdatedStates` of the old grid, and the list as `Swept`: each settling tile spliced out in grid order |
| CyberMatrix.MatrixEngine.UpdateTiles | src/components/ui/CyberMatrixHero.tsx:98-134 | the tile pass leaves the grid as `UpdatedStates` and the list less its `Settled` tiles, and keeps the invariant: tiles stay within their bounds and the list within its cap |
| CyberMatrix.MatrixEngine.Update | src/components/ui/CyberMatrixHero.tsx:89-135 | within 1000/30 ms of the last update nothing changes; otherwise the clock, window, grid and list become their updated values, and the invariant holds |
| CyberMatrix.MatrixEngine.Draw | src/components/ui/CyberMatrixHero.tsx:138-183 | the glyphs painted are exactly `PaintList` of the grid, each with an alpha in [0.1, 1] |
| CyberMatrix.MatrixEngine.AnimationFrame | src/components/ui/CyberMatrixHero.tsx:185-189 | a frame inside the 1000/30 ms throttle leaves the clock, window, list and grid unchanged; otherwise the clock is the frame time, the window follows the scroll, the grid is `UpdatedStates` and the list loses its `Settled` tiles; the frame then paints the grid as it stands |
| CyberMatrix.MatrixEngine.HandleMouseMove | src/components/ui/CyberMatrixHero.tsx:191-194 | the cursor is stored in page coordinates |
| CyberMatrix.MatrixEngine.HandleScroll | src/components/ui/CyberMatrixHero.tsx:231-239 | after a scroll of more than 50 px it redraws the current grid and remembers the position; otherwise it does neither |
| CyberMatrix.MatrixEngine.ClickTile | src/components/ui/CyberMatrixHero.tsx:205-215 | the callback glitches and appends the tile exactly on a hit below the cap with a coin below 0.5, and otherwise changes nothing |
| CyberMatrix.MatrixEngine.ClickVisit | src/components/ui/CyberMatrixHero.tsx:203-217 | one turn of the click loop at tile `i` extends the started glitches, the grid and the list exactly as `ClickStarts` and `Clicked` say for the first `i + 1` tiles |
| CyberMatrix.MatrixEngine.ForEachClick | src/components/ui/CyberMatrixHero.tsx:203-217 | the loop leaves the grid as `Clicked` at `ClickStarts`, and appends exactly those tiles to the list, in grid order |
| CyberMatrix.MatrixEngine.ClickAt | src/components/ui/CyberMatrixHero.tsx:203-217 | the tile pass at a canvas point leaves the grid as `Clicked` at `ClickStarts`, appends exactly those records to the list in grid order, and keeps the invariant (tiles within bounds, list within its cap); with the cap at 0 no tile and no list changes |
| CyberMatrix.MatrixEngine.HandleClick | src/components/ui/CyberMatrixHero.tsx:196-218 | the click is converted to page coordinates (`clientX - rect.left`, `clientY - rect.top + scrollY`), the tile pass runs there as `ClickAt` says, and the window is moved to the scroll position; the invariant holds, and with the cap at 0 no tile and no list changes |
| CyberMatrix.MountAndClick | src/components/ui/CyberMatrixHero.tsx:196-218 | with `MAX_ACTIVE_GLITCH` at its configured 0, a freshly mounted grid of `columns * rows` fresh tiles is still exactly that grid, with an empty list, after a click |
| Developer.WrapOffset | src/components/Developer/Developer.tsx:40-44 | after the two checks the offset lies in [-width, 0) for a positive width; an offset already in range is kept; anything else becomes `-width`, including a left overflow that first resets to 0 |
| Developer.NearEdge | src/components/Developer/Developer.tsx:54-56 | a page that scrolls by at most 20 px is near an edge everywhere; otherwise a position more than 10 px from both ends is not near an edge |
| Developer.ScrollVelocity | src/components/Developer/Developer.tsx:52-61 | near an edge the velocity is ±0.5 and negative exactly for a positive delta (+0.5 for a zero delta); elsewhere it is 0.2 times the delta |
| Developer.VelocityDirection | src/components/Developer/Developer.tsx:52-61 | near an edge the banner moves against the scroll and never stops; elsewhere it moves with the scroll and stops exactly when the scroll does |
| Developer.BannerScroller.constructor | src/components/Developer/Developer.tsx:13-35 | the offset and velocity start at 0, and the last scroll position at the current scroll |
| Developer.BannerScroller.UpdatePosition | src/components/Developer/Developer.tsx:39-48 | a frame moves the offset by the velocity and wraps it into [-width, 0) |
| Developer.BannerScroller.HandleScroll | src/components/Developer/Developer.tsx:50-64 | the velocity becomes `ScrollVelocity` of the scroll, and the last scroll position is always updated |
| Developer.FadeOpacity | src/components/Developer/Developer.tsx:249-251 | `max(0, 1 - (p - start)/0.3)` lies in [0, 1) inside the window and reaches 0 after 0.3 of progress |
| Developer.FadeOpacityMonotone | src/components/Developer/Developer.tsx:247-253 | within a fade the opacity never increases as progress grows |
| Developer.FadeOutSchedule | src/components/Developer/Developer.tsx:223-255 | at any progress the schedule issues at most three tweens, each with an opacity in [0, 1] |
| Developer.FadeWindowsOrder | src/components/Developer/Developer.tsx:228-247 | the fades run in order: any progress in the banner window comes before any progress in the image or title window, and progress in the image window comes before progress in the title window that is past the image window; the banner window meets neither of the others, and the image and title windows overlap exactly on (0.7, 0.8] |
| Developer.ApplyTweens | src/components/Developer/Developer.tsx:231-253 | running tweens keeps every tracked element, leaves untargeted ones unchanged, and keeps opacities in [0, 1] |
| Developer.ApplyTweensSole | src/components/Developer/Developer.tsx:231-253 | an element that a single tween targets ends at that tween's opacity |
| Developer.FadeOutWellFormed | src/components/Developer/Developer.tsx:223-255 | the exit schedule leaves every tracked opacity in [0, 1] |
| Developer.FadeOutBanner | src/components/Developer/Developer.tsx:247-254 | the banner changes only for progress in (0.1, 0.4], to its fade value |
| Developer.FadeOutImage | src/components/Developer/Developer.tsx:237-244 | the image changes only for progress in (0.5, 0.8], to its fade value |
| Developer.FadeOutTitle | src/components/Developer/Developer.tsx:228-235 | the title and info-3 change only for progress above 0.7, to their fade value |
| Developer.FadeOutSparesSideTexts | src/components/Developer/Developer.tsx:223-255 | the schedule never changes the left and right side texts |
| Developer.ExitCallbackTweens | src/components/Developer/Developer.tsx:256-304 | `onEnterBack` issues no tween; every other callback issues one tween that targets every element, at opacity 0 for `onLeave` and 1 otherwise |
| Developer.EntranceGate | src/components/Developer/Developer.tsx:95-102 | leaving the entrance range sets the flag, scrolling back into it clears it, and the other callbacks keep it |
| Developer.GateIsNotLatched | src/components/Developer/Developer.tsx:95-102 | the gate can be set and then cleared again, so it is not a one-way latch |
| Developer.ExitSequencer.constructor | src/components/Developer/Developer.tsx:26 | the flag starts false |
| Developer.ExitSequencer.EntranceCallback | src/components/Developer/Developer.tsx:95-102 | an entrance callback moves the flag as `EntranceGate` says |
| Developer.ExitSequencer.ExitUpdate | src/components/Developer/Developer.tsx:203-255 | progress changes opacities only while the flag is set, by the schedule, and keeps them in [0, 1] |
| Developer.ExitCallbackSetsAll | src/components/Developer/Developer.tsx:256-304 | after a callback's tweens, each element is at 0 (`onLeave`), at 1 (`onEnter`, `onLeaveBack`) or at its old opacity (`onEnterBack`) |
| Developer.ExitSequencer.ExitCallback | src/components/Developer/Developer.tsx:203-304 | while the flag is set, an exit callback other than `onEnterBack` leaves all six elements at 1 (`onLeave`: at 0); without the flag nothing changes |
| NavbarScramble.Revealed | src/components/Navbar/Navbar.tsx:17 | position `i` is revealed at `frame` (`i < (frame/20) * len`) exactly when `i * 20 < frame * len` on integers |
| NavbarScramble.ScrambleFrame | src/components/Navbar/Navbar.tsx:14-22 | the output has the text's length; revealed positions show the text, and the others show alphabet symbols |
| NavbarScramble.NothingRevealedAtStart | src/components/Navbar/Navbar.tsx:11-17 | at frame 0 no position is revealed |
| NavbarScramble.FullyRevealedAtEnd | src/components/Navbar/Navbar.tsx:12-19 | at frame 20 the output is the text itself |
| NavbarScramble.RevealedIsPrefix | src/components/Navbar/Navbar.tsx:17 | the revealed positions form a prefix |
| NavbarScramble.RevealGrows | src/components/Navbar/Navbar.tsx:17 | a later frame reveals every position an earlier one did |
| NavbarScramble.NextFrame | src/components/Navbar/Navbar.tsx:24-27 | a tick keeps the counter in [0, 20] and advances it modulo 21 |
| NavbarScramble.Advance | src/components/Navbar/Navbar.tsx:24-27 | any number of ticks keeps the counter in [0, 20] |
| NavbarScramble.AdvanceIsModular | src/components/Navbar/Navbar.tsx:24-27 | after `n` ticks the counter stands at `(frame + n) mod 21` |
| NavbarScramble.NoEarlyReturn | src/components/Navbar/Navbar.tsx:24-27 | from any counter value, 1 to 20 ticks never bring the counter back to it |
| NavbarScramble.FramePeriod | src/components/Navbar/Navbar.tsx:24-27 | the counter returns to its start after exactly 21 ticks and not before |
| NavbarScramble.TextScramble.constructor | src/components/Navbar/Navbar.tsx:6-11 | the display starts empty and the counter at 0 |
| NavbarScramble.TextScramble.Tick | src/components/Navbar/Navbar.tsx:13-28 | a tick displays the frame for the current counter, then advances the counter |

## Left out

- Rendering is not modelled: React and JSX, `useState`/`useEffect` wiring, and framer-motion props. They hold no checkable logic.
- Canvas styling in `draw` is not modelled: font, `fillStyle`, `shadowColor`, `shadowBlur` and the per-frame random white/green choice for glitching tiles. A painted glyph records only its position, glyph, scale, alpha and whether it glitches.
- Library internals are left out: GSAP and ScrollTrigger's conversion of `"750vh top"` into pixels, progress computation, `scrub` smoothing and the entrance timeline's `fromTo` tweens. Progress is an input, and the callbacks are events.
- Tween durations are left out: each `gsap.to` is modelled as reaching its target opacity at once.
- Browser calls are parameters:
  - `Math.random()` is a stream of draws in [0, 1), indexed by tile or text position.
  - `Math.sqrt` is a function assumed to return the non-negative square root.
  - `window.scrollY`, `innerWidth`/`innerHeight`, `getBoundingClientRect`, `scrollWidth` and `scrollHeight` are arguments.
- IEEE 754 rounding is not modelled: all arithmetic is on exact reals, so `1000/30` and `(frame/20) * len` are exact.
- Event-loop plumbing is left out: `requestAnimationFrame`, the 250 ms resize debounce, the 50 ms scramble interval, and listener registration and teardown. Each handler is a method the caller invokes.
- The `isClient` and missing-context early returns are left out, and so is the `[text]` dependency that restarts the scramble. The constructor stands for a fresh mount.
- The banner's `quickSetter` call is left out; the model keeps only the offset it is given.
- Text is a sequence of `char`. `split("")` works on UTF-16 code units, and the model does not separate surrogate pairs from whole characters.
- `Hero.tsx`, `Intro.tsx`, `App.tsx`, `BackgroundSection.tsx`, `Homepage.tsx`, the navigation bar's show/hide timers and the imported `@/components/ui/TextScramble` are not part of this model. They are composition or timer-driven toggles.
- CyberMatrix.MatrixEngine.HandleClick: the tile pass runs before the window update, while the source moves the window first. The pass neither reads nor writes the window, so the final state is the same.
- CyberMatrix.MatrixEngine.ForEachTile and CyberMatrix.MatrixEngine.ForEachClick: the loops splice from, or push to, a local copy of `activeGlitches` that is stored once the loop ends. No other code runs between the turns of `forEach`, so no one can observe the difference.
- Tile identity: each `Tile` record carries a ghost `cell`, its index in the grid, so that the proofs can tell records apart. The source has no such field.
- CyberMatrix.MatrixEngine.HandleClick: it returns the started tile indices as a ghost value. The source returns nothing; the ghost value only names which tiles changed.
