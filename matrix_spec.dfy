// The value-level rules of the hero background's tile grid.
//
// A tile is a glyph at a fixed lattice point with a glow intensity, a glitch
// countdown and a scale. These functions state what one update tick, one
// click and one draw do to a tile or to the list of tiles, so that the
// in-place engine in module CyberMatrix can be proved against them.
module CyberMatrixSpec {
  import Randomness

  /** `chars`: the glyphs a tile may show (89 characters). */
  const Chars: string :=
    "ABCDEFGHIJKLMNOPQRSTUVWXYZabcdefghijklmnopqrstuvwxyz0123456789<>/?;:\"[]{}\\|!@#$%^&*()_+-="
  /** `tileSize`: the lattice spacing and the side of a tile's hitbox. */
  const TileSize: nat := 70
  /** `tileSize / 2`. */
  const HalfTile: real := 35.0
  /** `UPDATE_INTERVAL`: milliseconds between two updates (30 per second). */
  const UpdateInterval: real := 1000.0 / 30.0
  /** `VIEWPORT_BUFFER`: pixels added above and below the visible window. */
  const ViewportBuffer: real := 300.0
  /** `radius`: the cursor's reach. */
  const Radius: real := 250.0
  /** The glitch countdown a click starts. */
  const GlitchLength: int := 5
  /** `MAX_ACTIVE_GLITCH` as the source configures it. */
  const MaxActiveGlitch: nat := 0
  /** A scroll moves further than this before the scroll handler redraws. */
  const ScrollRedrawThreshold: real := 50.0
  /** Cursor coordinate before any mouse move: far off the canvas. */
  const OffCanvas: real := -9999.0

  /** The state of one tile. */
  datatype TileState = TileState(
    x: real, y: real, glyph: char,
    intensity: real, glitchFrames: int, scale: real, lastUpdated: real)

  /** The bounds every tile keeps. */
  predicate Bounded(s: TileState)
  {
    0.0 <= s.intensity <= 1.0 && 0 <= s.glitchFrames <= GlitchLength && 1.0 <= s.scale <= 1.3
  }

  /** Every tile of the list keeps its bounds. */
  predicate AllBounded(ss: seq<TileState>)
  {
    forall j :: 0 <= j < |ss| ==> Bounded(ss[j])
  }

  // ---------------------------------------------------------------------
  // The lattice
  // ---------------------------------------------------------------------

  /** Centre coordinate of lattice cell `i`: `i * tileSize + tileSize / 2`. */
  function CellCentre(i: nat): real
  {
    (i * TileSize) as real + HalfTile
  }

  /** Tile `k` of a grid built with `columns` columns, as `createGrid` builds
      it: lattice centre, a glyph picked by the draw `r`, no glow, no glitch,
      unit scale. */
  function FreshTile(k: nat, columns: nat, r: real): (s: TileState)
    requires columns > 0
    requires Randomness.IsUnitDraw(r)
    ensures Bounded(s) && s.glyph in Chars
  {
    TileState(CellCentre(k % columns), CellCentre(k / columns), Randomness.Pick(Chars, r), 0.0, 0, 1.0, 0.0)
  }

  /** Row-major order: the flat index `row * columns + col` decodes back to
      row `row` and column `col`. */
  lemma CellIndex(row: nat, col: nat, columns: nat)
    requires col < columns
    ensures (row * columns + col) / columns == row
    ensures (row * columns + col) % columns == col
  {
    DivUnique(row * columns + col, columns, row, col);
  }

  /** Euclidean division has one quotient and one remainder. */
  lemma DivUnique(a: int, d: int, q: int, m: int)
    requires d > 0 && a == d * q + m && 0 <= m < d
    ensures a / d == q && a % d == m
  {
    var q', m' := a / d, a % d;
    assert d * (q - q') == m' - m;
    MulBetween(d, q - q');
  }

  lemma MulBetween(d: int, t: int)
    requires d > 0 && -d < d * t < d
    ensures t == 0
  {
  }

  lemma MulNonneg(a: real, b: real)
    requires a >= 0.0 && b >= 0.0
    ensures a * b >= 0.0
  {
  }

  /** The fresh tile at a cell's flat index sits at that cell's centre. */
  lemma FreshTileAtCell(row: nat, col: nat, columns: nat, r: real)
    requires col < columns
    requires Randomness.IsUnitDraw(r)
    ensures FreshTile(row * columns + col, columns, r).x == (col * 70 + 35) as real
    ensures FreshTile(row * columns + col, columns, r).y == (row * 70 + 35) as real
  {
    CellIndex(row, col, columns);
  }

  /** A row of `columns` tiles takes the count from row `y`'s start to row `y + 1`'s. */
  lemma RowLength(y: nat, columns: nat)
    ensures (y + 1) * columns == y * columns + columns
  {
  }


  // ---------------------------------------------------------------------
  // The viewport window and one update step
  // ---------------------------------------------------------------------

  /** `isInFirstSection`: the band of the first screen, always updated and drawn. */
  predicate InFirstSection(y: real, firstSectionHeight: real)
  {
    y <= firstSectionHeight
  }

  /** The scroll window `[viewportTop, viewportBottom]`. */
  predicate InViewport(y: real, top: real, bottom: real)
  {
    top <= y <= bottom
  }

  /** A tile at height `y` is processed by `update` and considered by `draw`:
      first-band tiles always, and every tile on the visible screen (the
      window less its 300-pixel buffers). */
  predicate IsActive(y: real, firstSectionHeight: real, top: real, bottom: real): (r: bool)
    ensures InFirstSection(y, firstSectionHeight) ==> r
    ensures top + ViewportBuffer <= y <= bottom - ViewportBuffer ==> r
    ensures r && !InFirstSection(y, firstSectionHeight) ==> top <= y <= bottom
  {
    InFirstSection(y, firstSectionHeight) || InViewport(y, top, bottom)
  }

  /** `v += (target - v) * rate`: exponential smoothing toward `target`. */
  function Ease(v: real, target: real, rate: real): real
  {
    v + (target - v) * rate
  }

  /** A smoothing step with a rate in [0, 1] lands between the old value and the target. */
  lemma EaseIsConvex(v: real, target: real, rate: real)
    requires 0.0 <= rate <= 1.0
    ensures v <= target ==> v <= Ease(v, target, rate) <= target
    ensures target <= v ==> target <= Ease(v, target, rate) <= v
  {
    if v <= target {
      MulNonneg(target - v, rate);
      MulNonneg(target - v, 1.0 - rate);
    } else {
      MulNonneg(v - target, rate);
      MulNonneg(v - target, 1.0 - rate);
    }
  }

  /** The intensity the cursor pulls a tile toward: `1 - distance / radius`
      inside the radius, 0 outside. */
  function TargetIntensity(distance: real): (t: real)
    requires distance >= 0.0
    ensures 0.0 <= t <= 1.0
    ensures t == 1.0 <==> distance == 0.0
    ensures t == 0.0 <==> distance >= Radius
  {
    if distance < Radius then 1.0 - distance / Radius else 0.0
  }

  /** One tick of `update` for one tile. `active` is the window test,
      `distance` the cursor distance, `jitter` the draw for a glitch scale. */
  function StepTile(s: TileState, active: bool, distance: real, jitter: real, now: real): (r: TileState)
    ensures r.x == s.x && r.y == s.y && r.glyph == s.glyph
  {
    if !active then
      s.(intensity := if s.intensity > 0.0 then Ease(s.intensity, 0.0, 0.1) else s.intensity)
    else
      var eased := if distance < Radius then Ease(s.intensity, 1.0 - distance / Radius, 0.2)
                   else Ease(s.intensity, 0.0, 0.05);
      if s.glitchFrames > 0 then
        s.(intensity := 1.0, glitchFrames := s.glitchFrames - 1, scale := 1.0 + jitter * 0.3, lastUpdated := now)
      else
        s.(intensity := eased, scale := Ease(s.scale, 1.0, 0.2), lastUpdated := now)
  }

  /** A tile outside the window and the first band only has its glow decay:
      countdown, scale, glyph and timestamp stay. */
  lemma StepSkippedTile(s: TileState, distance: real, jitter: real, now: real)
    requires s.intensity >= 0.0
    ensures var r := StepTile(s, false, distance, jitter, now);
      r.glitchFrames == s.glitchFrames && r.scale == s.scale && r.lastUpdated == s.lastUpdated
      && 0.0 <= r.intensity <= s.intensity
      && (s.intensity > 0.0 ==> r.intensity == 0.9 * s.intensity)
  {
  }

  /** A processed, glitching tile counts down by exactly one, never below 0,
      and glows fully; a processed quiet tile's scale moves a fifth of the way to 1. */
  lemma StepProcessedTile(s: TileState, distance: real, jitter: real, now: real)
    requires Bounded(s)
    ensures var r := StepTile(s, true, distance, jitter, now);
      r.lastUpdated == now
      && (s.glitchFrames > 0 ==> r.glitchFrames == s.glitchFrames - 1 >= 0 && r.intensity == 1.0)
      && (s.glitchFrames <= 0 ==> r.glitchFrames == s.glitchFrames && r.scale - 1.0 == 0.8 * (s.scale - 1.0))
  {
  }

  /** Every update keeps a tile's intensity in [0, 1], its countdown in
      [0, 5] and its scale in [1, 1.3]. */
  lemma StepTileBounded(s: TileState, active: bool, distance: real, jitter: real, now: real)
    requires Bounded(s)
    requires distance >= 0.0
    requires Randomness.IsUnitDraw(jitter)
    ensures Bounded(StepTile(s, active, distance, jitter, now))
  {
    if !active {
      EaseIsConvex(s.intensity, 0.0, 0.1);
    } else if s.glitchFrames > 0 {
      assert 0.0 <= jitter * 0.3 < 0.3;
    } else {
      EaseIsConvex(s.scale, 1.0, 0.2);
      if distance < Radius {
        EaseIsConvex(s.intensity, TargetIntensity(distance), 0.2);
      } else {
        EaseIsConvex(s.intensity, 0.0, 0.05);
      }
    }
  }

  /** A processed quiet tile eases toward the cursor's target intensity, at
      rate 0.2 inside the radius and 0.05 outside, and lands between its old
      intensity and that target. */
  lemma StepTileIntensity(s: TileState, distance: real, jitter: real, now: real)
    requires distance >= 0.0
    requires s.glitchFrames <= 0
    ensures var r := StepTile(s, true, distance, jitter, now);
      var t := TargetIntensity(distance);
      r.intensity == Ease(s.intensity, t, if distance < Radius then 0.2 else 0.05)
      && (s.intensity <= t ==> s.intensity <= r.intensity <= t)
      && (t <= s.intensity ==> t <= r.intensity <= s.intensity)
  {
    EaseIsConvex(s.intensity, TargetIntensity(distance), if distance < Radius then 0.2 else 0.05);
  }

  /** Math.sqrt, given as a parameter: a function that returns the
      non-negative square root of every non-negative real. */
  ghost predicate IsSqrt(sqrt: real -> real)
  {
    forall v :: 0.0 <= v ==> 0.0 <= sqrt(v) && sqrt(v) * sqrt(v) == v
  }

  /** `Math.sqrt(dx * dx + dy * dy)` from the cursor to a tile: with a true
      square root, the non-negative number whose square is the squared
      Euclidean distance. */
  function Distance(sqrt: real -> real, mouseX: real, mouseY: real, s: TileState): (d: real)
    ensures IsSqrt(sqrt) ==> d >= 0.0
    ensures IsSqrt(sqrt) ==> d * d == (mouseX - s.x) * (mouseX - s.x) + (mouseY - s.y) * (mouseY - s.y)
  {
    var dx := mouseX - s.x;
    var dy := mouseY - s.y;
    sqrt(dx * dx + dy * dy)
  }

  /** The cursor reaches a tile exactly when their squared distance is below 250². */
  lemma DistanceWithinRadius(sqrt: real -> real, mouseX: real, mouseY: real, s: TileState)
    requires IsSqrt(sqrt)
    ensures Distance(sqrt, mouseX, mouseY, s) >= 0.0
    ensures Distance(sqrt, mouseX, mouseY, s) < Radius <==>
      (mouseX - s.x) * (mouseX - s.x) + (mouseY - s.y) * (mouseY - s.y) < Radius * Radius
  {
    var v := (mouseX - s.x) * (mouseX - s.x) + (mouseY - s.y) * (mouseY - s.y);
    RootBelowRadius(Distance(sqrt, mouseX, mouseY, s), v);
  }

  /** Before the first mouse move the cursor sits at (-9999, -9999), out of
      reach of every tile of the canvas. */
  lemma {:induction false} OffCanvasOutOfReach(sqrt: real -> real, s: TileState, jitter: real, now: real)
    requires IsSqrt(sqrt)
    requires s.x >= 0.0 && s.y >= 0.0
    ensures Distance(sqrt, OffCanvas, OffCanvas, s) >= Radius
    ensures StepTile(s, true, Distance(sqrt, OffCanvas, OffCanvas, s), jitter, now).intensity
            == (if s.glitchFrames > 0 then 1.0 else Ease(s.intensity, 0.0, 0.05))
  {
    DistanceWithinRadius(sqrt, OffCanvas, OffCanvas, s);
    var dx := s.x - OffCanvas;
    assert dx >= 9999.0;
    MulNonneg(dx - 9999.0, dx);
    MulNonneg(dx - 9999.0, 9999.0);
    assert dx * dx >= 9999.0 * 9999.0;
    MulNonneg(s.y - OffCanvas, s.y - OffCanvas);
  }

  lemma HitWithinCorner(d: real)
    ensures -HalfTile <= d <= HalfTile ==> d * d <= HalfTile * HalfTile
  {
    if -HalfTile <= d <= HalfTile {
      MulNonneg(HalfTile - d, HalfTile + d);
    }
  }

  lemma RootBelowRadius(d: real, v: real)
    requires 0.0 <= d && d * d == v
    ensures d < Radius <==> v < Radius * Radius
  {
    if d < Radius {
      MulNonneg(d, Radius - d);
      MulNonneg(Radius, Radius - d);
    } else {
      MulNonneg(d, d - Radius);
      MulNonneg(Radius, d - Radius);
    }
  }

  /** One update tick applied to the first `n` tiles, in order. */
  function UpdatedPrefix(ss: seq<TileState>, n: nat, firstSectionHeight: real, top: real, bottom: real,
                         mouseX: real, mouseY: real, sqrt: real -> real, jitter: nat -> real,
                         now: real): (r: seq<TileState>)
    requires n <= |ss|
    ensures |r| == n
    decreases n
  {
    if n == 0 then []
    else
      UpdatedPrefix(ss, n - 1, firstSectionHeight, top, bottom, mouseX, mouseY, sqrt, jitter, now)
      + [StepTile(ss[n - 1], IsActive(ss[n - 1].y, firstSectionHeight, top, bottom),
                  Distance(sqrt, mouseX, mouseY, ss[n - 1]), jitter(n - 1), now)]
  }

  /** What one update tick does to all tiles. */
  function UpdatedStates(ss: seq<TileState>, firstSectionHeight: real, top: real, bottom: real,
                         mouseX: real, mouseY: real, sqrt: real -> real, jitter: nat -> real,
                         now: real): (r: seq<TileState>)
    ensures |r| == |ss|
  {
    UpdatedPrefix(ss, |ss|, firstSectionHeight, top, bottom, mouseX, mouseY, sqrt, jitter, now)
  }

  /** Within the first `n` tiles, tile `j` is stepped by `StepTile` with its own inputs. */
  lemma {:induction false} UpdatedPrefixAt(ss: seq<TileState>, n: nat, j: nat,
                                          firstSectionHeight: real, top: real, bottom: real,
                                          mouseX: real, mouseY: real, sqrt: real -> real,
                                          jitter: nat -> real, now: real)
    requires j < n <= |ss|
    ensures UpdatedPrefix(ss, n, firstSectionHeight, top, bottom, mouseX, mouseY, sqrt, jitter, now)[j]
         == StepTile(ss[j], IsActive(ss[j].y, firstSectionHeight, top, bottom),
                     Distance(sqrt, mouseX, mouseY, ss[j]), jitter(j), now)
  {
    if j < n - 1 {
      UpdatedPrefixAt(ss, n - 1, j, firstSectionHeight, top, bottom, mouseX, mouseY, sqrt, jitter, now);
    }
  }

  /** One update tick steps tile `j` by `StepTile`, with the window test,
      cursor distance and jitter draw of that tile. */
  lemma UpdatedStatesAt(ss: seq<TileState>, j: nat, firstSectionHeight: real, top: real, bottom: real,
                        mouseX: real, mouseY: real, sqrt: real -> real, jitter: nat -> real, now: real)
    requires j < |ss|
    ensures UpdatedStates(ss, firstSectionHeight, top, bottom, mouseX, mouseY, sqrt, jitter, now)[j]
         == StepTile(ss[j], IsActive(ss[j].y, firstSectionHeight, top, bottom),
                     Distance(sqrt, mouseX, mouseY, ss[j]), jitter(j), now)
  {
    UpdatedPrefixAt(ss, |ss|, j, firstSectionHeight, top, bottom, mouseX, mouseY, sqrt, jitter, now);
  }

  /** One update tick keeps every tile within its bounds. */
  lemma UpdatedStatesBounded(ss: seq<TileState>, firstSectionHeight: real, top: real, bottom: real,
                             mouseX: real, mouseY: real, sqrt: real -> real, jitter: nat -> real, now: real)
    requires AllBounded(ss)
    requires IsSqrt(sqrt) && Randomness.AllUnitDraws(jitter)
    ensures AllBounded(UpdatedStates(ss, firstSectionHeight, top, bottom, mouseX, mouseY, sqrt, jitter, now))
  {
    forall j | 0 <= j < |ss|
      ensures Bounded(UpdatedStates(ss, firstSectionHeight, top, bottom, mouseX, mouseY, sqrt, jitter, now)[j])
    {
      UpdatedStatesAt(ss, j, firstSectionHeight, top, bottom, mouseX, mouseY, sqrt, jitter, now);
      DistanceWithinRadius(sqrt, mouseX, mouseY, ss[j]);
      StepTileBounded(ss[j], IsActive(ss[j].y, firstSectionHeight, top, bottom),
                      Distance(sqrt, mouseX, mouseY, ss[j]), jitter(j), now);
    }
  }

  /** The tiles among the first `n` that the update removes from the
      active-glitch list, in order: processed tiles whose countdown was
      already 0. */
  function Settled<T>(ts: seq<T>, ss: seq<TileState>, n: nat,
                      firstSectionHeight: real, top: real, bottom: real): (r: seq<T>)
    requires |ts| == |ss| && n <= |ts|
    ensures |r| <= n
    decreases n
  {
    if n == 0 then []
    else
      Settled(ts, ss, n - 1, firstSectionHeight, top, bottom)
      + (if IsActive(ss[n - 1].y, firstSectionHeight, top, bottom) && ss[n - 1].glitchFrames <= 0
         then [ts[n - 1]] else [])
  }

  /** Visiting tile `i` removes it from the active list exactly when it settles. */
  lemma SettledRemovalStep<T>(active: seq<T>, ts: seq<T>, ss: seq<TileState>, i: nat,
                              firstSectionHeight: real, top: real, bottom: real)
    requires |ts| == |ss| && i < |ts|
    ensures RemoveAll(active, Settled(ts, ss, i + 1, firstSectionHeight, top, bottom))
         == if IsActive(ss[i].y, firstSectionHeight, top, bottom) && ss[i].glitchFrames <= 0
            then RemoveFirst(RemoveAll(active, Settled(ts, ss, i, firstSectionHeight, top, bottom)), ts[i])
            else RemoveAll(active, Settled(ts, ss, i, firstSectionHeight, top, bottom))
  {
    var settled := Settled(ts, ss, i, firstSectionHeight, top, bottom);
    if IsActive(ss[i].y, firstSectionHeight, top, bottom) && ss[i].glitchFrames <= 0 {
      RemoveAllSnoc(active, settled, ts[i]);
    } else {
      assert settled + [] == settled;
    }
  }

  /** The active list as the update's loop leaves it after the first `n`
      tiles: each tile that settles is spliced out of it, in grid order. */
  function Swept<T(==)>(active: seq<T>, ts: seq<T>, ss: seq<TileState>, n: nat,
                        firstSectionHeight: real, top: real, bottom: real): (r: seq<T>)
    requires |ts| == |ss| && n <= |ts|
    decreases n
  {
    if n == 0 then active
    else
      var r := Swept(active, ts, ss, n - 1, firstSectionHeight, top, bottom);
      if IsActive(ss[n - 1].y, firstSectionHeight, top, bottom) && ss[n - 1].glitchFrames <= 0
      then RemoveFirst(r, ts[n - 1]) else r
  }

  /** The loop's list is the original list less the settled tiles, removed
      one occurrence each in order. */
  lemma {:induction false} SweptIsRemoveAll<T>(active: seq<T>, ts: seq<T>, ss: seq<TileState>, n: nat,
                                              firstSectionHeight: real, top: real, bottom: real)
    requires |ts| == |ss| && n <= |ts|
    ensures Swept(active, ts, ss, n, firstSectionHeight, top, bottom)
         == RemoveAll(active, Settled(ts, ss, n, firstSectionHeight, top, bottom))
  {
    if n > 0 {
      SweptIsRemoveAll(active, ts, ss, n - 1, firstSectionHeight, top, bottom);
      SettledRemovalStep(active, ts, ss, n - 1, firstSectionHeight, top, bottom);
    }
  }

  /** Among distinct tiles, a tile the update has not reached yet is not removed. */
  lemma {:induction false} SettledExcludesLater<T>(ts: seq<T>, ss: seq<TileState>, n: nat, j: nat,
                                                  firstSectionHeight: real, top: real, bottom: real)
    requires |ts| == |ss| && n <= j < |ts|
    requires forall a, b :: 0 <= a < b < |ts| ==> ts[a] != ts[b]
    ensures ts[j] !in Settled(ts, ss, n, firstSectionHeight, top, bottom)
  {
    if n > 0 {
      SettledExcludesLater(ts, ss, n - 1, j, firstSectionHeight, top, bottom);
      assert ts[n - 1] != ts[j];
    }
  }

  /** Among distinct tiles, a tile is settled exactly when the update
      processes it (it is in the window or the first band) and its countdown
      was already 0; a tile outside both, or still glitching, stays listed. */
  lemma {:induction false} SettledExactly<T>(ts: seq<T>, ss: seq<TileState>, n: nat, j: nat,
                                            firstSectionHeight: real, top: real, bottom: real)
    requires |ts| == |ss| && j < n <= |ts|
    requires forall a, b :: 0 <= a < b < |ts| ==> ts[a] != ts[b]
    ensures ts[j] in Settled(ts, ss, n, firstSectionHeight, top, bottom) <==>
      IsActive(ss[j].y, firstSectionHeight, top, bottom) && ss[j].glitchFrames <= 0
  {
    if j < n - 1 {
      SettledExactly(ts, ss, n - 1, j, firstSectionHeight, top, bottom);
      assert ts[n - 1] != ts[j];
    } else {
      SettledExcludesLater(ts, ss, n - 1, j, firstSectionHeight, top, bottom);
    }
  }

  /** `indexOf`: the first position of `x` in `s`, or -1. */
  function IndexOf<T(==)>(s: seq<T>, x: T): (i: int)
    ensures -1 <= i < |s|
    ensures i == -1 <==> x !in s
    ensures i >= 0 ==> s[i] == x && x !in s[..i]
  {
    if s == [] then -1
    else if s[0] == x then 0
    else
      var j := IndexOf(s[1..], x);
      if j == -1 then -1
      else
        assert s[..j + 1] == [s[0]] + s[1..][..j];
        j + 1
  }

  /** The list without the first occurrence of `x`. */
  function RemoveFirst<T(==)>(s: seq<T>, x: T): (r: seq<T>)
    ensures |r| <= |s|
  {
    if s == [] then []
    else if s[0] == x then s[1..]
    else [s[0]] + RemoveFirst(s[1..], x)
  }

  /** `RemoveFirst` is what `indexOf` followed by `splice(index, 1)` does. */
  lemma {:induction false} RemoveFirstIsSplice<T>(s: seq<T>, x: T)
    ensures RemoveFirst(s, x) == (var i := IndexOf(s, x); if i == -1 then s else s[..i] + s[i + 1..])
  {
    if s != [] && s[0] != x {
      RemoveFirstIsSplice(s[1..], x);
      var j := IndexOf(s[1..], x);
      if j == -1 {
        assert s == [s[0]] + s[1..];
      } else {
        assert s[..j + 1] == [s[0]] + s[1..][..j];
        assert s[j + 2..] == s[1..][j + 1..];
      }
    }
  }

  /** A present `x` loses exactly one occurrence; an absent one leaves the list as it was. */
  lemma {:induction false} RemoveFirstRemovesOne<T>(s: seq<T>, x: T)
    ensures x in s ==> |RemoveFirst(s, x)| == |s| - 1
                       && multiset(RemoveFirst(s, x)) == multiset(s) - multiset{x}
    ensures x !in s ==> RemoveFirst(s, x) == s
  {
    if s != [] {
      assert s == [s[0]] + s[1..];
      if s[0] != x {
        RemoveFirstRemovesOne(s[1..], x);
        assert x in s <==> x in s[1..];
      }
    }
  }

  /** The list after removing the first occurrence of each of `xs`, in order. */
  function RemoveAll<T(==)>(s: seq<T>, xs: seq<T>): (r: seq<T>)
  {
    if xs == [] then s
    else RemoveFirst(RemoveAll(s, xs[..|xs| - 1]), xs[|xs| - 1])
  }

  /** Removing one more element is one more `RemoveFirst`. */
  lemma RemoveAllSnoc<T>(s: seq<T>, xs: seq<T>, x: T)
    ensures RemoveAll(s, xs + [x]) == RemoveFirst(RemoveAll(s, xs), x)
  {
    assert (xs + [x])[..|xs|] == xs;
  }

  /** Removing never lengthens the list. */
  lemma {:induction false} RemoveAllShrinks<T>(s: seq<T>, xs: seq<T>)
    ensures |RemoveAll(s, xs)| <= |s|
  {
    if xs != [] {
      RemoveAllShrinks(s, xs[..|xs| - 1]);
    }
  }

  /** An element that is not removed keeps its number of occurrences. */
  lemma {:induction false} RemoveAllKeeps<T>(s: seq<T>, xs: seq<T>, x: T)
    requires x !in xs
    ensures multiset(RemoveAll(s, xs))[x] == multiset(s)[x]
  {
    if xs != [] {
      var n := |xs| - 1;
      var y := xs[n];
      assert y in xs;
      assert x !in xs[..n] by {
        assert forall k :: 0 <= k < n ==> xs[..n][k] == xs[k];
      }
      RemoveAllKeeps(s, xs[..n], x);
      var t := RemoveAll(s, xs[..n]);
      assert RemoveAll(s, xs) == RemoveFirst(t, y);
      RemoveFirstRemovesOne(t, y);
      assert multiset{y}[x] == 0;
    }
  }

  // ---------------------------------------------------------------------
  // Clicks
  // ---------------------------------------------------------------------

  /** The click lies in the tile's square hitbox `[x - 35, x + 35] × [y - 35, y + 35]`,
      so a hit is at most `35√2` from the tile's centre. */
  predicate InHitbox(clickX: real, clickY: real, s: TileState): (r: bool)
    ensures r ==> (clickX - s.x) * (clickX - s.x) + (clickY - s.y) * (clickY - s.y)
                  <= 2.0 * HalfTile * HalfTile
  {
    HitWithinCorner(clickX - s.x);
    HitWithinCorner(clickY - s.y);
    clickX >= s.x - HalfTile && clickX <= s.x + HalfTile
    && clickY >= s.y - HalfTile && clickY <= s.y + HalfTile
  }

  /** The indices among the first `n` tiles where a click starts a glitch:
      the tile is hit, the active list (which already held `base` tiles) is
      still below the cap, and the coin draw is below 0.5. */
  function ClickStarts(ss: seq<TileState>, n: nat, base: nat, cap: nat,
                       clickX: real, clickY: real, coin: nat -> real): (r: seq<nat>)
    requires n <= |ss|
    ensures forall k :: 0 <= k < |r| ==> r[k] < n
    decreases n
  {
    if n == 0 then []
    else
      var prev := ClickStarts(ss, n - 1, base, cap, clickX, clickY, coin);
      if InHitbox(clickX, clickY, ss[n - 1]) && base + |prev| < cap && coin(n - 1) < 0.5
      then prev + [n - 1] else prev
  }

  /** Every element of `r` is below the ones after it. */
  predicate StrictlyIncreasing(r: seq<nat>)
  {
    forall a, b :: 0 <= a < b < |r| ==> r[a] < r[b]
  }

  /** Glitches start in grid order, each tile at most once. */
  lemma {:induction false} ClickStartsIncreasing(ss: seq<TileState>, n: nat, base: nat, cap: nat,
                                                clickX: real, clickY: real, coin: nat -> real)
    requires n <= |ss|
    ensures StrictlyIncreasing(ClickStarts(ss, n, base, cap, clickX, clickY, coin))
  {
    if n > 0 {
      ClickStartsIncreasing(ss, n - 1, base, cap, clickX, clickY, coin);
      var prev := ClickStarts(ss, n - 1, base, cap, clickX, clickY, coin);
      var r := ClickStarts(ss, n, base, cap, clickX, clickY, coin);
      if r != prev {
        assert r == prev + [n - 1];
        forall a, b | 0 <= a < b < |r|
          ensures r[a] < r[b]
        {
          assert r[a] == prev[a];
          if b < |prev| {
            assert r[b] == prev[b];
          } else {
            assert r[b] == n - 1;
            assert prev[a] < n - 1;
          }
        }
      }
    }
  }

  /** A glitch starts only at a tile whose hitbox holds the click, and only
      on a coin draw below 0.5. */
  lemma {:induction false} ClickStartsAreHits(ss: seq<TileState>, n: nat, base: nat, cap: nat,
                                             clickX: real, clickY: real, coin: nat -> real, k: nat)
    requires n <= |ss|
    requires k < |ClickStarts(ss, n, base, cap, clickX, clickY, coin)|
    ensures var j := ClickStarts(ss, n, base, cap, clickX, clickY, coin)[k];
      InHitbox(clickX, clickY, ss[j]) && coin(j) < 0.5
  {
    var prev := ClickStarts(ss, n - 1, base, cap, clickX, clickY, coin);
    if k < |prev| {
      ClickStartsAreHits(ss, n - 1, base, cap, clickX, clickY, coin, k);
    }
  }

  /** The active list never grows past the cap; with the cap at 0 no glitch starts. */
  lemma {:induction false} ClickStartsWithinCap(ss: seq<TileState>, n: nat, base: nat, cap: nat,
                                               clickX: real, clickY: real, coin: nat -> real)
    requires n <= |ss|
    requires base <= cap
    ensures base + |ClickStarts(ss, n, base, cap, clickX, clickY, coin)| <= cap
    ensures cap == 0 ==> ClickStarts(ss, n, base, cap, clickX, clickY, coin) == []
  {
    if n > 0 {
      ClickStartsWithinCap(ss, n - 1, base, cap, clickX, clickY, coin);
    }
  }

  /** A hit tile with a winning coin is skipped only when the cap is reached. */
  lemma {:induction false} ClickSkipsOnlyAtCap(ss: seq<TileState>, n: nat, base: nat, cap: nat,
                                              clickX: real, clickY: real, coin: nat -> real, j: nat)
    requires j < n <= |ss|
    requires InHitbox(clickX, clickY, ss[j]) && coin(j) < 0.5
    requires j !in ClickStarts(ss, n, base, cap, clickX, clickY, coin)
    ensures base + |ClickStarts(ss, n, base, cap, clickX, clickY, coin)| >= cap
  {
    var prev := ClickStarts(ss, n - 1, base, cap, clickX, clickY, coin);
    if j < n - 1 {
      assert j !in prev by {
        assert forall k :: 0 <= k < |prev| ==> prev[k] in ClickStarts(ss, n, base, cap, clickX, clickY, coin);
      }
      ClickSkipsOnlyAtCap(ss, n - 1, base, cap, clickX, clickY, coin, j);
    }
  }

  /** A tile a click glitches: a new glyph picked by `r`, a 5-frame countdown. */
  function StartGlitch(s: TileState, r: real): (g: TileState)
    requires Randomness.IsUnitDraw(r)
    ensures g.glyph in Chars && g.glitchFrames == GlitchLength
    ensures g.(glyph := s.glyph, glitchFrames := s.glitchFrames) == s
  {
    s.(glyph := Randomness.Pick(Chars, r), glitchFrames := GlitchLength)
  }

  /** All tiles after a click that started glitches at `started`, one
      tile after another in the order of `started`. */
  function Clicked(ss: seq<TileState>, started: seq<nat>, pick: nat -> real): (r: seq<TileState>)
    requires Randomness.AllUnitDraws(pick)
    requires forall k :: 0 <= k < |started| ==> started[k] < |ss|
    ensures |r| == |ss|
    decreases |started|
  {
    if started == [] then ss
    else
      var n := |started| - 1;
      var prev := Clicked(ss, started[..n], pick);
      prev[started[n] := StartGlitch(prev[started[n]], pick(started[n]))]
  }

  /** One more started glitch changes that one tile. */
  lemma ClickedSnoc(ss: seq<TileState>, started: seq<nat>, j: nat, pick: nat -> real)
    requires Randomness.AllUnitDraws(pick)
    requires forall k :: 0 <= k < |started| ==> started[k] < |ss|
    requires j < |ss|
    ensures Clicked(ss, started + [j], pick)
         == Clicked(ss, started, pick)[j := StartGlitch(Clicked(ss, started, pick)[j], pick(j))]
  {
    assert (started + [j])[..|started|] == started;
  }

  /** After a click, exactly the tiles at `started` hold a new glyph picked
      by their draw and a 5-frame countdown; every other tile is as it was. */
  lemma {:induction false} ClickedAt(ss: seq<TileState>, started: seq<nat>, pick: nat -> real, j: nat)
    requires Randomness.AllUnitDraws(pick)
    requires forall k :: 0 <= k < |started| ==> started[k] < |ss|
    requires j < |ss|
    ensures Clicked(ss, started, pick)[j] == if j in started then StartGlitch(ss[j], pick(j)) else ss[j]
  {
    if started != [] {
      var n := |started| - 1;
      ClickedAt(ss, started[..n], pick, j);
      assert started == started[..n] + [started[n]];
      assert j in started <==> j in started[..n] || j == started[n];
    }
  }

  /** One tile of the click pass: tile `i`, untouched so far, either starts
      a glitch or stays as it was, and the grid and the started list then
      agree with the first `i + 1` tiles. */
  lemma ClickStep(ss: seq<TileState>, i: nat, base: nat, cap: nat, clickX: real, clickY: real,
                  coin: nat -> real, pick: nat -> real, hit: bool, s: TileState)
    requires Randomness.AllUnitDraws(pick)
    requires i < |ss|
    requires hit == (InHitbox(clickX, clickY, ss[i])
                     && base + |ClickStarts(ss, i, base, cap, clickX, clickY, coin)| < cap && coin(i) < 0.5)
    requires s == if hit then StartGlitch(ss[i], pick(i)) else ss[i]
    ensures var started := ClickStarts(ss, i, base, cap, clickX, clickY, coin);
      Clicked(ss, started, pick)[i] == ss[i]
      && ClickStarts(ss, i + 1, base, cap, clickX, clickY, coin) == (if hit then started + [i] else started)
      && Clicked(ss, started, pick)[i := s]
         == Clicked(ss, ClickStarts(ss, i + 1, base, cap, clickX, clickY, coin), pick)
  {
    var started := ClickStarts(ss, i, base, cap, clickX, clickY, coin);
    assert i !in started;
    ClickedAt(ss, started, pick, i);
    if hit {
      ClickedSnoc(ss, started, i, pick);
    }
  }

  /** A click keeps every tile within its bounds. */
  lemma {:induction false} ClickedBounded(ss: seq<TileState>, started: seq<nat>, pick: nat -> real)
    requires Randomness.AllUnitDraws(pick)
    requires forall k :: 0 <= k < |started| ==> started[k] < |ss|
    requires AllBounded(ss)
    ensures AllBounded(Clicked(ss, started, pick))
  {
    if started != [] {
      ClickedBounded(ss, started[..|started| - 1], pick);
    }
  }

  /** A click changes only tiles whose hitbox holds it, and with the cap at 0 nothing. */
  lemma ClickChangesOnlyHits(ss: seq<TileState>, base: nat, cap: nat, clickX: real, clickY: real,
                             coin: nat -> real, pick: nat -> real, j: nat)
    requires Randomness.AllUnitDraws(pick)
    requires j < |ss|
    requires !InHitbox(clickX, clickY, ss[j]) || cap == 0
    ensures base <= cap ==>
      Clicked(ss, ClickStarts(ss, |ss|, base, cap, clickX, clickY, coin), pick)[j] == ss[j]
  {
    var started := ClickStarts(ss, |ss|, base, cap, clickX, clickY, coin);
    ClickedAt(ss, started, pick, j);
    if j in started {
      var k :| 0 <= k < |started| && started[k] == j;
      ClickStartsAreHits(ss, |ss|, base, cap, clickX, clickY, coin, k);
      if base <= cap {
        ClickStartsWithinCap(ss, |ss|, base, cap, clickX, clickY, coin);
      }
    }
  }


  // ---------------------------------------------------------------------
  // Drawing
  // ---------------------------------------------------------------------

  /** `Math.abs(currentScrollY - lastScrollY) > 50`: the scroll handler
      redraws exactly when the page moved more than 50 pixels up or down from
      the last redraw. */
  predicate ScrollRedraws(currentScrollY: real, lastScrollY: real): (r: bool)
    ensures r <==> currentScrollY > lastScrollY + ScrollRedrawThreshold
                   || currentScrollY < lastScrollY - ScrollRedrawThreshold
  {
    (if currentScrollY >= lastScrollY then currentScrollY - lastScrollY else lastScrollY - currentScrollY)
      > ScrollRedrawThreshold
  }

  /** One glyph painted: position, glyph, scale, `globalAlpha`, and whether it
      is painted in glitch style. Colours and glow are left out. */
  datatype Paint = Paint(x: real, y: real, glyph: char, scale: real, alpha: real, glitching: bool)

  /** The `draw` skip rule: first-band tiles are always painted; other tiles
      only inside the window and when glowing at least 0.05 or glitching. So
      drawing never skips a first-band tile and never paints a tile that the
      update step would skip. */
  predicate Drawn(s: TileState, firstSectionHeight: real, top: real, bottom: real): (r: bool)
    ensures InFirstSection(s.y, firstSectionHeight) ==> r
    ensures r ==> IsActive(s.y, firstSectionHeight, top, bottom)
  {
    InFirstSection(s.y, firstSectionHeight)
    || (InViewport(s.y, top, bottom) && !(s.intensity < 0.05 && s.glitchFrames == 0))
  }

  /** `globalAlpha = 0.1 + intensity * 0.9`. */
  function Alpha(intensity: real): (a: real)
    ensures 0.0 <= intensity <= 1.0 ==> 0.1 <= a <= 1.0
  {
    0.1 + intensity * 0.9
  }

  function PaintOf(s: TileState): Paint
  {
    Paint(s.x, s.y, s.glyph, s.scale, Alpha(s.intensity), s.glitchFrames > 0)
  }

  /** The glyphs one `draw` paints, in tile order. */
  function PaintList(ss: seq<TileState>, firstSectionHeight: real, top: real, bottom: real): (ps: seq<Paint>)
    ensures |ps| <= |ss|
  {
    if ss == [] then []
    else
      var n := |ss| - 1;
      PaintList(ss[..n], firstSectionHeight, top, bottom)
      + (if Drawn(ss[n], firstSectionHeight, top, bottom) then [PaintOf(ss[n])] else [])
  }

  /** Every drawn tile is painted, and every painted glyph comes from a drawn tile. */
  lemma {:induction false} PaintListExact(ss: seq<TileState>, firstSectionHeight: real, top: real, bottom: real)
    ensures forall j :: 0 <= j < |ss| && Drawn(ss[j], firstSectionHeight, top, bottom) ==>
      PaintOf(ss[j]) in PaintList(ss, firstSectionHeight, top, bottom)
    ensures forall p :: p in PaintList(ss, firstSectionHeight, top, bottom) ==>
      exists j :: 0 <= j < |ss| && Drawn(ss[j], firstSectionHeight, top, bottom) && p == PaintOf(ss[j])
  {
    if ss != [] {
      var n := |ss| - 1;
      PaintListExact(ss[..n], firstSectionHeight, top, bottom);
      forall p | p in PaintList(ss, firstSectionHeight, top, bottom)
        ensures exists j :: 0 <= j < |ss| && Drawn(ss[j], firstSectionHeight, top, bottom) && p == PaintOf(ss[j])
      {
        if p in PaintList(ss[..n], firstSectionHeight, top, bottom) {
          var j :| 0 <= j < n && Drawn(ss[..n][j], firstSectionHeight, top, bottom) && p == PaintOf(ss[..n][j]);
          assert ss[..n][j] == ss[j];
        }
      }
      forall j | 0 <= j < |ss| && Drawn(ss[j], firstSectionHeight, top, bottom)
        ensures PaintOf(ss[j]) in PaintList(ss, firstSectionHeight, top, bottom)
      {
        if j < n {
          assert ss[..n][j] == ss[j];
        }
      }
    }
  }

  /** Every painted glyph of bounded tiles has an alpha in [0.1, 1]. */
  lemma {:induction false} PaintAlphaBounded(ss: seq<TileState>, firstSectionHeight: real, top: real, bottom: real)
    requires forall j :: 0 <= j < |ss| ==> Bounded(ss[j])
    ensures forall k :: 0 <= k < |PaintList(ss, firstSectionHeight, top, bottom)| ==>
      0.1 <= PaintList(ss, firstSectionHeight, top, bottom)[k].alpha <= 1.0
  {
    if ss != [] {
      var n := |ss| - 1;
      PaintAlphaBounded(ss[..n], firstSectionHeight, top, bottom);
    }
  }
}
