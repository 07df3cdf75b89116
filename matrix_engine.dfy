// The hero background's tile engine, as the effect's closure holds it.
//
// The closure keeps a list of tile records that `update`, `handleClick` and
// `createGrid` change in place, a list of references to glitching tiles,
// the cursor position, the update throttle's clock and the scroll window.
// Here the records are objects of class Tile and the closure is an object of
// class MatrixEngine; every handler is a method proved against the value
// rules of module CyberMatrixSpec.
module CyberMatrix {
  import Randomness
  import opened CyberMatrixSpec

  datatype Option<T> = None | Some(value: T)

  /** One tile record. Its position never changes after `createGrid`.
      `cell` is the record's place in the grid, a proof device only. */
  class Tile {
    ghost const cell: nat
    const x: real
    const y: real
    var glyph: char
    var intensity: real
    var glitchFrames: int
    var scale: real
    var lastUpdated: real

    /** The record `createGrid` pushes: no glow, no glitch, unit scale. */
    constructor (ghost cell: nat, x: real, y: real, glyph: char)
      ensures this.cell == cell
      ensures State() == TileState(x, y, glyph, 0.0, 0, 1.0, 0.0)
    {
      this.cell := cell;
      this.x := x;
      this.y := y;
      this.glyph := glyph;
      intensity := 0.0;
      glitchFrames := 0;
      scale := 1.0;
      lastUpdated := 0.0;
    }

    /** The record's current contents as a value. */
    function State(): TileState
      reads this
    {
      TileState(x, y, glyph, intensity, glitchFrames, scale, lastUpdated)
    }
  }

  /** The contents of the records `ts`, in order. */
  function StatesOf(ts: seq<Tile>): (ss: seq<TileState>)
    reads ts
    ensures |ss| == |ts|
    ensures forall j :: 0 <= j < |ts| ==> ss[j] == ts[j].State()
  {
    seq(|ts|, j reads ts requires 0 <= j < |ts| => ts[j].State())
  }

  /** The references of `ts` at the indices `idx`, in that order. */
  function At(ts: seq<Tile>, idx: seq<nat>): (r: seq<Tile>)
    requires forall k :: 0 <= k < |idx| ==> idx[k] < |ts|
    ensures |r| == |idx|
    ensures forall k :: 0 <= k < |idx| ==> r[k] == ts[idx[k]]
  {
    seq(|idx|, k requires 0 <= k < |idx| => ts[idx[k]])
  }

  /** Appending an index to `idx` appends its record to `base + At(ts, idx)`. */
  lemma AtSnoc(base: seq<Tile>, ts: seq<Tile>, idx: seq<nat>, i: nat)
    requires forall k :: 0 <= k < |idx| ==> idx[k] < |ts|
    requires i < |ts|
    ensures base + At(ts, idx + [i]) == base + At(ts, idx) + [ts[i]]
  {
    assert At(ts, idx + [i]) == At(ts, idx) + [ts[i]];
  }

  /** Record `j` of the grid is the one made for cell `j`, so no record
      appears twice. */
  ghost predicate Numbered(ts: seq<Tile>)
  {
    forall j :: 0 <= j < |ts| ==> ts[j].cell == j
  }

  /** Record `j` sits at the centre of cell `(j % columns, j / columns)`. */
  ghost predicate OnLattice(ts: seq<Tile>, columns: nat)
  {
    forall j :: 0 <= j < |ts| ==> columns > 0 && ts[j].x == CellCentre(j % columns) && ts[j].y == CellCentre(j / columns)
  }

  /** The effect's state: the grid, the active-glitch list, the cursor,
      the throttle clock and the scroll window. */
  class MatrixEngine {
    var tiles: seq<Tile>
    var activeGlitches: seq<Tile>
    var columns: nat
    var rows: nat
    var canvasWidth: nat
    var canvasHeight: nat
    var firstSectionHeight: real
    var mouseX: real
    var mouseY: real
    var lastUpdateTime: real
    var viewportTop: real
    var viewportBottom: real
    var lastScrollY: real
    /** `MAX_ACTIVE_GLITCH`; the source sets it to `CyberMatrixSpec.MaxActiveGlitch`. */
    const maxActiveGlitch: nat

    /** The tiles' contents, in grid order. */
    function States(): seq<TileState>
      reads this`tiles, tiles
    {
      StatesOf(tiles)
    }

    /** The grid is `columns * rows` distinct records in row-major lattice
        order. Only `createGrid` changes this. */
    ghost predicate Shape()
      reads this`tiles, this`columns, this`rows
    {
      |tiles| == columns * rows
      && Numbered(tiles)
      && OnLattice(tiles, columns)
    }

    /** The grid has its shape, every tile is within its bounds, and the
        active list is within its cap. */
    ghost predicate Valid()
      reads this`tiles, this`columns, this`rows, this`activeGlitches, tiles
    {
      Shape()
      && AllBounded(States())
      && |activeGlitches| <= maxActiveGlitch
    }

    /** Mounting the effect: the initial cursor, clock and scroll, then
        `createGrid()` and `updateViewport()`. */
    constructor (innerWidth: nat, innerHeight: nat, scrollY: real, maxActiveGlitch: nat,
                 glyphDraws: nat -> real)
      requires Randomness.AllUnitDraws(glyphDraws)
      ensures Valid()
      ensures this.maxActiveGlitch == maxActiveGlitch
      ensures activeGlitches == []
      ensures mouseX == OffCanvas && mouseY == OffCanvas
      ensures lastUpdateTime == 0.0 && lastScrollY == 0.0
      ensures canvasWidth == innerWidth && canvasHeight == innerHeight * 5
      ensures firstSectionHeight == innerHeight as real
      ensures columns == innerWidth / TileSize && rows == innerHeight * 5 / TileSize
      ensures forall k :: 0 <= k < |tiles| ==> fresh(tiles[k])
      ensures forall k :: 0 <= k < |tiles| ==> tiles[k].State() == FreshTile(k, columns, glyphDraws(k))
      ensures viewportTop == scrollY - 300.0
      ensures viewportBottom == scrollY + innerHeight as real + 300.0
    {
      this.maxActiveGlitch := maxActiveGlitch;
      tiles := [];
      activeGlitches := [];
      mouseX := OffCanvas;
      mouseY := OffCanvas;
      lastUpdateTime := 0.0;
      viewportTop := 0.0;
      viewportBottom := 0.0;
      firstSectionHeight := innerHeight as real;
      lastScrollY := 0.0;
      new;
      CreateGrid(innerWidth, innerHeight, glyphDraws);
      UpdateViewport(scrollY, innerHeight as real);
    }

    /** `updateViewport`: the window around the visible screen. */
    method UpdateViewport(scrollY: real, innerHeight: real)
      modifies this`viewportTop, this`viewportBottom
      ensures viewportTop == scrollY - 300.0
      ensures viewportBottom == scrollY + innerHeight + 300.0
      ensures viewportTop < scrollY && scrollY + innerHeight < viewportBottom
    {
      viewportTop := scrollY - ViewportBuffer;
      viewportBottom := scrollY + innerHeight + ViewportBuffer;
    }

    /** `createGrid`: size the canvas to five screens and rebuild the grid
        row by row. The active-glitch list is left as it was. */
    method CreateGrid(innerWidth: nat, innerHeight: nat, glyphDraws: nat -> real)
      requires Randomness.AllUnitDraws(glyphDraws)
      requires |activeGlitches| <= maxActiveGlitch
      modifies this`tiles, this`columns, this`rows, this`canvasWidth, this`canvasHeight,
               this`firstSectionHeight
      ensures Valid()
      ensures canvasWidth == innerWidth && canvasHeight == innerHeight * 5
      ensures firstSectionHeight == innerHeight as real
      ensures columns == innerWidth / TileSize && rows == innerHeight * 5 / TileSize
      ensures innerWidth < TileSize || innerHeight * 5 < TileSize ==> tiles == []
      ensures forall k :: 0 <= k < |tiles| ==> fresh(tiles[k])
      ensures forall k :: 0 <= k < |tiles| ==> tiles[k].State() == FreshTile(k, columns, glyphDraws(k))
    {
      canvasWidth := innerWidth;
      canvasHeight := innerHeight * 5;
      firstSectionHeight := innerHeight as real;
      columns := canvasWidth / TileSize;
      rows := canvasHeight / TileSize;
      var grid := BuildGrid(columns, rows, glyphDraws);
      tiles := grid;
      assert OnLattice(tiles, columns);
      assert AllBounded(States()) by {
        forall k | 0 <= k < |tiles|
          ensures Bounded(States()[k])
        {
          assert States()[k] == FreshTile(k, columns, glyphDraws(k));
        }
      }
      if innerWidth < TileSize || innerHeight * 5 < TileSize {
        assert columns == 0 || rows == 0;
        assert columns * rows == 0;
      }
    }

    /** The `tiles.forEach` callback of `update` for tile `i`: step the
        record in place and, when it was processed with no glitch left, take
        its first occurrence out of the active-glitch list `active`. */
    method UpdateTile(tile: Tile, i: nat, active: seq<Tile>, sqrt: real -> real, jitter: nat -> real,
                      currentTime: real) returns (remaining: seq<Tile>)
      modifies tile
      ensures tile.State() == StepTile(old(tile.State()),
                                       IsActive(tile.y, firstSectionHeight, viewportTop, viewportBottom),
                                       Distance(sqrt, mouseX, mouseY, old(tile.State())),
                                       jitter(i), currentTime)
      ensures remaining == if IsActive(tile.y, firstSectionHeight, viewportTop, viewportBottom)
                              && old(tile.glitchFrames) <= 0
                           then RemoveFirst(active, tile) else active
    {
      remaining := active;
      var isInFirstSection := tile.y <= firstSectionHeight;
      if !isInFirstSection && (tile.y < viewportTop || tile.y > viewportBottom) {
        if tile.intensity > 0.0 {
          tile.intensity := tile.intensity + (0.0 - tile.intensity) * 0.1;
        }
      } else {
        var distance := Distance(sqrt, mouseX, mouseY, tile.State());
        if distance < Radius {
          tile.intensity := tile.intensity + (1.0 - distance / Radius - tile.intensity) * 0.2;
        } else {
          tile.intensity := tile.intensity + (0.0 - tile.intensity) * 0.05;
        }
        if tile.glitchFrames > 0 {
          tile.glitchFrames := tile.glitchFrames - 1;
          tile.scale := 1.0 + jitter(i) * 0.3;
          tile.intensity := 1.0;
        } else {
          tile.scale := tile.scale + (1.0 - tile.scale) * 0.2;
          var index := IndexOf(active, tile);
          if index != -1 {
            remaining := active[..index] + active[index + 1..];
          }
          RemoveFirstIsSplice(active, tile);
        }
        tile.lastUpdated := currentTime;
      }
    }

    /** One turn of the `tiles.forEach` loop of `update`, at tile `i`: the
        first `i` tiles are stepped and the rest untouched, and `remaining`
        is the active list less the settled ones among the first `i`; after
        the turn the same holds with tile `i` counted. */
    method UpdateVisit(i: nat, remaining: seq<Tile>, ghost before: seq<TileState>, ghost after: seq<TileState>,
                       sqrt: real -> real, jitter: nat -> real, currentTime: real)
      returns (rest: seq<Tile>)
      requires i < |tiles| == |before| && Numbered(tiles)
      requires after == UpdatedStates(before, firstSectionHeight, viewportTop, viewportBottom,
                                       mouseX, mouseY, sqrt, jitter, currentTime)
      requires forall j :: 0 <= j < i ==> States()[j] == after[j]
      requires forall j :: i <= j < |tiles| ==> States()[j] == before[j]
      requires remaining == Swept(activeGlitches, tiles, before, i, firstSectionHeight, viewportTop, viewportBottom)
      modifies tiles
      ensures forall j :: 0 <= j <= i ==> States()[j] == after[j]
      ensures forall j :: i < j < |tiles| ==> States()[j] == before[j]
      ensures rest == Swept(activeGlitches, tiles, before, i + 1, firstSectionHeight, viewportTop, viewportBottom)
    {
      var tile := tiles[i];
      UpdatedStatesAt(before, i, firstSectionHeight, viewportTop, viewportBottom,
                      mouseX, mouseY, sqrt, jitter, currentTime);
      assert tile.State() == before[i];
      assert forall j :: 0 <= j < |tiles| && j != i ==> tiles[j].cell != tile.cell;
      ghost var settles := IsActive(before[i].y, firstSectionHeight, viewportTop, viewportBottom)
                           && before[i].glitchFrames <= 0;
      rest := UpdateTile(tile, i, remaining, sqrt, jitter, currentTime);
      assert rest == if settles then RemoveFirst(remaining, tiles[i]) else remaining;
      assert tile.State() == after[i];
    }

    /** The `tiles.forEach` loop of `update`, run with the current window and
        cursor: every record is stepped, and the active-glitch list less the
        settled tiles is returned. */
    method ForEachTile(sqrt: real -> real, jitter: nat -> real, currentTime: real)
      returns (remaining: seq<Tile>)
      requires Numbered(tiles)
      modifies tiles
      ensures States() == UpdatedStates(old(States()), firstSectionHeight, viewportTop, viewportBottom,
                                        mouseX, mouseY, sqrt, jitter, currentTime)
      ensures remaining == Swept(activeGlitches, tiles, old(States()), |tiles|, firstSectionHeight, viewportTop, viewportBottom)
    {
      ghost var before := States();
      ghost var after := UpdatedStates(before, firstSectionHeight, viewportTop, viewportBottom,
                                       mouseX, mouseY, sqrt, jitter, currentTime);
      remaining := activeGlitches;
      var i := 0;
      while i < |tiles|
        modifies tiles
        invariant 0 <= i <= |tiles| == |before|
        invariant Numbered(tiles)
        invariant forall j :: 0 <= j < i ==> States()[j] == after[j]
        invariant forall j :: i <= j < |tiles| ==> States()[j] == before[j]
        invariant remaining == Swept(activeGlitches, tiles, before, i, firstSectionHeight, viewportTop, viewportBottom)
      {
        remaining := UpdateVisit(i, remaining, before, after, sqrt, jitter, currentTime);
        i := i + 1;
      }
    }

    /** The tile pass of `update`: the loop, then the shortened active list
        is stored; the grid keeps its bounds and the list its cap. */
    method UpdateTiles(sqrt: real -> real, jitter: nat -> real, currentTime: real)
      requires Valid()
      requires IsSqrt(sqrt) && Randomness.AllUnitDraws(jitter)
      modifies this`activeGlitches, tiles
      ensures Valid()
      ensures States() == UpdatedStates(old(States()), firstSectionHeight, viewportTop, viewportBottom,
                                        mouseX, mouseY, sqrt, jitter, currentTime)
      ensures activeGlitches == RemoveAll(old(activeGlitches),
                                          Settled(tiles, old(States()), |tiles|, firstSectionHeight, viewportTop, viewportBottom))
    {
      ghost var before := States();
      UpdatedStatesBounded(before, firstSectionHeight, viewportTop, viewportBottom,
                           mouseX, mouseY, sqrt, jitter, currentTime);
      RemoveAllShrinks(activeGlitches, Settled(tiles, before, |tiles|, firstSectionHeight, viewportTop, viewportBottom));
      SweptIsRemoveAll(activeGlitches, tiles, before, |tiles|, firstSectionHeight, viewportTop, viewportBottom);
      var remaining := ForEachTile(sqrt, jitter, currentTime);
      ghost var stepped := States();
      activeGlitches := remaining;
      assert States() == stepped;
    }

    /** `update`: at most once per `UpdateInterval` milliseconds, move the
        window to the current scroll, step every tile (tiles outside the
        window and the first band only fade), and drop settled tiles from the
        active-glitch list. */
    method Update(currentTime: real, scrollY: real, innerHeight: real,
                  sqrt: real -> real, jitter: nat -> real)
      requires Valid()
      requires IsSqrt(sqrt) && Randomness.AllUnitDraws(jitter)
      modifies this`lastUpdateTime, this`viewportTop, this`viewportBottom, this`activeGlitches, tiles
      ensures Valid()
      ensures currentTime - old(lastUpdateTime) < UpdateInterval ==>
        lastUpdateTime == old(lastUpdateTime) && viewportTop == old(viewportTop)
        && viewportBottom == old(viewportBottom) && activeGlitches == old(activeGlitches)
        && States() == old(States())
      ensures currentTime - old(lastUpdateTime) >= UpdateInterval ==>
        lastUpdateTime == currentTime
        && viewportTop == scrollY - 300.0
        && viewportBottom == scrollY + innerHeight + 300.0
        && States() == UpdatedStates(old(States()), firstSectionHeight, viewportTop, viewportBottom,
                                     mouseX, mouseY, sqrt, jitter, currentTime)
        && activeGlitches == RemoveAll(old(activeGlitches),
                                       Settled(tiles, old(States()), |tiles|, firstSectionHeight, viewportTop, viewportBottom))
    {
      if currentTime - lastUpdateTime < UpdateInterval {
        return;
      }
      lastUpdateTime := currentTime;
      UpdateViewport(scrollY, innerHeight);
      UpdateTiles(sqrt, jitter, currentTime);
    }

    /** `draw`: the glyphs painted, in tile order. First-band tiles are
        always painted; other tiles only inside the window and when glowing
        or glitching. */
    method Draw() returns (painted: seq<Paint>)
      requires Valid()
      ensures painted == PaintList(States(), firstSectionHeight, viewportTop, viewportBottom)
      ensures forall k :: 0 <= k < |painted| ==> 0.1 <= painted[k].alpha <= 1.0
    {
      ghost var ss := States();
      painted := [];
      var i := 0;
      while i < |tiles|
        invariant 0 <= i <= |tiles|
        invariant painted == PaintList(ss[..i], firstSectionHeight, viewportTop, viewportBottom)
      {
        var tile := tiles[i];
        var isInFirstSection := tile.y <= firstSectionHeight;
        var skip := false;
        if !isInFirstSection {
          if tile.y < viewportTop || tile.y > viewportBottom {
            skip := true;
          } else if tile.intensity < 0.05 && tile.glitchFrames == 0 {
            skip := true;
          }
        }
        if !skip {
          painted := painted + [Paint(tile.x, tile.y, tile.glyph, tile.scale,
                                      0.1 + tile.intensity * 0.9, tile.glitchFrames > 0)];
        }
        assert ss[..i + 1][..i] == ss[..i];
        i := i + 1;
      }
      assert ss[..|tiles|] == ss;
      PaintAlphaBounded(ss, firstSectionHeight, viewportTop, viewportBottom);
    }

    /** The animation loop's body: `update(currentTime)` then `draw()`. */
    method AnimationFrame(currentTime: real, scrollY: real, innerHeight: real,
                          sqrt: real -> real, jitter: nat -> real) returns (painted: seq<Paint>)
      requires Valid()
      requires IsSqrt(sqrt) && Randomness.AllUnitDraws(jitter)
      modifies this`lastUpdateTime, this`viewportTop, this`viewportBottom, this`activeGlitches, tiles
      ensures Valid()
      ensures currentTime - old(lastUpdateTime) < UpdateInterval ==>
        lastUpdateTime == old(lastUpdateTime) && viewportTop == old(viewportTop)
        && viewportBottom == old(viewportBottom) && activeGlitches == old(activeGlitches)
        && States() == old(States())
      ensures currentTime - old(lastUpdateTime) >= UpdateInterval ==>
        lastUpdateTime == currentTime
        && viewportTop == scrollY - 300.0
        && viewportBottom == scrollY + innerHeight + 300.0
        && States() == UpdatedStates(old(States()), firstSectionHeight, viewportTop, viewportBottom,
                                     mouseX, mouseY, sqrt, jitter, currentTime)
        && activeGlitches == RemoveAll(old(activeGlitches),
                                       Settled(tiles, old(States()), |tiles|, firstSectionHeight, viewportTop, viewportBottom))
      ensures painted == PaintList(States(), firstSectionHeight, viewportTop, viewportBottom)
    {
      Update(currentTime, scrollY, innerHeight, sqrt, jitter);
      painted := Draw();
    }

    /** `handleMouseMove`: the cursor in page coordinates. */
    method HandleMouseMove(clientX: real, clientY: real, scrollY: real)
      modifies this`mouseX, this`mouseY
      ensures mouseX == clientX && mouseY == clientY + scrollY
    {
      mouseX := clientX;
      mouseY := clientY + scrollY;
    }

    /** `handleScroll`: redraw, and remember the position, only after a
        scroll of more than 50 pixels since the last redraw. */
    method HandleScroll(currentScrollY: real) returns (frame: Option<seq<Paint>>)
      requires Valid()
      modifies this`lastScrollY
      ensures ScrollRedraws(currentScrollY, old(lastScrollY)) ==>
        lastScrollY == currentScrollY
        && frame == Some(PaintList(States(), firstSectionHeight, viewportTop, viewportBottom))
      ensures !ScrollRedraws(currentScrollY, old(lastScrollY)) ==>
        lastScrollY == old(lastScrollY) && frame == None
    {
      frame := None;
      var delta := currentScrollY - lastScrollY;
      if (if delta < 0.0 then -delta else delta) > ScrollRedrawThreshold {
        lastScrollY := currentScrollY;
        var painted := Draw();
        frame := Some(painted);
      }
    }

    /** The `tiles.forEach` callback of `handleClick` for tile `i`, with
        `active` the active-glitch list so far: a hit below the cap with a
        coin draw below 0.5 gives the tile a new glyph and a 5-frame
        countdown and appends it to the list. */
    method ClickTile(tile: Tile, i: nat, active: seq<Tile>, clickX: real, clickY: real,
                     coin: nat -> real, pick: nat -> real)
      returns (hit: bool, extended: seq<Tile>)
      requires Randomness.AllUnitDraws(pick)
      requires i < |tiles| && tiles[i] == tile && Numbered(tiles)
      modifies tile
      ensures States() == old(States())[i := tile.State()]
      ensures hit == (InHitbox(clickX, clickY, old(tile.State())) && |active| < maxActiveGlitch
                      && coin(i) < 0.5)
      ensures hit ==> tile.State() == StartGlitch(old(tile.State()), pick(i))
                      && extended == active + [tile]
      ensures !hit ==> tile.State() == old(tile.State()) && extended == active
    {
      hit := false;
      extended := active;
      if clickX >= tile.x - HalfTile && clickX <= tile.x + HalfTile
         && clickY >= tile.y - HalfTile && clickY <= tile.y + HalfTile
      {
        if |active| < maxActiveGlitch && coin(i) < 0.5 {
          tile.glyph := Randomness.Pick(Chars, pick(i));
          tile.glitchFrames := GlitchLength;
          extended := active + [tile];
          hit := true;
        }
      }
      assert forall j :: 0 <= j < |tiles| && j != i ==> tiles[j].cell != tile.cell;
    }

    /** One turn of the `tiles.forEach` loop of `handleClick`, at tile `i`:
        the glitches started so far are `started`, and the tiles and the list
        are as they left them; after the turn the same holds with tile `i`
        counted. */
    method ClickVisit(i: nat, active: seq<Tile>, ghost before: seq<TileState>, ghost started: seq<nat>,
                      clickX: real, clickY: real, coin: nat -> real, pick: nat -> real)
      returns (extended: seq<Tile>, ghost next: seq<nat>)
      requires Randomness.AllUnitDraws(pick)
      requires i < |tiles| == |before|
      requires Numbered(tiles)
      requires started == ClickStarts(before, i, |activeGlitches|, maxActiveGlitch, clickX, clickY, coin)
      requires active == activeGlitches + At(tiles, started)
      requires States() == Clicked(before, started, pick)
      modifies tiles
      ensures next == ClickStarts(before, i + 1, |activeGlitches|, maxActiveGlitch, clickX, clickY, coin)
      ensures extended == activeGlitches + At(tiles, next)
      ensures States() == Clicked(before, next, pick)
    {
      var tile := tiles[i];
      ClickStep(before, i, |activeGlitches|, maxActiveGlitch, clickX, clickY, coin, pick,
                InHitbox(clickX, clickY, before[i]) && |active| < maxActiveGlitch && coin(i) < 0.5,
                if InHitbox(clickX, clickY, before[i]) && |active| < maxActiveGlitch && coin(i) < 0.5
                then StartGlitch(before[i], pick(i)) else before[i]);
      assert tile.State() == before[i];
      var hit;
      hit, extended := ClickTile(tile, i, active, clickX, clickY, coin, pick);
      next := started;
      if hit {
        AtSnoc(activeGlitches, tiles, started, i);
        next := started + [i];
      }
    }

    /** The `tiles.forEach` loop of `handleClick`: every tile whose hitbox
        holds the click starts a glitch when the active list is below the cap
        and the coin draw is below 0.5, and is appended to the list, which is
        returned. */
    method ForEachClick(clickX: real, clickY: real, coin: nat -> real, pick: nat -> real)
      returns (active: seq<Tile>, ghost started: seq<nat>)
      requires Randomness.AllUnitDraws(pick)
      requires Numbered(tiles)
      modifies tiles
      ensures started == ClickStarts(old(States()), |tiles|, |activeGlitches|, maxActiveGlitch,
                                     clickX, clickY, coin)
      ensures States() == Clicked(old(States()), started, pick)
      ensures active == activeGlitches + At(tiles, started)
    {
      ghost var before := States();
      active := activeGlitches;
      started := [];
      var i := 0;
      while i < |tiles|
        modifies tiles
        invariant 0 <= i <= |tiles|
        invariant started == ClickStarts(before, i, |activeGlitches|, maxActiveGlitch, clickX, clickY, coin)
        invariant active == activeGlitches + At(tiles, started)
        invariant States() == Clicked(before, started, pick)
      {
        active, started := ClickVisit(i, active, before, started, clickX, clickY, coin, pick);
        i := i + 1;
      }
    }

    /** What a click at canvas point `(clickX, clickY)` leaves behind, given
        the tile contents `before` and the active list `base` it found:
        glitches start at `ClickStarts`, the grid becomes `Clicked` at those
        indices, their records are appended to the list in grid order, and
        with the cap at 0 nothing changes. */
    ghost predicate ClickOutcome(before: seq<TileState>, base: seq<Tile>, clickX: real, clickY: real,
                                 coin: nat -> real, pick: nat -> real, started: seq<nat>)
      requires Randomness.AllUnitDraws(pick)
      reads this`tiles, this`activeGlitches, tiles
    {
      |before| == |tiles|
      && started == ClickStarts(before, |tiles|, |base|, maxActiveGlitch, clickX, clickY, coin)
      && States() == Clicked(before, started, pick)
      && activeGlitches == base + At(tiles, started)
      && (maxActiveGlitch == 0 ==> States() == before && activeGlitches == base)
    }

    /** The tile pass of `handleClick` at canvas point `(clickX, clickY)`,
        starting from the contents `before` and the list `base`: the grid
        and the list change as `ClickOutcome` says, and the invariant holds. */
    method ClickAt(ghost before: seq<TileState>, ghost base: seq<Tile>, clickX: real, clickY: real,
                   coin: nat -> real, pick: nat -> real)
      returns (ghost started: seq<nat>)
      requires Valid()
      requires Randomness.AllUnitDraws(pick)
      requires States() == before && activeGlitches == base
      modifies this`activeGlitches, tiles
      ensures Valid()
      ensures ClickOutcome(before, base, clickX, clickY, coin, pick, started)
    {
      var active;
      active, started := ForEachClick(clickX, clickY, coin, pick);
      ClickStartsWithinCap(before, |tiles|, |base|, maxActiveGlitch, clickX, clickY, coin);
      ClickedBounded(before, started, pick);
      ghost var clicked := States();
      activeGlitches := active;
      assert States() == clicked;
      if maxActiveGlitch == 0 {
        assert States() == before;
      }
    }

    /** `handleClick`: the click in page coordinates, the tile pass and
        the window moved to the current scroll. The source moves the window
        first; the tile pass neither reads nor writes the window, so the
        state left behind is the same in either order. */
    method HandleClick(clientX: real, clientY: real, rectLeft: real, rectTop: real,
                       scrollY: real, innerHeight: real, coin: nat -> real, pick: nat -> real)
      returns (ghost started: seq<nat>)
      requires Valid()
      requires Randomness.AllUnitDraws(pick)
      modifies this`viewportTop, this`viewportBottom, this`activeGlitches, tiles
      ensures Valid()
      ensures viewportTop == scrollY - 300.0
      ensures viewportBottom == scrollY + innerHeight + 300.0
      ensures ClickOutcome(old(States()), old(activeGlitches), clientX - rectLeft, clientY - rectTop + scrollY,
                           coin, pick, started)
    {
      var clickX := clientX - rectLeft;
      var clickY := clientY - rectTop + scrollY;
      started := ClickAt(old(States()), old(activeGlitches), clickX, clickY, coin, pick);
      UpdateViewport(scrollY, innerHeight);
    }
  }

  /** The nested loop of `createGrid`: `rows` rows of `columns` new records,
      row by row, each at its lattice centre with a glyph picked by its draw. */
  method BuildGrid(columns: nat, rows: nat, glyphDraws: nat -> real) returns (grid: seq<Tile>)
    requires Randomness.AllUnitDraws(glyphDraws)
    ensures |grid| == columns * rows
    ensures forall k :: 0 <= k < |grid| ==> fresh(grid[k])
    ensures Numbered(grid)
    ensures forall k :: 0 <= k < |grid| ==> columns > 0 && grid[k].State() == FreshTile(k, columns, glyphDraws(k))
  {
    grid := [];
    var y: nat := 0;
    while y < rows
      invariant y <= rows
      invariant |grid| == y * columns
      invariant forall k :: 0 <= k < |grid| ==> fresh(grid[k])
      invariant Numbered(grid)
      invariant forall k :: 0 <= k < |grid| ==> columns > 0 && grid[k].State() == FreshTile(k, columns, glyphDraws(k))
    {
      grid := BuildRow(grid, y, columns, glyphDraws);
      y := y + 1;
    }
    assert columns * rows == rows * columns;
  }

  /** The inner loop of `createGrid` for row `y`: `columns` new records
      appended to `prefix`, the grid built so far. */
  method BuildRow(prefix: seq<Tile>, y: nat, columns: nat, glyphDraws: nat -> real) returns (grid: seq<Tile>)
    requires Randomness.AllUnitDraws(glyphDraws)
    requires |prefix| == y * columns
    requires Numbered(prefix)
    requires forall k :: 0 <= k < |prefix| ==> columns > 0 && prefix[k].State() == FreshTile(k, columns, glyphDraws(k))
    ensures |grid| == (y + 1) * columns
    ensures grid[..|prefix|] == prefix
    ensures forall k :: |prefix| <= k < |grid| ==> fresh(grid[k])
    ensures Numbered(grid)
    ensures forall k :: 0 <= k < |grid| ==> columns > 0 && grid[k].State() == FreshTile(k, columns, glyphDraws(k))
  {
    grid := prefix;
    var x: nat := 0;
    while x < columns
      invariant x <= columns
      invariant |grid| == |prefix| + x
      invariant grid[..|prefix|] == prefix
      invariant forall k :: |prefix| <= k < |grid| ==> fresh(grid[k])
      invariant Numbered(grid)
      invariant forall k :: 0 <= k < |grid| ==> columns > 0 && grid[k].State() == FreshTile(k, columns, glyphDraws(k))
    {
      var glyph := Randomness.Pick(Chars, glyphDraws(|grid|));
      var tile := new Tile(|grid|, CellCentre(x), CellCentre(y), glyph);
      CellIndex(y, x, columns);
      assert tile.State() == FreshTile(|grid|, columns, glyphDraws(|grid|));
      grid := grid + [tile];
      x := x + 1;
    }
    RowLength(y, columns);
  }

  /** The effect as the source configures it: mounted with `MAX_ACTIVE_GLITCH`
      set to `CyberMatrixSpec.MaxActiveGlitch` (zero), a click that follows
      starts no glitch, so the grid stays as `createGrid` built it. */
  method MountAndClick(innerWidth: nat, innerHeight: nat, scrollY: real, glyphDraws: nat -> real,
                       clientX: real, clientY: real, rectLeft: real, rectTop: real,
                       coin: nat -> real, pick: nat -> real)
    returns (e: MatrixEngine, mounted: seq<TileState>)
    requires Randomness.AllUnitDraws(glyphDraws) && Randomness.AllUnitDraws(pick)
    ensures |mounted| == (innerWidth / TileSize) * (innerHeight * 5 / TileSize)
    ensures forall k :: 0 <= k < |mounted| ==> mounted[k] == FreshTile(k, innerWidth / TileSize, glyphDraws(k))
    ensures e.States() == mounted && e.activeGlitches == []
  {
    e := new MatrixEngine(innerWidth, innerHeight, scrollY, MaxActiveGlitch, glyphDraws);
    mounted := e.States();
    var started := e.HandleClick(clientX, clientY, rectLeft, rectTop, scrollY, innerHeight as real, coin, pick);
  }
}
