/**
 * The demonstrator's main loop state: the tile grid, the open and closed
 * vectors, the last selected start and end tiles and the current g-cost,
 * with the operations the key presses and clicks trigger. The search
 * methods are proved against the functions of the Search module; the
 * construction, the click lookup and the clear keys against the setters of
 * the Tiles module and the cell lookup of the Grid module.
 */
module Driver {
  import opened Wrappers
  import opened Geometry
  import opened Tiles
  import opened Search
  import opened Invariants
  import opened Exploration
  import Grid

  /** What one press of R did: nothing, one expansion, or an expansion of the goal and its trace. */
  datatype Outcome = NoOp | Expanded(current: nat) | Found(current: nat)

  /**
   * findTile: the running minimum over the open vector, replaced only on a
   * strictly smaller f-cost, so the first of several equal minima wins.
   * (The source's currentGCost and endTile parameters are unused there.)
   */
  method FindTile(openSet: seq<nat>, tiles: seq<Tile>) returns (tileToReturn: nat)
    requires openSet != []
    requires forall x :: x in openSet ==> x < |tiles|
    ensures tileToReturn in openSet
    ensures exists k :: 0 <= k < |openSet| && openSet[k] == tileToReturn && FirstMinimumAt(openSet, tiles, k)
  {
    assert forall m :: 0 <= m < |openSet| ==> openSet[m] in openSet;
    var newFCost := tiles[openSet[0]].fCost;
    tileToReturn := openSet[0];
    ghost var at := 0;
    var i := 0;
    while i < |openSet|
      invariant 0 <= i <= |openSet| && at < |openSet| && at <= i
      invariant (i == 0 ==> at == 0) && (i > 0 ==> at < i)
      invariant tileToReturn == openSet[at] && newFCost == tiles[tileToReturn].fCost
      invariant forall j :: 0 <= j < i ==> newFCost <= tiles[openSet[j]].fCost
      invariant forall j :: 0 <= j < at ==> tiles[openSet[j]].fCost > newFCost
    {
      if tiles[openSet[i]].fCost < newFCost {
        newFCost := tiles[openSet[i]].fCost;
        tileToReturn := openSet[i];
        at := i;
      }
      i := i + 1;
    }
  }

  class Board {
    const width: nat
    const height: nat
    /** tileGrid: tile (x, y) at index width * y + x. */
    const tiles: array<Tile>
    var open: seq<nat>
    var closed: seq<nat>
    /** lastSelectedStartTile and lastSelectedEndTile. */
    var startTile: nat
    var endTile: nat
    var currentGCost: int

    ghost function State(): SearchState
      reads this, tiles
    {
      SearchState(tiles[..], open, closed)
    }

    /**
     * The grid keeps its shape and sound links; every tile keeps its cost
     * bookkeeping; the vectors hold no duplicate and no obstacle; and while
     * the open vector is not empty a run is in progress, so the flags match
     * the vectors and every listed tile's parent chain reaches the start.
     */
    ghost predicate Valid()
      reads this, tiles
    {
      BoardSound(width, height, State(), startTile, endTile)
    }

    /** Builds the grid with the two construction loops; no tile is selected and no run is in progress. */
    constructor (w: nat, h: nat)
      requires w >= 2 && h >= 2
      ensures Valid() && fresh(tiles)
      ensures width == w && height == h && tiles.Length == w * h
      ensures open == [] && closed == [] && startTile == 0 && endTile == 0 && currentGCost == 0
      ensures forall i :: 0 <= i < tiles.Length ==> Blank(tiles[i]) && !tiles[i].isSelected
    {
      var a := PlaceTiles(w, h);
      LinkTiles(a, w, h);
      width, height, tiles := w, h, a;
      open, closed := [], [];
      startTile, endTile, currentGCost := 0, 0, 0;
      new;
      BuiltSound(w, h, tiles[..]);
    }

    /**
     * Tile::SearchNeighbourhood of tile cur with the given g-cost: slots 0..7
     * are visited in order and each non-null one is relaxed, so the new state
     * is the expansion the Search module defines.
     */
    method SearchNeighbourhood(cur: nat, currentGCost: int, endPosition: Position)
      requires cur < tiles.Length && ClosedListed(State()) && SlotsIn(tiles[..], cur)
      requires |tiles[cur].neighbourhood| == 8
      modifies this, tiles
      ensures State() == ExpandSlots(old(State()), cur, old(tiles[cur].neighbourhood), currentGCost, endPosition)
      ensures startTile == old(startTile) && endTile == old(endTile) && this.currentGCost == old(this.currentGCost)
    {
      ghost var s0 := State();
      ghost var nb := tiles[cur].neighbourhood;
      for k := 0 to 8
        invariant State() == ExpandSlots(s0, cur, nb[..k], currentGCost, endPosition)
        invariant tiles[cur].neighbourhood == nb
        invariant startTile == old(startTile) && endTile == old(endTile) && this.currentGCost == old(this.currentGCost)
      {
        ExpandLast(s0, cur, nb, k + 1, currentGCost, endPosition);
        var slot := tiles[cur].neighbourhood[k];
        if slot.Some? {
          Visit(cur, slot.value, currentGCost, endPosition);
        }
      }
      assert nb[..8] == nb;
    }

    /** The loop body of Tile::SearchNeighbourhood for the non-null neighbour n of cur. */
    method Visit(cur: nat, n: nat, currentGCost: int, endPosition: Position)
      requires cur < tiles.Length && n < tiles.Length && ClosedListed(State())
      modifies this, tiles
      ensures State() == Relax(old(State()), cur, n, currentGCost, endPosition)
      ensures startTile == old(startTile) && endTile == old(endTile) && this.currentGCost == old(this.currentGCost)
    {
      var t := tiles[n];
      if !t.isObstacle {
        var newGCost := currentGCost + DistanceBetween(tiles[cur].position, t.position);
        if t.isOpen {
          if newGCost < t.gCost {
            tiles[n] := SetParentNode(CalculateCosts(t, newGCost, endPosition), Some(cur));
          }
        } else if t.isClosed {
          if newGCost < t.gCost {
            open := open + [n];
            tiles[n] := SetToOpen(SetParentNode(CalculateCosts(t, newGCost, endPosition), Some(cur)));
            closed := Remove(closed, n);
          }
        } else {
          open := open + [n];
          tiles[n] := SetToOpen(SetParentNode(CalculateCosts(t, newGCost, endPosition), Some(cur)));
        }
      }
    }

    /** The state after expanding the listed tile cur and moving it to the closed vector. */
    ghost function Expansion(cur: nat): (r: SearchState)
      requires Valid() && cur in open
      reads this, tiles
      ensures BoardSound(width, height, r, startTile, endTile) && Inv(r) && RunInv(r, startTile)
      ensures cur in r.closed && ParentsDescend(r.tiles)
    {
      AdvanceSound(width, height, State(), startTile, endTile, cur);
      Advance(State(), cur, tiles[endTile].position)
    }

    /**
     * A step keeps every non-obstacle neighbour of a closed tile listed, and
     * keeps the end tile out of the closed vector unless it is the tile
     * expanded.
     */
    lemma ExpansionExplores(cur: nat)
      requires Valid() && cur in open
      ensures Explored(State()) ==> Explored(Expansion(cur))
      ensures endTile !in closed && cur != endTile ==> endTile !in Expansion(cur).closed
    {
      StepExplores(width, height, State(), startTile, endTile, cur);
    }

    /**
     * A step of an explored run that expands a tile other than the end tile
     * and leaves the open vector empty: every walk from the start tile through
     * non-obstacle neighbours stays among the closed tiles and never reaches
     * the end tile, so no path exists.
     */
    lemma ExpansionExhausted(cur: nat)
      requires Valid() && cur in open && cur != endTile
      requires Explored(State()) && endTile !in closed
      requires Expansion(cur).open == []
      ensures NoPath(Expansion(cur), startTile, endTile)
    {
      ExpansionExplores(cur);
      Exhausted(Expansion(cur), startTile, endTile);
    }

    /** The tiles after expanding the end tile and painting the path it traces back to the start. */
    ghost function Traced(): (r: seq<Tile>)
      requires Valid() && endTile in open
      reads this, tiles
      ensures PathFrom(Expansion(endTile).tiles, endTile, startTile).Some?
      ensures r == MarkPath(Expansion(endTile).tiles, PathFrom(Expansion(endTile).tiles, endTile, startTile).value)
      ensures BoardSound(width, height, SearchState(r, [], []), 0, 0)
    {
      var a := Expansion(endTile);
      TraceSound(width, height, a, startTile, endTile);
      MarkPath(a.tiles, PathFrom(a.tiles, endTile, startTile).value)
    }

    /**
     * One press of R once a run is set up (the step body): nothing when the
     * open vector is empty; otherwise the first minimum-f tile is expanded
     * and moved to the closed vector, and when it is the end tile, the path
     * back to the start is painted and both vectors are cleared.
     */
    method Step() returns (outcome: Outcome)
      requires Valid()
      modifies this, tiles
      ensures Valid()
      ensures outcome.NoOp? <==> old(open) == []
      ensures outcome.NoOp? ==>
        State() == old(State()) && startTile == old(startTile) && endTile == old(endTile) &&
        currentGCost == old(currentGCost)
      ensures !outcome.NoOp? ==>
        && outcome.current in old(open)
        && (exists k :: 0 <= k < |old(open)| && old(open)[k] == outcome.current &&
                        FirstMinimumAt(old(open), old(tiles[..]), k))
        && currentGCost == old(tiles[outcome.current].gCost)
        && (outcome.Found? <==> outcome.current == old(endTile))
      ensures outcome.Expanded? ==>
        State() == old(Expansion(outcome.current)) && startTile == old(startTile) && endTile == old(endTile)
      ensures outcome.Found? ==>
        tiles[..] == old(Traced()) && open == [] && closed == [] && startTile == 0 && endTile == 0
    {
      if open == [] {
        return NoOp;
      }
      ghost var open0, tiles0 := open, tiles[..];
      var currentTile := FindTile(open, tiles[..]);
      ghost var k :| 0 <= k < |open0| && open0[k] == currentTile && FirstMinimumAt(open0, tiles0, k);
      currentGCost := tiles[currentTile].gCost;
      var foundPath := currentTile == endTile;
      ExpandCurrent(currentTile);
      if foundPath {
        TraceSound(width, height, State(), startTile, endTile);
        TracePath();
        outcome := Found(currentTile);
      } else {
        outcome := Expanded(currentTile);
      }
    }

    /**
     * The expansion part of a step: search the current tile's neighbourhood,
     * erase it from the open vector, append it to the closed one and mark it
     * closed. The run invariants still hold afterwards.
     */
    method ExpandCurrent(cur: nat)
      requires Valid() && cur in open && currentGCost == tiles[cur].gCost
      modifies this, tiles
      ensures State() == old(Expansion(cur))
      ensures startTile == old(startTile) && endTile == old(endTile) && currentGCost == old(currentGCost)
      ensures Valid()
    {
      ghost var s0 := State();
      SearchNeighbourhood(cur, currentGCost, tiles[endTile].position);
      open := Remove(open, cur);
      closed := closed + [cur];
      tiles[cur] := SetToClosed(tiles[cur]);
      assert State() == Advance(s0, cur, s0.tiles[endTile].position);
      AdvanceSound(width, height, s0, startTile, endTile, cur);
    }

    /**
     * The trace once the end tile has been expanded: the path from the end
     * tile back to the start tile is painted; then the selection indices are
     * reset and both vectors cleared.
     */
    method TracePath()
      requires ParentsDescend(tiles[..]) && endTile < tiles.Length
      requires PathFrom(tiles[..], endTile, startTile).Some?
      requires BoardSound(width, height,
        SearchState(MarkPath(tiles[..], PathFrom(tiles[..], endTile, startTile).value), [], []), 0, 0)
      modifies this, tiles
      ensures tiles[..] == MarkPath(old(tiles[..]), PathFrom(old(tiles[..]), old(endTile), old(startTile)).value)
      ensures open == [] && closed == [] && startTile == 0 && endTile == 0 && currentGCost == old(currentGCost)
      ensures Valid()
    {
      PaintPath();
      ResetRun();
    }

    /** The simulation values reset after the trace: both selection indices 0, both vectors cleared. */
    method ResetRun()
      requires BoardSound(width, height, SearchState(tiles[..], [], []), 0, 0)
      modifies this
      ensures open == [] && closed == [] && startTile == 0 && endTile == 0 && currentGCost == old(currentGCost)
      ensures Valid()
    {
      startTile, endTile := 0, 0;
      open, closed := [], [];
    }

    /**
     * The painting walk: from the end tile along parent links until the start
     * tile, painting each tile, then the start tile. The walk starts at the
     * end tile itself, so it also covers an end tile that is the start tile.
     */
    method PaintPath()
      requires ParentsDescend(tiles[..]) && endTile < tiles.Length
      requires PathFrom(tiles[..], endTile, startTile).Some?
      modifies tiles
      ensures tiles[..] == MarkPath(old(tiles[..]), PathFrom(old(tiles[..]), endTile, startTile).value)
    {
      ghost var t0 := tiles[..];
      PathFromLinks(t0, endTile, startTile);
      ghost var path := PathFrom(t0, endTile, startTile).value;
      var nextTile := endTile;
      ghost var j := 0;
      while nextTile != startTile
        invariant 0 <= j < |path| && nextTile == path[j]
        invariant tiles[..] == MarkPath(t0, path[..j])
        decreases |path| - j
      {
        assert j < |path| - 1 && t0[path[j]].parent == Some(path[j + 1]);
        MarkPathExtend(t0, path, j);
        tiles[nextTile] := SetToPath(tiles[nextTile]);
        nextTile := tiles[nextTile].parent.value;
        j := j + 1;
      }
      MarkPathExtend(t0, path, j);
      assert path[..j + 1] == path;
      tiles[startTile] := SetToPath(tiles[startTile]);
    }

    /**
     * Starting a run (R in the default mode, before the step): when both the
     * last selected start and end tiles are still selected, the start tile
     * is deselected, given g = 0 and its heuristic, appended to the open
     * vector and marked open. Required: no run in progress and flags that
     * match the (empty) vectors.
     */
    method StartRun() returns (started: bool)
      requires Valid() && FlagsMatch(State()) && open == [] && closed == []
      modifies this, tiles
      ensures Valid()
      ensures started <==> old(tiles[startTile].isSelected) && old(tiles[endTile].isSelected)
      ensures started ==> State() == Begin(old(State()), startTile, endTile) && currentGCost == 0
      ensures started ==> RunInv(State(), startTile) && open == [startTile]
      ensures started ==> Explored(State()) && endTile !in closed
      ensures !started ==> State() == old(State()) && currentGCost == old(currentGCost)
      ensures startTile == old(startTile) && endTile == old(endTile)
    {
      started := tiles[startTile].isSelected && tiles[endTile].isSelected;
      if started {
        ghost var s0 := State();
        tiles[startTile] := Deselect(tiles[startTile]);
        tiles[startTile] := CalculateCosts(tiles[startTile], 0, tiles[endTile].position);
        currentGCost := tiles[startTile].gCost;
        open := open + [startTile];
        tiles[startTile] := SetToOpen(tiles[startTile]);
        assert State() == Begin(s0, startTile, endTile);
        BeginSound(width, height, s0, startTile, endTile);
      }
    }

    /**
     * The tile lookup of a click: the loop over all tiles compares each
     * tile's position with the rounded pointer position.
     */
    method LocateTile(xRounded: int, yRounded: int) returns (found: Option<nat>)
      ensures found.Some? ==> found.value < tiles.Length && tiles[found.value].position == Position(xRounded, yRounded)
      ensures found.None? ==> forall i :: 0 <= i < tiles.Length ==> tiles[i].position != Position(xRounded, yRounded)
    {
      found := None;
      for i := 0 to tiles.Length
        invariant found.Some? ==> found.value < i && tiles[found.value].position == Position(xRounded, yRounded)
        invariant found.None? ==> forall j :: 0 <= j < i ==> tiles[j].position != Position(xRounded, yRounded)
      {
        if tiles[i].position == Position(xRounded, yRounded) {
          found := Some(i);
        }
      }
    }

    /**
     * The tile a click at the pointer position (relative to the grid origin)
     * selects: the tile of the cell under the pointer, unless the pointer is
     * off the grid or that tile is an obstacle.
     */
    method PickTile(pointer: Position) returns (picked: Option<nat>)
      requires GridShaped(width, height, tiles[..])
      ensures var c := Grid.CellAt(width, height, pointer);
        picked.Some? <==> c.Some? && !tiles[c.value].isObstacle
      ensures picked.Some? ==> picked == Grid.CellAt(width, height, pointer)
    {
      var xRounded := FloorToMultiple(pointer.x, TILE_OFFSET);
      var yRounded := FloorToMultiple(pointer.y, TILE_OFFSET);
      LocateCell(width, height, tiles[..], pointer);
      var found := LocateTile(xRounded, yRounded);
      if found.Some? && !tiles[found.value].isObstacle {
        picked := found;
      } else {
        picked := None;
      }
    }

    /**
     * A left click in the default mode: the last selected start tile is
     * deselected, then the clicked tile, when it is on the grid and not an
     * obstacle, is selected and becomes the last selected start tile.
     */
    method SelectStart(pointer: Position)
      requires Valid() && open == []
      modifies this, tiles
      ensures Valid()
      ensures var d := old(tiles[..])[old(startTile) := Deselect(old(tiles[startTile]))];
        var c := Grid.CellAt(width, height, pointer);
        if c.Some? && !d[c.value].isObstacle then
          tiles[..] == d[c.value := Select(d[c.value])] && startTile == c.value
        else
          tiles[..] == d && startTile == old(startTile)
      ensures open == old(open) && closed == old(closed)
      ensures endTile == old(endTile) && currentGCost == old(currentGCost)
    {
      BlankKeepsSound(width, height, State(), startTile, endTile, startTile, Deselect(tiles[startTile]));
      tiles[startTile] := Deselect(tiles[startTile]);
      var picked := PickTile(pointer);
      if picked.Some? {
        MarkKeepsSound(width, height, State(), startTile, endTile, picked.value, Select(tiles[picked.value]));
        tiles[picked.value] := Select(tiles[picked.value]);
        startTile := picked.value;
      }
    }

    /**
     * A right click in the default mode: the same as a left click, for the
     * last selected end tile.
     */
    method SelectEnd(pointer: Position)
      requires Valid() && open == []
      modifies this, tiles
      ensures Valid()
      ensures var d := old(tiles[..])[old(endTile) := Deselect(old(tiles[endTile]))];
        var c := Grid.CellAt(width, height, pointer);
        if c.Some? && !d[c.value].isObstacle then
          tiles[..] == d[c.value := Select(d[c.value])] && endTile == c.value
        else
          tiles[..] == d && endTile == old(endTile)
      ensures open == old(open) && closed == old(closed)
      ensures startTile == old(startTile) && currentGCost == old(currentGCost)
    {
      BlankKeepsSound(width, height, State(), startTile, endTile, endTile, Deselect(tiles[endTile]));
      tiles[endTile] := Deselect(tiles[endTile]);
      var picked := PickTile(pointer);
      if picked.Some? {
        MarkKeepsSound(width, height, State(), startTile, endTile, picked.value, Select(tiles[picked.value]));
        tiles[picked.value] := Select(tiles[picked.value]);
        endTile := picked.value;
      }
    }

    /**
     * A left click in the obstacle mode: the tile under the pointer, if any,
     * becomes an obstacle, whether or not it is selected. Required: that tile
     * is in neither vector.
     */
    method PlaceObstacle(pointer: Position)
      requires Valid()
      requires var c := Grid.CellAt(width, height, pointer);
        c.Some? ==> c.value !in open && c.value !in closed
      modifies tiles
      ensures Valid()
      ensures var c := Grid.CellAt(width, height, pointer);
        tiles[..] == if c.Some? then old(tiles[..])[c.value := SetObstacle(old(tiles[c.value]))] else old(tiles[..])
    {
      var xRounded := FloorToMultiple(pointer.x, TILE_OFFSET);
      var yRounded := FloorToMultiple(pointer.y, TILE_OFFSET);
      LocateCell(width, height, tiles[..], pointer);
      var found := LocateTile(xRounded, yRounded);
      if found.Some? {
        MarkKeepsSound(width, height, State(), startTile, endTile, found.value, SetObstacle(tiles[found.value]));
        tiles[found.value] := SetObstacle(tiles[found.value]);
      }
    }

    /**
     * C in the default mode: every tile is reset (obstacle, open and closed
     * flags, costs and parent cleared; the selection kept). The vectors are
     * left as they are. Required: no run in progress.
     */
    method ClearAll()
      requires Valid() && open == []
      modifies tiles
      ensures Valid()
      ensures forall i :: 0 <= i < tiles.Length ==> tiles[i] == ResetTile(old(tiles[i]))
      ensures closed == [] ==> FlagsMatch(State())
    {
      for i := 0 to tiles.Length
        invariant Valid()
        invariant forall j :: 0 <= j < tiles.Length ==>
          tiles[j] == if j < i then ResetTile(old(tiles[j])) else old(tiles[j])
      {
        BlankKeepsSound(width, height, State(), startTile, endTile, i, ResetTile(tiles[i]));
        tiles[i] := ResetTile(tiles[i]);
      }
    }

    /**
     * C in the obstacle mode: every obstacle tile is reset and every other
     * tile is left alone. Obstacles are never in the vectors, so this is
     * sound during a run too.
     */
    method ClearObstacles()
      requires Valid()
      modifies tiles
      ensures Valid()
      ensures forall i :: 0 <= i < tiles.Length ==>
        tiles[i] == if old(tiles[i]).isObstacle then ResetTile(old(tiles[i])) else old(tiles[i])
    {
      for i := 0 to tiles.Length
        invariant Valid()
        invariant forall j :: 0 <= j < tiles.Length ==>
          tiles[j] == if j < i && old(tiles[j]).isObstacle then ResetTile(old(tiles[j])) else old(tiles[j])
      {
        if tiles[i].isObstacle {
          assert i !in open && i !in closed;
          BlankKeepsSound(width, height, State(), startTile, endTile, i, ResetTile(tiles[i]));
          tiles[i] := ResetTile(tiles[i]);
        }
      }
    }
  }

  /** The first construction loop: a fresh tile at (50x, 50y) for every cell, stored at W*y + x. */
  method PlaceTiles(w: nat, h: nat) returns (a: array<Tile>)
    requires w >= 1
    ensures fresh(a) && a.Length == w * h
    ensures forall i :: 0 <= i < a.Length ==> a[i] == NewTile(Grid.TilePosition(i % w, i / w))
  {
    a := new Tile[w * h];
    var y := 0;
    while y < h
      invariant 0 <= y <= h
      invariant forall i :: 0 <= i < w * y ==> a[i] == NewTile(Grid.TilePosition(i % w, i / w))
    {
      Grid.MulLe(w, y + 1, h);
      var x := 0;
      while x < w
        invariant 0 <= x <= w
        invariant forall i :: 0 <= i < w * y + x ==> a[i] == NewTile(Grid.TilePosition(i % w, i / w))
      {
        Grid.IndexCoordinates(w, x, y);
        a[w * y + x] := NewTile(Grid.TilePosition(x, y));
        x := x + 1;
      }
      assert w * y + w == w * (y + 1);
      y := y + 1;
    }
  }

  /**
   * The second construction loop: SetNeighbours and SetCornerNeighbours on
   * every tile with the slots the nine-case split picks; nothing else changes.
   */
  method LinkTiles(a: array<Tile>, w: nat, h: nat)
    requires w >= 2 && h >= 2 && a.Length == w * h
    requires forall i :: 0 <= i < a.Length ==> |a[i].neighbourhood| == 8
    modifies a
    ensures forall i :: 0 <= i < a.Length ==>
      a[i] == old(a[i]).(neighbourhood := Grid.Neighbourhood(w, h, i % w, i / w))
  {
    var y := 0;
    while y < h
      invariant 0 <= y <= h && w * y <= a.Length
      invariant forall i :: 0 <= i < a.Length ==>
        a[i] == if i < w * y then old(a[i]).(neighbourhood := Grid.Neighbourhood(w, h, i % w, i / w)) else old(a[i])
    {
      LinkRow(a, w, h, y);
      y := y + 1;
    }
    assert w * y == a.Length;
  }

  /** One row y of the second construction loop: the tiles W*y .. W*y + W - 1. */
  method LinkRow(a: array<Tile>, w: nat, h: nat, y: nat)
    requires w >= 2 && h >= 2 && a.Length == w * h && y < h
    requires forall i :: w * y <= i < a.Length ==> |a[i].neighbourhood| == 8
    modifies a
    ensures w * (y + 1) <= a.Length
    ensures forall i :: 0 <= i < a.Length ==>
      a[i] == if w * y <= i < w * (y + 1)
              then old(a[i]).(neighbourhood := Grid.Neighbourhood(w, h, i % w, i / w))
              else old(a[i])
  {
    Grid.MulLe(w, y + 1, h);
    var row := w * y;
    assert row + w == w * (y + 1);
    var x := 0;
    while x < w
      invariant 0 <= x <= w
      invariant forall i :: 0 <= i < a.Length ==>
        a[i] == if row <= i < row + x
                then old(a[i]).(neighbourhood := Grid.Neighbourhood(w, h, i % w, i / w))
                else old(a[i])
    {
      Grid.IndexCoordinates(w, x, y);
      assert (row + x) % w == x && (row + x) / w == y;
      a[row + x] := LinkTile(a[row + x], w, h, x, y);
      x := x + 1;
    }
  }

  /**
   * The loop body of the second construction loop for cell (x, y): the two
   * setters with the slots of the nine-case split, which are exactly the
   * reference neighbourhood of the cell.
   */
  function LinkTile(t: Tile, w: nat, h: nat, x: nat, y: nat): (r: Tile)
    requires w >= 2 && h >= 2 && Grid.InGrid(w, h, x, y) && |t.neighbourhood| == 8
    ensures r == t.(neighbourhood := Grid.Neighbourhood(w, h, x, y))
  {
    var s := Grid.SlotsAsWritten(w, h, x, y);
    Grid.SlotsAsWrittenAgree(w, h, x, y);
    SetCornerNeighbours(SetNeighbours(t, s[0], s[1], s[2], s[3]), s[4], s[5], s[6], s[7])
  }
}
