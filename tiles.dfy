/**
 * The state of one grid tile and the transitions that assign its fields.
 * Neighbour slots and the parent are tile indices; None stands for NULL.
 * `onPath` stands for the tile being painted in the path colour by
 * SetToPath; every other repaint (select, obstacle, reset, open, closed)
 * clears it.
 */
module Tiles {
  import opened Wrappers
  import opened Geometry

  datatype Tile = Tile(
    position: Position,
    neighbourhood: seq<Option<nat>>,
    parent: Option<nat>,
    isObstacle: bool,
    isSelected: bool,
    isOpen: bool,
    isClosed: bool,
    gCost: int,
    hCost: int,
    fCost: int,
    onPath: bool)

  /** The tile and t agree on their position and neighbour slots. */
  predicate SameShape(t: Tile, u: Tile)
  {
    t.position == u.position && t.neighbourhood == u.neighbourhood
  }

  /** The fields a search assigns are at their defaults. */
  predicate Blank(t: Tile)
  {
    !t.isObstacle && !t.isOpen && !t.isClosed && !t.onPath &&
    t.parent == None && t.gCost == 0 && t.hCost == 0 && t.fCost == 0
  }

  /** Tile::Tile: at the given position, eight null slots, no parent, all flags false, costs 0. */
  function NewTile(position: Position): (t: Tile)
    ensures t.position == position && Blank(t) && !t.isSelected
    ensures |t.neighbourhood| == 8 && forall k :: 0 <= k < 8 ==> t.neighbourhood[k] == None
  {
    Tile(position, [None, None, None, None, None, None, None, None], None,
         false, false, false, false, 0, 0, 0, false)
  }

  /** Tile::SetNeighbours: slots 0..3 become left, right, up, down. */
  function SetNeighbours(t: Tile, left: Option<nat>, right: Option<nat>, up: Option<nat>, down: Option<nat>): (r: Tile)
    requires |t.neighbourhood| == 8
    ensures r.neighbourhood == [left, right, up, down] + t.neighbourhood[4..]
    ensures r.(neighbourhood := t.neighbourhood) == t
  {
    t.(neighbourhood := [left, right, up, down] + t.neighbourhood[4..])
  }

  /** Tile::SetCornerNeighbours: slots 4..7 become top-left, top-right, bottom-left, bottom-right. */
  function SetCornerNeighbours(t: Tile, topLeft: Option<nat>, topRight: Option<nat>,
                               bottomLeft: Option<nat>, bottomRight: Option<nat>): (r: Tile)
    requires |t.neighbourhood| == 8
    ensures r.neighbourhood == t.neighbourhood[..4] + [topLeft, topRight, bottomLeft, bottomRight]
    ensures r.(neighbourhood := t.neighbourhood) == t
  {
    t.(neighbourhood := t.neighbourhood[..4] + [topLeft, topRight, bottomLeft, bottomRight])
  }

  /** Tile::SetObstacle: sets only the obstacle flag (and repaints the tile black). */
  function SetObstacle(t: Tile): (r: Tile)
    ensures r.isObstacle && !r.onPath
    ensures r.(isObstacle := t.isObstacle, onPath := t.onPath) == t
  {
    t.(isObstacle := true, onPath := false)
  }

  /** Tile::ResetTile: clears obstacle, open, closed, costs and parent; keeps the selection. */
  function ResetTile(t: Tile): (r: Tile)
    ensures Blank(r) && SameShape(r, t) && r.isSelected == t.isSelected
  {
    t.(isObstacle := false, isOpen := false, isClosed := false,
       gCost := 0, hCost := 0, fCost := 0, parent := None, onPath := false)
  }

  /** Tile::Select (flag part): marks the tile selected and repaints it. */
  function Select(t: Tile): (r: Tile)
    ensures r.isSelected && !r.onPath
    ensures r.(isSelected := t.isSelected, onPath := t.onPath) == t
  {
    t.(isSelected := true, onPath := false)
  }

  /** Tile::Deselect: everything ResetTile does, and the selection is cleared too. */
  function Deselect(t: Tile): (r: Tile)
    ensures Blank(r) && SameShape(r, t) && !r.isSelected
  {
    ResetTile(t).(isSelected := false)
  }

  /** Tile::SetToOpen: exactly isOpen of the two set flags. */
  function SetToOpen(t: Tile): (r: Tile)
    ensures r.isOpen && !r.isClosed && !r.onPath
    ensures r.(isOpen := t.isOpen, isClosed := t.isClosed, onPath := t.onPath) == t
  {
    t.(isOpen := true, isClosed := false, onPath := false)
  }

  /** Tile::SetToClosed: exactly isClosed of the two set flags. */
  function SetToClosed(t: Tile): (r: Tile)
    ensures !r.isOpen && r.isClosed && !r.onPath
    ensures r.(isOpen := t.isOpen, isClosed := t.isClosed, onPath := t.onPath) == t
  {
    t.(isOpen := false, isClosed := true, onPath := false)
  }

  /** Tile::SetParentNode: changes only the parent link. */
  function SetParentNode(t: Tile, tile: Option<nat>): (r: Tile)
    ensures r.parent == tile && r.(parent := t.parent) == t
  {
    t.(parent := tile)
  }

  /** Tile::SetToPath: paints the tile in the path colour. */
  function SetToPath(t: Tile): (r: Tile)
    ensures r.onPath && r.(onPath := t.onPath) == t
  {
    t.(onPath := true)
  }

  /**
   * Tile::CalculateCosts: g is the given cost, h the heuristic to the end
   * tile, and f their sum; nothing else changes.
   */
  function CalculateCosts(t: Tile, currentGCost: int, endTile: Position): (r: Tile)
    ensures r.gCost == currentGCost
    ensures r.hCost == Heuristic(t.position, endTile) && r.hCost >= 0
    ensures r.fCost == r.gCost + r.hCost
    ensures r.(gCost := t.gCost, hCost := t.hCost, fCost := t.fCost) == t
  {
    var h := Heuristic(t.position, endTile);
    t.(gCost := currentGCost, hCost := h, fCost := currentGCost + h)
  }
}
