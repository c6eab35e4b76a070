/**
 * The fixed grid: tile (x, y) is stored at index W*y + x, sits at pixel
 * position (50x, 50y), and has eight neighbour slots in the order left,
 * right, up, down, top-left, top-right, bottom-left, bottom-right.
 * A slot is None (a null pointer) when its cell is off the grid.
 */
module Grid {
  import opened Wrappers
  import opened Geometry

  /** Storage index of tile (x, y) in the flat tile array. */
  function Index(w: nat, x: nat, y: nat): (r: nat)
    ensures x < w ==> w * y <= r < w * y + w
  {
    w * y + x
  }

  /** Pixel position of tile (x, y): both coordinates are multiples of TILE_OFFSET. */
  function TilePosition(x: int, y: int): (r: Position)
    ensures r.x % TILE_OFFSET == 0 && r.x / TILE_OFFSET == x
    ensures r.y % TILE_OFFSET == 0 && r.y / TILE_OFFSET == y
  {
    DivModUnique(TILE_OFFSET * x, TILE_OFFSET, x, 0);
    DivModUnique(TILE_OFFSET * y, TILE_OFFSET, y, 0);
    Position(TILE_OFFSET * x, TILE_OFFSET * y)
  }

  predicate InGrid(w: nat, h: nat, x: int, y: int)
  {
    0 <= x < w && 0 <= y < h
  }

  /** Horizontal offset of neighbour slot k. */
  function OffsetX(k: nat): int
    requires k < 8
  {
    [-1, 1, 0, 0, -1, 1, -1, 1][k]
  }

  /** Vertical offset of neighbour slot k (y grows downward). */
  function OffsetY(k: nat): int
    requires k < 8
  {
    [0, 0, -1, 1, -1, -1, 1, 1][k]
  }

  /** The slot pointing back: left and right, up and down, and opposite corners. */
  function Pair(k: nat): (p: nat)
    requires k < 8
    ensures p < 8
    ensures OffsetX(p) == -OffsetX(k) && OffsetY(p) == -OffsetY(k)
  {
    [1, 0, 3, 2, 7, 6, 5, 4][k]
  }

  lemma PairTwice(k: nat)
    requires k < 8
    ensures Pair(Pair(k)) == k
  {
  }

  /** Reference definition of slot k of tile (x, y): the tile at the slot's offset, if on the grid. */
  function NeighbourAt(w: nat, h: nat, x: int, y: int, k: nat): Option<nat>
    requires k < 8
  {
    var nx, ny := x + OffsetX(k), y + OffsetY(k);
    if InGrid(w, h, nx, ny) then Some(Index(w, nx, ny)) else None
  }

  /** All eight slots of tile (x, y) by the reference definition. */
  function Neighbourhood(w: nat, h: nat, x: int, y: int): seq<Option<nat>>
  {
    [NeighbourAt(w, h, x, y, 0), NeighbourAt(w, h, x, y, 1),
     NeighbourAt(w, h, x, y, 2), NeighbourAt(w, h, x, y, 3),
     NeighbourAt(w, h, x, y, 4), NeighbourAt(w, h, x, y, 5),
     NeighbourAt(w, h, x, y, 6), NeighbourAt(w, h, x, y, 7)]
  }

  /** The eight slots in slot order, as SetNeighbours and SetCornerNeighbours store them. */
  function Slots(left: Option<nat>, right: Option<nat>, up: Option<nat>, down: Option<nat>,
                 topLeft: Option<nat>, topRight: Option<nat>,
                 bottomLeft: Option<nat>, bottomRight: Option<nat>): seq<Option<nat>>
  {
    [left, right, up, down, topLeft, topRight, bottomLeft, bottomRight]
  }

  /**
   * The neighbour slots exactly as the construction loop assigns them: four
   * corners, four edges and the interior, tested in the loop's order.
   */
  function SlotsAsWritten(w: nat, h: nat, x: nat, y: nat): (r: seq<Option<nat>>)
    requires w >= 2 && h >= 2 && InGrid(w, h, x, y)
    ensures |r| == 8
  {
    if x == 0 && y == 0 then
      Slots(None, Some(w * y + x + 1), None, Some(w * (y + 1) + x),
            None, None, None, Some(w * (y + 1) + x + 1))
    else if x == w - 1 && y == h - 1 then
      Slots(Some(w * y + x - 1), None, Some(w * (y - 1) + x), None,
            Some(w * (y - 1) + x - 1), None, None, None)
    else if x == 0 && y == h - 1 then
      Slots(None, Some(w * y + x + 1), Some(w * (y - 1) + x), None,
            None, Some(w * (y - 1) + x + 1), None, None)
    else if x == w - 1 && y == 0 then
      Slots(Some(w * y + x - 1), None, None, Some(w * (y + 1) + x),
            None, None, Some(w * (y + 1) + x - 1), None)
    else if y == 0 then
      Slots(Some(w * y + x - 1), Some(w * y + x + 1), None, Some(w * (y + 1) + x),
            None, None, Some(w * (y + 1) + x - 1), Some(w * (y + 1) + x + 1))
    else if y == h - 1 then
      Slots(Some(w * y + x - 1), Some(w * y + x + 1), Some(w * (y - 1) + x), None,
            Some(w * (y - 1) + x - 1), Some(w * (y - 1) + x + 1), None, None)
    else if x == 0 then
      Slots(None, Some(w * y + x + 1), Some(w * (y - 1) + x), Some(w * (y + 1) + x),
            None, Some(w * (y - 1) + x + 1), None, Some(w * (y + 1) + x + 1))
    else if x == w - 1 then
      Slots(Some(w * y + x - 1), None, Some(w * (y - 1) + x), Some(w * (y + 1) + x),
            Some(w * (y - 1) + x - 1), None, Some(w * (y + 1) + x - 1), None)
    else
      Slots(Some(w * y + x - 1), Some(w * y + x + 1), Some(w * (y - 1) + x), Some(w * (y + 1) + x),
            Some(w * (y - 1) + x - 1), Some(w * (y - 1) + x + 1),
            Some(w * (y + 1) + x - 1), Some(w * (y + 1) + x + 1))
  }

  /** The nine-case construction assigns every slot its reference value. */
  lemma SlotsAsWrittenAgree(w: nat, h: nat, x: nat, y: nat)
    requires w >= 2 && h >= 2 && InGrid(w, h, x, y)
    ensures SlotsAsWritten(w, h, x, y) == Neighbourhood(w, h, x, y)
  {
  }

  lemma MulLe(w: nat, a: nat, b: nat)
    requires a <= b
    ensures w * a <= w * b
  {
    assert w * b - w * a == w * (b - a);
  }

  /** Every on-grid tile is stored inside the array. */
  lemma IndexBound(w: nat, h: nat, x: int, y: int)
    requires InGrid(w, h, x, y)
    ensures Index(w, x, y) < w * h
  {
    MulLe(w, y + 1, h);
  }

  /** The index determines the coordinates: x == index % W and y == index / W. */
  lemma IndexCoordinates(w: nat, x: nat, y: nat)
    requires x < w
    ensures Index(w, x, y) % w == x && Index(w, x, y) / w == y
  {
    DivModUnique(w * y + x, w, y, x);
  }

  /** Distinct on-grid cells have distinct indices and distinct positions. */
  lemma IndexInjective(w: nat, h: nat, x1: nat, y1: nat, x2: nat, y2: nat)
    requires InGrid(w, h, x1, y1) && InGrid(w, h, x2, y2)
    requires (x1, y1) != (x2, y2)
    ensures Index(w, x1, y1) != Index(w, x2, y2)
    ensures TilePosition(x1, y1) != TilePosition(x2, y2)
  {
    IndexCoordinates(w, x1, y1);
    IndexCoordinates(w, x2, y2);
  }

  /** Each array index below W*H is an on-grid cell. */
  lemma CellOfIndex(w: nat, h: nat, i: nat)
    requires i < w * h
    ensures w > 0 && InGrid(w, h, i % w, i / w) && i == Index(w, i % w, i / w)
  {
    if i / w >= h {
      MulLe(w, h, i / w);
    }
  }

  /** Slot k of the tile stored at index i. */
  function SlotOf(w: nat, h: nat, i: nat, k: nat): Option<nat>
    requires w > 0 && k < 8
  {
    NeighbourAt(w, h, i % w, i / w, k)
  }

  /** A linked neighbour is stored inside the array and is never the tile itself. */
  lemma SlotInRange(w: nat, h: nat, i: nat, k: nat)
    requires i < w * h && k < 8
    ensures w > 0
    ensures SlotOf(w, h, i, k).Some? ==> SlotOf(w, h, i, k).value < w * h
    ensures SlotOf(w, h, i, k).Some? ==> SlotOf(w, h, i, k).value != i
  {
    CellOfIndex(w, h, i);
    var x, y := i % w, i / w;
    var nx, ny := x + OffsetX(k), y + OffsetY(k);
    if InGrid(w, h, nx, ny) {
      IndexBound(w, h, nx, ny);
      IndexInjective(w, h, x, y, nx, ny);
    }
  }

  lemma SlotSymmetricOneWay(w: nat, h: nat, i: nat, j: nat, k: nat)
    requires i < w * h && j < w * h && k < 8
    requires w > 0 && SlotOf(w, h, i, k) == Some(j)
    ensures SlotOf(w, h, j, Pair(k)) == Some(i)
  {
    CellOfIndex(w, h, i);
    var x, y := i % w, i / w;
    var nx, ny := x + OffsetX(k), y + OffsetY(k);
    IndexCoordinates(w, nx, ny);
  }

  /** Adjacency is symmetric by slot pairs: j is in slot k of i iff i is in slot Pair(k) of j. */
  lemma SlotSymmetric(w: nat, h: nat, i: nat, j: nat, k: nat)
    requires i < w * h && j < w * h && k < 8
    ensures w > 0
    ensures SlotOf(w, h, i, k) == Some(j) <==> SlotOf(w, h, j, Pair(k)) == Some(i)
  {
    if SlotOf(w, h, i, k) == Some(j) {
      SlotSymmetricOneWay(w, h, i, j, k);
    }
    if SlotOf(w, h, j, Pair(k)) == Some(i) {
      SlotSymmetricOneWay(w, h, j, i, Pair(k));
      PairTwice(k);
    }
  }

  /** Linked neighbours are one tile apart: 50 across an edge, 70 across a corner. */
  lemma SlotDistance(w: nat, h: nat, i: nat, k: nat)
    requires i < w * h && k < 8
    ensures w > 0
    ensures SlotOf(w, h, i, k).Some? ==>
      var j := SlotOf(w, h, i, k).value;
      DistanceBetween(TilePosition(i % w, i / w), TilePosition(j % w, j / w))
        == if k < 4 then 50 else 70
  {
    CellOfIndex(w, h, i);
    var x, y := i % w, i / w;
    var nx, ny := x + OffsetX(k), y + OffsetY(k);
    if InGrid(w, h, nx, ny) {
      IndexCoordinates(w, nx, ny);
      var a := TilePosition(x, y);
      assert TilePosition(nx, ny) == Position(a.x + TILE_OFFSET * OffsetX(k), a.y + TILE_OFFSET * OffsetY(k));
      if k < 4 {
        CardinalStep(a, OffsetX(k), OffsetY(k));
      } else {
        DiagonalStep(a, OffsetX(k), OffsetY(k));
      }
    }
  }

  /** Number of non-null slots. */
  function CountLinks(s: seq<Option<nat>>): nat
  {
    if s == [] then 0 else (if s[0].Some? then 1 else 0) + CountLinks(s[1..])
  }

  function Ind(o: Option<nat>): nat
  {
    if o.Some? then 1 else 0
  }

  lemma CountLinksEight(s: seq<Option<nat>>)
    requires |s| == 8
    ensures CountLinks(s) == Ind(s[0]) + Ind(s[1]) + Ind(s[2]) + Ind(s[3])
                           + Ind(s[4]) + Ind(s[5]) + Ind(s[6]) + Ind(s[7])
  {
    forall m | 0 <= m < 8
      ensures CountLinks(s[m..]) == Ind(s[m]) + CountLinks(s[m + 1..])
    {
      assert s[m..][1..] == s[m + 1..];
    }
    assert s[0..] == s;
    assert s[8..] == [];
  }

  /** Corner tiles have 3 neighbours, edge tiles 5 and interior tiles 8. */
  lemma NeighbourCount(w: nat, h: nat, x: nat, y: nat)
    requires w >= 2 && h >= 2 && InGrid(w, h, x, y)
    ensures var onX, onY := x == 0 || x == w - 1, y == 0 || y == h - 1;
      CountLinks(Neighbourhood(w, h, x, y)) == if onX && onY then 3 else if onX || onY then 5 else 8
  {
    CountLinksEight(Neighbourhood(w, h, x, y));
  }

  /**
   * The cell a pointer position, relative to the grid origin, falls in: the
   * coordinates divided by TILE_OFFSET and rounded down, when on the grid.
   */
  function CellAt(w: nat, h: nat, p: Position): (r: Option<nat>)
    ensures r.Some? <==> 0 <= p.x < TILE_OFFSET * w && 0 <= p.y < TILE_OFFSET * h
    ensures r.Some? ==> r.value < w * h
  {
    if 0 <= p.x < TILE_OFFSET * w && 0 <= p.y < TILE_OFFSET * h then
      IndexBound(w, h, p.x / TILE_OFFSET, p.y / TILE_OFFSET);
      Some(Index(w, p.x / TILE_OFFSET, p.y / TILE_OFFSET))
    else None
  }
}
