/**
 * The A* search on values: the open and closed vectors, one neighbour
 * relaxation (the loop body of Tile::SearchNeighbourhood), the expansion of
 * a tile over its slots, the move of the expanded tile to the closed
 * vector, the selection of the first minimum-f tile, and the walk along
 * parent links that reconstructs the path.
 */
module Search {
  import opened Wrappers
  import opened Geometry
  import opened Tiles
  import Grid

  /** All tiles with the open and closed vectors (in vector order). */
  datatype SearchState = SearchState(tiles: seq<Tile>, open: seq<nat>, closed: seq<nat>)

  predicate NoDup(s: seq<nat>)
  {
    forall i, j :: 0 <= i < j < |s| ==> s[i] != s[j]
  }

  /**
   * `vector.erase(std::remove(begin, end, x))`: every occurrence of x is
   * removed and the other elements keep their order.
   */
  function Remove(s: seq<nat>, x: nat): (r: seq<nat>)
    ensures forall y :: y in r <==> y in s && y != x
    ensures |r| <= |s|
    ensures NoDup(s) ==> NoDup(r)
  {
    if s == [] then []
    else
      var rest := Remove(s[1..], x);
      if s[0] == x then rest
      else
        assert NoDup(s) ==> s[0] !in s[1..];
        [s[0]] + rest
  }

  /** Removing a tile known to occur once at position k cuts out exactly position k. */
  lemma {:induction false} RemoveAt(s: seq<nat>, k: nat)
    requires NoDup(s) && k < |s|
    ensures Remove(s, s[k]) == s[..k] + s[k + 1..]
  {
    if k == 0 {
      RemoveAbsent(s[1..], s[0]);
      assert s[1..] == s[..0] + s[1..];
    } else {
      assert NoDup(s[1..]);
      RemoveAt(s[1..], k - 1);
      assert s[1..][..k - 1] + s[1..][k..] == s[1..k] + s[k + 1..];
      assert s[..k] == [s[0]] + s[1..k];
    }
  }

  lemma {:induction false} RemoveAbsent(s: seq<nat>, x: nat)
    requires x !in s
    ensures Remove(s, x) == s
  {
    if s != [] {
      RemoveAbsent(s[1..], x);
    }
  }

  /** Every closed-flagged tile is listed in the closed vector: erase of it is well defined. */
  predicate ClosedListed(s: SearchState)
  {
    forall i :: 0 <= i < |s.tiles| && s.tiles[i].isClosed ==> i in s.closed
  }

  /** The non-null slots of tile i name tiles of the grid. */
  predicate SlotsIn(tiles: seq<Tile>, i: nat)
    requires i < |tiles|
  {
    forall m :: 0 <= m < |tiles[i].neighbourhood| && tiles[i].neighbourhood[m].Some? ==>
      tiles[i].neighbourhood[m].value < |tiles|
  }

  /** Both tile sequences have the same length, positions and neighbour slots. */
  predicate SameShapes(a: seq<Tile>, b: seq<Tile>)
  {
    |a| == |b| && forall i :: 0 <= i < |a| ==> SameShape(a[i], b[i])
  }

  /** The g-cost a neighbour n would get when reached from cur. */
  function NewG(s: SearchState, cur: nat, n: nat, currentGCost: int): int
    requires cur < |s.tiles| && n < |s.tiles|
  {
    currentGCost + DistanceBetween(s.tiles[cur].position, s.tiles[n].position)
  }

  /** Whether visiting neighbour n from cur assigns anything: not an obstacle, and fresh or cheaper. */
  predicate Updates(s: SearchState, cur: nat, n: nat, currentGCost: int)
    requires cur < |s.tiles| && n < |s.tiles|
  {
    var t := s.tiles[n];
    !t.isObstacle &&
    (if t.isOpen || t.isClosed then NewG(s, cur, n, currentGCost) < t.gCost else true)
  }

  /**
   * The loop body of Tile::SearchNeighbourhood for one non-null neighbour n
   * of the tile cur: an open neighbour gets cheaper costs and a new parent; a
   * closed one that becomes cheaper is appended to the open vector, gets new
   * costs and parent, is marked open and is erased from the closed vector; a
   * fresh one is appended to the open vector with its costs and parent and
   * is marked open. An obstacle is never touched.
   */
  function Relax(s: SearchState, cur: nat, n: nat, currentGCost: int, endTile: Position): (r: SearchState)
    requires cur < |s.tiles| && n < |s.tiles| && ClosedListed(s)
    ensures ClosedListed(r) && SameShapes(s.tiles, r.tiles)
    ensures forall i :: 0 <= i < |s.tiles| && i != n ==> r.tiles[i] == s.tiles[i]
    ensures !Updates(s, cur, n, currentGCost) ==> r == s
    ensures Updates(s, cur, n, currentGCost) ==>
      var t, u := s.tiles[n], r.tiles[n];
      && u.gCost == NewG(s, cur, n, currentGCost)
      && u.hCost == Heuristic(u.position, endTile)
      && u.fCost == u.gCost + u.hCost
      && u.parent == Some(cur)
      && u.isOpen && u.isClosed == (t.isOpen && t.isClosed)
      && u.isObstacle == t.isObstacle && u.isSelected == t.isSelected
      && u.onPath == (t.isOpen && t.onPath)
      && r.open == (if t.isOpen then s.open else s.open + [n])
      && r.closed == (if !t.isOpen && t.isClosed then Remove(s.closed, n) else s.closed)
  {
    var t := s.tiles[n];
    if t.isObstacle then s
    else
      var newGCost := NewG(s, cur, n, currentGCost);
      if t.isOpen then
        if newGCost < t.gCost then
          s.(tiles := s.tiles[n := SetParentNode(CalculateCosts(t, newGCost, endTile), Some(cur))])
        else s
      else if t.isClosed then
        if newGCost < t.gCost then
          var u := SetToOpen(SetParentNode(CalculateCosts(t, newGCost, endTile), Some(cur)));
          SearchState(s.tiles[n := u], s.open + [n], Remove(s.closed, n))
        else s
      else
        var u := SetToOpen(SetParentNode(CalculateCosts(t, newGCost, endTile), Some(cur)));
        SearchState(s.tiles[n := u], s.open + [n], s.closed)
  }

  /**
   * Tile::SearchNeighbourhood over the given slots, in order: null slots are
   * skipped and every other slot is relaxed.
   */
  function ExpandSlots(s: SearchState, cur: nat, slots: seq<Option<nat>>, currentGCost: int, endTile: Position): (r: SearchState)
    requires cur < |s.tiles| && ClosedListed(s)
    requires forall m :: 0 <= m < |slots| && slots[m].Some? ==> slots[m].value < |s.tiles|
    ensures ClosedListed(r) && SameShapes(s.tiles, r.tiles)
    ensures s.open <= r.open
    decreases |slots|
  {
    if slots == [] then s
    else
      var p := ExpandSlots(s, cur, slots[..|slots| - 1], currentGCost, endTile);
      match slots[|slots| - 1]
      case None => p
      case Some(n) => Relax(p, cur, n, currentGCost, endTile)
  }

  /**
   * One expansion of the current tile: search its neighbourhood with its own
   * g-cost, erase it from the open vector, append it to the closed vector and
   * mark it closed.
   */
  function Advance(s: SearchState, cur: nat, endTile: Position): (r: SearchState)
    requires cur < |s.tiles| && cur in s.open && ClosedListed(s) && SlotsIn(s.tiles, cur)
    ensures SameShapes(s.tiles, r.tiles)
    ensures cur !in r.open && r.closed != [] && r.closed[|r.closed| - 1] == cur
    ensures r.tiles[cur].isClosed && !r.tiles[cur].isOpen
  {
    var x := ExpandSlots(s, cur, s.tiles[cur].neighbourhood, s.tiles[cur].gCost, endTile);
    SearchState(x.tiles[cur := SetToClosed(x.tiles[cur])], Remove(x.open, cur), x.closed + [cur])
  }

  /** Every tile's g is non-negative and its parent, if any, has a strictly smaller g. */
  predicate ParentsDescend(tiles: seq<Tile>)
  {
    forall i :: 0 <= i < |tiles| ==>
      tiles[i].gCost >= 0 &&
      (tiles[i].parent.Some? ==>
        tiles[i].parent.value < |tiles| && tiles[tiles[i].parent.value].gCost < tiles[i].gCost)
  }

  /**
   * The parent chain from tile i back to the start tile, i first and start
   * last; None when a null parent is met before reaching the start tile.
   */
  function PathFrom(tiles: seq<Tile>, i: nat, start: nat): (r: Option<seq<nat>>)
    requires i < |tiles| && ParentsDescend(tiles)
    ensures r.Some? ==> |r.value| >= 1 && r.value[0] == i && r.value[|r.value| - 1] == start
    ensures r.Some? ==> start < |tiles| && tiles[start].gCost <= tiles[i].gCost
    decreases tiles[i].gCost
  {
    if i == start then Some([start])
    else
      match tiles[i].parent
      case None => None
      case Some(p) =>
        match PathFrom(tiles, p, start)
        case None => None
        case Some(rest) => Some([i] + rest)
  }

  /**
   * The trace at the end of a run as the demonstrator writes it: the goal is
   * marked, then the walk starts at the goal's PARENT and stops on reaching
   * the start tile. A null tile met on the way is dereferenced (None).
   */
  function TraceAsWritten(tiles: seq<Tile>, goal: nat, start: nat): (r: Option<seq<nat>>)
    requires goal < |tiles| && ParentsDescend(tiles)
    ensures r.Some? ==> |r.value| >= 2 && r.value[0] == goal && r.value[|r.value| - 1] == start
    ensures r.Some? ==> tiles[goal].parent == Some(r.value[1])
    ensures goal == start ==> r.None?
  {
    match tiles[goal].parent
    case None => None
    case Some(p) =>
      match PathFrom(tiles, p, start)
      case None => None
      case Some(rest) => Some([goal] + rest)
  }

  /** Every tile on the path painted in the path colour; no other tile changes. */
  function MarkPath(tiles: seq<Tile>, path: seq<nat>): (r: seq<Tile>)
    ensures |r| == |tiles|
    ensures forall i :: 0 <= i < |tiles| ==> r[i] == if i in path then SetToPath(tiles[i]) else tiles[i]
  {
    seq(|tiles|, i requires 0 <= i < |tiles| => if i in path then SetToPath(tiles[i]) else tiles[i])
  }

  /** Painting one more tile of the path extends the painted prefix by that tile. */
  lemma MarkPathExtend(tiles: seq<Tile>, path: seq<nat>, j: nat)
    requires j < |path| && path[j] < |tiles|
    ensures var m := MarkPath(tiles, path[..j]);
      m[path[j] := SetToPath(m[path[j]])] == MarkPath(tiles, path[..j + 1])
  {
    assert path[..j + 1] == path[..j] + [path[j]];
  }

  /** Position k of the open vector holds a minimum f-cost, and no earlier position does. */
  predicate FirstMinimumAt(open: seq<nat>, tiles: seq<Tile>, k: nat): (r: bool)
    requires forall x :: x in open ==> x < |tiles|
    ensures r ==> k < |open| && open[k] in open && forall x :: x in open ==> tiles[open[k]].fCost <= tiles[x].fCost
  {
    assert forall m :: 0 <= m < |open| ==> open[m] in open;
    k < |open| &&
    (forall j :: 0 <= j < |open| ==> tiles[open[k]].fCost <= tiles[open[j]].fCost) &&
    (forall j :: 0 <= j < k ==> tiles[open[j]].fCost > tiles[open[k]].fCost)
  }

  /** At most one position is the first minimum, so the tile findTile returns is determined. */
  lemma FirstMinimumUnique(open: seq<nat>, tiles: seq<Tile>, k: nat, k': nat)
    requires forall x :: x in open ==> x < |tiles|
    requires FirstMinimumAt(open, tiles, k) && FirstMinimumAt(open, tiles, k')
    ensures k == k'
  {
  }

  /** The start of a run: the start tile deselected, given g = 0 and its heuristic, and opened. */
  function Begin(s: SearchState, start: nat, endTile: nat): (r: SearchState)
    requires start < |s.tiles| && endTile < |s.tiles|
    ensures r.open == s.open + [start] && r.closed == s.closed
    ensures |r.tiles| == |s.tiles| && forall j :: 0 <= j < |s.tiles| && j != start ==> r.tiles[j] == s.tiles[j]
    ensures var t := r.tiles[start];
      && SameShape(t, s.tiles[start]) && t.parent == None && !t.isObstacle && !t.isSelected
      && t.isOpen && !t.isClosed && !t.onPath
      && t.gCost == 0 && t.hCost == Heuristic(s.tiles[start].position, s.tiles[endTile].position)
      && t.fCost == t.hCost
  {
    var t := SetToOpen(CalculateCosts(Deselect(s.tiles[start]), 0, s.tiles[endTile].position));
    SearchState(s.tiles[start := t], s.open + [start], s.closed)
  }
}
