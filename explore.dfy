/**
 * What a run that empties the open vector has established: every tile
 * reachable from the start tile through non-obstacle neighbours has been
 * expanded and closed, and the end tile, never closed without being found,
 * is not reachable at all. The guarantee rests on one more invariant of
 * steps: the non-obstacle neighbours of every closed tile are in a vector.
 */
module Exploration {
  import opened Wrappers
  import opened Geometry
  import opened Tiles
  import opened Search
  import opened Invariants

  /** n is a neighbour of c that is not an obstacle: a step a search may take. */
  predicate Passable(tiles: seq<Tile>, c: nat, n: nat)
  {
    c < |tiles| && n < |tiles| && Some(n) in tiles[c].neighbourhood && !tiles[n].isObstacle
  }

  /** Every non-obstacle neighbour of a closed tile is in one of the two vectors. */
  ghost predicate Explored(s: SearchState)
  {
    forall c: nat, n: nat {:trigger Passable(s.tiles, c, n)} :: c in s.closed && Passable(s.tiles, c, n) ==> InSets(s, n)
  }

  /** A walk through non-obstacle neighbours: each tile after the first is passable from its predecessor. */
  ghost predicate Walk(tiles: seq<Tile>, p: seq<nat>)
  {
    |p| >= 1 && forall j :: 0 <= j < |p| - 1 ==> Passable(tiles, p[j], p[j + 1])
  }

  /** Every tile listed in s is listed in r. */
  ghost predicate Covers(s: SearchState, r: SearchState)
  {
    forall x: nat :: InSets(s, x) ==> InSets(r, x)
  }

  /** The search never changes an obstacle flag. */
  predicate SameObstacles(a: seq<Tile>, b: seq<Tile>)
  {
    |a| == |b| && forall i :: 0 <= i < |a| ==> a[i].isObstacle == b[i].isObstacle
  }

  /**
   * One relaxation unlists nothing, never adds to the closed vector, keeps
   * the obstacles, and leaves the visited neighbour listed unless it is an
   * obstacle.
   */
  lemma RelaxCovers(s: SearchState, cur: nat, n: nat, currentGCost: int, endTile: Position)
    requires cur < |s.tiles| && n < |s.tiles| && ClosedListed(s) && FlagsMatch(s)
    ensures var r := Relax(s, cur, n, currentGCost, endTile);
      && Covers(s, r)
      && (forall x :: x in r.closed ==> x in s.closed)
      && SameObstacles(s.tiles, r.tiles)
      && (!s.tiles[n].isObstacle ==> InSets(r, n))
  {
    var r := Relax(s, cur, n, currentGCost, endTile);
    if Updates(s, cur, n, currentGCost) {
      var t := s.tiles[n];
      forall x: nat | InSets(s, x)
        ensures InSets(r, x)
      {
        if x in s.closed && x !in r.closed {
          assert !t.isOpen && t.isClosed && x == n;
        }
      }
      assert t.isOpen ==> n in s.open;
    } else {
      assert !s.tiles[n].isObstacle ==> s.tiles[n].isOpen || s.tiles[n].isClosed;
    }
  }

  /**
   * Tile::SearchNeighbourhood over slots 0..m-1 of the current tile unlists
   * nothing, never adds to the closed vector, keeps the obstacles, and lists
   * every non-obstacle tile in those slots.
   */
  lemma {:induction false} ExpandCovers(s: SearchState, start: nat, cur: nat, m: nat, endTile: Position)
    requires Inv(s) && RunInv(s, start) && ClosedListed(s)
    requires cur < |s.tiles| && cur in s.open && m <= 8 && SlotsIn(s.tiles, cur)
    requires |s.tiles[cur].neighbourhood| == 8
    ensures var nb := s.tiles[cur].neighbourhood;
      var x := ExpandSlots(s, cur, nb[..m], s.tiles[cur].gCost, endTile);
      && Covers(s, x)
      && (forall y :: y in x.closed ==> y in s.closed)
      && SameObstacles(s.tiles, x.tiles)
      && (forall j :: 0 <= j < m && nb[j].Some? && !s.tiles[nb[j].value].isObstacle ==> InSets(x, nb[j].value))
  {
    if m > 0 {
      ExpandCovers(s, start, cur, m - 1, endTile);
      ExpandKeepsInv(s, start, cur, m - 1, endTile);
      ExpandCoverStep(s, cur, m, endTile);
    } else {
      assert s.tiles[cur].neighbourhood[..0] == [];
    }
  }

  /** The induction step of ExpandCovers: relaxing slot m - 1 keeps what held after slots 0..m-2. */
  lemma ExpandCoverStep(s: SearchState, cur: nat, m: nat, endTile: Position)
    requires cur < |s.tiles| && ClosedListed(s) && 0 < m <= 8 && SlotsIn(s.tiles, cur)
    requires |s.tiles[cur].neighbourhood| == 8
    requires var nb := s.tiles[cur].neighbourhood;
      var p := ExpandSlots(s, cur, nb[..m - 1], s.tiles[cur].gCost, endTile);
      && FlagsMatch(p) && Covers(s, p)
      && (forall y :: y in p.closed ==> y in s.closed)
      && SameObstacles(s.tiles, p.tiles)
      && (forall j :: 0 <= j < m - 1 && nb[j].Some? && !s.tiles[nb[j].value].isObstacle ==> InSets(p, nb[j].value))
    ensures var nb := s.tiles[cur].neighbourhood;
      var x := ExpandSlots(s, cur, nb[..m], s.tiles[cur].gCost, endTile);
      && Covers(s, x)
      && (forall y :: y in x.closed ==> y in s.closed)
      && SameObstacles(s.tiles, x.tiles)
      && (forall j :: 0 <= j < m && nb[j].Some? && !s.tiles[nb[j].value].isObstacle ==> InSets(x, nb[j].value))
  {
    var nb := s.tiles[cur].neighbourhood;
    var g := s.tiles[cur].gCost;
    var p := ExpandSlots(s, cur, nb[..m - 1], g, endTile);
    ExpandLast(s, cur, nb, m, g, endTile);
    if nb[m - 1].Some? {
      var n := nb[m - 1].value;
      RelaxCovers(p, cur, n, g, endTile);
    }
  }

  /**
   * One step (expansion and move) keeps the tiles around every closed tile
   * listed, and keeps the end tile out of the closed vector unless it is the
   * tile expanded.
   */
  lemma AdvanceExplores(s: SearchState, start: nat, end: nat, cur: nat, endTile: Position)
    requires Inv(s) && RunInv(s, start) && ClosedListed(s)
    requires cur < |s.tiles| && cur in s.open && SlotsIn(s.tiles, cur)
    ensures var r := Advance(s, cur, endTile);
      && (Explored(s) ==> Explored(r))
      && (end !in s.closed && end != cur ==> end !in r.closed)
  {
    var nb := s.tiles[cur].neighbourhood;
    assert LinkSound(s.tiles, cur, 0);
    ExpandCovers(s, start, cur, 8, endTile);
    assert nb[..8] == nb;
    var x := ExpandSlots(s, cur, nb, s.tiles[cur].gCost, endTile);
    var r := Advance(s, cur, endTile);
    assert Covers(x, r) by {
      forall y: nat | InSets(x, y)
        ensures InSets(r, y)
      {
        if y != cur && y in x.open { assert y in r.open; }
      }
    }
    forall c: nat, n: nat | Explored(s) && c in r.closed && Passable(r.tiles, c, n)
      ensures InSets(r, n)
    {
      assert SameShape(s.tiles[c], r.tiles[c]);
      assert Passable(s.tiles, c, n);
      if c == cur {
        var k :| 0 <= k < |nb| && nb[k] == Some(n);
        assert InSets(x, n);
      } else {
        assert c in s.closed;
        assert InSets(s, n);
      }
    }
  }

  /** AdvanceExplores for a step of a sound board, as a press of R takes it. */
  lemma StepExplores(w: nat, h: nat, s: SearchState, start: nat, end: nat, cur: nat)
    requires BoardSound(w, h, s, start, end) && cur in s.open
    ensures var r := Advance(s, cur, s.tiles[end].position);
      && (Explored(s) ==> Explored(r))
      && (end !in s.closed && end != cur ==> end !in r.closed)
  {
    assert SlotsIn(s.tiles, cur);
    AdvanceExplores(s, start, end, cur, s.tiles[end].position);
  }

  /** Along a walk that starts at a closed tile of an explored state with an empty open vector, every tile is closed. */
  lemma {:induction false} ClosedAlongWalk(s: SearchState, p: seq<nat>, j: nat)
    requires Explored(s) && s.open == [] && Walk(s.tiles, p) && p[0] in s.closed && j < |p|
    ensures p[j] in s.closed
  {
    if j > 0 {
      ClosedAlongWalk(s, p, j - 1);
      assert Passable(s.tiles, p[j - 1], p[j]);
    }
  }

  /**
   * A search that has emptied the open vector, with its invariants kept,
   * has closed every tile reachable from the start tile through non-obstacle
   * neighbours, and none of those walks reaches the end tile if the end tile
   * was never closed: there is no path.
   */
  lemma ExhaustedMeansNoPath(s: SearchState, start: nat, end: nat, p: seq<nat>)
    requires Explored(s) && s.open == [] && InSets(s, start) && end !in s.closed
    requires Walk(s.tiles, p) && p[0] == start
    ensures forall j :: 0 <= j < |p| ==> p[j] in s.closed
    ensures p[|p| - 1] != end
  {
    forall j | 0 <= j < |p|
      ensures p[j] in s.closed
    {
      ClosedAlongWalk(s, p, j);
    }
  }

  /** Every walk from start is through closed tiles only, and none ends at the end tile. */
  ghost predicate NoPath(s: SearchState, start: nat, end: nat)
  {
    forall p :: Walk(s.tiles, p) && p[0] == start ==>
      (forall j :: 0 <= j < |p| ==> p[j] in s.closed) && p[|p| - 1] != end
  }

  /** ExhaustedMeansNoPath for all walks at once. */
  lemma Exhausted(s: SearchState, start: nat, end: nat)
    requires Explored(s) && s.open == [] && InSets(s, start) && end !in s.closed
    ensures NoPath(s, start, end)
  {
    forall p | Walk(s.tiles, p) && p[0] == start
      ensures (forall j :: 0 <= j < |p| ==> p[j] in s.closed) && p[|p| - 1] != end
    {
      ExhaustedMeansNoPath(s, start, end, p);
    }
  }

  /** A run starts explored: its closed vector is empty and so the end tile is not in it. */
  lemma BeginExplores(s: SearchState, start: nat, end: nat)
    requires start < |s.tiles| && end < |s.tiles| && s.closed == []
    ensures Explored(Begin(s, start, end)) && end !in Begin(s, start, end).closed
  {
  }
}
