/**
 * What the search keeps true between keypresses, and the proofs that each
 * transition keeps it: link soundness, cost bookkeeping, flags that match
 * vector membership, no obstacle in either vector, and parent chains that
 * lead back to the start tile while a run is in progress.
 */
module Invariants {
  import opened Wrappers
  import opened Geometry
  import opened Tiles
  import opened Search
  import Grid

  /** Slot k of tile i is null, or names another tile, a positive distance away, whose paired slot names i. */
  predicate LinkSound(tiles: seq<Tile>, i: nat, k: nat)
    requires i < |tiles| && k < 8
  {
    |tiles[i].neighbourhood| == 8 &&
    (tiles[i].neighbourhood[k].Some? ==>
      var j := tiles[i].neighbourhood[k].value;
      j < |tiles| && j != i && |tiles[j].neighbourhood| == 8 &&
      tiles[j].neighbourhood[Grid.Pair(k)] == Some(i) &&
      DistanceBetween(tiles[i].position, tiles[j].position) > 0)
  }

  predicate LinksSound(tiles: seq<Tile>)
  {
    forall i, k :: 0 <= i < |tiles| && 0 <= k < 8 ==> LinkSound(tiles, i, k)
  }

  /**
   * Per-tile bookkeeping: h >= 0 and f == g + h; never both open and closed;
   * a parent is one of the tile's neighbours, and only a tile flagged open
   * or closed has one.
   */
  predicate TileSound(tiles: seq<Tile>, i: nat)
    requires i < |tiles|
  {
    var t := tiles[i];
    t.hCost >= 0 && t.fCost == t.gCost + t.hCost && !(t.isOpen && t.isClosed) &&
    (t.parent.Some? ==> t.parent in t.neighbourhood && (t.isOpen || t.isClosed))
  }

  predicate TilesSound(tiles: seq<Tile>)
  {
    ParentsDescend(tiles) && forall i :: 0 <= i < |tiles| ==> TileSound(tiles, i)
  }

  predicate InSets(s: SearchState, x: nat)
  {
    x in s.open || x in s.closed
  }

  /** Neither vector lists an obstacle (or a tile outside the grid). */
  predicate ObstacleFree(s: SearchState)
  {
    (forall x :: x in s.open ==> x < |s.tiles| && !s.tiles[x].isObstacle) &&
    (forall x :: x in s.closed ==> x < |s.tiles| && !s.tiles[x].isObstacle)
  }

  /** Each vector lists grid tiles, none twice, and no obstacle. */
  predicate SetsSound(s: SearchState)
  {
    NoDup(s.open) && NoDup(s.closed) && ObstacleFree(s)
  }

  /** isOpen and isClosed agree with membership in the open and closed vectors. */
  predicate FlagsMatch(s: SearchState)
  {
    forall i :: 0 <= i < |s.tiles| ==>
      (s.tiles[i].isOpen <==> i in s.open) && (s.tiles[i].isClosed <==> i in s.closed)
  }

  predicate Inv(s: SearchState)
  {
    LinksSound(s.tiles) && TilesSound(s.tiles) && SetsSound(s) && FlagsMatch(s)
  }

  /**
   * While a run is in progress: the start tile is in a vector with g == 0 and
   * no parent, and every other tile in a vector has a parent in a vector.
   */
  ghost predicate RunInv(s: SearchState, start: nat)
  {
    start < |s.tiles| && InSets(s, start) &&
    s.tiles[start].gCost == 0 && s.tiles[start].parent == None &&
    forall x: nat :: InSets(s, x) && x != start ==>
      x < |s.tiles| && s.tiles[x].parent.Some? && InSets(s, s.tiles[x].parent.value)
  }

  /** Link soundness depends only on positions and neighbour slots. */
  lemma LinksFrame(a: seq<Tile>, b: seq<Tile>)
    requires LinksSound(a) && SameShapes(a, b)
    ensures LinksSound(b)
  {
    forall i, k | 0 <= i < |b| && 0 <= k < 8
      ensures LinkSound(b, i, k)
    {
      assert LinkSound(a, i, k);
      if b[i].neighbourhood[k].Some? {
        var j := b[i].neighbourhood[k].value;
        assert SameShape(a[j], b[j]);
      }
    }
  }

  /** With the flags matching an empty open and closed vector, no tile has a parent. */
  lemma IdleHasNoParents(s: SearchState)
    requires Inv(s) && s.open == [] && s.closed == []
    ensures forall i :: 0 <= i < |s.tiles| ==> s.tiles[i].parent == None
  {
    forall i | 0 <= i < |s.tiles|
      ensures s.tiles[i].parent == None
    {
      assert TileSound(s.tiles, i);
    }
  }

  /** During a run, a tile in neither vector is nobody's parent. */
  lemma FreshHasNoChildren(s: SearchState, start: nat, n: nat)
    requires Inv(s) && RunInv(s, start) && n < |s.tiles| && !InSets(s, n)
    ensures forall c :: 0 <= c < |s.tiles| ==> s.tiles[c].parent != Some(n)
  {
    forall c | 0 <= c < |s.tiles|
      ensures s.tiles[c].parent != Some(n)
    {
      assert TileSound(s.tiles, c);
      if s.tiles[c].parent.Some? {
        assert InSets(s, c);
        assert c != start;
        assert InSets(s, s.tiles[c].parent.value);
      }
    }
  }

  lemma NoDupAppend(s: seq<nat>, x: nat)
    requires NoDup(s) && x !in s
    ensures NoDup(s + [x])
  {
    var t := s + [x];
    forall i, j | 0 <= i < j < |t|
      ensures t[i] != t[j]
    {
      if j == |s| {
        assert t[i] == s[i];
      }
    }
  }

  /** The situation in which Tile::SearchNeighbourhood visits slot k of the current tile. */
  ghost predicate RelaxPre(s: SearchState, start: nat, cur: nat, k: nat, currentGCost: int)
  {
    Inv(s) && RunInv(s, start) && ClosedListed(s) &&
    cur < |s.tiles| && cur in s.open && k < 8 &&
    currentGCost == s.tiles[cur].gCost &&
    |s.tiles[cur].neighbourhood| == 8 && s.tiles[cur].neighbourhood[k].Some? &&
    s.tiles[cur].neighbourhood[k].value < |s.tiles|
  }

  /** Facts about the neighbour visited, used by every part of the preservation proof. */
  lemma RelaxFacts(s: SearchState, start: nat, cur: nat, k: nat, currentGCost: int)
    requires RelaxPre(s, start, cur, k, currentGCost)
    ensures var n := s.tiles[cur].neighbourhood[k].value;
      && n != cur
      && Some(cur) in s.tiles[n].neighbourhood
      && NewG(s, cur, n, currentGCost) > currentGCost >= 0
      && !(s.tiles[n].isOpen && s.tiles[n].isClosed)
      && (Updates(s, cur, n, currentGCost) ==> n != start)
      && (!s.tiles[n].isOpen && !s.tiles[n].isClosed ==>
            forall c :: 0 <= c < |s.tiles| ==> s.tiles[c].parent != Some(n))
  {
    var n := s.tiles[cur].neighbourhood[k].value;
    assert LinkSound(s.tiles, cur, k);
    assert s.tiles[n].neighbourhood[Grid.Pair(k)] == Some(cur);
    assert TileSound(s.tiles, n);
    assert s.tiles[cur].gCost >= 0;
    if Updates(s, cur, n, currentGCost) && n == start {
      assert InSets(s, n);
    }
    if !s.tiles[n].isOpen && !s.tiles[n].isClosed {
      FreshHasNoChildren(s, start, n);
    }
  }

  /** Relaxing n from cur keeps the per-tile bookkeeping and the descent of g along parents. */
  lemma RelaxKeepsTiles(s: SearchState, cur: nat, n: nat, currentGCost: int, endTile: Position)
    requires cur < |s.tiles| && n < |s.tiles| && n != cur && ClosedListed(s) && TilesSound(s.tiles)
    requires Some(cur) in s.tiles[n].neighbourhood && NewG(s, cur, n, currentGCost) > currentGCost >= 0
    requires currentGCost == s.tiles[cur].gCost
    requires !s.tiles[n].isOpen && !s.tiles[n].isClosed ==>
      forall c :: 0 <= c < |s.tiles| ==> s.tiles[c].parent != Some(n)
    ensures TilesSound(Relax(s, cur, n, currentGCost, endTile).tiles)
  {
    var r := Relax(s, cur, n, currentGCost, endTile);
    if Updates(s, cur, n, currentGCost) {
      assert TileSound(s.tiles, n);
      forall i | 0 <= i < |r.tiles|
        ensures r.tiles[i].gCost >= 0 &&
          (r.tiles[i].parent.Some? ==>
            r.tiles[i].parent.value < |r.tiles| &&
            r.tiles[r.tiles[i].parent.value].gCost < r.tiles[i].gCost)
      {
        if i != n {
          assert r.tiles[i] == s.tiles[i];
        }
      }
      forall i | 0 <= i < |r.tiles|
        ensures TileSound(r.tiles, i)
      {
        if i != n {
          assert TileSound(s.tiles, i);
          assert r.tiles[i] == s.tiles[i];
        }
      }
    }
  }

  /** Relaxing n from cur keeps both vectors duplicate-free, obstacle-free and in step with the flags. */
  lemma RelaxKeepsSets(s: SearchState, cur: nat, n: nat, currentGCost: int, endTile: Position)
    requires cur < |s.tiles| && n < |s.tiles| && ClosedListed(s)
    requires SetsSound(s) && FlagsMatch(s) && !(s.tiles[n].isOpen && s.tiles[n].isClosed)
    ensures var r := Relax(s, cur, n, currentGCost, endTile);
      SetsSound(r) && FlagsMatch(r)
  {
    var r := Relax(s, cur, n, currentGCost, endTile);
    if Updates(s, cur, n, currentGCost) {
      if !s.tiles[n].isOpen {
        NoDupAppend(s.open, n);
      }
      forall i | 0 <= i < |r.tiles|
        ensures (r.tiles[i].isOpen <==> i in r.open) && (r.tiles[i].isClosed <==> i in r.closed)
      {
        if i != n { assert r.tiles[i] == s.tiles[i]; }
      }
      forall x | x in r.open
        ensures x < |r.tiles| && !r.tiles[x].isObstacle
      {
        if x != n { assert x in s.open; }
      }
      forall x | x in r.closed
        ensures x < |r.tiles| && !r.tiles[x].isObstacle
      {
        assert x in s.closed;
      }
    }
  }

  /** Relaxing n from cur keeps the start tile rooted and every other listed tile's parent listed. */
  lemma RelaxKeepsRun(s: SearchState, start: nat, cur: nat, n: nat, currentGCost: int, endTile: Position)
    requires cur < |s.tiles| && n < |s.tiles| && ClosedListed(s)
    requires RunInv(s, start) && cur in s.open
    requires Updates(s, cur, n, currentGCost) ==> n != start
    ensures RunInv(Relax(s, cur, n, currentGCost, endTile), start)
  {
    var r := Relax(s, cur, n, currentGCost, endTile);
    if Updates(s, cur, n, currentGCost) {
      assert start != n;
      assert InSets(r, start) by {
        if start in s.closed { assert start in r.closed; }
      }
      forall x: nat | InSets(r, x) && x != start
        ensures x < |r.tiles| && r.tiles[x].parent.Some? && InSets(r, r.tiles[x].parent.value)
      {
        if x != n {
          assert InSets(s, x);
          assert r.tiles[x] == s.tiles[x];
          var p := s.tiles[x].parent.value;
          if p != n && p in s.closed { assert p in r.closed; }
        }
      }
    }
  }

  /**
   * Relaxing slot k of the current tile keeps every invariant of a run in
   * progress; cur is the tile being expanded, in the open vector, and
   * currentGCost is its g-cost. The current tile itself does not change.
   */
  lemma RelaxKeepsInv(s: SearchState, start: nat, cur: nat, k: nat, currentGCost: int, endTile: Position)
    requires RelaxPre(s, start, cur, k, currentGCost)
    ensures var r := Relax(s, cur, s.tiles[cur].neighbourhood[k].value, currentGCost, endTile);
      Inv(r) && RunInv(r, start) && ClosedListed(r) && r.tiles[cur] == s.tiles[cur] && cur in r.open
  {
    RelaxFacts(s, start, cur, k, currentGCost);
    var n := s.tiles[cur].neighbourhood[k].value;
    var r := Relax(s, cur, n, currentGCost, endTile);
    LinksFrame(s.tiles, r.tiles);
    RelaxKeepsTiles(s, cur, n, currentGCost, endTile);
    RelaxKeepsSets(s, cur, n, currentGCost, endTile);
    RelaxKeepsRun(s, start, cur, n, currentGCost, endTile);
  }

  /**
   * Tile::SearchNeighbourhood over slots 0..m-1 of the current tile keeps
   * every invariant of the run, leaves the current tile as it was and keeps
   * it in the open vector.
   */
  lemma {:induction false} ExpandKeepsInv(s: SearchState, start: nat, cur: nat, m: nat, endTile: Position)
    requires Inv(s) && RunInv(s, start) && ClosedListed(s)
    requires cur < |s.tiles| && cur in s.open && m <= 8 && SlotsIn(s.tiles, cur)
    requires |s.tiles[cur].neighbourhood| == 8
    ensures var x := ExpandSlots(s, cur, s.tiles[cur].neighbourhood[..m], s.tiles[cur].gCost, endTile);
      Inv(x) && RunInv(x, start) && ClosedListed(x) && x.tiles[cur] == s.tiles[cur] && cur in x.open
  {
    if m > 0 {
      ExpandKeepsInv(s, start, cur, m - 1, endTile);
      ExpandStep(s, start, cur, m, endTile);
    } else {
      assert s.tiles[cur].neighbourhood[..0] == [];
    }
  }

  /** The induction step of ExpandKeepsInv: relaxing slot m - 1 keeps what held after slots 0..m-2. */
  lemma ExpandStep(s: SearchState, start: nat, cur: nat, m: nat, endTile: Position)
    requires cur < |s.tiles| && ClosedListed(s) && 0 < m <= 8 && SlotsIn(s.tiles, cur)
    requires |s.tiles[cur].neighbourhood| == 8
    requires var p := ExpandSlots(s, cur, s.tiles[cur].neighbourhood[..m - 1], s.tiles[cur].gCost, endTile);
      Inv(p) && RunInv(p, start) && ClosedListed(p) && p.tiles[cur] == s.tiles[cur] && cur in p.open
    ensures var x := ExpandSlots(s, cur, s.tiles[cur].neighbourhood[..m], s.tiles[cur].gCost, endTile);
      Inv(x) && RunInv(x, start) && ClosedListed(x) && x.tiles[cur] == s.tiles[cur] && cur in x.open
  {
    var nb := s.tiles[cur].neighbourhood;
    var g := s.tiles[cur].gCost;
    var p := ExpandSlots(s, cur, nb[..m - 1], g, endTile);
    ExpandLast(s, cur, nb, m, g, endTile);
    if nb[m - 1].Some? {
      assert RelaxPre(p, start, cur, m - 1, g);
      RelaxKeepsInv(p, start, cur, m - 1, g, endTile);
    }
  }

  /** A tile is never its own neighbour. */
  lemma NoSelfSlot(tiles: seq<Tile>, cur: nat)
    requires LinksSound(tiles) && cur < |tiles|
    ensures Some(cur) !in tiles[cur].neighbourhood
  {
    forall k | 0 <= k < |tiles[cur].neighbourhood|
      ensures tiles[cur].neighbourhood[k] != Some(cur)
    {
      assert LinkSound(tiles, cur, 0);
      assert LinkSound(tiles, cur, k);
    }
  }

  /** The expansion over the first m slots is the expansion over m - 1 slots followed by slot m - 1. */
  lemma ExpandLast(s: SearchState, cur: nat, slots: seq<Option<nat>>, m: nat, currentGCost: int, endTile: Position)
    requires cur < |s.tiles| && ClosedListed(s) && 0 < m <= |slots|
    requires forall j :: 0 <= j < |slots| && slots[j].Some? ==> slots[j].value < |s.tiles|
    ensures var p := ExpandSlots(s, cur, slots[..m - 1], currentGCost, endTile);
      ExpandSlots(s, cur, slots[..m], currentGCost, endTile) ==
        if slots[m - 1].Some? then Relax(p, cur, slots[m - 1].value, currentGCost, endTile) else p
  {
    assert slots[..m][..m - 1] == slots[..m - 1];
  }

  /**
   * A tile that is an obstacle, or that is in none of the given slots, is
   * left exactly as it was by the expansion.
   */
  lemma {:induction false} ExpandUntouched(s: SearchState, cur: nat, slots: seq<Option<nat>>, currentGCost: int, endTile: Position, i: nat)
    requires cur < |s.tiles| && ClosedListed(s) && i < |s.tiles|
    requires forall m :: 0 <= m < |slots| && slots[m].Some? ==> slots[m].value < |s.tiles|
    requires s.tiles[i].isObstacle || Some(i) !in slots
    ensures ExpandSlots(s, cur, slots, currentGCost, endTile).tiles[i] == s.tiles[i]
  {
    if slots != [] {
      var front := slots[..|slots| - 1];
      assert Some(i) !in slots ==> Some(i) !in front;
      ExpandUntouched(s, cur, front, currentGCost, endTile, i);
      var p := ExpandSlots(s, cur, front, currentGCost, endTile);
      if slots[|slots| - 1].Some? {
        var n := slots[|slots| - 1].value;
        assert p.tiles[i] == s.tiles[i];
        assert i == n ==> !Updates(p, cur, n, currentGCost);
      }
    }
  }

  /**
   * Tile::SearchNeighbourhood never puts an obstacle in either vector: from
   * any state whose vectors hold none, the expansion leads to another.
   */
  lemma {:induction false} ExpandObstacleFree(s: SearchState, cur: nat, slots: seq<Option<nat>>, currentGCost: int, endTile: Position)
    requires cur < |s.tiles| && ClosedListed(s) && ObstacleFree(s)
    requires forall m :: 0 <= m < |slots| && slots[m].Some? ==> slots[m].value < |s.tiles|
    ensures ObstacleFree(ExpandSlots(s, cur, slots, currentGCost, endTile))
  {
    if slots != [] {
      var front := slots[..|slots| - 1];
      ExpandObstacleFree(s, cur, front, currentGCost, endTile);
      var p := ExpandSlots(s, cur, front, currentGCost, endTile);
      if slots[|slots| - 1].Some? {
        var n := slots[|slots| - 1].value;
        var r := Relax(p, cur, n, currentGCost, endTile);
        forall x | x in r.closed ensures x < |r.tiles| && !r.tiles[x].isObstacle {
          assert x in p.closed;
        }
      }
    }
  }

  /** Moving the current tile from the open to the closed vector keeps every invariant of the run. */
  lemma CloseKeepsInv(x: SearchState, start: nat, cur: nat)
    requires Inv(x) && RunInv(x, start) && cur < |x.tiles| && cur in x.open
    ensures cur !in x.closed
    ensures var r := SearchState(x.tiles[cur := SetToClosed(x.tiles[cur])], Remove(x.open, cur), x.closed + [cur]);
      Inv(r) && RunInv(r, start) && ClosedListed(r)
  {
    assert TileSound(x.tiles, cur);
    assert x.tiles[cur].isOpen;
    CloseTiles(x.tiles, cur);
    CloseSets(x, cur);
    CloseRun(x, start, cur);
  }

  /** Marking a tile closed keeps the links and the per-tile bookkeeping sound. */
  lemma CloseTiles(tiles: seq<Tile>, cur: nat)
    requires LinksSound(tiles) && TilesSound(tiles) && cur < |tiles|
    ensures var t := tiles[cur := SetToClosed(tiles[cur])];
      LinksSound(t) && TilesSound(t)
  {
    var t := tiles[cur := SetToClosed(tiles[cur])];
    LinksFrame(tiles, t);
    forall i | 0 <= i < |t|
      ensures TileSound(t, i)
    {
      assert TileSound(tiles, i);
    }
  }

  /** Moving an open, unclosed tile to the closed vector keeps the vectors and flags in step. */
  lemma CloseSets(x: SearchState, cur: nat)
    requires SetsSound(x) && FlagsMatch(x) && cur < |x.tiles| && cur in x.open && cur !in x.closed
    ensures var r := SearchState(x.tiles[cur := SetToClosed(x.tiles[cur])], Remove(x.open, cur), x.closed + [cur]);
      SetsSound(r) && FlagsMatch(r) && ClosedListed(r)
  {
    NoDupAppend(x.closed, cur);
  }

  /** Moving a listed tile between the vectors keeps every parent chain in the vectors. */
  lemma CloseRun(x: SearchState, start: nat, cur: nat)
    requires RunInv(x, start) && cur < |x.tiles| && cur in x.open
    ensures var r := SearchState(x.tiles[cur := SetToClosed(x.tiles[cur])], Remove(x.open, cur), x.closed + [cur]);
      RunInv(r, start)
  {
    var r := SearchState(x.tiles[cur := SetToClosed(x.tiles[cur])], Remove(x.open, cur), x.closed + [cur]);
    forall y | InSets(x, y)
      ensures InSets(r, y)
    {
      if y in x.open && y != cur { assert y in r.open; }
    }
    forall y: nat | InSets(r, y) && y != start
      ensures y < |r.tiles| && r.tiles[y].parent.Some? && InSets(r, r.tiles[y].parent.value)
    {
      assert InSets(x, y);
    }
  }

  /** One step's expansion and move (Advance) keeps every invariant of the run. */
  lemma AdvanceKeepsInv(s: SearchState, start: nat, cur: nat, endTile: Position)
    requires Inv(s) && RunInv(s, start) && ClosedListed(s)
    requires cur < |s.tiles| && cur in s.open && SlotsIn(s.tiles, cur)
    ensures var r := Advance(s, cur, endTile); Inv(r) && RunInv(r, start) && ClosedListed(r)
  {
    var nb := s.tiles[cur].neighbourhood;
    assert LinkSound(s.tiles, cur, 0);
    ExpandKeepsInv(s, start, cur, 8, endTile);
    assert nb[..8] == nb;
    var x := ExpandSlots(s, cur, nb, s.tiles[cur].gCost, endTile);
    CloseKeepsInv(x, start, cur);
  }

  /** What the move part of a step relies on after the full expansion of cur. */
  lemma ExpandFacts(s: SearchState, start: nat, cur: nat, endTile: Position)
    requires Inv(s) && RunInv(s, start) && ClosedListed(s)
    requires cur < |s.tiles| && cur in s.open && SlotsIn(s.tiles, cur)
    ensures var x := ExpandSlots(s, cur, s.tiles[cur].neighbourhood, s.tiles[cur].gCost, endTile);
      NoDup(x.open) && s.open <= x.open && x.tiles[cur] == s.tiles[cur] && cur !in x.closed
  {
    var nb := s.tiles[cur].neighbourhood;
    assert LinkSound(s.tiles, cur, 0);
    ExpandKeepsInv(s, start, cur, 8, endTile);
    assert nb[..8] == nb;
    var x := ExpandSlots(s, cur, nb, s.tiles[cur].gCost, endTile);
    CloseKeepsInv(x, start, cur);
  }

  /**
   * The move part of a step: the tile found at position k of the open vector
   * is cut out of it (the others keep their order, followed by the tiles the
   * expansion appended), appended to the closed vector and marked closed.
   */
  lemma AdvanceMovesCurrent(s: SearchState, start: nat, k: nat, endTile: Position)
    requires Inv(s) && RunInv(s, start) && ClosedListed(s) && k < |s.open|
    requires s.open[k] < |s.tiles| && SlotsIn(s.tiles, s.open[k])
    ensures var cur := s.open[k];
      var x := ExpandSlots(s, cur, s.tiles[cur].neighbourhood, s.tiles[cur].gCost, endTile);
      var r := Advance(s, cur, endTile);
      && s.open <= x.open
      && r.open == s.open[..k] + s.open[k + 1..] + x.open[|s.open|..]
      && r.closed == x.closed + [cur] && cur !in x.closed
      && r.tiles[cur] == SetToClosed(s.tiles[cur])
  {
    var cur := s.open[k];
    ExpandFacts(s, start, cur, endTile);
    var x := ExpandSlots(s, cur, s.tiles[cur].neighbourhood, s.tiles[cur].gCost, endTile);
    RemoveFromPrefix(s.open, x.open, k);
  }

  /** Cutting element k of a out of an extension b of a leaves b's tail after the rest of a. */
  lemma RemoveFromPrefix(a: seq<nat>, b: seq<nat>, k: nat)
    requires NoDup(b) && a <= b && k < |a|
    ensures Remove(b, a[k]) == a[..k] + a[k + 1..] + b[|a|..]
  {
    assert b == a + b[|a|..];
    RemoveFromExtended(a, b[|a|..], k);
  }

  /** Cutting an element of a out of a + t, with no element repeated, leaves t after the rest of a. */
  lemma RemoveFromExtended(a: seq<nat>, t: seq<nat>, k: nat)
    requires NoDup(a + t) && k < |a|
    ensures Remove(a + t, a[k]) == a[..k] + a[k + 1..] + t
  {
    var b := a + t;
    assert b[k] == a[k];
    RemoveAt(b, k);
    assert b[..k] == a[..k];
    assert b[k + 1..] == a[k + 1..] + t;
  }

  /**
   * Starting a run from an idle board (both vectors empty, flags matching):
   * the start tile alone is open, with g == 0 and h == f == its heuristic to
   * the end tile, and the run invariants hold.
   */
  lemma BeginEstablishes(s: SearchState, start: nat, endTile: nat)
    requires Inv(s) && s.open == [] && s.closed == [] && start < |s.tiles| && endTile < |s.tiles|
    ensures var r := Begin(s, start, endTile);
      && Inv(r) && RunInv(r, start) && ClosedListed(r)
      && r.open == [start] && r.closed == []
      && r.tiles[start].isOpen && !r.tiles[start].isClosed && !r.tiles[start].isSelected
      && r.tiles[start].gCost == 0
      && r.tiles[start].hCost == Heuristic(s.tiles[start].position, s.tiles[endTile].position)
      && r.tiles[start].fCost == r.tiles[start].hCost
      && forall i :: 0 <= i < |s.tiles| && i != start ==> r.tiles[i] == s.tiles[i]
  {
    IdleHasNoParents(s);
    var r := Begin(s, start, endTile);
    LinksFrame(s.tiles, r.tiles);
    forall i | 0 <= i < |r.tiles|
      ensures TileSound(r.tiles, i)
    {
      assert TileSound(s.tiles, i);
    }
  }

  /** The parent walk, when it succeeds, runs from i to start along parent links. */
  lemma {:induction false} PathFromLinks(tiles: seq<Tile>, i: nat, start: nat)
    requires i < |tiles| && ParentsDescend(tiles)
    ensures PathFrom(tiles, i, start).Some? ==>
      var p := PathFrom(tiles, i, start).value;
      && |p| >= 1 && p[0] == i && p[|p| - 1] == start
      && (forall j :: 0 <= j < |p| ==> p[j] < |tiles|)
      && (forall j :: 0 <= j < |p| - 1 ==> p[j] != start && tiles[p[j]].parent == Some(p[j + 1]))
    decreases tiles[i].gCost
  {
    if i != start && tiles[i].parent.Some? {
      var q := tiles[i].parent.value;
      PathFromLinks(tiles, q, start);
      if PathFrom(tiles, q, start).Some? {
        var rest := PathFrom(tiles, q, start).value;
        var p := [i] + rest;
        assert PathFrom(tiles, i, start).value == p;
        forall j | 0 <= j < |p| - 1
          ensures p[j] != start && tiles[p[j]].parent == Some(p[j + 1])
        {
          if j > 0 { assert p[j] == rest[j - 1] && p[j + 1] == rest[j]; }
        }
      }
    }
  }

  /** During a run, the walk from any listed tile reaches the start tile through listed tiles. */
  lemma {:induction false} PathFromListed(s: SearchState, start: nat, i: nat)
    requires Inv(s) && RunInv(s, start) && i < |s.tiles| && InSets(s, i)
    ensures PathFrom(s.tiles, i, start).Some?
    ensures forall x :: x in PathFrom(s.tiles, i, start).value ==> InSets(s, x)
    decreases s.tiles[i].gCost
  {
    if i != start {
      var q := s.tiles[i].parent.value;
      PathFromListed(s, start, q);
    }
  }

  /**
   * The path traced once the goal is expanded: it starts at the goal, ends
   * at the start tile, runs through tiles of the two vectors, each step
   * goes from a tile to its parent, which is one of its neighbours with a
   * strictly smaller g-cost.
   */
  lemma TraceFound(s: SearchState, start: nat, goal: nat)
    requires Inv(s) && RunInv(s, start) && goal < |s.tiles| && InSets(s, goal)
    ensures PathFrom(s.tiles, goal, start).Some?
    ensures var p := PathFrom(s.tiles, goal, start).value;
      && |p| >= 1 && p[0] == goal && p[|p| - 1] == start
      && (forall j :: 0 <= j < |p| ==> p[j] < |s.tiles| && InSets(s, p[j]))
      && (forall j :: 0 <= j < |p| - 1 ==>
            s.tiles[p[j]].parent == Some(p[j + 1]) &&
            Some(p[j + 1]) in s.tiles[p[j]].neighbourhood &&
            s.tiles[p[j + 1]].gCost < s.tiles[p[j]].gCost)
  {
    PathFromListed(s, start, goal);
    PathFromLinks(s.tiles, goal, start);
    var p := PathFrom(s.tiles, goal, start).value;
    forall j | 0 <= j < |p| - 1
      ensures Some(p[j + 1]) in s.tiles[p[j]].neighbourhood
    {
      assert TileSound(s.tiles, p[j]);
    }
  }

  /** Away from the start tile, the trace as written and the corrected walk agree. */
  lemma TraceAsWrittenAgrees(tiles: seq<Tile>, goal: nat, start: nat)
    requires goal < |tiles| && ParentsDescend(tiles) && goal != start
    ensures TraceAsWritten(tiles, goal, start) == PathFrom(tiles, goal, start)
  {
  }

  /**
   * When the goal is the start tile, the trace as written fails (it meets
   * the start tile's null parent), while the corrected walk yields the path
   * made of the start tile alone.
   */
  lemma TraceAsWrittenFailsAtStart(s: SearchState, start: nat)
    requires Inv(s) && RunInv(s, start)
    ensures TraceAsWritten(s.tiles, start, start) == None
    ensures PathFrom(s.tiles, start, start) == Some([start])
  {
  }

  /** The board as the construction loops leave its shape: tile i is cell (i % W, i / W). */
  predicate GridShaped(w: nat, h: nat, tiles: seq<Tile>)
  {
    w >= 2 && h >= 2 && |tiles| == w * h &&
    forall i :: 0 <= i < |tiles| ==>
      tiles[i].position == Grid.TilePosition(i % w, i / w) &&
      tiles[i].neighbourhood == Grid.Neighbourhood(w, h, i % w, i / w)
  }

  /** The grid built by the construction loops has sound, symmetric links. */
  lemma GridLinksSound(w: nat, h: nat, tiles: seq<Tile>)
    requires GridShaped(w, h, tiles)
    ensures LinksSound(tiles)
  {
    forall i, k | 0 <= i < |tiles| && 0 <= k < 8
      ensures LinkSound(tiles, i, k)
    {
      assert tiles[i].neighbourhood[k] == Grid.SlotOf(w, h, i, k);
      Grid.SlotInRange(w, h, i, k);
      if tiles[i].neighbourhood[k].Some? {
        var j := tiles[i].neighbourhood[k].value;
        Grid.SlotSymmetric(w, h, i, j, k);
        assert tiles[j].neighbourhood[Grid.Pair(k)] == Grid.SlotOf(w, h, j, Grid.Pair(k));
        Grid.SlotDistance(w, h, i, k);
      }
    }
  }

  /** Sound links give every tile eight slots naming tiles of the grid. */
  lemma LinksSlotsIn(tiles: seq<Tile>, i: nat)
    requires LinksSound(tiles) && i < |tiles|
    ensures |tiles[i].neighbourhood| == 8 && SlotsIn(tiles, i)
  {
    assert LinkSound(tiles, i, 0);
    forall m | 0 <= m < 8 && tiles[i].neighbourhood[m].Some?
      ensures tiles[i].neighbourhood[m].value < |tiles|
    {
      assert LinkSound(tiles, i, m);
    }
  }

  /** Painting the path changes no link, cost, flag or parent. */
  lemma MarkPathKeeps(tiles: seq<Tile>, path: seq<nat>)
    requires LinksSound(tiles) && TilesSound(tiles)
    ensures var r := MarkPath(tiles, path);
      SameShapes(tiles, r) && LinksSound(r) && TilesSound(r)
  {
    var r := MarkPath(tiles, path);
    LinksFrame(tiles, r);
    forall i | 0 <= i < |r|
      ensures TileSound(r, i)
    {
      assert TileSound(tiles, i);
    }
  }

  /** The grid shape depends only on positions and neighbour slots. */
  lemma GridShapeFrame(w: nat, h: nat, a: seq<Tile>, b: seq<Tile>)
    requires GridShaped(w, h, a) && SameShapes(a, b)
    ensures GridShaped(w, h, b)
  {
    forall i | 0 <= i < |b|
      ensures b[i].position == Grid.TilePosition(i % w, i / w) &&
              b[i].neighbourhood == Grid.Neighbourhood(w, h, i % w, i / w)
    {
      assert SameShape(a[i], b[i]);
    }
  }

  /**
   * Everything the board keeps between key presses: the grid shape and its
   * sound links, the per-tile bookkeeping, clean vectors, selection indices
   * on the grid, and, while the open vector is not empty, a run in progress
   * whose flags match the vectors and whose parent chains reach the start.
   */
  ghost predicate BoardSound(w: nat, h: nat, s: SearchState, start: nat, end: nat)
  {
    GridShaped(w, h, s.tiles) && LinksSound(s.tiles) &&
    (forall i :: 0 <= i < |s.tiles| ==> SlotsIn(s.tiles, i)) &&
    start < |s.tiles| && end < |s.tiles| &&
    TilesSound(s.tiles) && SetsSound(s) &&
    (s.open != [] ==> FlagsMatch(s) && ClosedListed(s) && RunInv(s, start))
  }

  /** A grid of blank tiles with empty vectors is sound. */
  lemma BuiltSound(w: nat, h: nat, tiles: seq<Tile>)
    requires GridShaped(w, h, tiles)
    requires forall i :: 0 <= i < |tiles| ==> Blank(tiles[i])
    ensures BoardSound(w, h, SearchState(tiles, [], []), 0, 0)
  {
    GridLinksSound(w, h, tiles);
    assert 2 * 2 <= w * h by { Grid.MulLe(w, 2, h); }
    forall i | 0 <= i < |tiles|
      ensures SlotsIn(tiles, i)
    {
      LinksSlotsIn(tiles, i);
    }
    forall i | 0 <= i < |tiles|
      ensures TileSound(tiles, i)
    {
    }
  }

  /** Shape-preserving changes keep the slots-in-grid part of soundness. */
  lemma ShapeSound(w: nat, h: nat, a: seq<Tile>, b: seq<Tile>)
    requires GridShaped(w, h, a) && LinksSound(a) && SameShapes(a, b)
    ensures GridShaped(w, h, b) && LinksSound(b)
    ensures forall i :: 0 <= i < |b| ==> SlotsIn(b, i)
  {
    GridShapeFrame(w, h, a, b);
    LinksFrame(a, b);
    forall i | 0 <= i < |b|
      ensures SlotsIn(b, i)
    {
      LinksSlotsIn(b, i);
    }
  }

  /** One expansion and move of a listed tile keeps the board sound and the run going. */
  lemma AdvanceSound(w: nat, h: nat, s: SearchState, start: nat, end: nat, cur: nat)
    requires BoardSound(w, h, s, start, end) && cur in s.open
    ensures var r := Advance(s, cur, s.tiles[end].position);
      BoardSound(w, h, r, start, end) && Inv(r) && RunInv(r, start) && cur in r.closed
  {
    var r := Advance(s, cur, s.tiles[end].position);
    AdvanceKeepsInv(s, start, cur, s.tiles[end].position);
    ShapeSound(w, h, s.tiles, r.tiles);
  }

  /**
   * Painting the traced path and clearing the vectors and the selection
   * indices leaves a sound, idle board.
   */
  lemma TraceSound(w: nat, h: nat, s: SearchState, start: nat, end: nat)
    requires BoardSound(w, h, s, start, end) && Inv(s) && RunInv(s, start) && end in s.closed
    ensures PathFrom(s.tiles, end, start).Some?
    ensures BoardSound(w, h, SearchState(MarkPath(s.tiles, PathFrom(s.tiles, end, start).value), [], []), 0, 0)
  {
    TraceFound(s, start, end);
    var r := MarkPath(s.tiles, PathFrom(s.tiles, end, start).value);
    MarkPathKeeps(s.tiles, PathFrom(s.tiles, end, start).value);
    ShapeSound(w, h, s.tiles, r);
    assert 2 * 2 <= w * h by { Grid.MulLe(w, 2, h); }
  }

  /** Starting a run from an idle board with matching flags keeps it sound and starts the run. */
  lemma BeginSound(w: nat, h: nat, s: SearchState, start: nat, end: nat)
    requires BoardSound(w, h, s, start, end) && FlagsMatch(s) && s.open == [] && s.closed == []
    ensures var r := Begin(s, start, end); BoardSound(w, h, r, start, end) && RunInv(r, start)
  {
    var r := Begin(s, start, end);
    BeginEstablishes(s, start, end);
    ShapeSound(w, h, s.tiles, r.tiles);
  }

  /**
   * Replacing tile i by a blank tile of the same shape (ResetTile, Deselect)
   * keeps the board sound, provided that during a run tile i is in neither
   * vector.
   */
  lemma BlankKeepsSound(w: nat, h: nat, s: SearchState, start: nat, end: nat, i: nat, u: Tile)
    requires BoardSound(w, h, s, start, end) && i < |s.tiles|
    requires Blank(u) && SameShape(u, s.tiles[i])
    requires s.open != [] ==> i !in s.open && i !in s.closed
    ensures BoardSound(w, h, s.(tiles := s.tiles[i := u]), start, end)
  {
    ShapeSound(w, h, s.tiles, s.tiles[i := u]);
    BlankTiles(s.tiles, i, u);
    VectorsFrame(s, i, u);
    if s.open != [] {
      UnlistedFrame(s, start, i, u);
    }
  }

  /** A blank tile in place of tile i keeps the per-tile bookkeeping sound. */
  lemma BlankTiles(tiles: seq<Tile>, i: nat, u: Tile)
    requires TilesSound(tiles) && i < |tiles| && Blank(u) && SameShape(u, tiles[i])
    ensures TilesSound(tiles[i := u])
  {
    var t := tiles[i := u];
    forall c | 0 <= c < |t|
      ensures TileSound(t, c)
    {
      assert TileSound(tiles, c);
    }
  }

  /** The vectors stay free of obstacles unless tile i becomes one while listed. */
  lemma VectorsFrame(s: SearchState, i: nat, u: Tile)
    requires SetsSound(s) && i < |s.tiles|
    requires u.isObstacle ==> i !in s.open && i !in s.closed
    ensures SetsSound(s.(tiles := s.tiles[i := u]))
  {
  }

  /**
   * A change to a tile in neither vector that leaves it unflagged keeps the
   * flags matching the vectors and every parent chain in the vectors.
   */
  lemma UnlistedFrame(s: SearchState, start: nat, i: nat, u: Tile)
    requires i < |s.tiles| && i !in s.open && i !in s.closed && !u.isOpen && !u.isClosed
    requires FlagsMatch(s) && ClosedListed(s) && RunInv(s, start)
    ensures var r := s.(tiles := s.tiles[i := u]);
      FlagsMatch(r) && ClosedListed(r) && RunInv(r, start)
  {
    var r := s.(tiles := s.tiles[i := u]);
    assert InSets(s, start);
    forall x: nat | InSets(r, x) && x != start
      ensures x < |r.tiles| && r.tiles[x].parent.Some? && InSets(r, r.tiles[x].parent.value)
    {
      assert InSets(s, x);
    }
  }

  /** The two tiles agree on every field the search reads or assigns. */
  predicate SameSearch(t: Tile, u: Tile)
  {
    SameShape(t, u) && t.parent == u.parent && t.isOpen == u.isOpen && t.isClosed == u.isClosed &&
    t.gCost == u.gCost && t.hCost == u.hCost && t.fCost == u.fCost
  }

  /**
   * Changing only the selection, obstacle or path mark of tile i (Select,
   * SetObstacle, SetToPath) keeps the board sound, provided an obstacle tile
   * is in neither vector.
   */
  lemma MarkKeepsSound(w: nat, h: nat, s: SearchState, start: nat, end: nat, i: nat, u: Tile)
    requires BoardSound(w, h, s, start, end) && i < |s.tiles|
    requires SameSearch(s.tiles[i], u)
    requires u.isObstacle ==> i !in s.open && i !in s.closed
    ensures BoardSound(w, h, s.(tiles := s.tiles[i := u]), start, end)
  {
    ShapeSound(w, h, s.tiles, s.tiles[i := u]);
    MarkTiles(s.tiles, i, u);
    VectorsFrame(s, i, u);
    if s.open != [] {
      MarkFrame(s, start, i, u);
    }
  }

  /** A tile agreeing on every search field keeps the per-tile bookkeeping sound. */
  lemma MarkTiles(tiles: seq<Tile>, i: nat, u: Tile)
    requires TilesSound(tiles) && i < |tiles| && SameSearch(tiles[i], u)
    ensures TilesSound(tiles[i := u])
  {
    var t := tiles[i := u];
    forall c | 0 <= c < |t|
      ensures TileSound(t, c)
    {
      assert TileSound(tiles, c);
    }
  }

  /** A tile agreeing on every search field keeps the flags and the parent chains. */
  lemma MarkFrame(s: SearchState, start: nat, i: nat, u: Tile)
    requires i < |s.tiles| && SameSearch(s.tiles[i], u)
    requires FlagsMatch(s) && ClosedListed(s) && RunInv(s, start)
    ensures var r := s.(tiles := s.tiles[i := u]);
      FlagsMatch(r) && ClosedListed(r) && RunInv(r, start)
  {
    var r := s.(tiles := s.tiles[i := u]);
    forall x: nat | InSets(r, x) && x != start
      ensures x < |r.tiles| && r.tiles[x].parent.Some? && InSets(r, r.tiles[x].parent.value)
    {
      assert InSets(s, x);
    }
  }

  /**
   * On a grid-shaped board the tile at the pointer position rounded down to
   * multiples of TILE_OFFSET is the tile of the cell the pointer falls in:
   * a tile has that position exactly when the pointer is on the grid, and
   * then it is that cell's tile and no other.
   */
  lemma LocateCell(w: nat, h: nat, tiles: seq<Tile>, p: Position)
    requires GridShaped(w, h, tiles)
    ensures var q := Position(FloorToMultiple(p.x, TILE_OFFSET), FloorToMultiple(p.y, TILE_OFFSET));
      && (forall i :: 0 <= i < |tiles| && tiles[i].position == q ==> Grid.CellAt(w, h, p) == Some(i))
      && (Grid.CellAt(w, h, p).Some? ==> tiles[Grid.CellAt(w, h, p).value].position == q)
  {
    var q := Position(FloorToMultiple(p.x, TILE_OFFSET), FloorToMultiple(p.y, TILE_OFFSET));
    forall i | 0 <= i < |tiles| && tiles[i].position == q
      ensures Grid.CellAt(w, h, p) == Some(i)
    {
      Grid.CellOfIndex(w, h, i);
      var x, y := i % w, i / w;
      assert TILE_OFFSET * x == (p.x / TILE_OFFSET) * TILE_OFFSET;
      assert TILE_OFFSET * y == (p.y / TILE_OFFSET) * TILE_OFFSET;
      assert p.x / TILE_OFFSET == x && p.y / TILE_OFFSET == y;
      Grid.MulLe(TILE_OFFSET, x + 1, w);
      Grid.MulLe(TILE_OFFSET, y + 1, h);
    }
    var c := Grid.CellAt(w, h, p);
    if c.Some? {
      Grid.IndexCoordinates(w, p.x / TILE_OFFSET, p.y / TILE_OFFSET);
    }
  }
}
