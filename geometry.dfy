/**
 * Integer geometry of the demonstrator: C++ truncating division (RoundDown),
 * the integer square root that stands for `(int) sqrt(...)`, and the Euclidean
 * distance / heuristic between two tile positions.
 */
module Geometry {

  /** Spacing between neighbouring tiles, in pixels. */
  const TILE_OFFSET: int := 50

  /** A tile position. Tiles sit on whole multiples of TILE_OFFSET. */
  datatype Position = Position(x: int, y: int)

  /**
   * C++ integer division, which truncates toward zero: the remainder
   * i - q * n is smaller than n in magnitude and, unless it is zero, has the
   * sign of the dividend i.
   */
  function CppDiv(i: int, n: int): (q: int)
    requires n != 0
    ensures var r, b := i - q * n, if n < 0 then -n else n;
      -b < r < b && (r == 0 || (r < 0 <==> i < 0))
  {
    var a := if i < 0 then -i else i;
    var b := if n < 0 then -n else n;
    TruncatedQuotient(i, n, a / b, a % b);
    if (i < 0) != (n < 0) then -(a / b) else a / b
  }

  /**
   * The magnitudes' quotient d and remainder m, given the signs of dividend
   * and divisor, make the truncating quotient: negated when the signs differ.
   */
  lemma TruncatedQuotient(i: int, n: int, d: int, m: int)
    requires n != 0 && 0 <= m < (if n < 0 then -n else n)
    requires (if i < 0 then -i else i) == d * (if n < 0 then -n else n) + m
    ensures var q := if (i < 0) != (n < 0) then -d else d;
      var r, b := i - q * n, if n < 0 then -n else n;
      -b < r < b && (r == 0 || (r < 0 <==> i < 0))
  {
    var b := if n < 0 then -n else n;
    if i >= 0 && n > 0 {
      assert i - d * n == m;
    } else if i >= 0 {
      assert (-d) * n == d * b;
      assert i - (-d) * n == m;
    } else if n > 0 {
      assert (-d) * n == -(d * b);
      assert i - (-d) * n == -m;
    } else {
      assert d * n == -(d * b);
      assert i - d * n == -m;
    }
  }

  /**
   * RoundDown(i, n) == (i / n) * n with C++ division. For a non-negative i
   * it is the largest multiple of n not above i; for a negative i it rounds
   * toward zero, so it lies above i.
   */
  function RoundDown(i: int, n: int): (r: int)
    requires n != 0
    ensures n > 0 && i >= 0 ==> r % n == 0 && r <= i < r + n
    ensures n > 0 && i < 0 ==> r % n == 0 && r - n < i <= r
  {
    var q := CppDiv(i, n);
    if n > 0 then
      DivModUnique(q * n, n, q, 0);
      q * n
    else
      q * n
  }

  /**
   * The rounding a pointer lookup needs: the largest multiple of n not above
   * i, for negative i as well (floor division).
   */
  function FloorToMultiple(i: int, n: int): (r: int)
    requires n > 0
    ensures r % n == 0 && r <= i < r + n
  {
    DivModUnique((i / n) * n, n, i / n, 0);
    (i / n) * n
  }

  /**
   * RoundDown rounds a coordinate between -TILE_OFFSET and 0 (exclusive) up
   * to 0, where the floor is -TILE_OFFSET: a point just left of (or above)
   * the grid origin is rounded onto column (row) 0.
   */
  lemma RoundDownNegative(i: int)
    requires -TILE_OFFSET < i < 0
    ensures RoundDown(i, TILE_OFFSET) == 0 && RoundDown(i, TILE_OFFSET) > i
    ensures FloorToMultiple(i, TILE_OFFSET) == -TILE_OFFSET
  {
    var r := RoundDown(i, TILE_OFFSET);
    assert r == TILE_OFFSET * (r / TILE_OFFSET);
    var f := FloorToMultiple(i, TILE_OFFSET);
    assert f == TILE_OFFSET * (f / TILE_OFFSET);
  }

  lemma MulAtLeast(k: int, n: nat)
    requires k >= 1
    ensures k * n >= n
  {
  }

  /** Quotient and remainder are unique: a == q * n + r with 0 <= r < n fixes both. */
  lemma DivModUnique(a: int, n: int, q: int, r: int)
    requires n > 0 && 0 <= r < n && a == q * n + r
    ensures a / n == q && a % n == r
  {
    var q', r' := a / n, a % n;
    assert a == q' * n + r';
    assert (q - q') * n == r' - r;
    assert (q' - q) * n == r - r';
    if q > q' {
      MulAtLeast(q - q', n);
    } else if q < q' {
      MulAtLeast(q' - q, n);
    }
  }

  /** Floor of the square root: r * r <= n < (r + 1) * (r + 1). */
  function ISqrt(n: nat): (r: nat)
    ensures r * r <= n < (r + 1) * (r + 1)
  {
    if n < 4 then
      (if n == 0 then 0 else 1)
    else
      var q := ISqrt(n / 4);
      ISqrtDoubling(n, q);
      var s := 2 * q;
      if (s + 1) * (s + 1) <= n then s + 1 else s
  }

  /** If q is the root of n / 4, then 2q <= sqrt(n) < 2q + 2. */
  lemma ISqrtDoubling(n: nat, q: nat)
    requires q * q <= n / 4 < (q + 1) * (q + 1)
    ensures (2 * q) * (2 * q) <= n < (2 * q + 2) * (2 * q + 2)
  {
    Quadruple(q);
    Quadruple(q + 1);
  }

  lemma Quadruple(q: nat)
    ensures (2 * q) * (2 * q) == 4 * (q * q)
  {
  }

  lemma SquareMonotone(a: nat, b: nat)
    requires a < b
    ensures a * a < b * b
  {
    assert a * a <= a * b;
    assert a * b < b * b;
  }

  /** Any r with r * r <= n < (r + 1) * (r + 1) is ISqrt(n). */
  lemma ISqrtUnique(n: nat, r: nat)
    requires r * r <= n < (r + 1) * (r + 1)
    ensures ISqrt(n) == r
  {
    var s := ISqrt(n);
    if s < r {
      SquareMonotone(s + 1, r + 1);
      if s + 1 < r { SquareMonotone(s + 1, r); }
      assert false;
    } else if r < s {
      if r + 1 < s { SquareMonotone(r + 1, s); }
      assert false;
    }
  }

  lemma ISqrtZero(n: nat)
    ensures ISqrt(n) == 0 <==> n == 0
  {
  }

  function Square(d: int): (r: nat)
    ensures r == d * d
    ensures r == 0 <==> d == 0
  {
    if d < 0 then
      MulAtLeast(-d, -d);
      (-d) * (-d)
    else if d == 0 then
      0
    else
      MulAtLeast(d, d);
      d * d
  }

  /** Squared Euclidean distance between two positions. */
  function SquaredDistance(a: Position, b: Position): nat
  {
    Square(b.x - a.x) + Square(b.y - a.y)
  }

  /** Tile::DistanceBetween: the Euclidean distance truncated to an integer. */
  function DistanceBetween(tileA: Position, tileB: Position): (r: nat)
    ensures r * r <= SquaredDistance(tileA, tileB) < (r + 1) * (r + 1)
  {
    ISqrt(Square(tileB.x - tileA.x) + Square(tileB.y - tileA.y))
  }

  /** Tile::Heuristic: the same formula, from the current tile to the end tile. */
  function Heuristic(currentTile: Position, endTile: Position): (r: nat)
    ensures r == DistanceBetween(currentTile, endTile)
  {
    ISqrt(Square(endTile.x - currentTile.x) + Square(endTile.y - currentTile.y))
  }

  lemma DistanceSymmetric(a: Position, b: Position)
    ensures DistanceBetween(a, b) == DistanceBetween(b, a)
  {
    assert Square(b.x - a.x) == Square(a.x - b.x);
    assert Square(b.y - a.y) == Square(a.y - b.y);
  }

  /** The distance is zero exactly for identical positions. */
  lemma DistanceZeroIffSame(a: Position, b: Position)
    ensures DistanceBetween(a, b) == 0 <==> a == b
  {
    ISqrtZero(SquaredDistance(a, b));
  }

  /** A horizontal or vertical step of one tile costs 50. */
  lemma CardinalStep(a: Position, dx: int, dy: int)
    requires (dx == 0 && (dy == 1 || dy == -1)) || (dy == 0 && (dx == 1 || dx == -1))
    ensures DistanceBetween(a, Position(a.x + TILE_OFFSET * dx, a.y + TILE_OFFSET * dy)) == 50
  {
    var b := Position(a.x + TILE_OFFSET * dx, a.y + TILE_OFFSET * dy);
    assert Square(b.x - a.x) + Square(b.y - a.y) == 2500 by {
      if dx == 0 {
        assert b.x - a.x == 0 && (b.y - a.y == 50 || b.y - a.y == -50);
      } else {
        assert b.y - a.y == 0 && (b.x - a.x == 50 || b.x - a.x == -50);
      }
    }
    ISqrtUnique(2500, 50);
  }

  /** A diagonal step of one tile costs 70, the floor of 50 * sqrt(2). */
  lemma DiagonalStep(a: Position, dx: int, dy: int)
    requires (dx == 1 || dx == -1) && (dy == 1 || dy == -1)
    ensures DistanceBetween(a, Position(a.x + TILE_OFFSET * dx, a.y + TILE_OFFSET * dy)) == 70
  {
    var b := Position(a.x + TILE_OFFSET * dx, a.y + TILE_OFFSET * dy);
    StepSquare(b.x - a.x);
    StepSquare(b.y - a.y);
    ISqrtUnique(Square(b.x - a.x) + Square(b.y - a.y), 70);
  }

  /** One tile's offset, either way, squares to 2500. */
  lemma StepSquare(d: int)
    requires d == TILE_OFFSET || d == -TILE_OFFSET
    ensures Square(d) == 2500
  {
  }
}
