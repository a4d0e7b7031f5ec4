/** Grid positions and eight-direction movement (PentominoSolver/Coordinate.swift).
    All operations are total over the integers; bounds belong to the board. */
module Coordinates {

  /** The eight compass directions, in the order the source declares them. */
  datatype Direction = North | NorthEast | East | SouthEast | South | SouthWest | West | NorthWest
  {
    predicate IsNorthOrSouth() { this == North || this == South }
    predicate IsEastOrWest() { this == East || this == West }
  }

  /** `Direction.cardinal`, in the source's order. */
  const Cardinal: seq<Direction> := [North, South, East, West]

  /** `Direction.allCases`, the default argument of `neighbors(in:)`. */
  const AllDirections: seq<Direction> := [North, NorthEast, East, SouthEast, South, SouthWest, West, NorthWest]

  /** A position: `x` is the column, `y` the row. */
  datatype Coordinate = Coordinate(x: int, y: int)
  {
    function Row(): int { y }
    function Col(): int { x }
  }

  /** `init(row:col:)`. */
  function At(row: int, col: int): (c: Coordinate)
    ensures c.Row() == row && c.Col() == col
  {
    Coordinate(col, row)
  }

  function Abs(n: int): (r: nat)
    ensures r == n || r == -n
  {
    if n < 0 then -n else n
  }

  function Max(a: int, b: int): (r: int)
    ensures r >= a && r >= b && (r == a || r == b)
  {
    if a < b then b else a
  }

  /** `Int.signum()`. */
  function Signum(n: int): (r: int)
    ensures r * n == Abs(n)
    ensures -1 <= r <= 1 && (r == 0 <==> n == 0)
  {
    if n < 0 then -1 else if n == 0 then 0 else 1
  }

  function ManhattanDistance(a: Coordinate, b: Coordinate): (d: int)
    ensures d >= 0
    ensures d == 0 <==> a == b
  {
    Abs(a.x - b.x) + Abs(a.y - b.y)
  }

  /** The unit step (dx, dy) of a direction; north decreases y. */
  function Step(d: Direction): (int, int)
  {
    match d
    case North => (0, -1)
    case NorthEast => (1, -1)
    case East => (1, 0)
    case SouthEast => (1, 1)
    case South => (0, 1)
    case SouthWest => (-1, 1)
    case West => (-1, 0)
    case NorthWest => (-1, -1)
  }

  function Moved(c: Coordinate, d: Direction, amount: int): (r: Coordinate)
    ensures r == Coordinate(c.x + Step(d).0 * amount, c.y + Step(d).1 * amount)
  {
    match d
    case North => Coordinate(c.x, c.y - amount)
    case NorthEast => Coordinate(c.x + amount, c.y - amount)
    case East => Coordinate(c.x + amount, c.y)
    case SouthEast => Coordinate(c.x + amount, c.y + amount)
    case South => Coordinate(c.x, c.y + amount)
    case SouthWest => Coordinate(c.x - amount, c.y + amount)
    case West => Coordinate(c.x - amount, c.y)
    case NorthWest => Coordinate(c.x - amount, c.y - amount)
  }

  /** `line(to:)`: the cells from `c` toward `end`, `c` included and `end` excluded. */
  function Line(c: Coordinate, end: Coordinate): (r: seq<Coordinate>)
    ensures |r| == Max(Abs(c.x - end.x), Abs(c.y - end.y))
    ensures forall i :: 0 <= i < |r| ==>
      r[i] == Coordinate(c.x + Signum(end.x - c.x) * i, c.y + Signum(end.y - c.y) * i)
  {
    var dX := Signum(end.x - c.x);
    var dY := Signum(end.y - c.y);
    var range := Max(Abs(c.x - end.x), Abs(c.y - end.y));
    seq(range, i => Coordinate(c.x + dX * i, c.y + dY * i))
  }

  /** Chebyshev distance at most one. */
  predicate IsAdjacent(a: Coordinate, b: Coordinate)
  {
    Abs(a.x - b.x) <= 1 && Abs(a.y - b.y) <= 1
  }

  function Neighbor(c: Coordinate, d: Direction): (r: Coordinate)
    ensures r == Moved(c, d, 1)
  {
    match d
    case North => Coordinate(c.x, c.y - 1)
    case NorthEast => Coordinate(c.x + 1, c.y - 1)
    case East => Coordinate(c.x + 1, c.y)
    case SouthEast => Coordinate(c.x + 1, c.y + 1)
    case South => Coordinate(c.x, c.y + 1)
    case SouthWest => Coordinate(c.x - 1, c.y + 1)
    case West => Coordinate(c.x - 1, c.y)
    case NorthWest => Coordinate(c.x - 1, c.y - 1)
  }

  function Neighbors(c: Coordinate, ds: seq<Direction>): (r: seq<Coordinate>)
    ensures |r| == |ds|
    ensures forall i :: 0 <= i < |ds| ==> r[i] == Moved(c, ds[i], 1)
  {
    seq(|ds|, i requires 0 <= i < |ds| => Neighbor(c, ds[i]))
  }

  // Laws of movement, distance and adjacency.

  lemma MovedZero(c: Coordinate, d: Direction)
    ensures Moved(c, d, 0) == c
  {
  }

  lemma MovedAdditive(c: Coordinate, d: Direction, a: int, b: int)
    ensures Moved(Moved(c, d, a), d, b) == Moved(c, d, a + b)
  {
  }

  lemma ManhattanSymmetric(a: Coordinate, b: Coordinate)
    ensures ManhattanDistance(a, b) == ManhattanDistance(b, a)
  {
  }

  lemma ManhattanTriangle(a: Coordinate, b: Coordinate, c: Coordinate)
    ensures ManhattanDistance(a, c) <= ManhattanDistance(a, b) + ManhattanDistance(b, c)
  {
  }

  lemma AdjacentReflexiveSymmetric(a: Coordinate, b: Coordinate)
    ensures IsAdjacent(a, a)
    ensures IsAdjacent(a, b) <==> IsAdjacent(b, a)
  {
  }

  /** The neighbours of a cell in all eight directions are exactly the cells adjacent to it, other than itself. */
  lemma NeighborsAreAdjacentCells(c: Coordinate, q: Coordinate)
    ensures q in Neighbors(c, AllDirections) <==> IsAdjacent(c, q) && q != c
  {
    var ns := Neighbors(c, AllDirections);
    if IsAdjacent(c, q) && q != c {
      var dx, dy := q.x - c.x, q.y - c.y;
      var i :=
        if dx == 0 && dy == -1 then 0
        else if dx == 1 && dy == -1 then 1
        else if dx == 1 && dy == 0 then 2
        else if dx == 1 && dy == 1 then 3
        else if dx == 0 && dy == 1 then 4
        else if dx == -1 && dy == 1 then 5
        else if dx == -1 && dy == 0 then 6
        else 7;
      assert ns[i] == q;
    }
  }

  /** `line(to:)` starts at the origin cell, never reaches `end`, and is empty exactly when `end` is the origin. */
  lemma LineEnds(c: Coordinate, end: Coordinate)
    ensures Line(c, end) == [] <==> end == c
    ensures Line(c, end) != [] ==> Line(c, end)[0] == c
    ensures end !in Line(c, end)
  {
    var l := Line(c, end);
    if l != [] {
      assert l[0] == Coordinate(c.x + Signum(end.x - c.x) * 0, c.y + Signum(end.y - c.y) * 0);
    }
  }

  /** For a straight or diagonal line, one more step past the last cell lands on `end`. */
  lemma LineReachesEnd(c: Coordinate, end: Coordinate)
    requires end.x == c.x || end.y == c.y || Abs(end.x - c.x) == Abs(end.y - c.y)
    requires end != c
    ensures var l := Line(c, end);
      l != [] && Coordinate(l[|l| - 1].x + Signum(end.x - c.x), l[|l| - 1].y + Signum(end.y - c.y)) == end
  {
    var l := Line(c, end);
    var dX, dY := Signum(end.x - c.x), Signum(end.y - c.y);
    var n := |l|;
    assert n > 0;
    assert l[n - 1] == Coordinate(c.x + dX * (n - 1), c.y + dY * (n - 1));
    assert dX * (n - 1) + dX == dX * n;
    assert dY * (n - 1) + dY == dY * n;
    if end.x == c.x {
      assert n == Abs(end.y - c.y);
    } else if end.y == c.y {
      assert n == Abs(end.x - c.x);
    } else {
      assert n == Abs(end.x - c.x) == Abs(end.y - c.y);
    }
    assert dX * n == end.x - c.x;
    assert dY * n == end.y - c.y;
  }
}
