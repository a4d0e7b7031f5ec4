/** The playing field (Pentominos/Sources/Pentominos/Board.swift; PentominoSolver/Board.swift is
    the same type without colours and without the `width`/`height` fields): a grid of cells,
    each empty or covered by a piece. */
module Boards {
  import opened Coordinates
  import opened Matrices
  import opened Pieces

  /** `Board.Element`; `identifier` stands for the identifier (and colour) of the covering piece. */
  datatype Element<Id> = Empty | Occupied(identifier: Id)
  {
    /** `isFull`. */
    predicate IsFull() { Occupied? }
  }

  /** `elements` is the row-major grid; `allCoordinates` is fixed when the board is made. */
  datatype Board<Id> = Board(elements: seq<seq<Element<Id>>>, allCoordinates: set<Coordinate>, width: int, height: int)

  /** Whether `q` addresses a cell of `grid`, row by row. */
  ghost predicate InGrid<T>(grid: seq<seq<T>>, q: Coordinate)
  {
    0 <= q.Row() < |grid| && 0 <= q.Col() < |grid[q.Row()]|
  }

  /** `isValid(coordinate:)`: the row is within the rows, the column within the first row's
      columns (never read when there are no rows). */
  predicate IsValid<Id>(b: Board<Id>, q: Coordinate)
  {
    q.Row() >= 0 && q.Row() < |b.elements| && q.Col() >= 0 && q.Col() < |b.elements[0]|
  }

  /** Every board `init(width:height:)` makes, and every board `set` and `place` leave behind:
      `height` rows of `width` cells, and `allCoordinates` is exactly the valid coordinates. */
  ghost predicate WellFormed<Id>(b: Board<Id>)
  {
    b.width >= 0 && |b.elements| == b.height
    && (forall r :: 0 <= r < |b.elements| ==> |b.elements[r]| == b.width)
    && (forall q {:trigger IsValid(b, q)} :: q in b.allCoordinates <==> IsValid(b, q))
    && (forall q :: IsValid(b, q) ==> InGrid(b.elements, q))
  }

  /** The `allCoordinates` extension on a grid: every (row, col) pair of its cells, collected
      row by row. */
  method GridCoordinates<T>(grid: seq<seq<T>>) returns (result: set<Coordinate>)
    ensures forall q :: q in result <==> InGrid(grid, q)
  {
    result := {};
    var row := 0;
    while row < |grid|
      invariant 0 <= row <= |grid|
      invariant forall q :: q in result <==> InGrid(grid, q) && q.Row() < row
    {
      var col := 0;
      while col < |grid[row]|
        invariant 0 <= col <= |grid[row]|
        invariant forall q :: q in result <==>
          InGrid(grid, q) && (q.Row() < row || (q.Row() == row && q.Col() < col))
      {
        result := result + {At(row, col)};
        col := col + 1;
      }
      row := row + 1;
    }
  }

  /** `init(width:height:)`: `height` rows of `width` empty cells. The repeated arrays need
      non-negative counts. */
  method NewBoard<Id>(width: int, height: int) returns (b: Board<Id>)
    requires width >= 0 && height >= 0
    ensures WellFormed(b) && b.width == width && b.height == height
    ensures forall r :: 0 <= r < height ==> b.elements[r] == seq(width, _ => Empty)
    ensures forall q :: q in b.allCoordinates <==> 0 <= q.Row() < height && 0 <= q.Col() < width
    ensures EmptyCoordinates(b) == b.allCoordinates
  {
    var elements: seq<seq<Element<Id>>> := seq(height, _ => seq(width, _ => Empty));
    var all := GridCoordinates(elements);
    b := Board(elements, all, width, height);
  }

  /** `element(at:)`. */
  function ElementAt<Id>(b: Board<Id>, q: Coordinate): Element<Id>
    requires InGrid(b.elements, q)
  {
    b.elements[q.Row()][q.Col()]
  }

  /** On a well-formed board the valid coordinates are the cells of the grid. */
  lemma ValidInGrid<Id>(b: Board<Id>, q: Coordinate)
    requires WellFormed(b)
    ensures IsValid(b, q) <==> InGrid(b.elements, q)
  {
  }

  /** `emptyCoordinates`: the coordinates of the board whose cell is empty. */
  function EmptyCoordinates<Id>(b: Board<Id>): (es: set<Coordinate>)
    requires WellFormed(b)
    ensures es <= b.allCoordinates
    ensures forall q {:trigger q in es} :: q in es <==> IsValid(b, q) && ElementAt(b, q).Empty?
  {
    set q | q in b.allCoordinates && ElementAt(b, q).Empty?
  }

  /** The neighbours `hasIslandSquare` inspects, in its order. */
  const IslandDirections: seq<Direction> := [North, East, South, West]

  /** Every neighbour in `IslandDirections` is off the board or covered. */
  predicate Enclosed<Id>(b: Board<Id>, q: Coordinate)
    requires WellFormed(b)
  {
    forall n :: n in Neighbors(q, IslandDirections) ==> !IsValid(b, n) || ElementAt(b, n).IsFull()
  }

  /** `hasIslandSquare`: some empty cell is enclosed. */
  function HasIslandSquare<Id>(b: Board<Id>): bool
    requires WellFormed(b)
  {
    exists q :: q in EmptyCoordinates(b) && Enclosed(b, q)
  }

  /** An island square is an empty cell none of whose four orthogonal neighbours is empty; a
      board without empty cells has none. */
  lemma IslandIsIsolated<Id>(b: Board<Id>)
    requires WellFormed(b)
    ensures HasIslandSquare(b) <==>
      exists q :: q in EmptyCoordinates(b) &&
        Neighbor(q, North) !in EmptyCoordinates(b) && Neighbor(q, East) !in EmptyCoordinates(b) &&
        Neighbor(q, South) !in EmptyCoordinates(b) && Neighbor(q, West) !in EmptyCoordinates(b)
    ensures EmptyCoordinates(b) == {} ==> !HasIslandSquare(b)
  {
    var es := EmptyCoordinates(b);
    forall q | q in es
      ensures Enclosed(b, q) <==>
        Neighbor(q, North) !in es && Neighbor(q, East) !in es && Neighbor(q, South) !in es && Neighbor(q, West) !in es
    {
      var ns := Neighbors(q, IslandDirections);
      assert ns == [Neighbor(q, North), Neighbor(q, East), Neighbor(q, South), Neighbor(q, West)];
    }
  }

  /** `set(_:at:)`: only the addressed cell changes. */
  function SetElement<Id>(b: Board<Id>, e: Element<Id>, q: Coordinate): (b': Board<Id>)
    requires InGrid(b.elements, q)
    ensures b'.allCoordinates == b.allCoordinates && b'.width == b.width && b'.height == b.height
    ensures |b'.elements| == |b.elements|
    ensures forall r :: 0 <= r < |b.elements| ==> |b'.elements[r]| == |b.elements[r]|
    ensures ElementAt(b', q) == e
    ensures forall p :: InGrid(b.elements, p) && p != q ==> ElementAt(b', p) == ElementAt(b, p)
    ensures WellFormed(b) ==> WellFormed(b')
  {
    var row := b.elements[q.Row()];
    var b' := b.(elements := b.elements[q.Row() := row[q.Col() := e]]);
    assert forall c :: IsValid(b', c) <==> IsValid(b, c);
    b'
  }

  // ---------------------------------------------------------------------------
  // possibleCoordinates(for:)

  /** Every cell of the piece's footprint at `anchor` is an empty cell of the board. */
  predicate Fits<Id>(b: Board<Id>, p: Piece<Id>, anchor: Coordinate)
    requires WellFormed(b) && Valid(p.contents)
  {
    var cells := AllCoordinates(p, anchor);
    forall k :: 0 <= k < |cells| ==> cells[k] in EmptyCoordinates(b)
  }

  /** With content at the origin, an anchor that fits is itself an empty cell. */
  lemma OriginShortcut<Id>(b: Board<Id>, p: Piece<Id>)
    requires WellFormed(b) && Valid(p.contents) && p.contents.columns >= 1 && HasContentAtOrigin(p)
    ensures forall a :: Fits(b, p, a) ==> a in EmptyCoordinates(b)
  {
    forall a | Fits(b, p, a)
      ensures a in EmptyCoordinates(b)
    {
      AnchorInFootprint(p, a);
    }
  }

  /** `possibleCoordinates(for:)`: the anchors at which the piece fits. Without content at the
      origin every coordinate is tried; with it only the empty ones, which loses nothing. */
  function PossibleCoordinates<Id>(b: Board<Id>, p: Piece<Id>): (anchors: set<Coordinate>)
    requires WellFormed(b) && Valid(p.contents) && p.contents.columns >= 1
    ensures forall a {:trigger a in anchors} :: a in anchors <==> a in b.allCoordinates && Fits(b, p, a)
  {
    if !HasContentAtOrigin(p) then
      set a | a in b.allCoordinates && Fits(b, p, a)
    else
      OriginShortcut(b, p);
      set a | a in EmptyCoordinates(b) && Fits(b, p, a)
  }

  /** At a possible anchor the whole footprint lies on empty cells of the board. */
  lemma PossibleFootprintEmpty<Id>(b: Board<Id>, p: Piece<Id>, a: Coordinate)
    requires WellFormed(b) && Valid(p.contents) && p.contents.columns >= 1
    requires a in PossibleCoordinates(b, p)
    ensures forall q :: q in AllCoordinates(p, a) ==> q in EmptyCoordinates(b) && IsValid(b, q)
  {
    var cells := AllCoordinates(p, a);
    assert Fits(b, p, a);
    forall q | q in cells
      ensures q in EmptyCoordinates(b)
    {
      var k :| 0 <= k < |cells| && cells[k] == q;
    }
  }

  // ---------------------------------------------------------------------------
  // place(piece:at:)

  /** `set(.full(id), at:)` on each cell of `cells` in turn; a cell off the board is passed
      over. */
  function SetAll<Id>(b: Board<Id>, id: Id, cells: seq<Coordinate>): (b': Board<Id>)
    requires WellFormed(b)
    ensures WellFormed(b')
    ensures b'.allCoordinates == b.allCoordinates && b'.width == b.width && b'.height == b.height
    decreases |cells|, 1
  {
    if cells == [] then b else SetLast(b, id, cells)
  }

  /** `SetAll` on a non-empty list: all but the last cell, then the last. */
  function SetLast<Id>(b: Board<Id>, id: Id, cells: seq<Coordinate>): (b': Board<Id>)
    requires WellFormed(b) && cells != []
    ensures WellFormed(b')
    ensures b'.allCoordinates == b.allCoordinates && b'.width == b.width && b'.height == b.height
    decreases |cells|, 0
  {
    var before := SetAll(b, id, cells[..|cells| - 1]);
    var q := cells[|cells| - 1];
    if IsValid(before, q) then SetElement(before, Occupied(id), q) else before
  }

  /** After `SetAll` the listed cells hold `id` and every other cell is as before. */
  lemma {:induction false} SetAllCells<Id>(b: Board<Id>, id: Id, cells: seq<Coordinate>)
    requires WellFormed(b)
    ensures forall q {:trigger ElementAt(SetAll(b, id, cells), q)} :: IsValid(b, q) ==>
      ElementAt(SetAll(b, id, cells), q) == if q in cells then Occupied(id) else ElementAt(b, q)
    decreases |cells|
  {
    if cells != [] {
      var n := |cells| - 1;
      var before := SetAll(b, id, cells[..n]);
      SetAllCells(b, id, cells[..n]);
      assert SetAll(b, id, cells) == SetLast(b, id, cells);
      forall q | IsValid(b, q)
        ensures ElementAt(SetAll(b, id, cells), q) == if q in cells then Occupied(id) else ElementAt(b, q)
      {
        assert IsValid(before, q);
        assert q in cells <==> q == cells[n] || q in cells[..n];
      }
    }
  }

  /** The board after `place(piece:at:)`: the piece's identifier set on each cell of its
      footprint in turn. */
  function Placed<Id>(b: Board<Id>, p: Piece<Id>, anchor: Coordinate): (b': Board<Id>)
    requires WellFormed(b) && Valid(p.contents)
    ensures WellFormed(b')
    ensures b'.allCoordinates == b.allCoordinates && b'.width == b.width && b'.height == b.height
  {
    SetAll(b, p.identifier, AllCoordinates(p, anchor))
  }

  /** After `place(piece:at:)` the footprint cells hold the piece and every other cell is as
      before. */
  lemma PlacedCells<Id>(b: Board<Id>, p: Piece<Id>, anchor: Coordinate)
    requires WellFormed(b) && Valid(p.contents)
    ensures forall q {:trigger ElementAt(Placed(b, p, anchor), q)} :: IsValid(b, q) ==>
      ElementAt(Placed(b, p, anchor), q) ==
        if q in AllCoordinates(p, anchor) then Occupied(p.identifier) else ElementAt(b, q)
  {
    SetAllCells(b, p.identifier, AllCoordinates(p, anchor));
  }

  /** `place(piece:at:)`: `set` on each footprint cell in turn. Every footprint cell must be on
      the board, or the subscript traps. */
  method Place<Id>(b: Board<Id>, p: Piece<Id>, anchor: Coordinate) returns (b': Board<Id>)
    requires WellFormed(b) && Valid(p.contents)
    requires forall q :: q in AllCoordinates(p, anchor) ==> IsValid(b, q)
    ensures b' == Placed(b, p, anchor)
  {
    var cells := AllCoordinates(p, anchor);
    b' := b;
    var i := 0;
    while i < |cells|
      invariant 0 <= i <= |cells|
      invariant b' == SetAll(b, p.identifier, cells[..i])
    {
      var q := cells[i];
      assert q in cells && IsValid(b', q);
      assert cells[..i + 1][..i] == cells[..i];
      assert SetAll(b, p.identifier, cells[..i + 1]) == SetLast(b, p.identifier, cells[..i + 1]);
      b' := SetElement(b', Occupied(p.identifier), q);
      i := i + 1;
    }
    assert cells[..i] == cells;
  }

  /** A sequence without repeats has as many distinct members as elements. */
  lemma {:induction false} DistinctCount<T>(s: seq<T>)
    requires forall i, j :: 0 <= i < j < |s| ==> s[i] != s[j]
    ensures |set k | 0 <= k < |s| :: s[k]| == |s|
  {
    if s != [] {
      var n := |s| - 1;
      DistinctCount(s[..n]);
      var prefix := set k | 0 <= k < n :: s[..n][k];
      assert (set k | 0 <= k < |s| :: s[k]) == prefix + {s[n]};
      assert s[n] !in prefix;
    }
  }

  /** The footprint of the piece at `anchor`, as a set. */
  ghost function Footprint<Id>(p: Piece<Id>, anchor: Coordinate): set<Coordinate>
    requires Valid(p.contents)
  {
    set q | q in AllCoordinates(p, anchor)
  }

  /** The footprint has one cell per 1 of the piece. */
  lemma FootprintSize<Id>(p: Piece<Id>, anchor: Coordinate)
    requires Valid(p.contents)
    ensures |Footprint(p, anchor)| == Size(p)
  {
    var cells := AllCoordinates(p, anchor);
    FootprintDistinct(p, anchor);
    DistinctCount(cells);
    assert Footprint(p, anchor) == set k | 0 <= k < |cells| :: cells[k];
  }

  /** Placing a piece where it fits removes exactly its footprint from the empty cells, so
      there are `size` fewer of them. */
  lemma PlacedEmptyCells<Id>(b: Board<Id>, p: Piece<Id>, anchor: Coordinate)
    requires WellFormed(b) && Valid(p.contents) && Fits(b, p, anchor)
    ensures Footprint(p, anchor) <= EmptyCoordinates(b)
    ensures EmptyCoordinates(Placed(b, p, anchor)) == EmptyCoordinates(b) - Footprint(p, anchor)
    ensures |EmptyCoordinates(Placed(b, p, anchor))| == |EmptyCoordinates(b)| - Size(p)
  {
    var cells := AllCoordinates(p, anchor);
    var covered := Footprint(p, anchor);
    forall q | q in covered
      ensures q in EmptyCoordinates(b)
    {
      var k :| 0 <= k < |cells| && cells[k] == q;
    }
    var b' := Placed(b, p, anchor);
    PlacedCells(b, p, anchor);
    assert EmptyCoordinates(b') == EmptyCoordinates(b) - covered;
    FootprintSize(p, anchor);
    assert EmptyCoordinates(b) * covered == covered;
  }
}
