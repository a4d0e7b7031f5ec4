/** The binary shape grid of a piece (Pentominos/Sources/Pentominos/Matrix.swift):
    `rows` x `columns` cells kept row-major in one flat sequence. */
module Matrices {

  datatype Matrix = Matrix(rows: int, columns: int, contents: seq<int>)

  /** Every matrix the initialisers build: at least one row (they read `contents[0]`),
      and exactly `rows * columns` cells. */
  ghost predicate Valid(m: Matrix)
  {
    m.rows >= 1 && m.columns >= 0 && |m.contents| == m.rows * m.columns
  }

  ghost predicate InBounds(m: Matrix, r: int, c: int)
  {
    0 <= r < m.rows && 0 <= c < m.columns
  }

  // ---------------------------------------------------------------------------
  // Row-major index arithmetic

  lemma MulNonNegative(a: int, b: int)
    requires a >= 0 && b >= 0
    ensures a * b >= 0
  {
  }

  /** Cell (r, c) of a rows x cols grid sits at a flat index inside the grid. */
  lemma IndexInRange(r: int, c: int, rows: int, cols: int)
    requires 0 <= r < rows && 0 <= c < cols
    ensures 0 <= r * cols + c < rows * cols
    ensures r * cols + cols <= rows * cols
  {
    MulNonNegative(r, cols);
    MulNonNegative(rows - r - 1, cols);
    assert (rows - r - 1) * cols == rows * cols - r * cols - cols;
  }

  /** Multiplication by a non-negative factor is monotone. */
  lemma MulMonotone(a: int, b: int, k: int)
    requires a <= b && k >= 0
    ensures a * k <= b * k
  {
    MulNonNegative(b - a, k);
    assert (b - a) * k == b * k - a * k;
  }

  /** The flat index determines the cell: division and remainder recover it. */
  lemma DivMod(r: int, c: int, cols: int)
    requires 0 <= c < cols
    ensures (r * cols + c) / cols == r && (r * cols + c) % cols == c
  {
    var j := r * cols + c;
    var q, m := j / cols, j % cols;
    assert j == q * cols + m;
    var d := r - q;
    assert d * cols == m - c;
    if d >= 1 {
      MulMonotone(1, d, cols);
    } else if d <= -1 {
      MulMonotone(d, -1, cols);
    }
  }

  /** Splitting a flat index of a rows x cols grid into a row and a column. */
  lemma Split(j: int, rows: int, cols: int)
    requires 0 <= j < rows * cols && cols > 0
    ensures 0 <= j / cols < rows && 0 <= j % cols < cols
    ensures j == (j / cols) * cols + j % cols
  {
    var q := j / cols;
    if q >= rows {
      MulMonotone(rows, q, cols);
    } else if q < 0 {
      MulMonotone(q, -1, cols);
    }
  }

  // ---------------------------------------------------------------------------
  // Construction and cell access

  /** Row-major concatenation (`joined()`, and `flatMap { $0 }`). */
  function Join<T>(xs: seq<seq<T>>): seq<T>
  {
    if xs == [] then [] else Join(xs[..|xs| - 1]) + xs[|xs| - 1]
  }

  predicate Rectangular<T>(xs: seq<seq<T>>, width: int)
  {
    forall i :: 0 <= i < |xs| ==> |xs[i]| == width
  }

  lemma {:induction false} JoinLength<T>(xs: seq<seq<T>>, width: int)
    requires Rectangular(xs, width) && width >= 0
    ensures |Join(xs)| == |xs| * width
  {
    if xs != [] {
      JoinLength(xs[..|xs| - 1], width);
      assert |xs| * width == (|xs| - 1) * width + width;
    }
  }

  /** Cell (r, c) of a rectangular sequence of rows lands at `r * width + c` once joined. */
  lemma {:induction false} JoinAt<T>(xs: seq<seq<T>>, width: int, r: int, c: int)
    requires Rectangular(xs, width) && 0 <= r < |xs| && 0 <= c < width
    ensures |Join(xs)| == |xs| * width
    ensures 0 <= r * width + c < |Join(xs)|
    ensures Join(xs)[r * width + c] == xs[r][c]
    decreases |xs|
  {
    JoinLength(xs, width);
    IndexInRange(r, c, |xs|, width);
    var n := |xs| - 1;
    JoinLength(xs[..n], width);
    if r < n {
      JoinAt(xs[..n], width, r, c);
    } else {
      assert r * width + c == |Join(xs[..n])| + c;
    }
  }

  /** `init(contents:)`: rows come from the outer array, columns from its first row. */
  function FromRows(rowsIn: seq<seq<int>>): (m: Matrix)
    requires |rowsIn| >= 1
    ensures m.rows == |rowsIn| && m.columns == |rowsIn[0]|
    ensures Rectangular(rowsIn, |rowsIn[0]|) ==>
      Valid(m) && forall r, c :: 0 <= r < m.rows && 0 <= c < m.columns ==> Get(m, r, c) == rowsIn[r][c]
  {
    var m := Matrix(|rowsIn|, |rowsIn[0]|, Join(rowsIn));
    if Rectangular(rowsIn, |rowsIn[0]|) then
      JoinLength(rowsIn, |rowsIn[0]|);
      assert forall r, c :: 0 <= r < m.rows && 0 <= c < m.columns ==> Get(m, r, c) == rowsIn[r][c] by {
        forall r, c | 0 <= r < m.rows && 0 <= c < m.columns
          ensures Get(m, r, c) == rowsIn[r][c]
        {
          JoinAt(rowsIn, |rowsIn[0]|, r, c);
        }
      }
      m
    else
      m
  }

  /** `init(rows:columns:)`: an all-zero matrix. */
  function Zero(rows: int, columns: int): (m: Matrix)
    requires rows >= 1 && columns >= 0
    ensures Valid(m) && m.rows == rows && m.columns == columns
    ensures forall r, c :: InBounds(m, r, c) ==> Get(m, r, c) == 0
  {
    FromRows(seq(rows, _ => seq(columns, _ => 0)))
  }

  /** The subscript getter. */
  function Get(m: Matrix, r: int, c: int): int
    requires Valid(m) && InBounds(m, r, c)
  {
    IndexInRange(r, c, m.rows, m.columns);
    m.contents[r * m.columns + c]
  }

  /** The subscript setter: only the addressed cell changes. */
  function SetCell(m: Matrix, r: int, c: int, v: int): (m': Matrix)
    requires Valid(m) && InBounds(m, r, c)
    ensures Valid(m') && m'.rows == m.rows && m'.columns == m.columns
    ensures Get(m', r, c) == v
    ensures forall j :: 0 <= j < |m.contents| && j != r * m.columns + c ==> m'.contents[j] == m.contents[j]
    ensures forall r', c' :: InBounds(m, r', c') && (r', c') != (r, c) ==> Get(m', r', c') == Get(m, r', c')
  {
    IndexInRange(r, c, m.rows, m.columns);
    var m' := m.(contents := m.contents[r * m.columns + c := v]);
    assert forall r', c' :: InBounds(m, r', c') && (r', c') != (r, c) ==> Get(m', r', c') == Get(m, r', c') by {
      forall r', c' | InBounds(m, r', c') && (r', c') != (r, c)
        ensures Get(m', r', c') == Get(m, r', c')
      {
        IndexInRange(r', c', m.rows, m.columns);
        DivMod(r, c, m.columns);
        DivMod(r', c', m.columns);
      }
    }
    m'
  }

  /** Two matrices of the same shape with the same cells are equal. */
  lemma Extensionality(m1: Matrix, m2: Matrix)
    requires Valid(m1) && Valid(m2) && m1.rows == m2.rows && m1.columns == m2.columns
    requires forall r, c :: InBounds(m1, r, c) ==> Get(m1, r, c) == Get(m2, r, c)
    ensures m1 == m2
  {
    forall j | 0 <= j < |m1.contents|
      ensures m1.contents[j] == m2.contents[j]
    {
      Split(j, m1.rows, m1.columns);
      assert Get(m1, j / m1.columns, j % m1.columns) == Get(m2, j / m1.columns, j % m1.columns);
    }
  }

  /** `filter(_:)` on the cells, in row-major order, from flat index `from` on. */
  function FilterFrom(s: seq<int>, p: int -> bool, from: nat): (r: seq<int>)
    requires from <= |s|
    ensures |r| <= |s| - from
    ensures forall x :: x in r <==> exists j :: from <= j < |s| && s[j] == x && p(x)
    decreases |s| - from
  {
    if from == |s| then []
    else
      var rest := FilterFrom(s, p, from + 1);
      assert forall x :: x in rest <==> exists j :: from + 1 <= j < |s| && s[j] == x && p(x);
      if p(s[from]) then [s[from]] + rest else rest
  }

  function Filter(m: Matrix, p: int -> bool): (r: seq<int>)
    ensures |r| <= |m.contents|
    ensures forall x :: x in r <==> x in m.contents && p(x)
  {
    FilterFrom(m.contents, p, 0)
  }

  /** The filter keeps every matching cell as often as it occurs, and nothing else. */
  lemma {:induction false} FilterFromMultiset(s: seq<int>, p: int -> bool, from: nat)
    requires from <= |s|
    ensures forall x :: multiset(FilterFrom(s, p, from))[x] == if p(x) then multiset(s[from..])[x] else 0
    decreases |s| - from
  {
    if from < |s| {
      FilterFromMultiset(s, p, from + 1);
      assert s[from..] == [s[from]] + s[from + 1..];
    }
  }

  /** Every matching cell of the matrix is kept, as often as it occurs. */
  lemma FilterMultiset(m: Matrix, p: int -> bool)
    ensures forall x :: multiset(Filter(m, p))[x] == if p(x) then multiset(m.contents)[x] else 0
  {
    FilterFromMultiset(m.contents, p, 0);
    assert m.contents[0..] == m.contents;
  }

  predicate IsOne(x: int) { x == 1 }

  /** The flat indices holding a 1, in increasing order, from `from` on
      (`indexed().filter { $0.element == 1 }`). */
  function OneIndicesFrom(s: seq<int>, from: nat): (r: seq<nat>)
    requires from <= |s|
    ensures forall i :: 0 <= i < |r| ==> from <= r[i] < |s| && s[r[i]] == 1
    ensures forall i, j :: 0 <= i < j < |r| ==> r[i] < r[j]
    ensures forall j :: from <= j < |s| && s[j] == 1 ==> j in r
    decreases |s| - from
  {
    if from == |s| then []
    else
      var rest := OneIndicesFrom(s, from + 1);
      if s[from] == 1 then [from] + rest else rest
  }

  /** There are as many 1-indices as cells `filter { $0 == 1 }` keeps. */
  lemma {:induction false} OneIndicesCount(s: seq<int>, from: nat)
    requires from <= |s|
    ensures |OneIndicesFrom(s, from)| == |FilterFrom(s, IsOne, from)|
    decreases |s| - from
  {
    if from < |s| {
      OneIndicesCount(s, from + 1);
      OneIndicesStep(s, from);
      FilterOnesStep(s, from);
    }
  }

  lemma OneIndicesStep(s: seq<int>, from: nat)
    requires from < |s|
    ensures |OneIndicesFrom(s, from)| == |OneIndicesFrom(s, from + 1)| + if s[from] == 1 then 1 else 0
  {
  }

  lemma FilterOnesStep(s: seq<int>, from: nat)
    requires from < |s|
    ensures |FilterFrom(s, IsOne, from)| == |FilterFrom(s, IsOne, from + 1)| + if s[from] == 1 then 1 else 0
  {
  }

  function OneIndices(m: Matrix): (r: seq<nat>)
    ensures forall i :: 0 <= i < |r| ==> r[i] < |m.contents| && m.contents[r[i]] == 1
    ensures forall i, j :: 0 <= i < j < |r| ==> r[i] < r[j]
    ensures forall j :: 0 <= j < |m.contents| && m.contents[j] == 1 ==> j in r
  {
    OneIndicesFrom(m.contents, 0)
  }

  /** `contents.filter { $0 == 1 }.count`: the number of 1-cells. */
  function CountOnes(m: Matrix): (n: nat)
    ensures n == |OneIndices(m)|
    ensures n <= |m.contents|
  {
    OneIndicesCount(m.contents, 0);
    |Filter(m, IsOne)|
  }

  // ---------------------------------------------------------------------------
  // Rows (`chunks(ofCount: columns)`)

  function Row(m: Matrix, r: int): (row: seq<int>)
    requires Valid(m) && 0 <= r < m.rows && m.columns >= 1
    ensures |row| == m.columns
    ensures forall c :: 0 <= c < m.columns ==> row[c] == Get(m, r, c)
  {
    IndexInRange(r, 0, m.rows, m.columns);
    m.contents[r * m.columns .. r * m.columns + m.columns]
  }

  function RowChunks(m: Matrix): (chunks: seq<seq<int>>)
    requires Valid(m) && m.columns >= 1
    ensures |chunks| == m.rows && Rectangular(chunks, m.columns)
    ensures forall r :: 0 <= r < m.rows ==> chunks[r] == Row(m, r)
  {
    seq(m.rows, r requires 0 <= r < m.rows => Row(m, r))
  }

  /** A matrix of `m`'s shape whose rows are `rowsIn`, joined back together. */
  lemma Rejoin(m: Matrix, rowsIn: seq<seq<int>>)
    requires Valid(m) && |rowsIn| == m.rows && Rectangular(rowsIn, m.columns)
    ensures Valid(Matrix(m.rows, m.columns, Join(rowsIn)))
    ensures forall r, c :: InBounds(m, r, c) ==> Get(Matrix(m.rows, m.columns, Join(rowsIn)), r, c) == rowsIn[r][c]
  {
    JoinLength(rowsIn, m.columns);
    forall r, c | InBounds(m, r, c)
      ensures Get(Matrix(m.rows, m.columns, Join(rowsIn)), r, c) == rowsIn[r][c]
    {
      JoinAt(rowsIn, m.columns, r, c);
    }
  }

  // ---------------------------------------------------------------------------
  // flip()

  function Reversed(s: seq<int>): (r: seq<int>)
    ensures |r| == |s|
  {
    seq(|s|, i requires 0 <= i < |s| => s[|s| - 1 - i])
  }

  /** Every row chunk reversed. */
  function FlipRows(chunks: seq<seq<int>>): (rs: seq<seq<int>>)
    ensures |rs| == |chunks| && forall r :: 0 <= r < |chunks| ==> rs[r] == Reversed(chunks[r])
  {
    seq(|chunks|, r requires 0 <= r < |chunks| => Reversed(chunks[r]))
  }

  /** `flip()`: each row reversed (`chunks.map { $0.reversed() }.joined()`). */
  function Flipped(m: Matrix): (m': Matrix)
    requires Valid(m) && m.columns >= 1
    ensures Valid(m') && m'.rows == m.rows && m'.columns == m.columns
    ensures forall r, c :: InBounds(m, r, c) ==> Get(m', r, c) == Get(m, r, m.columns - 1 - c)
  {
    var flippedRows := FlipRows(RowChunks(m));
    Rejoin(m, flippedRows);
    Matrix(m.rows, m.columns, Join(flippedRows))
  }

  // ---------------------------------------------------------------------------
  // shiftTowardOrigin()

  predicate ChunkIsZero(chunk: seq<int>)
  {
    forall i :: 0 <= i < |chunk| ==> chunk[i] == 0
  }

  /** `rowChunks.prefix(while: { $0.allSatisfy { $0 == 0 } }).count`. */
  function LeadingZeroRows(chunks: seq<seq<int>>): (k: nat)
    ensures k <= |chunks|
    ensures forall i :: 0 <= i < k ==> ChunkIsZero(chunks[i])
    ensures k < |chunks| ==> !ChunkIsZero(chunks[k])
  {
    if chunks == [] || !ChunkIsZero(chunks[0]) then 0 else 1 + LeadingZeroRows(chunks[1..])
  }

  /** Whether column `c` holds only zeros (`rowChunks.allSatisfy { $0[c] == 0 }`). */
  predicate ColumnIsZero(m: Matrix, c: int)
    requires Valid(m) && 0 <= c < m.columns
  {
    forall r :: 0 <= r < m.rows ==> Get(m, r, c) == 0
  }

  /** The number of all-zero columns among `0 ..< upto`. */
  function ZeroColumnsBelow(m: Matrix, upto: nat): (k: nat)
    requires Valid(m) && upto <= m.columns
    ensures k <= upto
  {
    if upto == 0 then 0
    else ZeroColumnsBelow(m, upto - 1) + (if ColumnIsZero(m, upto - 1) then 1 else 0)
  }

  /** The horizontal shift of `shiftTowardOrigin()`: the all-zero columns counted over
      `0 ..< rows` (the number of row chunks), leading or not. */
  function ZeroColumnCount(m: Matrix): (k: nat)
    requires Valid(m) && m.rows <= m.columns
    ensures k <= m.rows
  {
    ZeroColumnsBelow(m, m.rows)
  }

  /** When the all-zero columns below `upto` are exactly those below `z`, `z` of them are counted. */
  lemma {:induction false} ZeroColumnsOfLeadingBlock(m: Matrix, upto: nat, z: nat)
    requires Valid(m) && upto <= m.columns && z <= upto
    requires forall c :: 0 <= c < upto ==> (ColumnIsZero(m, c) <==> c < z)
    ensures ZeroColumnsBelow(m, upto) == z
  {
    if upto > 0 {
      if z == upto {
        ZeroColumnsOfLeadingBlock(m, upto - 1, z - 1);
      } else {
        ZeroColumnsOfLeadingBlock(m, upto - 1, z);
      }
    }
  }

  function Zeros(n: nat): (s: seq<int>)
    ensures |s| == n && forall i :: 0 <= i < n ==> s[i] == 0
  {
    seq(n, _ => 0)
  }

  /** One row of the horizontal step: `removeSubrange(0 ..< k)`, then `k` zeros appended. */
  function ShiftRow(row: seq<int>, k: nat): (r: seq<int>)
    requires k <= |row|
    ensures |r| == |row|
    ensures forall c :: 0 <= c < |row| ==> r[c] == if c + k < |row| then row[c + k] else 0
  {
    row[k..] + Zeros(k)
  }

  /** The horizontal step on every row chunk. */
  function ShiftRows(chunks: seq<seq<int>>, k: nat): (rs: seq<seq<int>>)
    requires forall r :: 0 <= r < |chunks| ==> k <= |chunks[r]|
    ensures |rs| == |chunks| && forall r :: 0 <= r < |chunks| ==> rs[r] == ShiftRow(chunks[r], k)
  {
    seq(|chunks|, r requires 0 <= r < |chunks| => ShiftRow(chunks[r], k))
  }

  /** The value `shiftTowardOrigin()` leaves in `contents`: every row of the ORIGINAL
      contents shifted left by `ZeroColumnCount`; the vertical step does not reach it. */
  function Shifted(m: Matrix): (m': Matrix)
    requires Valid(m) && 1 <= m.rows <= m.columns
    ensures Valid(m') && m'.rows == m.rows && m'.columns == m.columns
    ensures forall r, c :: InBounds(m, r, c) ==>
      Get(m', r, c) == if c + ZeroColumnCount(m) < m.columns then Get(m, r, c + ZeroColumnCount(m)) else 0
  {
    var shiftedRows := ShiftRows(RowChunks(m), ZeroColumnCount(m));
    Rejoin(m, shiftedRows);
    Matrix(m.rows, m.columns, Join(shiftedRows))
  }

  /** `shiftTowardOrigin()` step by step: the row chunks are taken first, the vertical step
      rewrites `contents`, and the horizontal step then overwrites it from the chunks. */
  method ShiftTowardOrigin(m: Matrix) returns (m': Matrix)
    requires Valid(m) && 1 <= m.rows <= m.columns
    ensures m' == Shifted(m)
    ensures forall r, c :: InBounds(m, r, c) ==>
      Get(m', r, c) == if c + ZeroColumnCount(m) < m.columns then Get(m, r, c + ZeroColumnCount(m)) else 0
  {
    var contents := m.contents;
    var rowChunks := RowChunks(m);
    // Vertically
    var leadingZeroRows := LeadingZeroRows(rowChunks);
    MulMonotone(leadingZeroRows, m.rows, m.columns);
    MulNonNegative(leadingZeroRows, m.columns);
    contents := contents[leadingZeroRows * m.columns..];
    contents := contents + Zeros(leadingZeroRows * m.columns);
    // Horizontally
    var leadingZeroColumns := ZeroColumnCount(m);
    contents := Join(ShiftRows(rowChunks, leadingZeroColumns));
    m' := Matrix(m.rows, m.columns, contents);
  }

  // ---------------------------------------------------------------------------
  // rotate()

  /** The cell that clockwise rotation of the leading `rows` x `rows` block moves to flat index `j`. */
  function RotatedCell(o: seq<int>, rows: int, cols: int, j: int): int
    requires 1 <= rows <= cols && |o| == rows * cols && 0 <= j < |o|
  {
    Split(j, rows, cols);
    var r, c := j / cols, j % cols;
    if c < rows then
      IndexInRange(rows - 1 - c, r, rows, cols);
      o[(rows - 1 - c) * cols + r]
    else o[j]
  }

  /** `rotated()`: a 90 degree clockwise rotation of the leading `rows` x `rows` block
      (the whole matrix when it is square); other columns stay put. */
  function Rotated(m: Matrix): (m': Matrix)
    requires Valid(m) && m.rows <= m.columns
    ensures Valid(m') && m'.rows == m.rows && m'.columns == m.columns
    ensures forall r, c :: InBounds(m, r, c) ==>
      Get(m', r, c) == if c < m.rows then Get(m, m.rows - 1 - c, r) else Get(m, r, c)
  {
    var m' := m.(contents := seq(|m.contents|, j requires 0 <= j < |m.contents| => RotatedCell(m.contents, m.rows, m.columns, j)));
    assert forall r, c :: InBounds(m, r, c) ==>
      Get(m', r, c) == if c < m.rows then Get(m, m.rows - 1 - c, r) else Get(m, r, c) by {
      forall r, c | InBounds(m, r, c)
        ensures Get(m', r, c) == if c < m.rows then Get(m, m.rows - 1 - c, r) else Get(m, r, c)
      {
        IndexInRange(r, c, m.rows, m.columns);
        DivMod(r, c, m.columns);
      }
    }
    m'
  }

  /** The ring (layer) of cell (r, c) in an n x n block: its distance to the nearest edge. */
  function Ring(n: int, r: int, c: int): int
  {
    var a := if r < n - 1 - r then r else n - 1 - r;
    var b := if c < n - 1 - c then c else n - 1 - c;
    if a < b then a else b
  }

  /** Cell (r, c) of ring `k` lies on one of the 4-cycles that start at `(k, k) ..< (k, i)`. */
  predicate InCycles(n: int, r: int, c: int, k: int, i: int)
  {
    (r == k && k <= c < i) ||
    (c == k && n - 1 - i < r <= n - 1 - k) ||
    (r == n - 1 - k && n - 1 - i < c <= n - 1 - k) ||
    (c == n - 1 - k && k <= r < i)
  }

  /** Whether the loop has already moved cell (r, c) after finishing layers below `layer`
      and the cycles `layer ..< i` of layer `layer`. */
  predicate Done(n: int, r: int, c: int, layer: int, i: int)
  {
    c < n && (Ring(n, r, c) < layer || (Ring(n, r, c) == layer && InCycles(n, r, c, layer, i)))
  }

  /** Whether (r, c) is one of the four cells of the cycle through (layer, i). */
  predicate OnCycle(n: int, r: int, c: int, layer: int, i: int)
  {
    (r, c) == (layer, i) || (r, c) == (n - 1 - i, layer) ||
    (r, c) == (n - 1 - layer, n - 1 - i) || (r, c) == (i, n - 1 - layer)
  }

  /** The cycle through (layer, i) adds exactly its four cells to the moved ones. */
  lemma DoneStep(n: int, r: int, c: int, layer: int, i: int)
    requires 0 <= layer <= i < n - 1 - layer && 0 <= r < n && 0 <= c
    ensures Done(n, r, c, layer, i + 1) <==> Done(n, r, c, layer, i) || OnCycle(n, r, c, layer, i)
    ensures OnCycle(n, r, c, layer, i) ==> !Done(n, r, c, layer, i)
  {
  }

  /** What flat index `j` holds part way through the loop: rotated if done, original otherwise. */
  function Expected(o: seq<int>, n: int, cols: int, layer: int, i: int, j: int): int
    requires 1 <= n <= cols && |o| == n * cols && 0 <= j < |o|
  {
    Split(j, n, cols);
    if Done(n, j / cols, j % cols, layer, i) then RotatedCell(o, n, cols, j) else o[j]
  }

  /** The whole of `contents` part way through the loop. */
  function Snapshot(o: seq<int>, n: int, cols: int, layer: int, i: int): (s: seq<int>)
    requires 1 <= n <= cols && |o| == n * cols
    ensures |s| == |o|
  {
    seq(|o|, j requires 0 <= j < |o| => Expected(o, n, cols, layer, i, j))
  }

  /** Before the loop nothing has moved. */
  lemma RotationStart(o: seq<int>, n: int, cols: int)
    requires 1 <= n <= cols && |o| == n * cols
    ensures o == Snapshot(o, n, cols, 0, 0)
  {
    forall j | 0 <= j < |o|
      ensures o[j] == Snapshot(o, n, cols, 0, 0)[j]
    {
      Split(j, n, cols);
    }
  }

  /** A cell of the cycle through (layer, i) still holds its original value before the step
      and is due its rotated value after it. */
  lemma MovedCell(o: seq<int>, n: int, cols: int, layer: int, i: int, r: int, c: int)
    requires 1 <= n <= cols && |o| == n * cols
    requires 0 <= layer <= i < n - 1 - layer && OnCycle(n, r, c, layer, i)
    ensures 0 <= r * cols + c < |o| && (r * cols + c) / cols == r && (r * cols + c) % cols == c
    ensures 0 <= (n - 1 - c) * cols + r < |o|
    ensures Expected(o, n, cols, layer, i, r * cols + c) == o[r * cols + c]
    ensures Expected(o, n, cols, layer, i + 1, r * cols + c) == o[(n - 1 - c) * cols + r]
  {
    IndexInRange(r, c, n, cols);
    DivMod(r, c, cols);
    DoneStep(n, r, c, layer, i);
    IndexInRange(n - 1 - c, r, n, cols);
  }

  /** A cell off the cycle through (layer, i) is not affected by the step. */
  lemma UnmovedCell(o: seq<int>, n: int, cols: int, layer: int, i: int, j: int)
    requires 1 <= n <= cols && |o| == n * cols && 0 <= j < |o|
    requires 0 <= layer <= i < n - 1 - layer
    requires j != layer * cols + i && j != (n - 1 - i) * cols + layer
    requires j != (n - 1 - layer) * cols + (n - 1 - i) && j != i * cols + (n - 1 - layer)
    ensures Expected(o, n, cols, layer, i + 1, j) == Expected(o, n, cols, layer, i, j)
  {
    Split(j, n, cols);
    DoneStep(n, j / cols, j % cols, layer, i);
  }

  /** The four corners of the cycle through (layer, i), as the loop computes them, lie in the
      leading block at four distinct flat indices. */
  lemma CyclePositions(n: int, cols: int, layer: int, i: int,
                       top: (int, int), left: (int, int), bottom: (int, int), right: (int, int))
    requires 1 <= n <= cols && 0 <= layer <= i < n - 1 - layer
    requires top == (layer, i) && left == (n - layer - 1 - (i - layer), layer)
    requires bottom == (n - layer - 1, n - layer - 1 - (i - layer)) && right == (i, n - layer - 1)
    ensures var t, l, b, r := top.0 * cols + top.1, left.0 * cols + left.1,
                              bottom.0 * cols + bottom.1, right.0 * cols + right.1;
      t == layer * cols + i && l == (n - 1 - i) * cols + layer &&
      b == (n - 1 - layer) * cols + (n - 1 - i) && r == i * cols + (n - 1 - layer) &&
      0 <= t < n * cols && 0 <= l < n * cols && 0 <= b < n * cols && 0 <= r < n * cols &&
      t != l && t != b && t != r && l != b && l != r && b != r
  {
    assert left.0 == n - 1 - i && bottom == (n - 1 - layer, n - 1 - i) && right.1 == n - 1 - layer;
    IndexInRange(layer, i, n, cols);
    IndexInRange(n - 1 - i, layer, n, cols);
    IndexInRange(n - 1 - layer, n - 1 - i, n, cols);
    IndexInRange(i, n - 1 - layer, n, cols);
    DivMod(layer, i, cols);
    DivMod(n - 1 - i, layer, cols);
    DivMod(n - 1 - layer, n - 1 - i, cols);
    DivMod(i, n - 1 - layer, cols);
  }

  /** A corner (r, c) of the cycle through (layer, i) receives the value its rotation source
      (sr, sc) holds before the step, which is the corner's rotated value. */
  lemma MovedInto(pre: seq<int>, o: seq<int>, n: int, cols: int, layer: int, i: int,
                  r: int, c: int, sr: int, sc: int)
    requires 1 <= n <= cols && |o| == n * cols
    requires 0 <= layer <= i < n - 1 - layer && OnCycle(n, r, c, layer, i)
    requires sr == n - 1 - c && sc == r
    requires pre == Snapshot(o, n, cols, layer, i)
    ensures 0 <= r * cols + c < |o| && 0 <= sr * cols + sc < |o|
    ensures pre[sr * cols + sc] == Expected(o, n, cols, layer, i + 1, r * cols + c)
  {
    MovedCell(o, n, cols, layer, i, r, c);
    MovedCell(o, n, cols, layer, i, sr, sc);
    assert sr * cols + sc == (n - 1 - c) * cols + r;
  }

  /** The four writes of the step through (layer, i), as one sequence update. */
  function Cycled(pre: seq<int>, top: int, left: int, bottom: int, right: int): seq<int>
    requires 0 <= top < |pre| && 0 <= left < |pre| && 0 <= bottom < |pre| && 0 <= right < |pre|
  {
    pre[top := pre[left]][left := pre[bottom]][bottom := pre[right]][right := pre[top]]
  }

  /** Each written cell of `Cycled` holds what its source held; the others are unchanged. */
  lemma CycledAt(pre: seq<int>, top: int, left: int, bottom: int, right: int, j: int)
    requires 0 <= top < |pre| && 0 <= left < |pre| && 0 <= bottom < |pre| && 0 <= right < |pre|
    requires top != left && top != bottom && top != right && left != bottom && left != right && bottom != right
    requires 0 <= j < |pre|
    ensures |Cycled(pre, top, left, bottom, right)| == |pre|
    ensures Cycled(pre, top, left, bottom, right)[j] ==
      if j == top then pre[left] else if j == left then pre[bottom]
      else if j == bottom then pre[right] else if j == right then pre[top] else pre[j]
  {
  }

  /** One cell after the step through (layer, i): the four corners take their rotated value,
      every other cell keeps its own. */
  lemma StepCell(pre: seq<int>, o: seq<int>, n: int, cols: int, layer: int, i: int,
                 top: int, left: int, bottom: int, right: int, j: int)
    requires 1 <= n <= cols && |o| == n * cols && 0 <= j < |o|
    requires 0 <= layer <= i < n - 1 - layer
    requires pre == Snapshot(o, n, cols, layer, i)
    requires top == layer * cols + i && left == (n - 1 - i) * cols + layer
    requires bottom == (n - 1 - layer) * cols + (n - 1 - i) && right == i * cols + (n - 1 - layer)
    requires 0 <= top < |o| && 0 <= left < |o| && 0 <= bottom < |o| && 0 <= right < |o|
    requires top != left && top != bottom && top != right && left != bottom && left != right && bottom != right
    ensures Cycled(pre, top, left, bottom, right)[j] == Expected(o, n, cols, layer, i + 1, j)
  {
    CycledAt(pre, top, left, bottom, right, j);
    var post := Cycled(pre, top, left, bottom, right);
    if j == top {
      MovedInto(pre, o, n, cols, layer, i, layer, i, n - 1 - i, layer);
      assert post[j] == pre[left] == Expected(o, n, cols, layer, i + 1, j);
    } else if j == left {
      MovedInto(pre, o, n, cols, layer, i, n - 1 - i, layer, n - 1 - layer, n - 1 - i);
      assert post[j] == pre[bottom] == Expected(o, n, cols, layer, i + 1, j);
    } else if j == bottom {
      MovedInto(pre, o, n, cols, layer, i, n - 1 - layer, n - 1 - i, i, n - 1 - layer);
      assert post[j] == pre[right] == Expected(o, n, cols, layer, i + 1, j);
    } else if j == right {
      MovedInto(pre, o, n, cols, layer, i, i, n - 1 - layer, layer, i);
      assert post[j] == pre[top] == Expected(o, n, cols, layer, i + 1, j);
    } else {
      assert post[j] == pre[j] == Expected(o, n, cols, layer, i, j);
      UnmovedCell(o, n, cols, layer, i, j);
      assert post[j] == Expected(o, n, cols, layer, i + 1, j);
    }
  }

  /** One pass of the inner loop: the 4-cycle through (layer, i) moves four cells that were
      not yet done into place, and nothing else changes. */
  lemma RotationStep(pre: seq<int>, o: seq<int>, n: int, cols: int, layer: int, i: int,
                     top: int, left: int, bottom: int, right: int)
    requires 1 <= n <= cols && |o| == n * cols
    requires 0 <= layer <= i < n - 1 - layer
    requires pre == Snapshot(o, n, cols, layer, i)
    requires top == layer * cols + i && left == (n - 1 - i) * cols + layer
    requires bottom == (n - 1 - layer) * cols + (n - 1 - i) && right == i * cols + (n - 1 - layer)
    requires 0 <= top < |o| && 0 <= left < |o| && 0 <= bottom < |o| && 0 <= right < |o|
    requires top != left && top != bottom && top != right && left != bottom && left != right && bottom != right
    ensures Cycled(pre, top, left, bottom, right) == Snapshot(o, n, cols, layer, i + 1)
  {
    var post := Cycled(pre, top, left, bottom, right);
    CycledAt(pre, top, left, bottom, right, 0);
    forall j | 0 <= j < |o|
      ensures post[j] == Snapshot(o, n, cols, layer, i + 1)[j]
    {
      StepCell(pre, o, n, cols, layer, i, top, left, bottom, right, j);
    }
  }

  /** Finishing the cycles of a layer finishes the whole ring. */
  lemma LayerComplete(o: seq<int>, n: int, cols: int, layer: int)
    requires 1 <= n <= cols && |o| == n * cols && 0 <= layer < n - 1 - layer
    ensures Snapshot(o, n, cols, layer, n - 1 - layer) == Snapshot(o, n, cols, layer + 1, layer + 1)
  {
    var last, next := n - 1 - layer, layer + 1;
    forall j | 0 <= j < |o|
      ensures Snapshot(o, n, cols, layer, last)[j] == Snapshot(o, n, cols, next, next)[j]
    {
      Split(j, n, cols);
    }
  }

  /** After the last layer, every cell holds its rotated value (the centre of an odd block is fixed). */
  lemma RotationFinished(o: seq<int>, n: int, cols: int, layers: int)
    requires 1 <= n <= cols && |o| == n * cols
    requires layers == n / 2
    ensures Snapshot(o, n, cols, layers, layers) == Rotated(Matrix(n, cols, o)).contents
  {
    var m' := Rotated(Matrix(n, cols, o));
    forall j | 0 <= j < |o|
      ensures Snapshot(o, n, cols, layers, layers)[j] == m'.contents[j]
    {
      Split(j, n, cols);
      var r, c := j / cols, j % cols;
      if c < n && !Done(n, r, c, layers, layers) {
        assert r == c;
      }
    }
  }

  /** Overwriting one element swaps one occurrence in the multiset. */
  lemma UpdateMultiset(s: seq<int>, i: int, v: int)
    requires 0 <= i < |s|
    ensures multiset(s[i := v]) + multiset{s[i]} == multiset(s) + multiset{v}
  {
    assert s == s[..i] + [s[i]] + s[i + 1..];
    assert s[i := v] == s[..i] + [v] + s[i + 1..];
  }

  /** Four single swaps of occurrences that chain around a cycle cancel out. */
  lemma CycleCancels(p: multiset<int>, m1: multiset<int>, m2: multiset<int>, m3: multiset<int>, m4: multiset<int>,
                     x: int, y: int, z: int, w: int)
    requires m1 + multiset{x} == p + multiset{y}
    requires m2 + multiset{y} == m1 + multiset{z}
    requires m3 + multiset{z} == m2 + multiset{w}
    requires m4 + multiset{w} == m3 + multiset{x}
    ensures m4 == p
  {
    forall v
      ensures m4[v] == p[v]
    {
      assert (m1 + multiset{x})[v] == (p + multiset{y})[v];
      assert (m2 + multiset{y})[v] == (m1 + multiset{z})[v];
      assert (m3 + multiset{z})[v] == (m2 + multiset{w})[v];
      assert (m4 + multiset{w})[v] == (m3 + multiset{x})[v];
    }
  }

  /** The four writes of one cycle only permute the cells. */
  lemma CycleMultiset(pre: seq<int>, t: int, l: int, b: int, r: int)
    requires 0 <= t < |pre| && 0 <= l < |pre| && 0 <= b < |pre| && 0 <= r < |pre|
    requires t != l && t != b && t != r && l != b && l != r && b != r
    ensures multiset(Cycled(pre, t, l, b, r)) == multiset(pre)
  {
    var s1 := pre[t := pre[l]];
    UpdateMultiset(pre, t, pre[l]);
    var s2 := s1[l := pre[b]];
    UpdateMultiset(s1, l, pre[b]);
    var s3 := s2[b := pre[r]];
    UpdateMultiset(s2, b, pre[r]);
    var s4 := s3[r := pre[t]];
    UpdateMultiset(s3, r, pre[t]);
    CycleCancels(multiset(pre), multiset(s1), multiset(s2), multiset(s3), multiset(s4), pre[t], pre[l], pre[b], pre[r]);
  }

  /** The body of the inner loop: four writes through a temporary move the cells of one cycle. */
  method CycleCells(a: array<int>, t: int, l: int, b: int, r: int)
    requires 0 <= t < a.Length && 0 <= l < a.Length && 0 <= b < a.Length && 0 <= r < a.Length
    requires t != l && t != b && t != r && l != b && l != r && b != r
    modifies a
    ensures a[..] == Cycled(old(a[..]), t, l, b, r)
  {
    var temp := a[t];
    a[t] := a[l];
    a[l] := a[b];
    a[b] := a[r];
    a[r] := temp;
  }

  /** One 4-cycle of ring `layer` advances the snapshot by one cell and keeps the cells. */
  lemma CycleStep(pre: seq<int>, o: seq<int>, n: int, cols: int, layer: int, i: int,
                  t: int, l: int, b: int, r: int)
    requires 1 <= n <= cols && |o| == n * cols
    requires 0 <= layer <= i < n - 1 - layer
    requires pre == Snapshot(o, n, cols, layer, i) && multiset(pre) == multiset(o)
    requires t == layer * cols + i && l == (n - 1 - i) * cols + layer
    requires b == (n - 1 - layer) * cols + (n - 1 - i) && r == i * cols + (n - 1 - layer)
    requires 0 <= t < |o| && 0 <= l < |o| && 0 <= b < |o| && 0 <= r < |o|
    requires t != l && t != b && t != r && l != b && l != r && b != r
    ensures Cycled(pre, t, l, b, r) == Snapshot(o, n, cols, layer, i + 1)
    ensures multiset(Cycled(pre, t, l, b, r)) == multiset(o)
  {
    RotationStep(pre, o, n, cols, layer, i, t, l, b, r);
    CycleMultiset(pre, t, l, b, r);
  }

  /** One iteration of the inner loop of `rotate()`: the four cells `top`, `left`, `bottom`
      and `right` of ring `layer` at offset `i` move one place clockwise. */
  method CycleRing(a: array<int>, rows: int, columns: int, layer: int, i: int, ghost o: seq<int>)
    requires 1 <= rows <= columns && a.Length == rows * columns && |o| == a.Length
    requires 0 <= layer <= i < rows - 1 - layer
    requires a[..] == Snapshot(o, rows, columns, layer, i)
    requires multiset(a[..]) == multiset(o)
    modifies a
    ensures a[..] == Snapshot(o, rows, columns, layer, i + 1)
    ensures multiset(a[..]) == multiset(o)
  {
    var first, last := layer, rows - layer - 1;
    var top := (first, i);
    var left := (last - (i - first), first);
    var bottom := (last, last - (i - first));
    var right := (i, last);
    var t, l, b, r := top.0 * columns + top.1, left.0 * columns + left.1,
                      bottom.0 * columns + bottom.1, right.0 * columns + right.1;
    CyclePositions(rows, columns, layer, i, top, left, bottom, right);
    ghost var pre := a[..];
    CycleCells(a, t, l, b, r);
    CycleStep(pre, o, rows, columns, layer, i, t, l, b, r);
  }

  /** One iteration of the outer loop of `rotate()`: the cycles `first ..< last` of ring `layer`.
      `o` is the matrix before the rotation began. */
  method RotateLayer(a: array<int>, rows: int, columns: int, layer: int, ghost o: seq<int>)
    requires 1 <= rows <= columns && a.Length == rows * columns && |o| == a.Length
    requires 0 <= layer < rows - 1 - layer
    requires a[..] == Snapshot(o, rows, columns, layer, layer)
    requires multiset(a[..]) == multiset(o)
    modifies a
    ensures a[..] == Snapshot(o, rows, columns, layer + 1, layer + 1)
    ensures multiset(a[..]) == multiset(o)
  {
    var first := layer;
    var last := rows - layer - 1;
    var i := first;
    while i < last
      invariant first <= i <= last
      invariant a[..] == Snapshot(o, rows, columns, layer, i)
      invariant multiset(a[..]) == multiset(o)
    {
      CycleRing(a, rows, columns, layer, i, o);
      i := i + 1;
    }
    LayerComplete(o, rows, columns, layer);
  }

  /** `rotate()`: the layer-by-layer, in-place 4-cycle rotation. Only the leading
      `rows` x `rows` block is touched, so `rows <= columns` keeps every index in range. */
  method RotateInPlace(a: array<int>, rows: int, columns: int)
    requires 1 <= rows <= columns && a.Length == rows * columns
    modifies a
    ensures a[..] == Rotated(Matrix(rows, columns, old(a[..]))).contents
    ensures multiset(a[..]) == multiset(old(a[..]))
  {
    ghost var o := a[..];
    RotationStart(o, rows, columns);
    var layers := if rows % 2 == 0 then rows / 2 else (rows - 1) / 2;
    var layer := 0;
    while layer < layers
      invariant 0 <= layer <= layers
      invariant a[..] == Snapshot(o, rows, columns, layer, layer)
      invariant multiset(a[..]) == multiset(o)
    {
      RotateLayer(a, rows, columns, layer, o);
      layer := layer + 1;
    }
    RotationFinished(o, rows, columns, layers);
  }

  /** The mutating `rotate()` on a matrix value: its contents go through the in-place loop. */
  method Rotate(m: Matrix) returns (m': Matrix)
    requires Valid(m) && m.rows <= m.columns
    ensures m' == Rotated(m)
    ensures multiset(m'.contents) == multiset(m.contents)
  {
    var a := new int[|m.contents|](j requires 0 <= j < |m.contents| => m.contents[j]);
    assert a[..] == m.contents;
    RotateInPlace(a, m.rows, m.columns);
    m' := Matrix(m.rows, m.columns, a[..]);
  }

  // ---------------------------------------------------------------------------
  // description(withContentIdentifier:emptyIdentifier:)

  function CellChar(v: int, content: char, empty: char): char
  {
    if v == 1 then content else empty
  }

  /** Row r rendered: one character per cell, then a newline. */
  function RowLine(m: Matrix, r: int, content: char, empty: char): (line: string)
    requires Valid(m) && 0 <= r < m.rows
    ensures |line| == m.columns + 1 && line[m.columns] == '\n'
    ensures forall c :: 0 <= c < m.columns ==> line[c] == CellChar(Get(m, r, c), content, empty)
  {
    seq(m.columns, c requires 0 <= c < m.columns => CellChar(Get(m, r, c), content, empty)) + ['\n']
  }

  function Lines(m: Matrix, content: char, empty: char): seq<string>
    requires Valid(m)
  {
    seq(m.rows, r requires 0 <= r < m.rows => RowLine(m, r, content, empty))
  }

  /** What the rendering loop has produced after the first `n` cells: each cell's character,
      and a newline after every `cols`-th cell. */
  function Rendered(s: seq<int>, cols: int, content: char, empty: char, n: nat): string
    requires cols > 0 && n <= |s|
  {
    if n == 0 then ""
    else Rendered(s, cols, content, empty, n - 1) + [CellChar(s[n - 1], content, empty)]
         + (if n % cols == 0 then "\n" else "")
  }

  /** `Join` of a sequence extended by one element. */
  lemma JoinSnoc<T>(xs: seq<seq<T>>, x: seq<T>)
    ensures Join(xs + [x]) == Join(xs) + x
  {
    assert (xs + [x])[..|xs|] == xs;
  }

  /** Within row r, the loop has emitted the first c characters of the row's line. */
  lemma {:induction false} RenderedWithinRow(m: Matrix, content: char, empty: char, r: int, c: int)
    requires Valid(m) && m.columns > 0 && 0 <= r < m.rows && 0 <= c < m.columns
    ensures 0 <= r * m.columns && r * m.columns + c < |m.contents|
    ensures Rendered(m.contents, m.columns, content, empty, r * m.columns + c) ==
      Rendered(m.contents, m.columns, content, empty, r * m.columns) + RowLine(m, r, content, empty)[..c]
    decreases c
  {
    IndexInRange(r, c, m.rows, m.columns);
    MulNonNegative(r, m.columns);
    if c > 0 {
      var base := r * m.columns;
      var line := RowLine(m, r, content, empty);
      RenderedWithinRow(m, content, empty, r, c - 1);
      assert base + (c - 1) == base + c - 1;
      DivMod(r, c, m.columns);
      assert (base + c) % m.columns != 0;
      assert m.contents[base + c - 1] == Get(m, r, c - 1);
      assert line[..c - 1] + [line[c - 1]] == line[..c];
    }
  }

  /** A whole row: its characters, then the newline after its last cell. */
  lemma RenderedRow(m: Matrix, content: char, empty: char, r: int)
    requires Valid(m) && m.columns > 0 && 0 <= r < m.rows
    ensures 0 <= r * m.columns && r * m.columns + m.columns <= |m.contents|
    ensures Rendered(m.contents, m.columns, content, empty, r * m.columns + m.columns) ==
      Rendered(m.contents, m.columns, content, empty, r * m.columns) + RowLine(m, r, content, empty)
  {
    var cols := m.columns;
    var base := r * cols;
    var line := RowLine(m, r, content, empty);
    RenderedWithinRow(m, content, empty, r, cols - 1);
    IndexInRange(r, cols - 1, m.rows, cols);
    var n := base + cols;
    DivMod(r + 1, 0, cols);
    assert (r + 1) * cols + 0 == n;
    assert m.contents[n - 1] == Get(m, r, cols - 1);
    calc {
      Rendered(m.contents, cols, content, empty, n);
      Rendered(m.contents, cols, content, empty, n - 1) + [line[cols - 1]] + "\n";
      Rendered(m.contents, cols, content, empty, base) + line[..cols - 1] + [line[cols - 1]] + "\n";
      { assert line[..cols - 1] + [line[cols - 1]] + "\n" == line; }
      Rendered(m.contents, cols, content, empty, base) + line;
    }
  }

  /** After whole rows, the loop has emitted exactly those rows' lines. */
  lemma {:induction false} RenderedRows(m: Matrix, content: char, empty: char, r: int)
    requires Valid(m) && m.columns > 0 && 0 <= r <= m.rows
    ensures 0 <= r * m.columns <= |m.contents|
    ensures Rendered(m.contents, m.columns, content, empty, r * m.columns) == Join(Lines(m, content, empty)[..r])
  {
    MulNonNegative(r, m.columns);
    MulMonotone(r, m.rows, m.columns);
    if r > 0 {
      var ls := Lines(m, content, empty);
      RenderedRows(m, content, empty, r - 1);
      RenderedRow(m, content, empty, r - 1);
      assert (r - 1) * m.columns + m.columns == r * m.columns;
      assert ls[..r] == ls[..r - 1] + [ls[r - 1]];
      JoinSnoc(ls[..r - 1], ls[r - 1]);
    }
  }

  /** The rendering loop: one character per cell and a newline after every `columns` cells.
      A matrix without columns has no cells and renders as the empty string. */
  method Description(m: Matrix, content: char, empty: char) returns (result: string)
    requires Valid(m)
    ensures m.columns == 0 ==> result == ""
    ensures m.columns > 0 ==> result == Join(Lines(m, content, empty))
  {
    result := "";
    if m.columns == 0 {
      return;
    }
    var index := 0;
    while index < |m.contents|
      invariant 0 <= index <= |m.contents|
      invariant result == Rendered(m.contents, m.columns, content, empty, index)
    {
      var content' := m.contents[index];
      result := result + [CellChar(content', content, empty)];
      if (index + 1) % m.columns == 0 {
        result := result + "\n";
      }
      index := index + 1;
    }
    RenderedRows(m, content, empty, m.rows);
    assert Lines(m, content, empty)[..m.rows] == Lines(m, content, empty);
  }

  /** The rendered text, cell by cell: row r occupies `columns + 1` characters, its cells
      followed by a newline. */
  lemma DescriptionAt(m: Matrix, content: char, empty: char, r: int, c: int)
    requires Valid(m) && m.columns >= 1 && 0 <= r < m.rows && 0 <= c <= m.columns
    ensures var text := Join(Lines(m, content, empty));
      |text| == m.rows * (m.columns + 1) && 0 <= r * (m.columns + 1) + c < |text| &&
      text[r * (m.columns + 1) + c] == if c < m.columns then CellChar(Get(m, r, c), content, empty) else '\n'
  {
    JoinAt(Lines(m, content, empty), m.columns + 1, r, c);
    IndexInRange(r, c, m.rows, m.columns + 1);
  }
}
