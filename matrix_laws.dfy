/** Laws of the matrix transforms (Pentominos/Sources/Pentominos/Matrix.swift): what rotating,
    flipping and shifting keep, when they undo each other, and how shifting behaves on
    shapes that are not aligned to a leading block. */
module MatrixLaws {
  import opened Matrices

  // ---------------------------------------------------------------------------
  // Counting 1-cells through multisets

  lemma {:induction false} FilterOnesCount(s: seq<int>, from: nat)
    requires from <= |s|
    ensures |FilterFrom(s, IsOne, from)| == multiset(s[from..])[1]
    decreases |s| - from
  {
    if from < |s| {
      FilterOnesCount(s, from + 1);
      assert s[from..] == [s[from]] + s[from + 1..];
    }
  }

  /** `size` is the multiplicity of 1 among the cells. */
  lemma CountOnesMultiset(m: Matrix)
    ensures CountOnes(m) == multiset(m.contents)[1]
  {
    FilterOnesCount(m.contents, 0);
    assert m.contents[0..] == m.contents;
  }

  /** Joining rows that are pairwise permutations of each other gives a permutation. */
  lemma {:induction false} JoinMultiset(xs: seq<seq<int>>, ys: seq<seq<int>>)
    requires |xs| == |ys|
    requires forall i :: 0 <= i < |xs| ==> multiset(xs[i]) == multiset(ys[i])
    ensures multiset(Join(xs)) == multiset(Join(ys))
  {
    if xs != [] {
      var n := |xs| - 1;
      JoinMultiset(xs[..n], ys[..n]);
    }
  }

  /** The row chunks joined back are the contents. */
  lemma JoinRowChunks(m: Matrix)
    requires Valid(m) && m.columns >= 1
    ensures Join(RowChunks(m)) == m.contents
  {
    var chunks := RowChunks(m);
    JoinLength(chunks, m.columns);
    forall j | 0 <= j < |m.contents|
      ensures Join(chunks)[j] == m.contents[j]
    {
      Split(j, m.rows, m.columns);
      JoinAt(chunks, m.columns, j / m.columns, j % m.columns);
    }
  }

  lemma {:induction false} ReversedMultiset(s: seq<int>)
    ensures multiset(Reversed(s)) == multiset(s)
    decreases |s|
  {
    if s != [] {
      var n := |s| - 1;
      ReversedMultiset(s[..n]);
      assert Reversed(s) == [s[n]] + Reversed(s[..n]);
      assert s == s[..n] + [s[n]];
    }
  }

  /** `flip()` only permutes the cells, so it keeps `size`. */
  lemma FlippedMultiset(m: Matrix)
    requires Valid(m) && m.columns >= 1
    ensures multiset(Flipped(m).contents) == multiset(m.contents)
    ensures CountOnes(Flipped(m)) == CountOnes(m)
  {
    var chunks := RowChunks(m);
    forall i | 0 <= i < |chunks|
      ensures multiset(FlipRows(chunks)[i]) == multiset(chunks[i])
    {
      ReversedMultiset(chunks[i]);
    }
    JoinMultiset(FlipRows(chunks), chunks);
    JoinRowChunks(m);
    CountOnesMultiset(m);
    CountOnesMultiset(Flipped(m));
  }

  /** The cells of columns `0 ..< k` are all zero. */
  ghost predicate LeadingColumnsZero(m: Matrix, k: int)
    requires Valid(m)
  {
    forall r, c :: InBounds(m, r, c) && c < k ==> Get(m, r, c) == 0
  }

  /** When the columns that the horizontal step removes hold only zeros, shifting only
      permutes the cells, so it keeps `size`. */
  lemma ShiftedMultiset(m: Matrix)
    requires Valid(m) && 1 <= m.rows <= m.columns
    requires LeadingColumnsZero(m, ZeroColumnCount(m))
    ensures multiset(Shifted(m).contents) == multiset(m.contents)
    ensures CountOnes(Shifted(m)) == CountOnes(m)
  {
    var k := ZeroColumnCount(m);
    var chunks := RowChunks(m);
    forall i | 0 <= i < |chunks|
      ensures multiset(ShiftRows(chunks, k)[i]) == multiset(chunks[i])
    {
      var row := chunks[i];
      assert row[..k] == Zeros(k) by {
        forall c | 0 <= c < k
          ensures row[c] == 0
        {
          assert Get(m, i, c) == 0;
        }
      }
      assert row == row[..k] + row[k..];
    }
    JoinMultiset(ShiftRows(chunks, k), chunks);
    JoinRowChunks(m);
    CountOnesMultiset(m);
    CountOnesMultiset(Shifted(m));
  }

  /** One 4-cycle of the rotation only permutes the cells. */
  lemma CycleStepMultiset(o: seq<int>, n: int, cols: int, layer: int, i: int)
    requires 1 <= n <= cols && |o| == n * cols && 0 <= layer <= i < n - 1 - layer
    ensures multiset(Snapshot(o, n, cols, layer, i + 1)) == multiset(Snapshot(o, n, cols, layer, i))
  {
    var top, left := (layer, i), (n - layer - 1 - (i - layer), layer);
    var bottom, right := (n - layer - 1, n - layer - 1 - (i - layer)), (i, n - layer - 1);
    CyclePositions(n, cols, layer, i, top, left, bottom, right);
    var t, l, b, r := top.0 * cols + top.1, left.0 * cols + left.1,
                      bottom.0 * cols + bottom.1, right.0 * cols + right.1;
    var pre := Snapshot(o, n, cols, layer, i);
    RotationStep(pre, o, n, cols, layer, i, t, l, b, r);
    CycleMultiset(pre, t, l, b, r);
  }

  /** The cycles of one ring only permute the cells. */
  lemma LayerMultiset(o: seq<int>, n: int, cols: int, layer: int)
    requires 1 <= n <= cols && |o| == n * cols && 0 <= layer < n - 1 - layer
    ensures multiset(Snapshot(o, n, cols, layer + 1, layer + 1)) == multiset(Snapshot(o, n, cols, layer, layer))
  {
    var i := layer;
    while i < n - 1 - layer
      invariant layer <= i <= n - 1 - layer
      invariant multiset(Snapshot(o, n, cols, layer, i)) == multiset(Snapshot(o, n, cols, layer, layer))
    {
      CycleStepMultiset(o, n, cols, layer, i);
      i := i + 1;
    }
    LayerComplete(o, n, cols, layer);
  }

  /** `rotate()` only permutes the cells: the loop's 4-cycles, replayed on values. */
  lemma RotatedMultiset(m: Matrix)
    requires Valid(m) && m.rows <= m.columns
    ensures multiset(Rotated(m).contents) == multiset(m.contents)
    ensures CountOnes(Rotated(m)) == CountOnes(m)
  {
    var o, n, cols := m.contents, m.rows, m.columns;
    RotationStart(o, n, cols);
    var layers := n / 2;
    var layer := 0;
    while layer < layers
      invariant 0 <= layer <= layers
      invariant multiset(Snapshot(o, n, cols, layer, layer)) == multiset(o)
    {
      LayerMultiset(o, n, cols, layer);
      layer := layer + 1;
    }
    RotationFinished(o, n, cols, layers);
    CountOnesMultiset(m);
    CountOnesMultiset(Rotated(m));
  }

  // ---------------------------------------------------------------------------
  // Undoing the transforms

  /** Four clockwise quarter turns of a square matrix are the identity. */
  lemma RotatedFour(m: Matrix)
    requires Valid(m) && m.rows == m.columns
    ensures Rotated(Rotated(Rotated(Rotated(m)))) == m
  {
    var n := m.rows;
    var m1 := Rotated(m);
    var m2 := Rotated(m1);
    var m3 := Rotated(m2);
    var m4 := Rotated(m3);
    forall r, c | InBounds(m, r, c)
      ensures Get(m4, r, c) == Get(m, r, c)
    {
      assert Get(m4, r, c) == Get(m3, n - 1 - c, r);
      assert Get(m3, n - 1 - c, r) == Get(m2, n - 1 - r, n - 1 - c);
      assert Get(m2, n - 1 - r, n - 1 - c) == Get(m1, c, n - 1 - r);
      assert Get(m1, c, n - 1 - r) == Get(m, r, c);
    }
    Extensionality(m4, m);
  }

  /** Flipping twice is the identity. */
  lemma FlippedTwice(m: Matrix)
    requires Valid(m) && m.columns >= 1
    ensures Flipped(Flipped(m)) == m
  {
    Extensionality(Flipped(Flipped(m)), m);
  }

  // ---------------------------------------------------------------------------
  // Shifting a shape whose zero columns form a leading block

  /** Whether row r / column c holds a non-zero cell. */
  ghost predicate RowHasContent(m: Matrix, r: int)
    requires Valid(m) && 0 <= r < m.rows
  {
    exists c :: 0 <= c < m.columns && Get(m, r, c) != 0
  }

  ghost predicate ColumnHasContent(m: Matrix, c: int)
    requires Valid(m) && 0 <= c < m.columns
  {
    exists r :: 0 <= r < m.rows && Get(m, r, c) != 0
  }

  /** Among the columns `0 ..< rows`, exactly `0 ..< z` are all zero. */
  ghost predicate ZeroColumnsLead(m: Matrix, z: int)
    requires Valid(m) && m.rows <= m.columns
  {
    0 <= z <= m.rows && forall c :: 0 <= c < m.rows ==> (ColumnIsZero(m, c) <==> c < z)
  }

  /** With a leading block of `z` zero columns, the shift is by `z`, keeps `size`, and moves
      the first non-empty column to column 0 of a square matrix. */
  lemma ShiftLeadingBlock(m: Matrix, z: int)
    requires Valid(m) && 1 <= m.rows <= m.columns && ZeroColumnsLead(m, z)
    ensures ZeroColumnCount(m) == z
    ensures CountOnes(Shifted(m)) == CountOnes(m)
    ensures m.rows == m.columns && (exists r, c :: InBounds(m, r, c) && Get(m, r, c) != 0) ==>
      exists r :: 0 <= r < m.rows && Get(Shifted(m), r, 0) != 0
  {
    ZeroColumnsOfLeadingBlock(m, m.rows, z);
    forall r, c | InBounds(m, r, c) && c < z
      ensures Get(m, r, c) == 0
    {
      assert ColumnIsZero(m, c);
    }
    ShiftedMultiset(m);
    if m.rows == m.columns && exists r, c :: InBounds(m, r, c) && Get(m, r, c) != 0 {
      var r, c :| InBounds(m, r, c) && Get(m, r, c) != 0;
      assert !ColumnIsZero(m, c);
      assert z < m.rows;
      assert !ColumnIsZero(m, z);
      var r0 :| 0 <= r0 < m.rows && Get(m, r0, z) != 0;
      assert Get(Shifted(m), r0, 0) != 0;
    }
  }

  /** The shape of `ShiftLosesContent`: a single 1 at row 1, column 0. */
  function LoneCell(): (m: Matrix)
    ensures Valid(m) && m.rows == 3 && m.columns == 3
  {
    Matrix(3, 3, [0, 0, 0, 1, 0, 0, 0, 0, 0])
  }

  lemma LoneCellColumns()
    ensures ZeroColumnCount(LoneCell()) == 2
  {
    var m := LoneCell();
    assert Get(m, 1, 0) == 1;
    assert !ColumnIsZero(m, 0);
    assert ColumnIsZero(m, 1) by {
      assert Get(m, 0, 1) == 0 && Get(m, 1, 1) == 0 && Get(m, 2, 1) == 0;
    }
    assert ColumnIsZero(m, 2) by {
      assert Get(m, 0, 2) == 0 && Get(m, 1, 2) == 0 && Get(m, 2, 2) == 0;
    }
  }

  /** The column count covers all zero columns, not only the leading ones: a shape with empty
      columns to the right of its content is shifted past that content, and its 1 is lost. */
  lemma ShiftLosesContent()
    ensures CountOnes(LoneCell()) == 1 && ZeroColumnCount(LoneCell()) == 2
    ensures CountOnes(Shifted(LoneCell())) == 0
  {
    var m := LoneCell();
    LoneCellColumns();
    var s := Shifted(m);
    forall j | 0 <= j < 9
      ensures s.contents[j] == 0
    {
      Split(j, 3, 3);
      assert Get(s, j / 3, j % 3) == 0;
    }
    assert s.contents == [0, 0, 0, 0, 0, 0, 0, 0, 0];
    assert m.contents == [0, 0, 0] + [1] + [0, 0, 0, 0, 0];
    CountOnesMultiset(m);
    CountOnesMultiset(s);
  }

  /** The vertical step has no effect: a leading all-zero row stays where it is. */
  lemma ShiftKeepsLeadingZeroRow()
    ensures var m := Matrix(2, 2, [0, 0, 1, 1]);
      Valid(m) && LeadingZeroRows(RowChunks(m)) == 1 && Shifted(m) == m
  {
    var m := Matrix(2, 2, [0, 0, 1, 1]);
    var chunks := RowChunks(m);
    assert chunks[0] == [0, 0] && chunks[1] == [1, 1];
    assert !ChunkIsZero(chunks[1]) by { assert chunks[1][0] == 1; }
    assert LeadingZeroRows(chunks[1..]) == 0 by { assert chunks[1..][0] == chunks[1]; }
    assert LeadingZeroRows(chunks) == 1;
    assert !ColumnIsZero(m, 0) by { assert Get(m, 1, 0) == 1; }
    assert !ColumnIsZero(m, 1) by { assert Get(m, 1, 1) == 1; }
    ZeroColumnsOfLeadingBlock(m, 2, 0);
    Extensionality(Shifted(m), m);
  }

  /** The shift is not idempotent: after one shift, the columns vacated on the right count
      again, so a second shift moves the content out. The first shape has a single leading
      empty column, as `ShiftLeadingBlock` asks. */
  lemma ShiftNotIdempotent()
    ensures Shifted(Matrix(2, 2, [0, 1, 0, 1])) == Matrix(2, 2, [1, 0, 1, 0])
    ensures Shifted(Matrix(2, 2, [1, 0, 1, 0])) == Matrix(2, 2, [0, 0, 0, 0])
  {
    ShiftRightColumn();
    ShiftLeftColumn();
  }

  /** One leading empty column: the shift moves every row left by one. */
  lemma ShiftRightColumn()
    ensures Shifted(Matrix(2, 2, [0, 1, 0, 1])) == Matrix(2, 2, [1, 0, 1, 0])
  {
    var m, t := Matrix(2, 2, [0, 1, 0, 1]), Matrix(2, 2, [1, 0, 1, 0]);
    assert Get(m, 0, 0) == 0 && Get(m, 1, 0) == 0 && Get(m, 0, 1) == 1 && Get(m, 1, 1) == 1;
    assert Get(t, 0, 0) == 1 && Get(t, 1, 0) == 1 && Get(t, 0, 1) == 0 && Get(t, 1, 1) == 0;
    ZeroColumnsOfLeadingBlock(m, 2, 1);
    Extensionality(Shifted(m), t);
  }

  /** One trailing empty column: it is counted all the same, and column 0 is shifted out. */
  lemma ShiftLeftColumn()
    ensures Shifted(Matrix(2, 2, [1, 0, 1, 0])) == Matrix(2, 2, [0, 0, 0, 0])
  {
    var m, t := Matrix(2, 2, [1, 0, 1, 0]), Matrix(2, 2, [0, 0, 0, 0]);
    assert Get(m, 0, 0) == 1 && Get(m, 1, 0) == 1 && Get(m, 0, 1) == 0 && Get(m, 1, 1) == 0;
    assert Get(t, 0, 0) == 0 && Get(t, 1, 0) == 0 && Get(t, 0, 1) == 0 && Get(t, 1, 1) == 0;
    assert !ColumnIsZero(m, 0) && ColumnIsZero(m, 1);
    assert ZeroColumnCount(m) == 1;
    Extensionality(Shifted(m), t);
  }

  // ---------------------------------------------------------------------------
  // Shapes aligned to the top-left corner

  /** A square shape whose content spans exactly the `h` x `w` block at the top-left corner:
      nothing outside the block, and no empty row or column inside it. Every catalogue piece
      has this form. */
  ghost predicate Compact(m: Matrix, h: int, w: int)
  {
    Valid(m) && m.rows == m.columns && 0 <= h <= m.rows && 0 <= w <= m.rows
    && (forall r, c :: InBounds(m, r, c) && (r >= h || c >= w) ==> Get(m, r, c) == 0)
    && (forall r :: 0 <= r < h ==> RowHasContent(m, r))
    && (forall c :: 0 <= c < w ==> ColumnHasContent(m, c))
  }

  /** `rotated()` of a piece's contents: rotate, then shift toward the origin. */
  function Turn(m: Matrix): (m': Matrix)
    requires Valid(m) && m.rows == m.columns
    ensures Valid(m') && m'.rows == m.rows && m'.columns == m.columns
  {
    Shifted(Rotated(m))
  }

  /** `flipped()` of a piece's contents: flip, then shift toward the origin. */
  function Mirror(m: Matrix): (m': Matrix)
    requires Valid(m) && m.rows == m.columns
    ensures Valid(m') && m'.rows == m.rows && m'.columns == m.columns
  {
    Shifted(Flipped(m))
  }

  /** After a quarter turn, the zero columns of a compact shape are exactly the first `n - h`. */
  lemma RotatedColumns(m: Matrix, h: int, w: int)
    requires Compact(m, h, w)
    ensures ZeroColumnsLead(Rotated(m), m.rows - h)
  {
    var n, rm := m.rows, Rotated(m);
    forall c | 0 <= c < n
      ensures ColumnIsZero(rm, c) <==> c < n - h
    {
      if c < n - h {
        forall r | 0 <= r < n
          ensures Get(rm, r, c) == 0
        {
          assert Get(rm, r, c) == Get(m, n - 1 - c, r);
        }
      } else {
        assert RowHasContent(m, n - 1 - c);
        var c' :| 0 <= c' < n && Get(m, n - 1 - c, c') != 0;
        assert Get(rm, c', c) != 0;
      }
    }
  }

  /** After a flip, the zero columns of a compact shape are exactly the first `n - w`. */
  lemma FlippedColumns(m: Matrix, h: int, w: int)
    requires Compact(m, h, w)
    ensures ZeroColumnsLead(Flipped(m), m.rows - w)
  {
    var n, fm := m.rows, Flipped(m);
    forall c | 0 <= c < n
      ensures ColumnIsZero(fm, c) <==> c < n - w
    {
      if c < n - w {
        forall r | 0 <= r < n
          ensures Get(fm, r, c) == 0
        {
          assert Get(fm, r, c) == Get(m, r, n - 1 - c);
        }
      } else {
        assert ColumnHasContent(m, n - 1 - c);
        var r :| 0 <= r < n && Get(m, r, n - 1 - c) != 0;
        assert Get(fm, r, c) != 0;
      }
    }
  }

  /** The cells of a quarter turn of a compact `h` x `w` shape: the shape rotated clockwise
      within its own bounding box, now `w` x `h`. */
  lemma TurnCells(m: Matrix, h: int, w: int)
    requires Compact(m, h, w)
    ensures forall r, c :: InBounds(m, r, c) ==>
      Get(Turn(m), r, c) == if r < w && c < h then Get(m, h - 1 - c, r) else 0
  {
    var n, rm, t := m.rows, Rotated(m), Turn(m);
    RotatedColumns(m, h, w);
    ZeroColumnsOfLeadingBlock(rm, n, n - h);
    forall r, c | InBounds(m, r, c)
      ensures Get(t, r, c) == if r < w && c < h then Get(m, h - 1 - c, r) else 0
    {
      if c < h {
        assert Get(t, r, c) == Get(rm, r, c + n - h);
        assert Get(rm, r, c + n - h) == Get(m, h - 1 - c, r);
      }
    }
  }

  /** A quarter turn of a compact `h` x `w` shape is a compact `w` x `h` shape with the same
      number of 1-cells. */
  lemma TurnCompact(m: Matrix, h: int, w: int)
    requires Compact(m, h, w)
    ensures forall r, c :: InBounds(m, r, c) ==>
      Get(Turn(m), r, c) == if r < w && c < h then Get(m, h - 1 - c, r) else 0
    ensures Compact(Turn(m), w, h)
    ensures CountOnes(Turn(m)) == CountOnes(m)
  {
    var n, t := m.rows, Turn(m);
    TurnCells(m, h, w);
    forall r | 0 <= r < w
      ensures RowHasContent(t, r)
    {
      assert ColumnHasContent(m, r);
      var r' :| 0 <= r' < n && Get(m, r', r) != 0;
      assert Get(t, r, h - 1 - r') != 0;
    }
    forall c | 0 <= c < h
      ensures ColumnHasContent(t, c)
    {
      assert RowHasContent(m, h - 1 - c);
      var c' :| 0 <= c' < n && Get(m, h - 1 - c, c') != 0;
      assert Get(t, c', c) != 0;
    }
    TurnCount(m, h, w);
  }

  /** A quarter turn of a compact shape keeps its number of 1-cells. */
  lemma TurnCount(m: Matrix, h: int, w: int)
    requires Compact(m, h, w)
    ensures CountOnes(Turn(m)) == CountOnes(m)
  {
    RotatedColumns(m, h, w);
    ShiftLeadingBlock(Rotated(m), m.rows - h);
    RotatedMultiset(m);
  }

  /** The cells of a flipped compact `h` x `w` shape: the shape mirrored within its own
      bounding box. */
  lemma MirrorCells(m: Matrix, h: int, w: int)
    requires Compact(m, h, w)
    ensures forall r, c :: InBounds(m, r, c) ==>
      Get(Mirror(m), r, c) == if r < h && c < w then Get(m, r, w - 1 - c) else 0
  {
    var n, fm, t := m.rows, Flipped(m), Mirror(m);
    FlippedColumns(m, h, w);
    ZeroColumnsOfLeadingBlock(fm, n, n - w);
    forall r, c | InBounds(m, r, c)
      ensures Get(t, r, c) == if r < h && c < w then Get(m, r, w - 1 - c) else 0
    {
      if c < w {
        assert Get(t, r, c) == Get(fm, r, c + n - w);
      }
    }
  }

  /** A flip of a compact `h` x `w` shape is a compact `h` x `w` shape with the same number
      of 1-cells. */
  lemma MirrorCompact(m: Matrix, h: int, w: int)
    requires Compact(m, h, w)
    ensures forall r, c :: InBounds(m, r, c) ==>
      Get(Mirror(m), r, c) == if r < h && c < w then Get(m, r, w - 1 - c) else 0
    ensures Compact(Mirror(m), h, w)
    ensures CountOnes(Mirror(m)) == CountOnes(m)
  {
    var n, t := m.rows, Mirror(m);
    MirrorCells(m, h, w);
    forall r | 0 <= r < h
      ensures RowHasContent(t, r)
    {
      assert RowHasContent(m, r);
      var c' :| 0 <= c' < n && Get(m, r, c') != 0;
      assert Get(t, r, w - 1 - c') != 0;
    }
    forall c | 0 <= c < w
      ensures ColumnHasContent(t, c)
    {
      assert ColumnHasContent(m, w - 1 - c);
      var r' :| 0 <= r' < n && Get(m, r', w - 1 - c) != 0;
      assert Get(t, r', c) != 0;
    }
    MirrorCount(m, h, w);
  }

  /** A flip of a compact shape keeps its number of 1-cells. */
  lemma MirrorCount(m: Matrix, h: int, w: int)
    requires Compact(m, h, w)
    ensures CountOnes(Mirror(m)) == CountOnes(m)
  {
    FlippedColumns(m, h, w);
    ShiftLeadingBlock(Flipped(m), m.rows - w);
    FlippedMultiset(m);
  }

  /** Two quarter turns of a compact shape turn it half-way within its bounding box. */
  lemma TurnTwice(m: Matrix, h: int, w: int)
    requires Compact(m, h, w)
    ensures Compact(Turn(Turn(m)), h, w)
    ensures forall r, c :: InBounds(m, r, c) ==>
      Get(Turn(Turn(m)), r, c) == if r < h && c < w then Get(m, h - 1 - r, w - 1 - c) else 0
  {
    var t1 := Turn(m);
    TurnCompact(m, h, w);
    var t2 := Turn(t1);
    TurnCompact(t1, w, h);
    forall r, c | InBounds(m, r, c)
      ensures Get(t2, r, c) == if r < h && c < w then Get(m, h - 1 - r, w - 1 - c) else 0
    {
      if r < h && c < w {
        assert Get(t2, r, c) == Get(t1, w - 1 - c, r);
      }
    }
  }

  /** Four quarter turns of a compact shape give the shape back. */
  lemma TurnFour(m: Matrix, h: int, w: int)
    requires Compact(m, h, w)
    ensures Turn(Turn(Turn(Turn(m)))) == m
  {
    var t2 := Turn(Turn(m));
    TurnTwice(m, h, w);
    var t4 := Turn(Turn(t2));
    TurnTwice(t2, h, w);
    forall r, c | InBounds(m, r, c)
      ensures Get(t4, r, c) == Get(m, r, c)
    {
      if r < h && c < w {
        assert Get(t4, r, c) == Get(t2, h - 1 - r, w - 1 - c);
      }
    }
    Extensionality(t4, m);
  }

  /** Flipping a compact shape twice gives the shape back. */
  lemma MirrorTwice(m: Matrix, h: int, w: int)
    requires Compact(m, h, w)
    ensures Mirror(Mirror(m)) == m
  {
    var f1 := Mirror(m);
    MirrorCompact(m, h, w);
    var f2 := Mirror(f1);
    MirrorCompact(f1, h, w);
    forall r, c | InBounds(m, r, c)
      ensures Get(f2, r, c) == Get(m, r, c)
    {
      if r < h && c < w {
        assert Get(f2, r, c) == Get(f1, r, w - 1 - c);
      }
    }
    Extensionality(f2, m);
  }

  /** The cells of a flip after a quarter turn of a compact `h` x `w` shape: the shape
      transposed within its bounding box. */
  lemma MirrorTurnCells(m: Matrix, h: int, w: int)
    requires Compact(m, h, w)
    ensures forall r, c :: InBounds(m, r, c) ==>
      Get(Mirror(Turn(m)), r, c) == if r < w && c < h then Get(m, c, r) else 0
  {
    var t := Turn(m);
    TurnCompact(m, h, w);
    MirrorCells(t, w, h);
    forall r, c | InBounds(m, r, c)
      ensures Get(Mirror(t), r, c) == if r < w && c < h then Get(m, c, r) else 0
    {
      if r < w && c < h {
        assert Get(Mirror(t), r, c) == Get(t, r, h - 1 - c);
      }
    }
  }

  /** The cells of three quarter turns after a flip of a compact `h` x `w` shape: again the
      shape transposed within its bounding box. */
  lemma TurnThriceMirrorCells(m: Matrix, h: int, w: int)
    requires Compact(m, h, w)
    ensures forall r, c :: InBounds(m, r, c) ==>
      Get(Turn(Turn(Turn(Mirror(m)))), r, c) == if r < w && c < h then Get(m, c, r) else 0
  {
    var f := Mirror(m);
    MirrorCompact(m, h, w);
    var t2 := Turn(Turn(f));
    TurnTwice(f, h, w);
    var t3 := Turn(t2);
    TurnCells(t2, h, w);
    forall r, c | InBounds(m, r, c)
      ensures Get(t3, r, c) == if r < w && c < h then Get(m, c, r) else 0
    {
      if r < w && c < h {
        assert Get(t3, r, c) == Get(t2, h - 1 - c, r);
        assert Get(t2, h - 1 - c, r) == Get(f, c, w - 1 - r);
      }
    }
  }

  /** Flipping after a quarter turn is turning three times after a flip: the normalised turns
      and flips of a compact shape generate the symmetries of a square. */
  lemma MirrorTurn(m: Matrix, h: int, w: int)
    requires Compact(m, h, w)
    ensures Mirror(Turn(m)) == Turn(Turn(Turn(Mirror(m))))
  {
    var x, y := Mirror(Turn(m)), Turn(Turn(Turn(Mirror(m))));
    assert forall r, c :: InBounds(m, r, c) ==> Get(x, r, c) == Get(y, r, c) by {
      MirrorTurnCells(m, h, w);
      TurnThriceMirrorCells(m, h, w);
    }
    Extensionality(x, y);
  }
}
