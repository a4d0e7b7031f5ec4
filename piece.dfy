/** A puzzle piece (Pentominos/Sources/Pentominos/Piece.swift; PentominoSolver/Piece.swift is the
    same type without a colour). `Id` is whatever identifies a piece: the identifier
    character, together with the colour in the coloured copy. */
module Pieces {
  import opened Coordinates
  import opened Matrices
  import opened MatrixLaws

  datatype Piece<Id> = Piece(identifier: Id, contents: Matrix)

  /** The pieces the transforms accept: a matrix with at least one row and column, and no more
      rows than columns (`rotate()` indexes past the end of a taller matrix). */
  ghost predicate WellFormed<Id>(p: Piece<Id>)
  {
    Valid(p.contents) && p.contents.rows <= p.contents.columns
  }

  /** `size`: how many cells are 1. */
  function Size<Id>(p: Piece<Id>): (n: nat)
    ensures n == multiset(p.contents.contents)[1]
  {
    CountOnesMultiset(p.contents);
    CountOnes(p.contents)
  }

  /** `hasContentAtOrigin`: reads cell (0, 0), so the matrix needs a column. */
  function HasContentAtOrigin<Id>(p: Piece<Id>): bool
    requires Valid(p.contents) && p.contents.columns >= 1
  {
    Get(p.contents, 0, 0) == 1
  }

  /** `hasContent(at:)`: the subscript reads flat index `row * columns + col`, so any coordinate
      whose flat index is in range is accepted, even one outside the matrix's columns. */
  function HasContent<Id>(p: Piece<Id>, at: Coordinate): (b: bool)
    requires Valid(p.contents) && 0 <= at.Row() * p.contents.columns + at.Col() < |p.contents.contents|
    ensures InBounds(p.contents, at.Row(), at.Col()) ==> (b <==> Get(p.contents, at.Row(), at.Col()) == 1)
  {
    p.contents.contents[at.Row() * p.contents.columns + at.Col()] == 1
  }

  /** The board cell that flat index `i` of the contents covers when the piece's top-left cell is
      at `anchor`: row `i / rows`, column `i % rows`, both dividing by `rows`. */
  function CellAt(anchor: Coordinate, i: int, rows: int): Coordinate
    requires rows >= 1
  {
    At(i / rows + anchor.Row(), i % rows + anchor.Col())
  }

  /** `allCoordinates(fromTopLeft:)`: one coordinate per 1-cell, in row-major order. */
  function AllCoordinates<Id>(p: Piece<Id>, anchor: Coordinate): (cs: seq<Coordinate>)
    requires Valid(p.contents)
    ensures |cs| == |OneIndices(p.contents)|
    ensures forall k :: 0 <= k < |cs| ==> cs[k] == CellAt(anchor, OneIndices(p.contents)[k], p.contents.rows)
  {
    var indices := OneIndices(p.contents);
    seq(|indices|, k requires 0 <= k < |indices| => CellAt(anchor, indices[k], p.contents.rows))
  }

  /** Distinct flat indices give distinct cells. */
  lemma CellAtInjective(anchor: Coordinate, i: int, j: int, rows: int)
    requires rows >= 1 && CellAt(anchor, i, rows) == CellAt(anchor, j, rows)
    ensures i == j
  {
    assert i / rows == j / rows && i % rows == j % rows;
    assert i == rows * (i / rows) + i % rows;
    assert j == rows * (j / rows) + j % rows;
  }

  /** The footprint lists `size` cells, none twice. */
  lemma FootprintDistinct<Id>(p: Piece<Id>, anchor: Coordinate)
    requires Valid(p.contents)
    ensures |AllCoordinates(p, anchor)| == Size(p)
    ensures forall i, j :: 0 <= i < j < |AllCoordinates(p, anchor)| ==>
      AllCoordinates(p, anchor)[i] != AllCoordinates(p, anchor)[j]
  {
    var cs, indices := AllCoordinates(p, anchor), OneIndices(p.contents);
    forall i, j | 0 <= i < j < |cs|
      ensures cs[i] != cs[j]
    {
      if cs[i] == cs[j] {
        CellAtInjective(anchor, indices[i], indices[j], p.contents.rows);
      }
    }
  }

  /** Flat index 0 lands on the anchor. */
  lemma CellAtOrigin(anchor: Coordinate, rows: int)
    requires rows >= 1
    ensures CellAt(anchor, 0, rows) == anchor
  {
  }

  /** With one row, flat index `i` lands `i` rows below the anchor. */
  lemma CellAtRow(anchor: Coordinate, i: int)
    ensures CellAt(anchor, i, 1) == At(i + anchor.Row(), anchor.Col())
  {
  }

  /** The footprint cell at position `k` comes from the `k`-th 1-cell. */
  lemma FootprintAt<Id>(p: Piece<Id>, anchor: Coordinate, k: int)
    requires Valid(p.contents) && 0 <= k < |OneIndices(p.contents)|
    ensures |AllCoordinates(p, anchor)| == |OneIndices(p.contents)|
    ensures AllCoordinates(p, anchor)[k] == CellAt(anchor, OneIndices(p.contents)[k], p.contents.rows)
  {
  }

  /** The anchor is part of the footprint exactly when the origin cell has content. */
  lemma AnchorInFootprint<Id>(p: Piece<Id>, anchor: Coordinate)
    requires Valid(p.contents) && p.contents.columns >= 1
    ensures HasContentAtOrigin(p) <==> anchor in AllCoordinates(p, anchor)
  {
    var cs, indices, rows := AllCoordinates(p, anchor), OneIndices(p.contents), p.contents.rows;
    if HasContentAtOrigin(p) {
      assert p.contents.contents[0] == 1;
      var k :| 0 <= k < |indices| && indices[k] == 0;
      FootprintAt(p, anchor, k);
      CellAtOrigin(anchor, rows);
    }
    if anchor in cs {
      var k :| 0 <= k < |cs| && cs[k] == anchor;
      FootprintAt(p, anchor, k);
      CellAtOrigin(anchor, rows);
      CellAtInjective(anchor, indices[k], 0, rows);
    }
  }

  /** Whether (r, c) lies in the matrix and holds a 1. */
  ghost predicate OneAt(m: Matrix, r: int, c: int)
  {
    Valid(m) && InBounds(m, r, c) && Get(m, r, c) == 1
  }

  /** Each footprint cell comes from some 1-cell. */
  lemma FootprintIndex<Id>(p: Piece<Id>, anchor: Coordinate, q: Coordinate) returns (i: int)
    requires Valid(p.contents) && q in AllCoordinates(p, anchor)
    ensures 0 <= i < |p.contents.contents| && p.contents.contents[i] == 1
    ensures q == CellAt(anchor, i, p.contents.rows)
  {
    var cs := AllCoordinates(p, anchor);
    var k :| 0 <= k < |cs| && cs[k] == q;
    i := OneIndices(p.contents)[k];
  }

  /** A footprint cell of a square piece is a 1-cell, offset by the anchor. */
  lemma SquareFootprintSound<Id>(p: Piece<Id>, anchor: Coordinate, r: int, c: int)
    requires Valid(p.contents) && p.contents.rows == p.contents.columns
    requires At(r + anchor.Row(), c + anchor.Col()) in AllCoordinates(p, anchor)
    ensures OneAt(p.contents, r, c)
  {
    var m, n := p.contents, p.contents.rows;
    var i := FootprintIndex(p, anchor, At(r + anchor.Row(), c + anchor.Col()));
    assert r == i / n && c == i % n;
    Split(i, n, n);
    assert Get(m, r, c) == m.contents[i];
  }

  /** Every 1-cell of a square piece, offset by the anchor, is in the footprint. */
  lemma SquareFootprintComplete<Id>(p: Piece<Id>, anchor: Coordinate, r: int, c: int)
    requires Valid(p.contents) && p.contents.rows == p.contents.columns
    requires OneAt(p.contents, r, c)
    ensures At(r + anchor.Row(), c + anchor.Col()) in AllCoordinates(p, anchor)
  {
    var m, n, indices := p.contents, p.contents.rows, OneIndices(p.contents);
    IndexInRange(r, c, n, n);
    DivMod(r, c, n);
    var i := r * n + c;
    assert m.contents[i] == 1;
    var k :| 0 <= k < |indices| && indices[k] == i;
    FootprintAt(p, anchor, k);
  }

  /** For a square piece the footprint is exactly the 1-cells, offset by the anchor. */
  lemma SquareFootprint<Id>(p: Piece<Id>, anchor: Coordinate, r: int, c: int)
    requires Valid(p.contents) && p.contents.rows == p.contents.columns
    ensures At(r + anchor.Row(), c + anchor.Col()) in AllCoordinates(p, anchor) <==> OneAt(p.contents, r, c)
  {
    if At(r + anchor.Row(), c + anchor.Col()) in AllCoordinates(p, anchor) {
      SquareFootprintSound(p, anchor, r, c);
    }
    if OneAt(p.contents, r, c) {
      SquareFootprintComplete(p, anchor, r, c);
    }
  }

  /** Dividing by `rows` rather than `columns` misplaces the cells of a wide piece: the
      footprint of a one-row piece runs down a single column, so a 1 in its second column lands
      one row below the anchor instead of beside it. */
  lemma WideFootprint<Id>(p: Piece<Id>, anchor: Coordinate)
    requires Valid(p.contents) && p.contents.rows == 1 && p.contents.columns >= 2
    requires Get(p.contents, 0, 1) == 1
    ensures forall k :: 0 <= k < |AllCoordinates(p, anchor)| ==> AllCoordinates(p, anchor)[k].Col() == anchor.Col()
    ensures At(anchor.Row() + 1, anchor.Col()) in AllCoordinates(p, anchor)
    ensures At(anchor.Row(), anchor.Col() + 1) !in AllCoordinates(p, anchor)
  {
    var cs, indices := AllCoordinates(p, anchor), OneIndices(p.contents);
    forall k | 0 <= k < |cs|
      ensures cs[k].Col() == anchor.Col()
    {
      FootprintAt(p, anchor, k);
      CellAtRow(anchor, indices[k]);
    }
    assert p.contents.contents[1] == 1;
    var k :| 0 <= k < |indices| && indices[k] == 1;
    FootprintAt(p, anchor, k);
    CellAtRow(anchor, 1);
  }

  // ---------------------------------------------------------------------------
  // rotate / flip

  /** `rotated(andShiftTowardOrigin:)`: the piece with its contents turned clockwise, then
      shifted toward the origin when `shouldShift`. */
  function RotatedPiece<Id>(p: Piece<Id>, shouldShift: bool): (q: Piece<Id>)
    requires WellFormed(p)
    ensures WellFormed(q) && q.identifier == p.identifier
    ensures q.contents.rows == p.contents.rows && q.contents.columns == p.contents.columns
    ensures q.contents == if shouldShift then Shifted(Rotated(p.contents)) else Rotated(p.contents)
  {
    var turned := Rotated(p.contents);
    p.(contents := if shouldShift then Shifted(turned) else turned)
  }

  /** `flipped(andShiftTowardOrigin:)`: the piece with every row reversed, then shifted toward
      the origin when `shouldShift`. */
  function FlippedPiece<Id>(p: Piece<Id>, shouldShift: bool): (q: Piece<Id>)
    requires WellFormed(p)
    ensures WellFormed(q) && q.identifier == p.identifier
    ensures q.contents.rows == p.contents.rows && q.contents.columns == p.contents.columns
    ensures q.contents == if shouldShift then Shifted(Flipped(p.contents)) else Flipped(p.contents)
  {
    var mirrored := Flipped(p.contents);
    p.(contents := if shouldShift then Shifted(mirrored) else mirrored)
  }

  /** The mutating `rotate(andShiftTowardOrigin:)`: only `contents` changes, first by the
      in-place rotation, then by the shift. */
  method Rotate<Id>(p: Piece<Id>, shouldShift: bool) returns (p': Piece<Id>)
    requires WellFormed(p)
    ensures p' == RotatedPiece(p, shouldShift)
    ensures p'.identifier == p.identifier
  {
    var contents := Matrices.Rotate(p.contents);
    if shouldShift {
      contents := ShiftTowardOrigin(contents);
    }
    p' := p.(contents := contents);
  }

  /** The mutating `flip(andShiftTowardOrigin:)`. */
  method Flip<Id>(p: Piece<Id>, shouldShift: bool) returns (p': Piece<Id>)
    requires WellFormed(p)
    ensures p' == FlippedPiece(p, shouldShift)
    ensures p'.identifier == p.identifier
  {
    var contents := Flipped(p.contents);
    if shouldShift {
      contents := ShiftTowardOrigin(contents);
    }
    p' := p.(contents := contents);
  }

  // ---------------------------------------------------------------------------
  // variations()

  /** `rotated()` with its default `shouldShift: true`. */
  function R<Id>(p: Piece<Id>): (q: Piece<Id>)
    requires WellFormed(p)
    ensures WellFormed(q) && q.identifier == p.identifier
    ensures q.contents.rows == p.contents.rows && q.contents.columns == p.contents.columns
  {
    RotatedPiece(p, true)
  }

  /** The `k`-th entry of the list `variations()` builds: `k` quarter turns of the piece for
      `k < 4`, and `k - 4` quarter turns of its flip for `4 <= k < 8`. */
  function Transform<Id>(p: Piece<Id>, k: nat): (q: Piece<Id>)
    requires WellFormed(p)
    ensures WellFormed(q) && q.identifier == p.identifier
    ensures q.contents.rows == p.contents.rows && q.contents.columns == p.contents.columns
  {
    if k == 0 then p
    else if k == 4 then FlippedPiece(p, true)
    else R(Transform(p, k - 1))
  }

  /** The first `n` entries of that list. */
  function TransformList<Id>(p: Piece<Id>, n: nat): (ts: seq<Piece<Id>>)
    requires WellFormed(p)
    ensures |ts| == n && forall k :: 0 <= k < n ==> ts[k] == Transform(p, k)
  {
    if n == 0 then [] else TransformList(p, n - 1) + [Transform(p, n - 1)]
  }

  /** The eight transforms `variations()` lists, in its order: the turns of the piece, then the
      turns of its flip. */
  function VariationList<Id>(p: Piece<Id>): (vs: seq<Piece<Id>>)
    requires WellFormed(p)
    ensures |vs| == 8 && vs[0] == p
    ensures forall k :: 0 <= k < 8 ==> vs[k] == Transform(p, k)
  {
    TransformList(p, 8)
  }

  /** The first `n` transforms, as a set. */
  function TransformSet<Id(==)>(p: Piece<Id>, n: nat): (v: set<Piece<Id>>)
    requires WellFormed(p)
    ensures |v| <= n
    ensures forall q :: q in v ==>
      WellFormed(q) && q.identifier == p.identifier && q.contents.rows == p.contents.rows && q.contents.columns == p.contents.columns
  {
    if n == 0 then {}
    else
      var before := TransformSet(p, n - 1);
      assert |before + {Transform(p, n - 1)}| <= |before| + 1;
      before + {Transform(p, n - 1)}
  }

  /** The set of the first `n` transforms holds exactly the first `n` entries of the list. */
  lemma {:induction false} TransformSetMembers<Id>(p: Piece<Id>, n: nat)
    requires WellFormed(p)
    ensures forall q :: q in TransformSet(p, n) <==> q in TransformList(p, n)
  {
    if n > 0 {
      TransformSetMembers(p, n - 1);
      assert TransformList(p, n) == TransformList(p, n - 1) + [Transform(p, n - 1)];
    }
  }

  /** `variations()`: the eight transforms, duplicates removed by the set. Each is a
      well-formed piece with the identifier and dimensions of `p`. */
  function Variations<Id(==)>(p: Piece<Id>): (v: set<Piece<Id>>)
    requires WellFormed(p)
    ensures p in v && 1 <= |v| <= 8
    ensures forall q :: q in v ==>
      WellFormed(q) && q.identifier == p.identifier && q.contents.rows == p.contents.rows && q.contents.columns == p.contents.columns
  {
    TransformSetMembers(p, 8);
    assert VariationList(p)[0] == p;
    TransformSet(p, 8)
  }

  /** The variations are exactly the eight transforms of the list. */
  lemma VariationMembers<Id>(p: Piece<Id>)
    requires WellFormed(p)
    ensures forall q :: q in Variations(p) <==> q in VariationList(p)
  {
    TransformSetMembers(p, 8);
  }

  /** A rotation of a compact piece is compact, with its bounding box turned, and keeps `size`. */
  lemma RotatedCompact<Id>(p: Piece<Id>, h: int, w: int)
    requires Compact(p.contents, h, w)
    ensures WellFormed(p)
    ensures Compact(R(p).contents, w, h) && Size(R(p)) == Size(p)
  {
    TurnCompact(p.contents, h, w);
  }

  /** Four `rotated()` calls return a compact piece unchanged. */
  lemma RotatedFourTimes<Id>(p: Piece<Id>, h: int, w: int)
    requires Compact(p.contents, h, w)
    ensures WellFormed(p) && R(R(R(R(p)))) == p
  {
    TurnFour(p.contents, h, w);
  }

  /** A flip of a compact piece is compact, with the same bounding box, and keeps `size`. */
  lemma FlippedCompact<Id>(p: Piece<Id>, h: int, w: int)
    requires Compact(p.contents, h, w)
    ensures WellFormed(p)
    ensures Compact(FlippedPiece(p, true).contents, h, w) && Size(FlippedPiece(p, true)) == Size(p)
  {
    MirrorCompact(p.contents, h, w);
  }

  /** A compact piece of the same size and identifier as `p`, whose bounding box is `p`'s
      `h` x `w` box, upright or turned. */
  ghost predicate Congruent<Id>(q: Piece<Id>, p: Piece<Id>, h: int, w: int)
  {
    q.identifier == p.identifier && Size(q) == Size(p)
    && (Compact(q.contents, h, w) || Compact(q.contents, w, h))
  }

  /** Each of the eight transforms of a compact piece is congruent to it. */
  lemma {:induction false} TransformCongruent<Id>(p: Piece<Id>, h: int, w: int, k: nat)
    requires Compact(p.contents, h, w) && k < 8
    ensures WellFormed(p) && Congruent(Transform(p, k), p, h, w)
  {
    if k == 0 {
      RotatedCompact(p, h, w);
    } else if k == 4 {
      FlippedCompact(p, h, w);
    } else {
      TransformCongruent(p, h, w, k - 1);
      var before := Transform(p, k - 1);
      assert Transform(p, k) == R(before);
      if Compact(before.contents, h, w) {
        RotatedCompact(before, h, w);
      } else {
        RotatedCompact(before, w, h);
      }
    }
  }

  /** Each of the eight listed transforms of a compact piece is congruent to it. */
  lemma ListedCongruent<Id>(p: Piece<Id>, h: int, w: int, q: Piece<Id>)
    requires Compact(p.contents, h, w) && WellFormed(p) && q in VariationList(p)
    ensures Congruent(q, p, h, w)
  {
    var k :| 0 <= k < 8 && VariationList(p)[k] == q;
    TransformCongruent(p, h, w, k);
  }

  /** Every variation of a compact piece is a compact piece of the same size and identifier,
      whose bounding box is the original's or the original's turned. */
  lemma CompactVariations<Id>(p: Piece<Id>, h: int, w: int)
    requires Compact(p.contents, h, w)
    ensures WellFormed(p)
    ensures forall q :: q in Variations(p) ==> Congruent(q, p, h, w)
  {
    RotatedCompact(p, h, w);
    VariationMembers(p);
    forall q | q in Variations(p)
      ensures Congruent(q, p, h, w)
    {
      ListedCongruent(p, h, w, q);
    }
  }

  // ---------------------------------------------------------------------------
  // variations() is closed under rotated() and flipped()

  /** `flipped()` twice returns a compact piece unchanged. */
  lemma FlippedPieceTwice<Id>(p: Piece<Id>, h: int, w: int)
    requires Compact(p.contents, h, w)
    ensures WellFormed(p) && FlippedPiece(FlippedPiece(p, true), true) == p
  {
    MirrorTwice(p.contents, h, w);
  }

  /** `flipped()` after `rotated()` is three `rotated()` calls after `flipped()`. */
  lemma FlippedRotated<Id>(p: Piece<Id>, h: int, w: int)
    requires Compact(p.contents, h, w)
    ensures WellFormed(p) && FlippedPiece(R(p), true) == R(R(R(FlippedPiece(p, true))))
  {
    MirrorTurn(p.contents, h, w);
  }

  /** The entries of the list, spelled out as turns of the piece and of its flip. */
  lemma TransformsNamed<Id>(p: Piece<Id>)
    requires WellFormed(p)
    ensures var f := FlippedPiece(p, true);
      Transform(p, 1) == R(p) && Transform(p, 2) == R(R(p)) && Transform(p, 3) == R(R(R(p)))
      && Transform(p, 4) == f && Transform(p, 5) == R(f) && Transform(p, 6) == R(R(f))
      && Transform(p, 7) == R(R(R(f)))
  {
  }

  /** Where a quarter turn takes the `k`-th transform: one step on within its group of four. */
  function TurnIndex(k: nat): (j: nat)
    requires k < 8
    ensures j < 8 && (j < 4 <==> k < 4)
  {
    if k == 3 || k == 7 then k - 3 else k + 1
  }

  /** Where a flip takes the `k`-th transform: into the other group of four, undoing the turns. */
  function FlipIndex(k: nat): (j: nat)
    requires k < 8
    ensures j < 8 && (j < 4 <==> k >= 4)
  {
    if k == 0 || k == 4 then 4 - k else 8 - k
  }

  /** Four quarter turns give back the piece and its flip. */
  ghost predicate TurnsBack<Id>(p: Piece<Id>)
    requires WellFormed(p)
  {
    R(R(R(R(p)))) == p && R(R(R(R(FlippedPiece(p, true))))) == FlippedPiece(p, true)
  }

  /** A compact piece turns back. */
  lemma CompactTurnsBack<Id>(p: Piece<Id>, h: int, w: int)
    requires Compact(p.contents, h, w)
    ensures WellFormed(p) && TurnsBack(p)
  {
    RotatedFourTimes(p, h, w);
    FlippedCompact(p, h, w);
    RotatedFourTimes(FlippedPiece(p, true), h, w);
  }

  /** A quarter turn of the `k`-th transform is the `TurnIndex(k)`-th, for a piece that turns
      back. */
  lemma TurnedTransform<Id>(p: Piece<Id>, k: nat)
    requires WellFormed(p) && TurnsBack(p) && k < 8
    ensures R(Transform(p, k)) == Transform(p, TurnIndex(k))
  {
    if k == 3 || k == 7 {
      TransformsNamed(p);
    }
  }

  /** Three quarter turns of the `k`-th transform. */
  lemma TurnedThrice<Id>(p: Piece<Id>, k: nat)
    requires WellFormed(p) && TurnsBack(p) && k < 8
    ensures R(R(R(Transform(p, k)))) == Transform(p, TurnIndex(TurnIndex(TurnIndex(k))))
  {
    TurnedTransform(p, k);
    TurnedTransform(p, TurnIndex(k));
    TurnedTransform(p, TurnIndex(TurnIndex(k)));
  }

  /** Whether the `k`-th transform has been turned an even number of times. */
  predicate Upright(k: nat)
  {
    k == 0 || k == 2 || k == 4 || k == 6
  }

  /** The `k`-th transform of a compact piece is compact, its box turned after an odd number of
      quarter turns. */
  lemma {:induction false} TransformCompact<Id>(p: Piece<Id>, h: int, w: int, k: nat)
    requires Compact(p.contents, h, w) && k < 8
    ensures WellFormed(p)
    ensures if Upright(k) then Compact(Transform(p, k).contents, h, w) else Compact(Transform(p, k).contents, w, h)
  {
    if k == 0 {
      RotatedCompact(p, h, w);
    } else if k == 4 {
      FlippedCompact(p, h, w);
    } else {
      TransformCompact(p, h, w, k - 1);
      var before := Transform(p, k - 1);
      assert Transform(p, k) == R(before);
      if Upright(k) {
        RotatedCompact(before, w, h);
      } else {
        RotatedCompact(before, h, w);
      }
    }
  }

  /** Flipping the next transform in a group of four is three turns after flipping this one. */
  lemma FlippedNext<Id>(p: Piece<Id>, h: int, w: int, k: nat)
    requires Compact(p.contents, h, w) && k < 8 && k != 3 && k != 7
    ensures WellFormed(p)
    ensures FlippedPiece(Transform(p, k + 1), true) == R(R(R(FlippedPiece(Transform(p, k), true))))
  {
    TransformCompact(p, h, w, k);
    if Upright(k) {
      FlippedRotated(Transform(p, k), h, w);
    } else {
      FlippedRotated(Transform(p, k), w, h);
    }
  }

  /** Three quarter turns after the flip of the `k - 1`-th transform land on the flip of the
      `k`-th. */
  lemma FlipIndexStep(k: nat)
    requires 0 < k < 8 && k != 4
    ensures TurnIndex(TurnIndex(TurnIndex(FlipIndex(k - 1)))) == FlipIndex(k)
  {
    if k == 1 {
    } else if k == 2 {
    } else if k == 3 {
    } else if k == 5 {
    } else if k == 6 {
    } else {
      assert k == 7;
    }
  }

  /** One step of the flip index: if flipping the `k - 1`-th transform gives the
      `FlipIndex(k - 1)`-th, and flipping the `k`-th is three turns after that, then flipping the
      `k`-th gives the `FlipIndex(k)`-th. */
  lemma FlippedStep<Id>(p: Piece<Id>, k: nat)
    requires WellFormed(p) && TurnsBack(p) && 0 < k < 8 && k != 4
    requires FlippedPiece(Transform(p, k - 1), true) == Transform(p, FlipIndex(k - 1))
    requires FlippedPiece(Transform(p, k), true) == R(R(R(FlippedPiece(Transform(p, k - 1), true))))
    ensures FlippedPiece(Transform(p, k), true) == Transform(p, FlipIndex(k))
  {
    TurnedThrice(p, FlipIndex(k - 1));
    FlipIndexStep(k);
  }

  /** A flip of the `k`-th transform of a compact piece is the `FlipIndex(k)`-th. */
  lemma {:induction false} FlippedTransform<Id>(p: Piece<Id>, h: int, w: int, k: nat)
    requires Compact(p.contents, h, w) && k < 8
    ensures WellFormed(p) && FlippedPiece(Transform(p, k), true) == Transform(p, FlipIndex(k))
  {
    RotatedCompact(p, h, w);
    if k == 4 {
      FlippedPieceTwice(p, h, w);
    } else if k != 0 {
      FlippedTransform(p, h, w, k - 1);
      FlippedNext(p, h, w, k - 1);
      CompactTurnsBack(p, h, w);
      FlippedStep(p, k);
    }
  }

  /** Turning or flipping the `k`-th listed variation of a compact piece gives the
      `TurnIndex(k)`-th or the `FlipIndex(k)`-th. */
  lemma ListedClosed<Id>(p: Piece<Id>, h: int, w: int, k: nat)
    requires Compact(p.contents, h, w) && k < 8
    ensures WellFormed(p)
    ensures R(VariationList(p)[k]) == VariationList(p)[TurnIndex(k)]
    ensures FlippedPiece(VariationList(p)[k], true) == VariationList(p)[FlipIndex(k)]
  {
    CompactTurnsBack(p, h, w);
    TurnedTransform(p, k);
    FlippedTransform(p, h, w, k);
  }

  /** `variations()` of a compact piece is closed under `rotated()` and `flipped()`: turning or
      flipping any variation gives another variation. */
  lemma VariationsClosed<Id>(p: Piece<Id>, h: int, w: int)
    requires Compact(p.contents, h, w)
    ensures WellFormed(p)
    ensures forall q :: q in Variations(p) ==>
      RotatedPiece(q, true) in Variations(p) && FlippedPiece(q, true) in Variations(p)
  {
    RotatedCompact(p, h, w);
    VariationMembers(p);
    var vs := VariationList(p);
    forall q | q in Variations(p)
      ensures RotatedPiece(q, true) in Variations(p) && FlippedPiece(q, true) in Variations(p)
    {
      var k :| 0 <= k < 8 && vs[k] == q;
      ListedClosed(p, h, w, k);
      var turned, flipped := vs[TurnIndex(k)], vs[FlipIndex(k)];
      assert turned in vs && flipped in vs;
    }
  }
}
