/** The depth-first search that places the pieces one after another
    (`_Solver.solution(placingPieces:in:)` in Pentominos/Sources/Pentominos/Solver.swift, and
    `validSolution(placingPieces:in:)` in PentominoSolver/main.swift, the same loop). */
module Search {
  import opened Coordinates
  import opened Matrices
  import opened Pieces
  import opened Boards

  datatype Option<T> = None | Some(value: T)

  /** A `Range<Int>` of piece indices, `lower ..< upper`. */
  datatype IndexRange = IndexRange(lower: int, upper: int)
  {
    predicate IsEmpty() { lower == upper }
    function Count(): int { upper - lower }
  }

  /** `State`: a board and the indices of the pieces still to place. */
  datatype State<Id> = State(board: Board<Id>, remaining: IndexRange)

  /** `CloseAttempt`: the payload of `onCloseAttempt`. */
  datatype CloseAttempt<Id> = CloseAttempt(count: int, board: Board<Id>, finalPiece: Piece<Id>)

  /** One step of a solution: a variation of a piece and where its top-left corner goes. */
  datatype Placement<Id> = Placement(piece: Piece<Id>, anchor: Coordinate)

  /** What the search needs of the pieces: they can be rotated and have a column. */
  ghost predicate PiecesOk<Id>(pieces: seq<Piece<Id>>)
  {
    forall k :: 0 <= k < |pieces| ==> Pieces.WellFormed(pieces[k]) && pieces[k].contents.columns >= 1
  }

  ghost predicate Placeable<Id>(h: seq<Placement<Id>>)
  {
    forall k :: 0 <= k < |h| ==> Valid(h[k].piece.contents) && h[k].piece.contents.columns >= 1
  }

  /** The board after placing `h` in order onto `b0`. */
  ghost function Replay<Id>(b0: Board<Id>, h: seq<Placement<Id>>): (b: Board<Id>)
    requires Boards.WellFormed(b0) && Placeable(h)
    ensures Boards.WellFormed(b) && b.allCoordinates == b0.allCoordinates
    ensures b.width == b0.width && b.height == b0.height
    decreases |h|, 1
  {
    if h == [] then b0 else ReplayLast(b0, h)
  }

  /** `Replay` of a non-empty sequence: its last placement on the board the others reach. */
  ghost function ReplayLast<Id>(b0: Board<Id>, h: seq<Placement<Id>>): (b: Board<Id>)
    requires Boards.WellFormed(b0) && Placeable(h) && h != []
    ensures Boards.WellFormed(b) && b.allCoordinates == b0.allCoordinates
    ensures b.width == b0.width && b.height == b0.height
    decreases |h|, 0
  {
    var n := |h| - 1;
    assert Placeable(h[..n]);
    Placed(Replay(b0, h[..n]), h[n].piece, h[n].anchor)
  }

  /** `h` places `pieces[0]`, `pieces[1]`, … in order, each as one of its variations at an
      anchor that `possibleCoordinates` offers on the board reached so far. */
  ghost predicate Legal<Id>(b0: Board<Id>, pieces: seq<Piece<Id>>, h: seq<Placement<Id>>)
    requires Boards.WellFormed(b0) && PiecesOk(pieces)
    decreases |h|, 1
  {
    |h| <= |pieces| && Placeable(h) && (h != [] ==> LegalLast(b0, pieces, h))
  }

  /** `Legal` of a non-empty history: its front is legal and its last placement puts a
      variation of the next piece at an anchor on offer. */
  ghost predicate LegalLast<Id>(b0: Board<Id>, pieces: seq<Piece<Id>>, h: seq<Placement<Id>>)
    requires Boards.WellFormed(b0) && PiecesOk(pieces) && 1 <= |h| <= |pieces| && Placeable(h)
    decreases |h|, 0
  {
    var n := |h| - 1;
    assert Placeable(h[..n]);
    Legal(b0, pieces, h[..n]) && h[n].piece in Variations(pieces[n]) &&
    h[n].anchor in PossibleCoordinates(Replay(b0, h[..n]), h[n].piece)
  }

  /** The cells covered by the placements. */
  ghost function Covered<Id>(h: seq<Placement<Id>>): set<Coordinate>
    requires Placeable(h)
    decreases |h|
  {
    if h == [] then {}
    else
      var n := |h| - 1;
      assert Placeable(h[..n]);
      Covered(h[..n]) + Footprint(h[n].piece, h[n].anchor)
  }

  function TotalSize<Id>(h: seq<Placement<Id>>): nat
    decreases |h|
  {
    if h == [] then 0 else TotalSize(h[..|h| - 1]) + Size(h[|h| - 1].piece)
  }

  /** Every placement's footprint is part of what the placements cover. */
  lemma {:induction false} FootprintCovered<Id>(h: seq<Placement<Id>>, k: int)
    requires Placeable(h) && 0 <= k < |h|
    ensures Footprint(h[k].piece, h[k].anchor) <= Covered(h)
    decreases |h|
  {
    var n := |h| - 1;
    assert Covered(h) == Covered(h[..n]) + Footprint(h[n].piece, h[n].anchor);
    if k < n {
      assert h[..n][k] == h[k];
      FootprintCovered(h[..n], k);
    }
  }

  /** Every covered cell belongs to some placement's footprint. */
  lemma {:induction false} CoveringPlacement<Id>(h: seq<Placement<Id>>, q: Coordinate) returns (k: int)
    requires Placeable(h) && q in Covered(h)
    ensures 0 <= k < |h| && q in Footprint(h[k].piece, h[k].anchor)
    decreases |h|
  {
    var n := |h| - 1;
    assert Covered(h) == Covered(h[..n]) + Footprint(h[n].piece, h[n].anchor);
    if q in Footprint(h[n].piece, h[n].anchor) {
      k := n;
    } else {
      k := CoveringPlacement(h[..n], q);
      assert h[..n][k] == h[k];
    }
  }

  /** The set arithmetic of one step of `ReplayEmptyCells`. */
  lemma EmptyStep<T>(e0: set<T>, covered: set<T>, fp: set<T>, before: set<T>, after: set<T>, total: int, size: int)
    requires covered <= e0 && before == e0 - covered && |before| == |e0| - total
    requires fp <= before && after == before - fp && |after| == |before| - size
    ensures covered + fp <= e0 && after == e0 - (covered + fp) && |after| == |e0| - (total + size)
  {
  }

  /** Legal placements cover only cells that were empty at the start, and the board they
      reach has exactly the rest of those cells empty, `TotalSize` fewer than at the start. */
  lemma {:induction false} ReplayEmptyCells<Id>(b0: Board<Id>, pieces: seq<Piece<Id>>, h: seq<Placement<Id>>)
    requires Boards.WellFormed(b0) && PiecesOk(pieces) && Legal(b0, pieces, h)
    ensures Covered(h) <= EmptyCoordinates(b0)
    ensures EmptyCoordinates(Replay(b0, h)) == EmptyCoordinates(b0) - Covered(h)
    ensures |EmptyCoordinates(Replay(b0, h))| == |EmptyCoordinates(b0)| - TotalSize(h)
    decreases |h|
  {
    if h != [] {
      var n := |h| - 1;
      var prefix := h[..n];
      var last := h[n];
      ReplayEmptyCells(b0, pieces, prefix);
      var before := Replay(b0, prefix);
      assert Fits(before, last.piece, last.anchor);
      PlacedEmptyCells(before, last.piece, last.anchor);
      assert Covered(h) == Covered(prefix) + Footprint(last.piece, last.anchor);
      assert Replay(b0, h) == Placed(before, last.piece, last.anchor);
      EmptyStep(EmptyCoordinates(b0), Covered(prefix), Footprint(last.piece, last.anchor),
        EmptyCoordinates(before), EmptyCoordinates(Replay(b0, h)), TotalSize(prefix), Size(last.piece));
    }
  }

  /** Placing pieces never checks coverage: a board reached by legal placements still has an
      empty cell exactly when the placed pieces are smaller in total than the input's empty
      cells, however many pieces were placed. */
  lemma UncoveredCells<Id>(b0: Board<Id>, pieces: seq<Piece<Id>>, h: seq<Placement<Id>>)
    requires Boards.WellFormed(b0) && PiecesOk(pieces) && Legal(b0, pieces, h)
    ensures EmptyCoordinates(Replay(b0, h)) != {} <==> TotalSize(h) < |EmptyCoordinates(b0)|
  {
    ReplayEmptyCells(b0, pieces, h);
  }

  /** The last placement of a legal sequence covers cells that were empty on the board before
      it, none of them covered by an earlier placement. */
  lemma LastPlacementFresh<Id>(b0: Board<Id>, pieces: seq<Piece<Id>>, h: seq<Placement<Id>>)
    requires Boards.WellFormed(b0) && PiecesOk(pieces) && Legal(b0, pieces, h) && h != []
    ensures var n := |h| - 1;
      Footprint(h[n].piece, h[n].anchor) !! Covered(h[..n])
      && Covered(h) == Covered(h[..n]) + Footprint(h[n].piece, h[n].anchor)
      && Replay(b0, h) == Placed(Replay(b0, h[..n]), h[n].piece, h[n].anchor)
      && Footprint(h[n].piece, h[n].anchor) <= EmptyCoordinates(Replay(b0, h[..n]))
  {
    var n := |h| - 1;
    var prefix, last := h[..n], h[n];
    ReplayEmptyCells(b0, pieces, prefix);
    var before := Replay(b0, prefix);
    assert Fits(before, last.piece, last.anchor);
    PlacedEmptyCells(before, last.piece, last.anchor);
  }

  lemma DisjointWithin<T>(a: set<T>, b: set<T>, c: set<T>)
    requires a <= c && b !! c
    ensures a !! b
  {
  }

  /** Each placement lies within `cells` and covers no cell an earlier one covers. */
  ghost predicate Fresh<Id>(cells: set<Coordinate>, h: seq<Placement<Id>>)
    requires Placeable(h)
    decreases |h|
  {
    h != [] ==>
      var n := |h| - 1;
      assert Placeable(h[..n]);
      Fresh(cells, h[..n]) && Footprint(h[n].piece, h[n].anchor) <= cells
      && Footprint(h[n].piece, h[n].anchor) !! Covered(h[..n])
  }

  /** Appending a placement that lies within `cells` and avoids the cells covered so far keeps
      a sequence fresh. */
  lemma FreshSnoc<Id>(cells: set<Coordinate>, h: seq<Placement<Id>>)
    requires Placeable(h) && h != [] && Placeable(h[..|h| - 1]) && Fresh(cells, h[..|h| - 1])
    requires Footprint(h[|h| - 1].piece, h[|h| - 1].anchor) <= cells
    requires Footprint(h[|h| - 1].piece, h[|h| - 1].anchor) !! Covered(h[..|h| - 1])
    ensures Fresh(cells, h)
  {
  }

  /** A legal sequence places fresh cells of the board. */
  lemma {:induction false} LegalFresh<Id>(b0: Board<Id>, pieces: seq<Piece<Id>>, h: seq<Placement<Id>>)
    requires Boards.WellFormed(b0) && PiecesOk(pieces) && Legal(b0, pieces, h)
    ensures Fresh(b0.allCoordinates, h)
    decreases |h|
  {
    if h != [] {
      var n := |h| - 1;
      var prefix := h[..n];
      LegalFresh(b0, pieces, prefix);
      LastPlacementFresh(b0, pieces, h);
      assert EmptyCoordinates(Replay(b0, prefix)) <= b0.allCoordinates;
      FreshSnoc(b0.allCoordinates, h);
    }
  }

  /** The `k`-th placement of a legal sequence is a variation of `pieces[k]`, so it carries that
      piece's identifier. */
  lemma {:induction false} LegalIdentifiers<Id>(b0: Board<Id>, pieces: seq<Piece<Id>>, h: seq<Placement<Id>>, k: int)
    requires Boards.WellFormed(b0) && PiecesOk(pieces) && Legal(b0, pieces, h) && 0 <= k < |h|
    ensures k < |pieces| && h[k].piece.identifier == pieces[k].identifier
    decreases |h|
  {
    var n := |h| - 1;
    if k < n {
      var prefix := h[..n];
      assert prefix[k] == h[k];
      LegalIdentifiers(b0, pieces, prefix, k);
    } else {
      assert k == n;
    }
  }

  /** An earlier placement of a fresh sequence shares no cell with the last one. */
  lemma DisjointFromLast<Id>(cells: set<Coordinate>, h: seq<Placement<Id>>, j: int)
    requires Placeable(h) && Fresh(cells, h) && 0 <= j < |h| - 1
    ensures Footprint(h[j].piece, h[j].anchor) !! Footprint(h[|h| - 1].piece, h[|h| - 1].anchor)
  {
    var n := |h| - 1;
    var prefix := h[..n];
    assert Footprint(h[n].piece, h[n].anchor) !! Covered(prefix);
    FootprintCovered(prefix, j);
    assert prefix[j] == h[j];
    DisjointWithin(Footprint(h[j].piece, h[j].anchor), Footprint(h[n].piece, h[n].anchor), Covered(prefix));
  }

  /** Two placements of a fresh sequence cover no common cell. */
  lemma {:induction false} PairDisjoint<Id>(cells: set<Coordinate>, h: seq<Placement<Id>>, j: int, k: int)
    requires Placeable(h) && Fresh(cells, h) && 0 <= j < k < |h|
    ensures Footprint(h[j].piece, h[j].anchor) !! Footprint(h[k].piece, h[k].anchor)
    decreases |h|
  {
    var n := |h| - 1;
    if k < n {
      var prefix := h[..n];
      assert prefix[j] == h[j] && prefix[k] == h[k];
      PairDisjoint(cells, prefix, j, k);
    } else {
      assert k == |h| - 1;
      DisjointFromLast(cells, h, j);
    }
  }

  /** The last placement writes its identifier into the cells it covers... */
  lemma CellOwnedLast<Id>(b0: Board<Id>, h: seq<Placement<Id>>, q: Coordinate)
    requires Boards.WellFormed(b0) && Placeable(h) && Fresh(b0.allCoordinates, h) && h != []
    requires q in Footprint(h[|h| - 1].piece, h[|h| - 1].anchor)
    ensures IsValid(b0, q) && ElementAt(Replay(b0, h), q) == Occupied(h[|h| - 1].piece.identifier)
  {
    var n := |h| - 1;
    var before := Replay(b0, h[..n]);
    assert Replay(b0, h) == Placed(before, h[n].piece, h[n].anchor);
    PlacedCells(before, h[n].piece, h[n].anchor);
    assert q in b0.allCoordinates;
    assert IsValid(before, q);
  }

  /** ...and leaves every other cell as it was. */
  lemma CellKept<Id>(b0: Board<Id>, h: seq<Placement<Id>>, q: Coordinate)
    requires Boards.WellFormed(b0) && Placeable(h) && h != [] && IsValid(b0, q)
    requires q !in Footprint(h[|h| - 1].piece, h[|h| - 1].anchor)
    ensures ElementAt(Replay(b0, h), q) == ElementAt(Replay(b0, h[..|h| - 1]), q)
  {
    var n := |h| - 1;
    var before := Replay(b0, h[..n]);
    assert Replay(b0, h) == Placed(before, h[n].piece, h[n].anchor);
    PlacedCells(before, h[n].piece, h[n].anchor);
    assert IsValid(before, q);
  }

  /** A cell of the `k`-th placement of a fresh sequence holds that placement's identifier on
      the reached board. */
  lemma {:induction false} CellOwned<Id>(b0: Board<Id>, h: seq<Placement<Id>>, k: int, q: Coordinate)
    requires Boards.WellFormed(b0) && Placeable(h) && Fresh(b0.allCoordinates, h)
    requires 0 <= k < |h| && q in Footprint(h[k].piece, h[k].anchor)
    ensures IsValid(b0, q) && ElementAt(Replay(b0, h), q) == Occupied(h[k].piece.identifier)
    decreases |h|
  {
    var n := |h| - 1;
    if k < n {
      var prefix := h[..n];
      assert prefix[k] == h[k];
      CellOwned(b0, prefix, k, q);
      FootprintCovered(prefix, k);
      assert Footprint(h[n].piece, h[n].anchor) !! Covered(prefix);
      CellKept(b0, h, q);
    } else {
      assert k == n;
      CellOwnedLast(b0, h, q);
    }
  }

  /** A cell no placement covers is as on the start board. */
  lemma {:induction false} CellUntouched<Id>(b0: Board<Id>, h: seq<Placement<Id>>, q: Coordinate)
    requires Boards.WellFormed(b0) && Placeable(h) && IsValid(b0, q) && q !in Covered(h)
    ensures ElementAt(Replay(b0, h), q) == ElementAt(b0, q)
    decreases |h|
  {
    if h != [] {
      var n := |h| - 1;
      var prefix := h[..n];
      assert Covered(h) == Covered(prefix) + Footprint(h[n].piece, h[n].anchor);
      CellUntouched(b0, prefix, q);
      CellKept(b0, h, q);
    }
  }

  /** On the board a legal sequence reaches, the `k`-th placement's cells hold `pieces[k]`'s
      identifier, and every other cell is as on the start board. */
  lemma ReplayCells<Id>(b0: Board<Id>, pieces: seq<Piece<Id>>, h: seq<Placement<Id>>, q: Coordinate)
    requires Boards.WellFormed(b0) && PiecesOk(pieces) && Legal(b0, pieces, h) && IsValid(b0, q)
    ensures q in Covered(h) ==>
      exists k :: 0 <= k < |h| && q in Footprint(h[k].piece, h[k].anchor)
        && ElementAt(Replay(b0, h), q) == Occupied(pieces[k].identifier)
    ensures q !in Covered(h) ==> ElementAt(Replay(b0, h), q) == ElementAt(b0, q)
  {
    LegalFresh(b0, pieces, h);
    if q in Covered(h) {
      var k := CoveringPlacement(h, q);
      CellOwned(b0, h, k, q);
      LegalIdentifiers(b0, pieces, h, k);
    } else {
      CellUntouched(b0, h, q);
    }
  }

  // ---------------------------------------------------------------------------
  // The search loop

  /** A state on the stack: its board is reached from the start board by a legal placement
      of the pieces before `remaining`, and `remaining` runs to the end of the list. */
  ghost predicate StateOk<Id>(b0: Board<Id>, pieces: seq<Piece<Id>>, s: State<Id>, h: seq<Placement<Id>>)
    requires Boards.WellFormed(b0) && PiecesOk(pieces)
  {
    0 <= s.remaining.lower <= s.remaining.upper == |pieces| && |h| == s.remaining.lower
    && Legal(b0, pieces, h) && Replay(b0, h) == s.board
  }

  /** `StateOk` as a relation between a state and the history that reaches it. */
  ghost function Reached<Id>(b0: Board<Id>, pieces: seq<Piece<Id>>): (State<Id>, seq<Placement<Id>>) -> bool
    requires Boards.WellFormed(b0) && PiecesOk(pieces)
  {
    (s: State<Id>, h: seq<Placement<Id>>) => StateOk(b0, pieces, s, h)
  }

  /** `ok` holds of every element of `xs` together with the element of `ys` at the same
      position. */
  ghost predicate AllOk<S, H>(ok: (S, H) -> bool, xs: seq<S>, ys: seq<H>)
    decreases |xs|, 1
  {
    |xs| == |ys| && (xs != [] ==> AllOkLast(ok, xs, ys))
  }

  /** `AllOk` of non-empty lists: it holds of the fronts, and `ok` of the last elements. */
  ghost predicate AllOkLast<S, H>(ok: (S, H) -> bool, xs: seq<S>, ys: seq<H>)
    requires |xs| == |ys| && xs != []
    decreases |xs|, 0
  {
    AllOk(ok, xs[..|xs| - 1], ys[..|ys| - 1]) && ok(xs[|xs| - 1], ys[|ys| - 1])
  }

  /** `AllOk` of two stacks gives `AllOk` of their concatenation. */
  lemma {:induction false} AllOkAppend<S, H>(ok: (S, H) -> bool, xs: seq<S>, xh: seq<H>, ys: seq<S>, yh: seq<H>)
    requires AllOk(ok, xs, xh) && AllOk(ok, ys, yh)
    ensures AllOk(ok, xs + ys, xh + yh)
    decreases |ys|
  {
    if ys != [] {
      var n := |ys| - 1;
      assert AllOkLast(ok, ys, yh);
      AllOkAppend(ok, xs, xh, ys[..n], yh[..n]);
      assert (xs + ys)[..|xs + ys| - 1] == xs + ys[..n];
      assert (xh + yh)[..|xh + yh| - 1] == xh + yh[..n];
      assert AllOkLast(ok, xs + ys, xh + yh);
    } else {
      assert xs + ys == xs && xh + yh == xh;
    }
  }

  /** `AllOk` of two lists extended by a pair that is `ok`. */
  lemma AllOkSnoc<S, H>(ok: (S, H) -> bool, xs: seq<S>, ys: seq<H>, x: S, y: H)
    requires AllOk(ok, xs, ys) && ok(x, y)
    ensures AllOk(ok, xs + [x], ys + [y])
  {
    assert (xs + [x])[..|xs|] == xs && (ys + [y])[..|ys|] == ys;
    assert AllOkLast(ok, xs + [x], ys + [y]);
  }

  /** `AllOk`, position by position. */
  lemma {:induction false} AllOkElements<S, H>(ok: (S, H) -> bool, xs: seq<S>, ys: seq<H>)
    requires AllOk(ok, xs, ys)
    ensures |xs| == |ys| && forall i :: 0 <= i < |xs| ==> ok(xs[i], ys[i])
    decreases |xs|
  {
    if xs != [] {
      var n := |xs| - 1;
      assert AllOkLast(ok, xs, ys);
      AllOkElements(ok, xs[..n], ys[..n]);
      assert forall i :: 0 <= i < n ==> xs[..n][i] == xs[i] && ys[..n][i] == ys[i];
    }
  }

  /** The state on top of a stack of reachable states is well formed, and, with no piece left,
      its board is reached by placing every piece. */
  lemma TopOk<Id>(b0: Board<Id>, pieces: seq<Piece<Id>>, stack: seq<State<Id>>, hs: seq<seq<Placement<Id>>>)
    requires Boards.WellFormed(b0) && PiecesOk(pieces) && AllOk(Reached(b0, pieces), stack, hs) && stack != []
    ensures AllOk(Reached(b0, pieces), stack[..|stack| - 1], hs[..|hs| - 1])
    ensures Boards.WellFormed(stack[|stack| - 1].board)
    ensures 0 <= stack[|stack| - 1].remaining.lower <= stack[|stack| - 1].remaining.upper == |pieces|
    ensures stack[|stack| - 1].remaining.IsEmpty() ==>
      exists h :: Legal(b0, pieces, h) && |h| == |pieces| && Replay(b0, h) == stack[|stack| - 1].board
    ensures Reached(b0, pieces)(stack[|stack| - 1], hs[|hs| - 1])
  {
    assert AllOkLast(Reached(b0, pieces), stack, hs);
    var h := hs[|hs| - 1];
    assert Reached(b0, pieces)(stack[|stack| - 1], h);
    assert StateOk(b0, pieces, stack[|stack| - 1], h);
  }

  /** A variation of the next piece can extend a placeable sequence. */
  lemma PlaceableSnoc<Id>(pieces: seq<Piece<Id>>, h: seq<Placement<Id>>, v: Piece<Id>, a: Coordinate)
    requires PiecesOk(pieces) && Placeable(h) && |h| < |pieces|
    requires v in Variations(pieces[|h|])
    ensures Placeable(h + [Placement(v, a)])
  {
  }

  /** Placing a variation of the next piece at an anchor `possibleCoordinates` offers extends a
      legal sequence. */
  lemma LegalSnoc<Id>(b0: Board<Id>, pieces: seq<Piece<Id>>, h: seq<Placement<Id>>, v: Piece<Id>, a: Coordinate)
    requires Boards.WellFormed(b0) && PiecesOk(pieces) && Legal(b0, pieces, h) && |h| < |pieces|
    requires Placeable(h + [Placement(v, a)])
    requires v in Variations(pieces[|h|]) && a in PossibleCoordinates(Replay(b0, h), v)
    ensures Legal(b0, pieces, h + [Placement(v, a)])
    ensures Replay(b0, h + [Placement(v, a)]) == Placed(Replay(b0, h), v, a)
  {
    var h' := h + [Placement(v, a)];
    assert h'[..|h|] == h;
  }

  /** A child pushed by the search is again a legal state, one piece further on. */
  lemma ChildOk<Id>(b0: Board<Id>, pieces: seq<Piece<Id>>, s: State<Id>, h: seq<Placement<Id>>,
                    v: Piece<Id>, a: Coordinate)
    requires Boards.WellFormed(b0) && PiecesOk(pieces) && StateOk(b0, pieces, s, h) && !s.remaining.IsEmpty()
    requires v in Variations(pieces[s.remaining.lower])
    requires a in PossibleCoordinates(s.board, v)
    ensures forall q :: q in AllCoordinates(v, a) ==> IsValid(s.board, q)
    ensures StateOk(b0, pieces,
                    State(Placed(s.board, v, a), IndexRange(s.remaining.lower + 1, s.remaining.upper)),
                    h + [Placement(v, a)])
  {
    PossibleFootprintEmpty(s.board, v, a);
    PlaceableSnoc(pieces, h, v, a);
    LegalSnoc(b0, pieces, h, v, a);
  }

  function Power(b: nat, e: nat): (r: nat)
    ensures b >= 1 ==> r >= 1
  {
    if e == 0 then 1 else b * Power(b, e - 1)
  }

  function Weight<Id>(s: State<Id>, base: nat): nat
  {
    Power(base, if s.remaining.lower <= s.remaining.upper then s.remaining.upper - s.remaining.lower else 0)
  }

  /** The termination measure: each state weighs `base` to the number of pieces it has left. */
  function Potential<Id>(stack: seq<State<Id>>, base: nat): nat
    decreases |stack|
  {
    if stack == [] then 0 else Potential(stack[..|stack| - 1], base) + Weight(stack[|stack| - 1], base)
  }

  lemma PushPotential<Id>(stack: seq<State<Id>>, s: State<Id>, base: nat)
    ensures Potential(stack + [s], base) == Potential(stack, base) + Weight(s, base)
  {
    assert (stack + [s])[..|stack|] == stack;
  }

  /** Pushing states that each have `c` pieces left adds `base` to the `c` for each. */
  lemma {:induction false} AppendPotential<Id>(stack: seq<State<Id>>, more: seq<State<Id>>, base: nat, c: nat)
    requires forall i :: 0 <= i < |more| ==> more[i].remaining.upper - more[i].remaining.lower == c
    ensures Potential(stack + more, base) == Potential(stack, base) + |more| * Power(base, c)
    decreases |more|
  {
    if more != [] {
      var n := |more| - 1;
      var front := stack + more[..n];
      var p := Power(base, c);
      assert Potential(front, base) == Potential(stack, base) + n * p by {
        AppendPotential(stack, more[..n], base, c);
      }
      assert Potential(stack + more, base) == Potential(front, base) + p by {
        assert stack + more == front + [more[n]];
        PushPotential(front, more[n], base);
      }
      AddOneMore(Potential(stack, base), Potential(front, base), Potential(stack + more, base), |more|, p);
    } else {
      assert stack + more == stack;
    }
  }

  /** Expanding a state with `c` pieces left pushes fewer than `base` states with `c - 1` left,
      so the stack's potential drops. */
  lemma ExpansionDecreases(pushed: nat, base: nat, c: nat)
    requires c >= 1 && pushed < base
    ensures pushed * Power(base, c - 1) < Power(base, c)
  {
    assert Power(base, c) == base * Power(base, c - 1);
    MulStrict(pushed, base, Power(base, c - 1));
  }

  /** Popping a state lowers the potential. */
  lemma PopPotential<Id>(stack: seq<State<Id>>, base: nat)
    requires base >= 1 && stack != []
    ensures Potential(stack[..|stack| - 1], base) < Potential(stack, base)
  {
  }

  /** Replacing the top state, with `c >= 1` pieces left, by fewer than `base` states with
      `c - 1` left lowers the potential. */
  lemma ExpandPotential<Id>(stack: seq<State<Id>>, children: seq<State<Id>>, base: nat)
    requires stack != [] && |children| < base
    requires 0 <= stack[|stack| - 1].remaining.lower < stack[|stack| - 1].remaining.upper
    requires forall i :: 0 <= i < |children| ==>
      children[i].remaining == IndexRange(stack[|stack| - 1].remaining.lower + 1, stack[|stack| - 1].remaining.upper)
    ensures Potential(stack[..|stack| - 1] + children, base) < Potential(stack, base)
  {
    var rest, s := stack[..|stack| - 1], stack[|stack| - 1];
    var c := s.remaining.upper - s.remaining.lower;
    AppendPotential(rest, children, base, c - 1);
    ExpansionDecreases(|children|, base, c);
    TopPotential(stack, base);
  }

  /** The potential of a stack is that of the states below the top plus the top's weight. */
  lemma TopPotential<Id>(stack: seq<State<Id>>, base: nat)
    requires stack != [] && stack[|stack| - 1].remaining.lower <= stack[|stack| - 1].remaining.upper
    ensures Potential(stack, base) == Potential(stack[..|stack| - 1], base)
      + Power(base, stack[|stack| - 1].remaining.upper - stack[|stack| - 1].remaining.lower)
  {
  }

  lemma AddOneMore(start: int, front: int, all: int, m: nat, p: int)
    requires m >= 1 && front == start + (m - 1) * p && all == front + p
    ensures all == start + m * p
  {
  }

  lemma MulSucc(m: nat, p: nat)
    requires m >= 1
    ensures m * p == (m - 1) * p + p
  {
  }

  lemma MulMono(a: nat, b: nat, p: nat)
    requires a <= b
    ensures a * p <= b * p
  {
  }

  lemma MulStrict(a: nat, b: nat, p: nat)
    requires a < b && p >= 1
    ensures a * p < b * p
  {
  }

  /** The state reached from `s` by placing variation `v` of the next piece at `a`. */
  function Child<Id>(s: State<Id>, v: Piece<Id>, a: Coordinate): State<Id>
    requires Boards.WellFormed(s.board) && Valid(v.contents)
  {
    State(Placed(s.board, v, a), IndexRange(s.remaining.lower + 1, s.remaining.upper))
  }

  /** `children[i]` places `v` at `placements[i].anchor`, the anchors are distinct, and each is
      one of `anchors`. */
  ghost predicate OnePerAnchor<Id>(s: State<Id>, v: Piece<Id>, children: seq<State<Id>>,
                                   placements: seq<Placement<Id>>, anchors: set<Coordinate>)
    requires Boards.WellFormed(s.board) && Valid(v.contents)
  {
    |children| == |placements|
    && (forall i :: 0 <= i < |placements| ==>
          placements[i].piece == v && placements[i].anchor in anchors
          && children[i] == Child(s, v, placements[i].anchor))
    && (forall i, j :: 0 <= i < j < |placements| ==> placements[i].anchor != placements[j].anchor)
  }

  /** Recording the child at a new anchor `a` keeps `OnePerAnchor`, with `a` added. */
  lemma OnePerAnchorSnoc<Id>(s: State<Id>, v: Piece<Id>, children: seq<State<Id>>,
                             placements: seq<Placement<Id>>, anchors: set<Coordinate>, a: Coordinate)
    requires Boards.WellFormed(s.board) && Valid(v.contents)
    requires OnePerAnchor(s, v, children, placements, anchors) && a !in anchors
    ensures OnePerAnchor(s, v, children + [Child(s, v, a)], placements + [Placement(v, a)], anchors + {a})
  {
    var cs, ps := children + [Child(s, v, a)], placements + [Placement(v, a)];
    forall i, j | 0 <= i < j < |ps|
      ensures ps[i].anchor != ps[j].anchor
    {
      assert ps[i] == placements[i];
      if j < |placements| {
        assert ps[j] == placements[j];
      }
    }
  }

  /** What the inner loop has recorded for the anchors `done`: every child is legal, there is
      one child per anchor, and every anchor's child is among them. */
  ghost predicate Recorded<Id>(pieces: seq<Piece<Id>>, s: State<Id>, v: Piece<Id>, children: seq<State<Id>>,
                               placements: seq<Placement<Id>>, done: set<Coordinate>)
    requires PiecesOk(pieces) && Boards.WellFormed(s.board) && Valid(v.contents)
  {
    AllOk(ChildOf(pieces, s), children, placements) && OnePerAnchor(s, v, children, placements, done)
    && forall a :: a in done ==> Child(s, v, a) in children
  }

  /** One pass of the inner loop: recording the child at a new possible anchor `a` keeps every
      recorded child legal, one per anchor, and every done anchor's child recorded. */
  lemma RecordChild<Id>(pieces: seq<Piece<Id>>, s: State<Id>, v: Piece<Id>, children: seq<State<Id>>,
                        placements: seq<Placement<Id>>, done: set<Coordinate>, a: Coordinate)
    requires PiecesOk(pieces) && Boards.WellFormed(s.board) && 0 <= s.remaining.lower < |pieces|
    requires v in Variations(pieces[s.remaining.lower])
    requires a in PossibleCoordinates(s.board, v) && a !in done
    requires Recorded(pieces, s, v, children, placements, done)
    ensures Recorded(pieces, s, v, children + [Child(s, v, a)], placements + [Placement(v, a)], done + {a})
  {
    var cs, ps := children + [Child(s, v, a)], placements + [Placement(v, a)];
    assert IsChild(pieces, s, Child(s, v, a), v, a);
    OnePerAnchorSnoc(s, v, children, placements, done, a);
    assert cs[..|cs| - 1] == children && ps[..|ps| - 1] == placements;
    assert AllOkLast(ChildOf(pieces, s), cs, ps);
  }

  /** The body of the inner loop: copy the board, place `v` at anchor `a` and pair the board
      with the remaining indices minus the first. */
  method PlaceChild<Id>(s: State<Id>, v: Piece<Id>, a: Coordinate) returns (child: State<Id>)
    requires Boards.WellFormed(s.board) && Valid(v.contents) && v.contents.columns >= 1
    requires a in PossibleCoordinates(s.board, v)
    ensures child == Child(s, v, a)
  {
    PossibleFootprintEmpty(s.board, v, a);
    var updatedBoard := Place(s.board, v, a);
    child := State(updatedBoard, IndexRange(s.remaining.lower + 1, s.remaining.upper));
  }

  /** The inner loop of the expansion: one child per anchor `possibleCoordinates` offers for
      the variation `v` of the next piece, pushed in an arbitrary order. `placements` records
      the variation and anchor that give each child. */
  method PlaceVariation<Id>(s: State<Id>, v: Piece<Id>, ghost pieces: seq<Piece<Id>>)
    returns (children: seq<State<Id>>, ghost placements: seq<Placement<Id>>)
    requires PiecesOk(pieces) && Boards.WellFormed(s.board) && 0 <= s.remaining.lower < |pieces|
    requires v in Variations(pieces[s.remaining.lower])
    ensures |children| == |PossibleCoordinates(s.board, v)| <= |s.board.allCoordinates|
    ensures Recorded(pieces, s, v, children, placements, PossibleCoordinates(s.board, v))
  {
    var possibleCoordinates := PossibleCoordinates(s.board, v);
    var anchorsLeft := possibleCoordinates;
    ghost var done: set<Coordinate> := {};
    children, placements := [], [];
    while anchorsLeft != {}
      invariant anchorsLeft <= possibleCoordinates && done == possibleCoordinates - anchorsLeft
      invariant |children| == |possibleCoordinates| - |anchorsLeft|
      invariant Recorded(pieces, s, v, children, placements, done)
      decreases |anchorsLeft|
    {
      var possibleCoordinate :| possibleCoordinate in anchorsLeft;
      anchorsLeft := anchorsLeft - {possibleCoordinate};
      var child := PlaceChild(s, v, possibleCoordinate);
      RecordChild(pieces, s, v, children, placements, done, possibleCoordinate);
      children := children + [child];
      placements := placements + [Placement(v, possibleCoordinate)];
      done := done + {possibleCoordinate};
    }
    SubsetSize(possibleCoordinates, s.board.allCoordinates);
  }

  /** `c` is the state reached from `s` by placing variation `v` of the next piece at an anchor
      `a` that `possibleCoordinates` offers. */
  ghost predicate IsChild<Id>(pieces: seq<Piece<Id>>, s: State<Id>, c: State<Id>, v: Piece<Id>, a: Coordinate)
    requires PiecesOk(pieces)
  {
    Boards.WellFormed(s.board) && 0 <= s.remaining.lower < |pieces|
    && v in Variations(pieces[s.remaining.lower]) && a in PossibleCoordinates(s.board, v) && c == Child(s, v, a)
  }

  /** `IsChild` as a relation between a state and the placement that produces it. */
  ghost function ChildOf<Id>(pieces: seq<Piece<Id>>, s: State<Id>): (State<Id>, Placement<Id>) -> bool
    requires PiecesOk(pieces)
  {
    (c: State<Id>, p: Placement<Id>) => IsChild(pieces, s, c, p.piece, p.anchor)
  }

  /** `ok` of every pair of elements at the same position gives `AllOk`. */
  lemma {:induction false} AllOkPointwise<S, H>(ok: (S, H) -> bool, xs: seq<S>, ys: seq<H>)
    requires |xs| == |ys| && forall i :: 0 <= i < |xs| ==> ok(xs[i], ys[i])
    ensures AllOk(ok, xs, ys)
    decreases |xs|
  {
    if xs != [] {
      var n := |xs| - 1;
      AllOkPointwise(ok, xs[..n], ys[..n]);
      assert AllOkLast(ok, xs, ys);
    }
  }

  /** Children of `s`, with the histories that reach them, are legal states one piece further
      on. */
  lemma {:induction false} ChildrenOk<Id>(b0: Board<Id>, pieces: seq<Piece<Id>>, s: State<Id>, h: seq<Placement<Id>>,
                                          children: seq<State<Id>>, placements: seq<Placement<Id>>,
                                          hs: seq<seq<Placement<Id>>>)
    requires Boards.WellFormed(b0) && PiecesOk(pieces) && StateOk(b0, pieces, s, h) && !s.remaining.IsEmpty()
    requires AllOk(ChildOf(pieces, s), children, placements) && |hs| == |children|
    requires forall i :: 0 <= i < |children| ==> hs[i] == h + [placements[i]]
    ensures AllOk(Reached(b0, pieces), children, hs)
    decreases |children|
  {
    if children != [] {
      var n := |children| - 1;
      assert AllOkLast(ChildOf(pieces, s), children, placements);
      ChildrenOk(b0, pieces, s, h, children[..n], placements[..n], hs[..n]);
      var v, a := placements[n].piece, placements[n].anchor;
      assert IsChild(pieces, s, children[n], v, a);
      ChildOk(b0, pieces, s, h, v, a);
      assert children[n] == Child(s, v, a) && hs[n] == h + [Placement(v, a)];
      assert Reached(b0, pieces)(children[n], hs[n]);
      assert AllOkLast(Reached(b0, pieces), children, hs);
    }
  }

  /** Children of `s` have one piece fewer left. */
  lemma {:induction false} ChildrenRemaining<Id>(pieces: seq<Piece<Id>>, s: State<Id>, children: seq<State<Id>>,
                                                 placements: seq<Placement<Id>>)
    requires PiecesOk(pieces) && AllOk(ChildOf(pieces, s), children, placements)
    ensures forall i :: 0 <= i < |children| ==>
      children[i].remaining == IndexRange(s.remaining.lower + 1, s.remaining.upper)
    decreases |children|
  {
    if children != [] {
      var n := |children| - 1;
      assert AllOkLast(ChildOf(pieces, s), children, placements);
      ChildrenRemaining(pieces, s, children[..n], placements[..n]);
      assert IsChild(pieces, s, children[n], placements[n].piece, placements[n].anchor);
      forall i | 0 <= i < |children|
        ensures children[i].remaining == IndexRange(s.remaining.lower + 1, s.remaining.upper)
      {
        if i < n {
          assert children[i] == children[..n][i];
        }
      }
    }
  }

  /** The body of the search loop after `removeFirst`: every variation of the next piece at
      every anchor `possibleCoordinates` offers for it, in an arbitrary order. `placements`
      records the variation and anchor that give each child. */
  method Expand<Id(==)>(pieces: seq<Piece<Id>>, s: State<Id>)
    returns (children: seq<State<Id>>, ghost placements: seq<Placement<Id>>)
    requires PiecesOk(pieces) && Boards.WellFormed(s.board) && 0 <= s.remaining.lower < |pieces|
    ensures |children| == |placements| <= 8 * |s.board.allCoordinates|
    ensures AllOk(ChildOf(pieces, s), children, placements)
    ensures forall v, a :: v in Variations(pieces[s.remaining.lower]) && a in PossibleCoordinates(s.board, v) ==>
      Child(s, v, a) in children
  {
    var allVariations := Variations(pieces[s.remaining.lower]);
    var variationsLeft := allVariations;
    ghost var cells, done := |s.board.allCoordinates|, 0;
    children, placements := [], [];
    while variationsLeft != {}
      invariant variationsLeft <= allVariations
      invariant done == |allVariations| - |variationsLeft|
      invariant |children| == |placements| <= done * cells
      invariant AllOk(ChildOf(pieces, s), children, placements)
      invariant AnchorsCovered(s, allVariations - variationsLeft, children)
      decreases |variationsLeft|
    {
      var piece :| piece in variationsLeft;
      var more, morePlacements := PlaceVariation(s, piece, pieces);
      CoverVariation(pieces, s, allVariations - variationsLeft, piece, children, placements, more, morePlacements);
      MulSucc(done + 1, cells);
      RemoveOne(variationsLeft, piece);
      variationsLeft := variationsLeft - {piece};
      done := done + 1;
      children, placements := children + more, placements + morePlacements;
    }
    assert allVariations - variationsLeft == allVariations;
    MulMono(done, 8, cells);
  }

  /** Every anchor of every variation in `vs` has its child among `children`. */
  ghost predicate AnchorsCovered<Id>(s: State<Id>, vs: set<Piece<Id>>, children: seq<State<Id>>)
    requires Boards.WellFormed(s.board)
    requires forall v :: v in vs ==> Valid(v.contents) && v.contents.columns >= 1
  {
    forall v, a :: v in vs && a in PossibleCoordinates(s.board, v) ==> Child(s, v, a) in children
  }

  /** One pass of the outer loop: appending the children of one more variation keeps every
      child legal and covers that variation's anchors too. */
  lemma CoverVariation<Id>(pieces: seq<Piece<Id>>, s: State<Id>, vs: set<Piece<Id>>, v: Piece<Id>,
                           children: seq<State<Id>>, placements: seq<Placement<Id>>,
                           more: seq<State<Id>>, morePlacements: seq<Placement<Id>>)
    requires PiecesOk(pieces) && Boards.WellFormed(s.board) && 0 <= s.remaining.lower < |pieces|
    requires vs <= Variations(pieces[s.remaining.lower]) && v in Variations(pieces[s.remaining.lower])
    requires AllOk(ChildOf(pieces, s), children, placements) && AnchorsCovered(s, vs, children)
    requires Recorded(pieces, s, v, more, morePlacements, PossibleCoordinates(s.board, v))
    ensures AllOk(ChildOf(pieces, s), children + more, placements + morePlacements)
    ensures AnchorsCovered(s, vs + {v}, children + more)
  {
    AllOkAppend(ChildOf(pieces, s), children, placements, more, morePlacements);
  }

  /** `Expand` on the state on top of a stack of reachable states: replacing it by its
      children, with the histories that reach them, keeps every entry reachable. The children
      have one piece fewer left, and there are at most eight per cell of the board. */
  method Successors<Id(==)>(pieces: seq<Piece<Id>>, s: State<Id>, ghost b0: Board<Id>,
                            ghost stack: seq<State<Id>>, ghost hs: seq<seq<Placement<Id>>>)
    returns (children: seq<State<Id>>, ghost childHistories: seq<seq<Placement<Id>>>)
    requires Boards.WellFormed(b0) && PiecesOk(pieces) && AllOk(Reached(b0, pieces), stack, hs)
    requires stack != [] && s == stack[|stack| - 1] && !s.remaining.IsEmpty()
    ensures AllOk(Reached(b0, pieces), stack[..|stack| - 1] + children, hs[..|hs| - 1] + childHistories)
    ensures |children| <= 8 * |b0.allCoordinates|
    ensures forall i :: 0 <= i < |children| ==>
      children[i].remaining == IndexRange(s.remaining.lower + 1, s.remaining.upper)
  {
    assert AllOkLast(Reached(b0, pieces), stack, hs);
    ghost var h := hs[|hs| - 1];
    assert Reached(b0, pieces)(s, h);
    ghost var placements;
    children, placements := Expand(pieces, s);
    childHistories := seq(|children|, i requires 0 <= i < |children| => h + [placements[i]]);
    ChildrenOk(b0, pieces, s, h, children, placements, childHistories);
    ChildrenRemaining(pieces, s, children, placements);
    AllOkAppend(Reached(b0, pieces), stack[..|stack| - 1], hs[..|hs| - 1], children, childHistories);
  }

  /** Taking a member out of a finite set leaves one fewer. */
  lemma RemoveOne<T>(a: set<T>, x: T)
    requires x in a
    ensures |a - {x}| == |a| - 1
  {
  }

  /** `_Solver.solution(placingPieces:in:)`: depth-first search over states, using the list as
      a stack (`popLast`/`append`) and `seen` to skip states already expanded. The order in
      which a `Set` is walked and `shuffled()` is modelled by an arbitrary choice. `expanded`
      records the states expanded, in order; the close attempts are those `onCloseAttempt`
      receives, in order. */
  method Solution<Id(==)>(pieces: seq<Piece<Id>>, board: Board<Id>)
    returns (result: Option<Board<Id>>, attempts: seq<CloseAttempt<Id>>,
             ghost expanded: seq<State<Id>>, ghost reachedBy: seq<seq<Placement<Id>>>)
    requires Boards.WellFormed(board) && PiecesOk(pieces)
    ensures |pieces| == 0 ==> result == Some(board)
    ensures result.Some? ==>
      exists h :: Legal(board, pieces, h) && |h| == |pieces| && Replay(board, h) == result.value
    ensures Explored(|pieces|, expanded) && AllOk(Reached(board, pieces), expanded, reachedBy)
    ensures attempts == CloseAttempts(pieces, expanded)
  {
    var start := State(board, IndexRange(0, |pieces|));
    var deque := [start];
    ghost var histories: seq<seq<Placement<Id>>> := [[]];
    var seen: set<State<Id>> := {};
    var closeAttemptCounter := 0;
    attempts, expanded, reachedBy := [], [], [];
    ghost var base := 8 * |board.allCoordinates| + 1;
    while deque != []
      invariant AllOk(Reached(board, pieces), deque, histories)
      invariant |pieces| == 0 ==> deque == [start]
      invariant closeAttemptCounter == |attempts|
      invariant seen == Seen(expanded)
      invariant Explored(|pieces|, expanded) && AllOk(Reached(board, pieces), expanded, reachedBy)
      invariant attempts == CloseAttempts(pieces, expanded)
      decreases Potential(deque, base)
    {
      var status := deque[|deque| - 1];
      ghost var stack, stackHistories := deque, histories;
      TopOk(board, pieces, deque, histories);
      ghost var h := histories[|histories| - 1];
      PopPotential(deque, base);
      deque := deque[..|deque| - 1];
      histories := histories[..|histories| - 1];
      if status.remaining.IsEmpty() {
        result := Some(status.board);
        return;
      }
      if !HasIslandSquare(status.board) && status !in seen {
        ExploreStep(pieces, expanded, attempts, status);
        AllOkSnoc(Reached(board, pieces), expanded, reachedBy, status, h);
        seen := seen + {status};
        expanded, reachedBy := expanded + [status], reachedBy + [h];
        if status.remaining.Count() <= 1 {
          closeAttemptCounter := closeAttemptCounter + 1;
          attempts := attempts + [CloseAttempt(closeAttemptCounter, status.board, pieces[status.remaining.lower])];
        }
        var children, childHistories := Successors(pieces, status, board, stack, stackHistories);
        ExpandPotential(stack, children, base);
        deque := deque + children;
        histories := histories + childHistories;
      }
    }
    result := None;
  }

  /** The states in `expanded`, as the set `seen` collects them. */
  ghost function Seen<Id>(expanded: seq<State<Id>>): set<State<Id>>
    decreases |expanded|
  {
    if expanded == [] then {} else Seen(expanded[..|expanded| - 1]) + {expanded[|expanded| - 1]}
  }

  /** `Seen` holds exactly the states of the sequence. */
  lemma {:induction false} SeenElements<Id>(expanded: seq<State<Id>>)
    ensures forall t :: t in Seen(expanded) <==> t in expanded
    decreases |expanded|
  {
    if expanded != [] {
      var m := |expanded| - 1;
      SeenElements(expanded[..m]);
      assert expanded == expanded[..m] + [expanded[m]];
    }
  }

  /** The states expanded so far, for `n` pieces: none twice, and each well formed, without an
      island square, and with pieces left out of the `n`. */
  ghost predicate Explored<Id>(n: nat, expanded: seq<State<Id>>)
    decreases |expanded|, 1
  {
    expanded != [] ==> ExploredLast(n, expanded)
  }

  /** `Explored` of a non-empty sequence: it holds of the front, and the last state is new,
      well formed, without an island square, and has pieces left. */
  ghost predicate ExploredLast<Id>(n: nat, expanded: seq<State<Id>>)
    requires expanded != []
    decreases |expanded|, 0
  {
    var s := expanded[|expanded| - 1];
    Explored(n, expanded[..|expanded| - 1]) && s !in Seen(expanded[..|expanded| - 1])
    && Boards.WellFormed(s.board) && !HasIslandSquare(s.board)
    && 0 <= s.remaining.lower < s.remaining.upper == n
  }

  /** `Explored`, position by position. */
  lemma {:induction false} ExploredAll<Id>(n: nat, expanded: seq<State<Id>>)
    requires Explored(n, expanded)
    ensures forall i, j :: 0 <= i < j < |expanded| ==> expanded[i] != expanded[j]
    ensures forall i :: 0 <= i < |expanded| ==>
      Boards.WellFormed(expanded[i].board) && !HasIslandSquare(expanded[i].board)
      && 0 <= expanded[i].remaining.lower < expanded[i].remaining.upper == n
    decreases |expanded|
  {
    if expanded != [] {
      var m := |expanded| - 1;
      var front := expanded[..m];
      assert ExploredLast(n, expanded);
      ExploredAll(n, front);
      SeenElements(front);
      forall i | 0 <= i < m
        ensures expanded[i] == front[i]
      {
      }
    }
  }

  /** Expanding one more state that is new, well formed, without an island square and with
      pieces left keeps `Explored`, and adds a close attempt exactly when one piece is left. */
  lemma ExploreStep<Id>(pieces: seq<Piece<Id>>, expanded: seq<State<Id>>, attempts: seq<CloseAttempt<Id>>, s: State<Id>)
    requires Explored(|pieces|, expanded) && attempts == CloseAttempts(pieces, expanded) && s !in Seen(expanded)
    requires Boards.WellFormed(s.board) && !HasIslandSquare(s.board)
    requires 0 <= s.remaining.lower < s.remaining.upper == |pieces|
    ensures Explored(|pieces|, expanded + [s]) && Seen(expanded + [s]) == Seen(expanded) + {s}
    ensures CloseAttempts(pieces, expanded + [s]) ==
      if s.remaining.Count() <= 1 then attempts + [CloseAttempt(|attempts| + 1, s.board, pieces[s.remaining.lower])]
      else attempts
  {
    assert (expanded + [s])[..|expanded|] == expanded;
    assert ExploredLast(|pieces|, expanded + [s]);
    assert CloseAttempts(pieces, expanded + [s]) == CloseAttemptsLast(pieces, expanded + [s]);
  }

  /** The close attempts reported while expanding `expanded` in order: one for each state with
      one piece left, numbered from 1, carrying its board and that last piece. */
  function CloseAttempts<Id>(pieces: seq<Piece<Id>>, expanded: seq<State<Id>>): (r: seq<CloseAttempt<Id>>)
    requires Explored(|pieces|, expanded)
    ensures |r| <= |expanded|
    decreases |expanded|, 1
  {
    if expanded == [] then [] else CloseAttemptsLast(pieces, expanded)
  }

  /** `CloseAttempts` of a non-empty sequence: those of the front, and one more if the last
      state has one piece left. */
  function CloseAttemptsLast<Id>(pieces: seq<Piece<Id>>, expanded: seq<State<Id>>): (r: seq<CloseAttempt<Id>>)
    requires Explored(|pieces|, expanded) && expanded != []
    ensures |r| <= |expanded|
    decreases |expanded|, 0
  {
    assert ExploredLast(|pieces|, expanded);
    var s := expanded[|expanded| - 1];
    var before := CloseAttempts(pieces, expanded[..|expanded| - 1]);
    if s.remaining.Count() <= 1 then before + [CloseAttempt(|before| + 1, s.board, pieces[s.remaining.lower])]
    else before
  }

  /** The `i`th close attempt is numbered `i + 1`, places the last piece, and comes from an
      expanded state with only that piece left. */
  lemma {:induction false} CloseAttemptsShape<Id>(pieces: seq<Piece<Id>>, expanded: seq<State<Id>>)
    requires Explored(|pieces|, expanded)
    ensures forall i :: 0 <= i < |CloseAttempts(pieces, expanded)| ==>
      CloseAttempts(pieces, expanded)[i].count == i + 1 && |pieces| > 0
      && CloseAttempts(pieces, expanded)[i].finalPiece == pieces[|pieces| - 1]
      && State(CloseAttempts(pieces, expanded)[i].board, IndexRange(|pieces| - 1, |pieces|)) in expanded
    decreases |expanded|
  {
    if expanded != [] {
      var m := |expanded| - 1;
      var s := expanded[m];
      assert ExploredLast(|pieces|, expanded);
      assert CloseAttempts(pieces, expanded) == CloseAttemptsLast(pieces, expanded);
      var before := CloseAttempts(pieces, expanded[..m]);
      CloseAttemptsShape(pieces, expanded[..m]);
      assert forall t :: t in expanded[..m] ==> t in expanded;
      if s.remaining.Count() <= 1 {
        var r := CloseAttempts(pieces, expanded);
        assert r == before + [CloseAttempt(|before| + 1, s.board, pieces[s.remaining.lower])];
        assert s == State(s.board, IndexRange(|pieces| - 1, |pieces|)) && s in expanded;
        forall i | 0 <= i < |r|
          ensures r[i].count == i + 1 && r[i].finalPiece == pieces[|pieces| - 1]
          ensures State(r[i].board, IndexRange(|pieces| - 1, |pieces|)) in expanded
        {
          if i < |before| {
            assert r[i] == before[i];
          } else {
            assert r[i] == CloseAttempt(|before| + 1, s.board, pieces[s.remaining.lower]);
            assert s.remaining.lower == |pieces| - 1;
          }
        }
      } else {
        assert CloseAttempts(pieces, expanded) == before;
      }
    }
  }

  /** Each close attempt's board is the start board after a legal placement of every piece but
      the last, when every expanded state is reached by its history in `hs`. */
  lemma CloseAttemptsReached<Id>(b0: Board<Id>, pieces: seq<Piece<Id>>, expanded: seq<State<Id>>,
                                 hs: seq<seq<Placement<Id>>>, r: seq<CloseAttempt<Id>>)
    requires Boards.WellFormed(b0) && PiecesOk(pieces)
    requires Explored(|pieces|, expanded) && AllOk(Reached(b0, pieces), expanded, hs)
    requires r == CloseAttempts(pieces, expanded)
    ensures forall i :: 0 <= i < |r| ==>
      exists h :: Legal(b0, pieces, h) && |h| == |pieces| - 1 && Replay(b0, h) == r[i].board
  {
    CloseAttemptsShape(pieces, expanded);
    AllOkElements(Reached(b0, pieces), expanded, hs);
    forall i | 0 <= i < |r|
      ensures exists h :: Legal(b0, pieces, h) && |h| == |pieces| - 1 && Replay(b0, h) == r[i].board
    {
      var s := State(r[i].board, IndexRange(|pieces| - 1, |pieces|));
      var j :| 0 <= j < |expanded| && expanded[j] == s;
      assert Reached(b0, pieces)(expanded[j], hs[j]);
      assert StateOk(b0, pieces, s, hs[j]);
    }
  }

  /** A subset of a finite set is no larger. */
  lemma {:induction false} SubsetSize<T>(a: set<T>, b: set<T>)
    requires a <= b
    ensures |a| <= |b|
    decreases |b|
  {
    if a != {} {
      var x :| x in a;
      SubsetSize(a - {x}, b - {x});
    }
  }
}
