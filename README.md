# PentominoSolver in Dafny

PentominoSolver places a list of pieces on a rectangular board, each piece exactly once and in
list order. It returns the first board on which every piece has been placed; that board may still
have empty cells, because the search never checks that the pieces cover the board.
Each piece is a small binary matrix of cells. The solver runs a depth-first search over partial
boards. It places the pieces strictly in list order and tries every rotation and reflection of
the next piece at every anchor where the piece fits. It prunes any board with an isolated empty
square and never expands the same state twice. The repository holds two copies of this core:

- the `Pentominos` package, whose pieces carry a colour and whose solver reports close attempts
  through a callback;
- the `PentominoSolver` command-line program, which has no colour and prints its close attempts.

The model covers both copies with one definition that is generic in the piece identifier `Id`.
`Id` stands for the identifier character, or for the identifier and the colour together.

| file | module | models |
|---|---|---|
| `coordinate.dfy` | `Coordinates` | directions, movement, distance, adjacency, lines |
| `matrix.dfy` | `Matrices` | the row-major binary matrix: cell access, filter, flip, shift toward the origin, the in-place layer rotation, the text rendering |
| `matrix_laws.dfy` | `MatrixLaws` | what the matrix transforms preserve: counts of 1s, involutions, the four-turn identity, the shape of a compact (top-left aligned) figure, and two concrete inputs showing how `shiftTowardOrigin` behaves |
| `piece.dfy` | `Pieces` | size, the footprint on the board, rotate and flip with normalisation, the set of variations |
| `board.dfy` | `Boards` | the board grid, empty cells, the island test, possible anchors, placing a piece |
| `solver.dfy` | `Search` | the search loop, with soundness, termination, no repeated expansion and the close-attempt reports |

Swift structs have value semantics, so `Matrix`, `Piece`, `Board` and the search `State` are
datatypes, and each `mutating` member becomes an operation that returns the new value. Where the
source works by a loop, the model keeps the loop:

- the layer-by-layer 4-cycle swap of `rotate()` runs in place on an `array<int>`;
- the nested loops that build a board's coordinate set are kept as loops;
- `place` writes the footprint one cell at a time;
- the `while let` search loop pops from and pushes onto a stack.

Each of these methods is proved against a specification function, such as `Matrices.Rotated` or
`Boards.Placed`, and the laws are proved about those functions.

The search's soundness is stated with a ghost placement history. `Search.Legal` says that
placement k is a variation of `pieces[k]`, put at an anchor where it fits on the board left by
the earlier placements. `Search.Replay` is the board those placements produce. Every state on the
stack carries such a history, and so does every expanded state, so each reported close attempt
shows the input board after a legal placement of all pieces but the last. A returned board is
the input board after one legal, non-overlapping placement of every piece, in order. Termination uses a potential: the sum over
the stack of `(8 * cells + 1)` raised to the number of remaining pieces.

## Model

Rows for pieces, boards and the search cite the coloured copy. The colourless copy has the same code at these places:
`PentominoSolver/Piece.swift` lines 19-65 for `Piece`, `PentominoSolver/Board.swift` lines 10-100
for `Board`, and `PentominoSolver/main.swift` lines 17-61 for the search. In the search, its
`lastPiece` counter is the length of the close-attempt list that `Search.Solution` returns, and
`print` takes the place of the callback.

| member | source | states |
|---|---|---|
| Coordinates.At | PentominoSolver/Coordinate.swift:25-36 | `init(row:col:)` stores the row as `y` and the column as `x`, and `row`/`col` read them back |
| Coordinates.ManhattanDistance | PentominoSolver/Coordinate.swift:45-47 | the distance is non-negative and zero exactly when the two coordinates are equal |
| Coordinates.ManhattanSymmetric | PentominoSolver/Coordinate.swift:45-47 | the distance is symmetric |
| Coordinates.ManhattanTriangle | PentominoSolver/Coordinate.swift:45-47 | the distance obeys the triangle inequality |
| Coordinates.Moved | PentominoSolver/Coordinate.swift:49-60 | moving by `amount` adds `amount` times the direction's unit step (north decreases `y`) |
| Coordinates.MovedZero | PentominoSolver/Coordinate.swift:49-60 | moving by 0 leaves the coordinate unchanged |
| Coordinates.MovedAdditive | PentominoSolver/Coordinate.swift:49-60 | moving by `a` and then by `b` equals moving by `a + b` |
| Coordinates.Signum | PentominoSolver/Coordinate.swift:63-64 | the sign is -1, 0 or 1, is 0 only for 0, and times `n` gives `abs(n)` |
| Coordinates.Line | PentominoSolver/Coordinate.swift:62-67 | the line has `max(abs dx, abs dy)` cells, and cell i is the start plus i sign-steps |
| Coordinates.LineEnds | PentominoSolver/Coordinate.swift:62-67 | the line is empty exactly when `end` is the start; otherwise it starts at the start; it never contains `end` |
| Coordinates.LineReachesEnd | PentominoSolver/Coordinate.swift:62-67 | on a straight or diagonal line, one more sign-step past the last cell lands on `end` |
| Coordinates.AdjacentReflexiveSymmetric | PentominoSolver/Coordinate.swift:73-75 | adjacency (Chebyshev distance at most 1) is reflexive and symmetric |
| Coordinates.Neighbor | PentominoSolver/Coordinate.swift:77-88 | `neighbor(in: d)` equals `moved(in: d, amount: 1)` for all eight directions |
| Coordinates.Neighbors | PentominoSolver/Coordinate.swift:90-92 | one neighbour per given direction, in the directions' order |
| Coordinates.NeighborsAreAdjacentCells | PentominoSolver/Coordinate.swift:73-92 | the neighbours in all eight directions are exactly the cells adjacent to the coordinate, other than itself |
| Matrices.Zero | Pentominos/Sources/Pentominos/Matrix.swift:19-21 | `init(rows:columns:)` gives a matrix of that shape whose every cell is 0 |
| Matrices.FromRows | Pentominos/Sources/Pentominos/Matrix.swift:23-27 | rows come from the outer count and columns from the first row; for rectangular input, cell (r, c) is `contents[r][c]` |
| Matrices.SetCell | Pentominos/Sources/Pentominos/Matrix.swift:30-33 | the subscript setter writes flat index `r * columns + c`; every other flat index and every other cell is unchanged, and so is the shape |
| Matrices.Extensionality | Pentominos/Sources/Pentominos/Matrix.swift:30-33 | two matrices of the same shape that agree on every cell through the getter are equal |
| Matrices.Filter | Pentominos/Sources/Pentominos/Matrix.swift:35-37 | the filter keeps exactly the cell values that satisfy the predicate, and is no longer than the contents |
| Matrices.FilterMultiset | Pentominos/Sources/Pentominos/Matrix.swift:35-37 | every cell value that satisfies the predicate is kept exactly as often as it occurs in the contents, and no other value is kept |
| Matrices.OneIndices | Pentominos/Sources/Pentominos/Matrix.swift:40-42 | the indices of the 1-cells, strictly increasing, with every 1-cell listed |
| Matrices.OneIndicesCount | Pentominos/Sources/Pentominos/Matrix.swift:35-42 | there are as many 1-indices as there are values kept by filtering for 1 |
| Matrices.Flipped | Pentominos/Sources/Pentominos/Matrix.swift:95-102 | the new cell (r, c) is the old cell (r, columns-1-c), and the shape is unchanged |
| Matrices.LeadingZeroRows | Pentominos/Sources/Pentominos/Matrix.swift:56 | the count of leading all-zero row chunks: every chunk before it is zero and the next one is not |
| Matrices.ZeroColumnsOfLeadingBlock | Pentominos/Sources/Pentominos/Matrix.swift:61 | when the zero columns among the first `upto` are exactly the first `z`, the count is `z` |
| Matrices.ShiftRow | Pentominos/Sources/Pentominos/Matrix.swift:63-67 | one row loses its first `k` cells and gains `k` zeros at the end |
| Matrices.Shifted | Pentominos/Sources/Pentominos/Matrix.swift:52-71 | every original row shifts left by k and is padded with zeros, where k counts all zero columns among `0..<rows`; the vertical step has no effect |
| Matrices.ShiftTowardOrigin | Pentominos/Sources/Pentominos/Matrix.swift:52-71 | the chunk/strip/pad/join steps yield `Shifted` |
| Matrices.Rotated | Pentominos/Sources/Pentominos/Matrix.swift:73-93 | for `c < rows` the new cell (r, c) is the old cell (rows-1-c, r), and the other cells stay; for a square matrix this is a clockwise quarter turn |
| Matrices.CycleCells | Pentominos/Sources/Pentominos/Matrix.swift:85-90 | one 4-way swap moves left to top, bottom to left, right to bottom and top to right |
| Matrices.CycleMultiset | Pentominos/Sources/Pentominos/Matrix.swift:85-90 | a 4-way swap of four distinct cells permutes the contents |
| Matrices.CycleRing | Pentominos/Sources/Pentominos/Matrix.swift:79-90 | one pass of the inner loop computes the four corners of ring `layer` at offset `i` and advances the partial rotation by exactly that cycle, keeping the contents a permutation of the original |
| Matrices.RotateLayer | Pentominos/Sources/Pentominos/Matrix.swift:79-91 | the inner loop rotates one layer and keeps the contents a permutation of the original |
| Matrices.RotateInPlace | Pentominos/Sources/Pentominos/Matrix.swift:73-93 | the in-place layer loop leaves exactly `Rotated` of the old contents, a permutation of them |
| Matrices.Rotate | Pentominos/Sources/Pentominos/Matrix.swift:44-49 | `rotated()` copies, rotates the copy and returns `Rotated`; the original is untouched and the contents are permuted |
| Matrices.RowLine | Pentominos/Sources/Pentominos/Matrix.swift:105-117 | one rendered row has one character per cell followed by a newline |
| Matrices.Description | Pentominos/Sources/Pentominos/Matrix.swift:105-117 | the character loop produces the rows' lines joined in order, or the empty string when there are no columns |
| Matrices.DescriptionAt | Pentominos/Sources/Pentominos/Matrix.swift:105-117 | for a matrix with at least one column, the text has `rows * (columns + 1)` characters; position r*(columns+1)+c holds cell (r, c)'s character, or a newline at c = columns |
| MatrixLaws.CountOnesMultiset | Pentominos/Sources/Pentominos/Matrix.swift:35-37 | the number of 1-cells is the multiplicity of 1 in the contents |
| MatrixLaws.FlippedMultiset | Pentominos/Sources/Pentominos/Matrix.swift:95-102 | flipping permutes the contents and keeps the count of 1s |
| MatrixLaws.FlippedTwice | Pentominos/Sources/Pentominos/Matrix.swift:95-102 | flipping twice is the identity |
| MatrixLaws.RotatedMultiset | Pentominos/Sources/Pentominos/Matrix.swift:73-93 | rotation permutes the contents and keeps the count of 1s |
| MatrixLaws.RotatedFour | Pentominos/Sources/Pentominos/Matrix.swift:73-93 | four rotations return the original square matrix |
| MatrixLaws.ShiftedMultiset | Pentominos/Sources/Pentominos/Matrix.swift:61-70 | when the counted zero columns are the leading ones, the shift permutes the contents and keeps the count of 1s |
| MatrixLaws.ShiftLeadingBlock | Pentominos/Sources/Pentominos/Matrix.swift:61-70 | when the zero columns form a leading block of width z, the shift moves by z, keeps the count of 1s, and on a square matrix with content leaves column 0 non-empty |
| MatrixLaws.LoneCellColumns | Pentominos/Sources/Pentominos/Matrix.swift:61 | for a 3x3 matrix with a single 1 in column 0, the count finds two zero columns, although none of them leads |
| MatrixLaws.ShiftLosesContent | Pentominos/Sources/Pentominos/Matrix.swift:61-70 | on that input the shift removes the only 1: zero columns that do not lead make the shift lose content |
| MatrixLaws.ShiftKeepsLeadingZeroRow | Pentominos/Sources/Pentominos/Matrix.swift:53-58 | a matrix with a leading zero row comes back unchanged, because the vertical step is overwritten |
| MatrixLaws.ShiftNotIdempotent | Pentominos/Sources/Pentominos/Matrix.swift:52-70 | the shift is not idempotent: a 2 x 2 shape with one leading empty column shifts to its content in column 0, and shifting that again empties it, because the vacated column on the right is counted (line 61) |
| MatrixLaws.ShiftRightColumn | Pentominos/Sources/Pentominos/Matrix.swift:52-70 | the first shift of `ShiftNotIdempotent`: one leading zero column, so every row moves left by one |
| MatrixLaws.ShiftLeftColumn | Pentominos/Sources/Pentominos/Matrix.swift:52-70 | the second shift of `ShiftNotIdempotent`: the trailing zero column is counted, so the content in column 0 is shifted out |
| MatrixLaws.RotatedColumns | Pentominos/Sources/Pentominos/Matrix.swift:61-93 | rotating a compact h-by-w figure gives a matrix whose zero columns are exactly the leading rows - h |
| MatrixLaws.FlippedColumns | Pentominos/Sources/Pentominos/Matrix.swift:61-102 | flipping a compact h-by-w figure gives a matrix whose zero columns are exactly the leading rows - w |
| MatrixLaws.TurnCompact | Pentominos/Sources/Pentominos/Matrix.swift:52-93 | rotate-then-shift turns a compact h-by-w figure a quarter clockwise into a compact w-by-h figure with the same count of 1s |
| MatrixLaws.MirrorCompact | Pentominos/Sources/Pentominos/Matrix.swift:52-102 | flip-then-shift mirrors a compact h-by-w figure in place, keeping it compact with the same count of 1s |
| MatrixLaws.TurnTwice | Pentominos/Sources/Pentominos/Matrix.swift:52-93 | two normalised rotations turn a compact figure by a half turn |
| MatrixLaws.TurnFour | Pentominos/Sources/Pentominos/Matrix.swift:52-93 | four normalised rotations return a compact figure unchanged |
| MatrixLaws.MirrorTwice | Pentominos/Sources/Pentominos/Matrix.swift:52-102 | two normalised flips return a compact figure unchanged |
| MatrixLaws.MirrorTurnCells | Pentominos/Sources/Pentominos/Matrix.swift:52-102 | a normalised turn and then a normalised flip take cell (c, r) of a compact figure to cell (r, c), and leave every other cell 0 |
| MatrixLaws.TurnThriceMirrorCells | Pentominos/Sources/Pentominos/Matrix.swift:52-102 | a normalised flip and then three normalised turns do the same to a compact figure |
| MatrixLaws.MirrorTurn | Pentominos/Sources/Pentominos/Matrix.swift:52-102 | on a compact figure, a normalised flip after a normalised turn equals three normalised turns after a normalised flip |
| Pieces.Size | Pentominos/Sources/Pentominos/Piece.swift:21 | `size` is the number of 1-cells in the contents |
| Pieces.HasContent | Pentominos/Sources/Pentominos/Piece.swift:24-26 | for a cell inside the matrix, the answer is whether that cell is 1 |
| Pieces.AllCoordinates | Pentominos/Sources/Pentominos/Piece.swift:28-35 | one coordinate per 1-cell, in index order: the anchor offset by `i / rows` rows and `i % rows` columns |
| Pieces.FootprintDistinct | Pentominos/Sources/Pentominos/Piece.swift:28-35 | the footprint has exactly `size` coordinates, all distinct |
| Pieces.AnchorInFootprint | Pentominos/Sources/Pentominos/Piece.swift:22-35 | `hasContentAtOrigin` holds exactly when the anchor is in its own footprint |
| Pieces.SquareFootprint | Pentominos/Sources/Pentominos/Piece.swift:28-35 | for a square matrix, anchor + (r, c) is in the footprint exactly when cell (r, c) is 1 |
| Pieces.WideFootprint | Pentominos/Sources/Pentominos/Piece.swift:30-31 | for a one-row matrix with a 1 in column 1, the footprint runs down a column, so the cell right of the anchor is missing and the one below it appears |
| Pieces.RotatedPiece | Pentominos/Sources/Pentominos/Piece.swift:37-65 | `rotated()` keeps the identifier and shape; the contents are the matrix rotation, followed by the shift exactly when `shouldShift` |
| Pieces.Rotate | Pentominos/Sources/Pentominos/Piece.swift:59-65 | the mutating `rotate` changes only the contents, as `RotatedPiece` says |
| Pieces.FlippedPiece | Pentominos/Sources/Pentominos/Piece.swift:44-57 | `flipped()` keeps the identifier and shape; the contents are the matrix flip, followed by the shift exactly when `shouldShift` |
| Pieces.Flip | Pentominos/Sources/Pentominos/Piece.swift:51-57 | the mutating `flip` changes only the contents, as `FlippedPiece` says |
| Pieces.VariationList | Pentominos/Sources/Pentominos/Piece.swift:67-71 | the eight listed transforms: self, one to three rotations, the flip, and the flip after one to three rotations; the first is self |
| Pieces.TransformSetMembers | Pentominos/Sources/Pentominos/Piece.swift:67-71 | the set built from the transforms holds exactly the listed transforms |
| Pieces.Variations | Pentominos/Sources/Pentominos/Piece.swift:67-71 | `variations()` contains the piece, has between 1 and 8 members, and every member keeps the identifier and shape |
| Pieces.VariationMembers | Pentominos/Sources/Pentominos/Piece.swift:67-71 | a piece is a variation exactly when it is one of the eight listed transforms |
| Pieces.RotatedCompact | Pentominos/Sources/Pentominos/Piece.swift:37-42 | rotating a compact h-by-w piece gives a compact w-by-h piece of the same size |
| Pieces.RotatedFourTimes | Pentominos/Sources/Pentominos/Piece.swift:37-42 | four `rotated()` calls return a compact piece |
| Pieces.FlippedCompact | Pentominos/Sources/Pentominos/Piece.swift:44-49 | flipping a compact piece keeps it compact with the same size |
| Pieces.CompactVariations | Pentominos/Sources/Pentominos/Piece.swift:67-71 | every variation of a compact piece is compact, in either orientation, with the same identifier and size |
| Pieces.FlippedPieceTwice | Pentominos/Sources/Pentominos/Piece.swift:44-49 | `flipped()` twice returns a compact piece |
| Pieces.FlippedRotated | Pentominos/Sources/Pentominos/Piece.swift:37-49 | on a compact piece, `rotated().flipped()` equals `flipped().rotated().rotated().rotated()` |
| Pieces.TransformsNamed | Pentominos/Sources/Pentominos/Piece.swift:67-71 | the listed transforms are self, one to three `rotated()` calls, `flipped()`, and one to three `rotated()` calls after it |
| Pieces.CompactTurnsBack | Pentominos/Sources/Pentominos/Piece.swift:37-49 | four `rotated()` calls return a compact piece and its flip |
| Pieces.TurnedTransform | Pentominos/Sources/Pentominos/Piece.swift:67-71 | `rotated()` of a listed transform is the next one in its group of four, wrapping from the third turn back to the start |
| Pieces.TransformCompact | Pentominos/Sources/Pentominos/Piece.swift:67-71 | each listed transform of a compact piece is compact, its box turned after an odd number of turns |
| Pieces.FlippedNext | Pentominos/Sources/Pentominos/Piece.swift:67-71 | flipping the next transform in a group is three turns after flipping this one |
| Pieces.FlippedStep | Pentominos/Sources/Pentominos/Piece.swift:67-71 | one step of the induction that finds where `flipped()` takes each listed transform |
| Pieces.FlippedTransform | Pentominos/Sources/Pentominos/Piece.swift:67-71 | `flipped()` of a listed transform of a compact piece is the listed transform in the other group with the turns undone |
| Pieces.ListedClosed | Pentominos/Sources/Pentominos/Piece.swift:67-71 | turning or flipping the k-th listed transform of a compact piece gives the listed transform `TurnIndex(k)` or `FlipIndex(k)` |
| Pieces.VariationsClosed | Pentominos/Sources/Pentominos/Piece.swift:37-71 | `variations()` of a compact piece is closed under `rotated()` and `flipped()` |
| Boards.GridCoordinates | Pentominos/Sources/Pentominos/Board.swift:11-22 | the nested loops collect exactly the (row, column) pairs inside the grid |
| Boards.NewBoard | Pentominos/Sources/Pentominos/Board.swift:72-77 | `height` rows of `width` empty cells; `allCoordinates` is exactly the rectangle, and every cell is empty |
| Boards.ValidInGrid | Pentominos/Sources/Pentominos/Board.swift:91-93 | `isValid` holds exactly when the coordinate indexes a cell of the grid |
| Boards.EmptyCoordinates | Pentominos/Sources/Pentominos/Board.swift:80-82 | the empty coordinates are exactly the valid coordinates whose element is empty |
| Boards.IslandIsIsolated | Pentominos/Sources/Pentominos/Board.swift:84-89 | a board has an island square exactly when some empty cell has no empty cell to its north, east, south or west; a board without empty cells has none |
| Boards.SetElement | Pentominos/Sources/Pentominos/Board.swift:99-101 | `set` writes the element at the coordinate and changes no other cell, nor `width`, `height` or `allCoordinates` |
| Boards.OriginShortcut | Pentominos/Sources/Pentominos/Board.swift:104-114 | with content at the origin, every anchor where the piece fits is an empty cell, so searching only the empty cells loses nothing |
| Boards.PossibleCoordinates | Pentominos/Sources/Pentominos/Board.swift:103-115 | in both branches, the anchors are exactly the board coordinates where every footprint cell is empty |
| Boards.PossibleFootprintEmpty | Pentominos/Sources/Pentominos/Board.swift:103-115 | at a possible anchor the whole footprint is on the board and empty |
| Boards.SetAllCells | Pentominos/Sources/Pentominos/Board.swift:117-122 | writing a piece's identifier on a list of cells sets those cells and keeps every other one |
| Boards.PlacedCells | Pentominos/Sources/Pentominos/Board.swift:117-122 | after `place`, the footprint cells hold the piece's identifier and every other cell is unchanged |
| Boards.Place | Pentominos/Sources/Pentominos/Board.swift:117-122 | the cell-by-cell loop yields `Placed` |
| Boards.FootprintSize | Pentominos/Sources/Pentominos/Piece.swift:21-35 | the footprint covers exactly `size` distinct cells |
| Boards.PlacedEmptyCells | Pentominos/Sources/Pentominos/Board.swift:103-122 | placing a piece where it fits removes exactly its footprint from the empty cells, so their count drops by `size` |
| Search.ReplayEmptyCells | Pentominos/Sources/Pentominos/Solver.swift:126-134 | after legal placements the empty cells are the initial ones minus the covered cells, and their count drops by the total size |
| Search.LastPlacementFresh | Pentominos/Sources/Pentominos/Solver.swift:126-134 | each legal placement lands on cells that earlier placements left empty |
| Search.LegalIdentifiers | Pentominos/Sources/Pentominos/Solver.swift:123-133 | placement k carries the identifier of `pieces[k]`, so pieces are placed in list order |
| Search.UncoveredCells | Pentominos/Sources/Pentominos/Solver.swift:101-104 | a board reached by legal placements has an empty cell exactly when the placed pieces are smaller in total than the input's empty cells, so a returned board need not be covered |
| Search.PairDisjoint | Pentominos/Sources/Pentominos/Solver.swift:126-134 | the footprints of any two legal placements are disjoint |
| Search.ReplayCells | Pentominos/Sources/Pentominos/Solver.swift:101-135 | on a board reached by legal placements, each covered cell holds the identifier of the piece whose footprint covers it, and each other cell is as in the input |
| Search.LegalSnoc | Pentominos/Sources/Pentominos/Solver.swift:126-134 | placing a variation of the next piece at one of the current board's possible anchors extends a legal history by one |
| Search.ChildOk | Pentominos/Sources/Pentominos/Solver.swift:123-134 | a child built from a reached state is reached by the parent's history plus the new placement, with the first remaining index dropped |
| Search.PlaceVariation | Pentominos/Sources/Pentominos/Solver.swift:128-134 | the inner loop pushes exactly one child per possible anchor of the variation: there are as many children as possible anchors, the recorded anchors are pairwise distinct and each is possible, every possible anchor's child is among them, and each child is the variation placed at its anchor on the parent board with the first remaining index dropped |
| Search.PlaceChild | Pentominos/Sources/Pentominos/Solver.swift:131-133 | placing the variation at a possible anchor and dropping the first remaining index gives the child `Child(s, v, a)` |
| Search.RecordChild | Pentominos/Sources/Pentominos/Solver.swift:128-134 | one pass of the inner loop keeps every recorded child legal, one per distinct anchor, with every done anchor's child recorded |
| Search.OnePerAnchorSnoc | Pentominos/Sources/Pentominos/Solver.swift:128-134 | appending the child of an anchor not yet done keeps one child per distinct anchor |
| Search.CoverVariation | Pentominos/Sources/Pentominos/Solver.swift:123-134 | one pass of the outer loop keeps every child legal and adds the children of every possible anchor of one more variation |
| Search.Expand | Pentominos/Sources/Pentominos/Solver.swift:123-134 | the nested loops push a child for every variation of the next piece at every possible anchor, and at most `8 * cells` of them |
| Search.ChildrenRemaining | Pentominos/Sources/Pentominos/Solver.swift:123-133 | every pushed child's range is the parent's range with its first index removed |
| Search.Successors | Pentominos/Sources/Pentominos/Solver.swift:123-134 | replacing the popped state by its children keeps every stack entry reached by a legal history |
| Search.TopOk | Pentominos/Sources/Pentominos/Solver.swift:101-104 | a popped state with no remaining pieces holds the input board after a legal placement of every piece |
| Search.PopPotential | Pentominos/Sources/Pentominos/Solver.swift:101 | popping a state strictly lowers the potential |
| Search.ExpandPotential | Pentominos/Sources/Pentominos/Solver.swift:101-134 | popping a state and pushing fewer than `base` children with one fewer remaining piece strictly lowers the potential, so the loop terminates |
| Search.SeenElements | Pentominos/Sources/Pentominos/Solver.swift:110-113 | the `seen` set holds exactly the states expanded so far |
| Search.ExploreStep | Pentominos/Sources/Pentominos/Solver.swift:106-121 | expanding a new non-island state extends the expanded list and `seen`, and reports a close attempt exactly when at most one piece remains |
| Search.ExploredAll | Pentominos/Sources/Pentominos/Solver.swift:106-113 | no state is expanded twice, and every expanded state has no island square and at least one remaining piece |
| Search.CloseAttemptsShape | Pentominos/Sources/Pentominos/Solver.swift:115-121 | close attempt i has count i + 1, names the last piece, and carries the board of an expanded state with exactly one remaining piece |
| Search.CloseAttemptsReached | Pentominos/Sources/Pentominos/Solver.swift:115-121 | every close attempt's board is the input board after a legal placement of all pieces but the last |
| Search.Solution | Pentominos/Sources/Pentominos/Solver.swift:95-139 | with no pieces the input board is returned; any returned board is the input after one legal, non-overlapping placement of every piece in order; every expanded state is the input after the legal placements recorded for it; the expanded states and the reported close attempts are as `Explored` and `CloseAttempts` say |

## Left out

- The SwiftUI views and `Board.Element.body` are not modelled, because they are rendering only.
- The `@MainActor` `Solver` class, the async `solve`, `Task.detached` and the `@Published` state are not modelled, because they are concurrency plumbing. `onCloseAttempt` becomes the returned sequence of close attempts, in firing order.
- `print`, `Date` timing, the top-level scripts of `PentominoSolver/main.swift`, the `SyncSolver` driver and the build manifest are not modelled, because they are I/O and drivers.
- The `description` properties of `Piece`, `Board` and `Board.Element` and of `Coordinate` are not modelled, because they are output formatting; `Matrix.description` is modelled.
- The static piece catalogues are data and are not modelled.
- `shuffled()` and the iteration order of a Swift `Set` are not modelled. Both become an arbitrary choice (`:|`), so every proved property holds for any order.
- The order of `possibleCoordinates` is not modelled: it is a set, because the source filters a `Set` and then shuffles the result.
- Swift's `Set`, `Hashable` and `Deque` are replaced by Dafny sets and sequences; `popLast` and `append` act on the end of a sequence.
- Colour and the emoji `Character` become the abstract identifier type `Id`. The coloured `Board` has `width` and `height` fields and the colourless one has not; the model keeps them and never reads them.
- `Search.Solution`: does not prove that a nil result means no tiling exists. A nil result is meant to mean that no in-order placement of the pieces exists, up to island pruning; the model does not prove this.
- `Search.Solution`: returns a board as soon as no pieces remain, without checking that it has no empty cell, as the source does; `Search.UncoveredCells` says exactly when empty cells remain.
- `Search.Solution`: the loop variant is a ghost potential, and the ghost placement histories and expanded states exist only for the proof.
- `Matrices.Rotated`: requires `rows <= columns`. On a matrix with more rows than columns and at least two rows, the source's layer loop indexes past the end of `contents` and traps. The one taller matrix it accepts, 1 x 0, has no layers and comes back unchanged; the model excludes it as well (also for `Matrices.RotateInPlace` and `Matrices.Rotate`).
- `Matrices.Shifted`: requires `rows <= columns`, because the zero-column count indexes columns `0..<rows` of every row chunk and traps otherwise.
- `Matrices.Flipped`: requires at least one column, because the source chunks the contents by `columns`, which traps for zero.
- `Matrices.FromRows`: requires at least one row, because the source reads `contents[0]`.
- `Boards.Place`: requires every footprint cell to be on the board, because the source's `set` traps otherwise; every caller in the search places at a possible anchor.
- `Pieces.AllCoordinates`: is modelled as written, with `/ rows` and `% rows`; it gives the true cells only for square matrices (`Pieces.SquareFootprint`, `Pieces.WideFootprint`). All catalogue pieces are square.
- `Matrices.Shifted`: is modelled as written. Its dead vertical step and its count of all zero columns, not only leading ones, are shown by `MatrixLaws.ShiftKeepsLeadingZeroRow` and `MatrixLaws.ShiftLosesContent`. The intended shift holds only for inputs whose zero columns lead (`MatrixLaws.ShiftLeadingBlock`), which rotating or flipping a compact piece always produces (`MatrixLaws.TurnCompact`, `MatrixLaws.MirrorCompact`).
- `Matrices.Shifted`: is not idempotent. A second shift can lose content even when the first input meets the condition of `MatrixLaws.ShiftLeadingBlock` (`MatrixLaws.ShiftNotIdempotent`). This does not affect the search, because the shift only ever runs right after a rotate or a flip (`MatrixLaws.TurnCompact`, `MatrixLaws.MirrorCompact`).
- `Search.Solution`: requires every piece to have `rows <= columns` and at least one column, even pieces the search never reaches, because rotating and flipping a piece need them. Both catalogues hold only square pieces.
- `Pieces.FlippedPiece`: requires `rows <= columns` even when `shouldShift` is false, where the source only flips; every piece it is called on is square.
- `Matrices.Description`: a Swift `Character` is a grapheme cluster, while the model renders each cell as one Dafny `char`, so lengths count `char`s (also for `Matrices.CellChar`, `Matrices.RowLine` and `Matrices.DescriptionAt`).
- Integers are unbounded; Swift's overflow traps cannot occur at board sizes and are not modelled.
