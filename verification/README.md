# Whole Year Puzzle — a Dafny model of the placement logic

The Whole Year Puzzle is a 7 x 9 board with 43 playable squares. Twelve squares
carry the month abbreviations and thirty-one carry the days. For a chosen date,
the month square and the day square are marked as targets. The nine catalogue
pieces (41 squares in all) must then tile every other square exactly once. The
system has two halves:

- A Java back end.
  - Board and piece model: `Board`, `Piece`, `Cell`.
  - Constant data: the board layout and the piece catalogue in `Defintion`.
  - Solver: enumerates every legal piece placement (`Solver`), builds an
    exact-cover matrix and runs Knuth's Algorithm X with dancing links
    (`ExactCoverSolver`).
  - REST controller (`SolverController`): retargets the board to a date and
    lists the board, the pieces and a solution.
- A React front end.
  - Manual play: dropping, rotating and restoring pieces (`App.js`).
  - Derivation of how each board square is drawn (`components/Board.js`).
  - Per-piece miniature grids (`components/PiecesList.js`).

The model is functional. Every entity is an immutable datatype. Every mutating
Java method and every React state update is a pure function from the old state
to the new one. Java exceptions become `Err` values of `Result`, and Java `null`
becomes `None`. JavaScript's `"row-col"` string keys become `Cell` values, which
is faithful because the key is injective.

Modules, one per file:

| module | file | models |
|---|---|---|
| `Results` | results.dfy | `Option` / `Result` |
| `Text` | text.dfy | decimal rendering and parsing of integers |
| `Cells` | cells.dfy | `Cell`; row-major scans; min/max; normalisation |
| `Boards` | board.dfy | `Board` |
| `Pieces` | piece.dfy | `Piece` |
| `Definitions` | definition.dfy | `Defintion` |
| `ExactCover` | exactcover.dfy | `ExactCoverSolver`, with the dancing-links structure abstracted to sets of active columns |
| `Placements` | placement.dfy | `Placement` and its `toString` |
| `Solvers` | solver.dfy | `Solver` |
| `Controllers` | controller.dfy | `SolverController` |
| `App` | app.dfy | the handlers of `App.js` |
| `Colors` | colors.dfy | the piece hue `(id * 40) % 360` with JavaScript's truncating `%` |
| `BoardView` | boardview.dfy | `components/Board.js` |
| `PiecesList` | pieceslist.dfy | `components/PiecesList.js` |

Two points where the model follows the code rather than the documentation:

- **`Board.reset` clears targets.** The comment in the loop of `Board.reset`
  says target cells are kept. The code turns them back into FILLABLE.
  `Boards.Reset` follows the code, and `Boards.ResetClearsTargets` proves that
  no target survives.
- **`App.js` rotation does not re-normalise.** The rotation in `App.js` computes
  the height from the maximum row alone. Shapes that do not start at row 0 and
  column 0 therefore drift. `App.FourTurnsDrift` exhibits four turns that do not
  return the starting shape. `App.FourTurnsIdentity` proves that four turns do
  return it for normalised shapes, which is what the back end sends.

## Model

| member | source | states |
|---|---|---|
| Cells.Equals | src/main/java/com/wholeyear/model/Cell.java:19-24 | two cells are equal exactly when their rows and columns are equal, so the relation is reflexive, symmetric and transitive |
| Cells.HashCode | src/main/java/com/wholeyear/model/Cell.java:26-28 | the hash is a 32-bit integer congruent to 31·row+col modulo 2^32 (Java int wrap-around) |
| Cells.HashConsistentWithEquals | src/main/java/com/wholeyear/model/Cell.java:19-28 | equal cells have equal hash codes |
| Cells.HashCollision | src/main/java/com/wholeyear/model/Cell.java:26-28 | distinct cells can share a hash: (0,31) and (1,0) |
| Cells.ToStringRoundTrip | src/main/java/com/wholeyear/model/Cell.java:30-32 | the "(row,col)" text determines the cell: parsing it gives back the same cell |
| Text.IntToStringRoundTrip | src/main/java/com/wholeyear/solver/SolverController.java:145 | the decimal text of the day that is looked up as a label parses back to the same integer |
| Text.IntToStringInjective | src/main/java/com/wholeyear/solver/SolverController.java:145 | different days give different label texts |
| Cells.Scan | src/main/java/com/wholeyear/model/Board.java:163-173 | a row-major scan lists exactly the in-grid cells that satisfy the predicate, in strictly increasing row-major order |
| Cells.FindFirst | src/main/java/com/wholeyear/model/Board.java:213-226 | the result satisfies the predicate and no earlier cell in row-major order does; none means no cell satisfies it |
| Cells.Normalize | src/main/java/com/wholeyear/model/Piece.java:53-58 | each cell is shifted by the minimum row and column, order and length are kept, and a non-empty result has minimum row and column 0 |
| Cells.NormalizeIdempotent | src/main/java/com/wholeyear/model/Piece.java:128-133 | normalising an already normalised shape changes nothing |
| Cells.SortedCellsUnique | src/main/java/com/wholeyear/model/Piece.java:135-145 | two strictly row-major sorted lists with the same members are equal, which is why the sorted signature identifies a shape |
| Cells.PositionsSpec | src/main/java/com/wholeyear/model/Board.java:47-52 | the positions of a character in a text grid are exactly the cells holding it, in row-major order |
| Boards.Create | src/main/java/com/wholeyear/model/Board.java:22-64 | the errors come in the source's order: empty shape, ragged rows, wrong label-row count, wrong label-column count, then a missing label on the first '#' cell in row-major order; otherwise each cell is FILLABLE iff its character is '#' and OFF_BOARD otherwise, with the given labels |
| Boards.CreateHasNoTargetOrBlocked | src/main/java/com/wholeyear/model/Board.java:47-63 | a newly built board has no TARGET and no BLOCKED cell |
| Boards.FillableCellsArePositions | src/main/java/com/wholeyear/model/Board.java:47-63 | on a newly built board the FILLABLE cells are exactly the '#' positions of the shape, in row-major order |
| Boards.AllFillableCells | src/main/java/com/wholeyear/model/Board.java:163-173 | a cell is listed iff it is FILLABLE, and the list is in strict row-major order |
| Boards.AllFillableCellsDistinct | src/main/java/com/wholeyear/model/Board.java:163-173 | no FILLABLE cell is listed twice |
| Boards.FindCellByLabel | src/main/java/com/wholeyear/model/Board.java:213-226 | a null label finds nothing; a found cell is FILLABLE and carries the label, and no FILLABLE cell before it does; not found means no FILLABLE cell carries it |
| Boards.FindCellByLabelIsFirstListed | src/main/java/com/wholeyear/model/Board.java:213-226 | the found cell is the first entry of the fillable list with that label |
| Boards.FindNeverReturnsTargetOrBlocked | src/main/java/com/wholeyear/model/Board.java:213-226 | the label search never returns a TARGET or BLOCKED cell |
| Boards.GetCellState | src/main/java/com/wholeyear/model/Board.java:248-253 | an out-of-range coordinate is an error; otherwise the cell's state |
| Boards.GetLabel | src/main/java/com/wholeyear/model/Board.java:90-95 | an out-of-range coordinate is an error; otherwise the cell's label, which may be null |
| Boards.Block | src/main/java/com/wholeyear/model/Board.java:105-128 | succeeds iff the cell is in range and FILLABLE, and then only that cell becomes BLOCKED; otherwise one distinct error each for out of range, TARGET, OFF_BOARD and already BLOCKED |
| Boards.BlockRemovesFromFillable | src/main/java/com/wholeyear/model/Board.java:105-128 | after a successful block, the fillable list loses exactly the blocked cell |
| Boards.SetTarget | src/main/java/com/wholeyear/model/Board.java:135-141 | succeeds iff the cell is in range and FILLABLE, and then only that cell becomes TARGET; otherwise an error |
| Boards.BlockShape | src/main/java/com/wholeyear/model/Board.java:149-157 | exactly the in-range FILLABLE cells among origin plus offsets become BLOCKED; the rest are silently skipped and every other cell is unchanged |
| Boards.Reset | src/main/java/com/wholeyear/model/Board.java:228-241 | TARGET and FILLABLE cells become FILLABLE; BLOCKED and OFF_BOARD cells, the labels and the dimensions are unchanged |
| Boards.ResetClearsTargets | src/main/java/com/wholeyear/model/Board.java:228-241 | no TARGET cell survives a reset, whatever the comment there says |
| Boards.ResetIdempotent | src/main/java/com/wholeyear/model/Board.java:228-241 | resetting twice is the same as resetting once |
| Boards.ResetAfterSetTarget | src/main/java/com/wholeyear/model/Board.java:228-241 | a reset undoes a target: reset after setTarget equals reset before it |
| Boards.ResetOfCreated | src/main/java/com/wholeyear/model/Board.java:228-241 | a newly built board is already reset |
| Pieces.RawCells | src/main/java/com/wholeyear/model/Piece.java:33-47 | the raw cells are exactly the '#' positions of the template, in row-major order |
| Pieces.RawCellsArePositions | src/main/java/com/wholeyear/model/Piece.java:33-47 | the piece's raw cells are the board scanner's '#' positions of the template |
| Pieces.Canonical | src/main/java/com/wholeyear/model/Piece.java:53-60 | the canonical cells are the raw cells shifted by their minimum row and column: one per '#', distinct, normalised, in the same order |
| Pieces.Make | src/main/java/com/wholeyear/model/Piece.java:29-67 | an empty template, ragged rows and a template with no '#' are rejected, and nothing else is; the result has the canonical cells, and its height and width are exactly max row+1 and max col+1 of them, so blank template rows do not count |
| Pieces.CanonicalOfNormalized | src/main/java/com/wholeyear/model/Piece.java:53-60 | a template whose '#' already touch row 0 and column 0 is kept as is |
| Pieces.TemplateSize | src/main/java/com/wholeyear/model/Piece.java:29-67 | a template with n '#' characters yields a piece of n cells |
| Pieces.RotateKeepsTight | src/main/java/com/wholeyear/model/Piece.java:90-99 | rotating a shape that exactly fills an h x w box gives one that exactly fills a w x h box |
| Pieces.MirrorKeepsTight | src/main/java/com/wholeyear/model/Piece.java:111-121 | the horizontal flip col → W−1−col keeps a shape exactly filling its box |
| Pieces.RotateTimesKeepsTight | src/main/java/com/wholeyear/model/Piece.java:127-160 | after k rotations, with height and width swapped at each, the shape exactly fills the swapped box |
| Pieces.FourRotationsIdentity | src/main/java/com/wholeyear/model/Piece.java:90-99 | four rotations with the swapping dimensions return the original cell sequence |
| Pieces.Candidates | src/main/java/com/wholeyear/model/Piece.java:111-133 | the eight candidates are, for flip 0 and 1, the normalised k-th rotation (k < 4) of the canonical or mirrored cells, each as long as the piece |
| Pieces.CandidatesAreTurnedImages | src/main/java/com/wholeyear/model/Piece.java:111-160 | for a piece tight in its box, normalising does nothing, so each candidate is the rotated, possibly mirrored, canonical shape |
| Pieces.Dedup | src/main/java/com/wholeyear/model/Piece.java:135-151 | de-duplication keeps no more shapes than it is given, only candidates, and the first candidate whenever its signature is unseen |
| Pieces.DedupFresh | src/main/java/com/wholeyear/model/Piece.java:135-151 | kept orientations have pairwise different signatures, none of them already seen |
| Pieces.DedupComplete | src/main/java/com/wholeyear/model/Piece.java:135-151 | every candidate's signature was either seen before or is represented among the kept orientations |
| Pieces.FirstUnseenAmongCons | src/main/java/com/wholeyear/model/Piece.java:135-151 | the first-occurrence filter splits into its first candidate, kept iff unseen, followed by the filter of the rest with that signature now seen |
| Pieces.DedupKeepsFirstUnseen | src/main/java/com/wholeyear/model/Piece.java:135-151 | the kept orientations are exactly the candidates that are the first of their signature and whose signature was not seen before, in candidate order |
| Pieces.OrientationsCountAndFirst | src/main/java/com/wholeyear/model/Piece.java:105-164 | between 1 and 8 orientations, the first being the canonical cells |
| Pieces.OrientationsNormalized | src/main/java/com/wholeyear/model/Piece.java:128-133 | every orientation is normalised and has as many cells as the canonical shape |
| Pieces.OrientationsDistinctAndComplete | src/main/java/com/wholeyear/model/Piece.java:135-151 | no two orientations have the same cell signature, and every one of the eight rotations and flips is represented |
| Definitions.CreateBoard | src/main/java/com/wholeyear/util/Defintion.java:107-119 | a row-count mismatch, no rows and ragged rows are rejected first; otherwise the result is exactly what the Board constructor gives, its remaining errors passing through |
| Definitions.WholeYearBoardBuilt | src/main/java/com/wholeyear/util/Defintion.java:122-155 | the whole-year board is built (the null branch is unreachable): 7 x 9 with the given labels, FILLABLE exactly on the layout cells |
| Definitions.WholeYearFillableCount | src/main/java/com/wholeyear/util/Defintion.java:123-131 | the board has 43 fillable cells |
| Definitions.WholeYearDays | src/main/java/com/wholeyear/util/Defintion.java:138-147 | day d (1..31) is written in decimal on its own layout cell |
| Definitions.WholeYearMonths | src/main/java/com/wholeyear/util/Defintion.java:134-137 | month m (1..12) is abbreviated on its own layout cell |
| Definitions.WholeYearLabelsUnique | src/main/java/com/wholeyear/util/Defintion.java:133-147 | no two layout cells carry the same label |
| Definitions.DayIsNotMonth | src/main/java/com/wholeyear/util/Defintion.java:133-147 | no day text equals a month abbreviation |
| Definitions.FindDay | src/main/java/com/wholeyear/util/Defintion.java:133-147 | on the whole-year layout the label search finds day d at its cell |
| Definitions.FindMonth | src/main/java/com/wholeyear/util/Defintion.java:133-147 | on the whole-year layout the label search finds month m at its cell |
| Definitions.FindNoSuchDay | src/main/java/com/wholeyear/util/Defintion.java:133-147 | a day outside 1..31 is not found |
| Definitions.WholeYearIsLayoutBoard | src/main/java/com/wholeyear/util/Defintion.java:122-155 | the built board has exactly the layout's cells and labels |
| Definitions.MakeAll | src/main/java/com/wholeyear/util/Defintion.java:16-82 | building a catalogue succeeds iff every template builds; the pieces are then in template order, and a failure is the error of the first template that does not build |
| Definitions.LoadAllPiecesValue | src/main/java/com/wholeyear/util/Defintion.java:16-82 | loading the catalogue succeeds and yields the nine normalised pieces |
| Definitions.AllPieceIdsDistinct | src/main/java/com/wholeyear/util/Defintion.java:16-82 | nine pieces with distinct ids |
| Definitions.AllPieceSizes | src/main/java/com/wholeyear/util/Defintion.java:16-82 | cell counts 4,5,4,4,4,5,5,5,5, totalling 41 |
| Definitions.CatalogueFitsBoard | src/main/java/com/wholeyear/util/Defintion.java:16-82 | 41 piece cells plus the 2 date targets equal the 43 fillable cells |
| Definitions.T1IsTwoRowsHigh | src/main/java/com/wholeyear/util/Defintion.java:16-82 | a fact about the catalogue data, not a behaviour: T1's blank third template row does not count, so it builds with height 2 and width 3 |
| Definitions.LoadSimplePiecesValue | src/main/java/com/wholeyear/util/Defintion.java:84-105 | the simple catalogue loads |
| Definitions.SimplePiecesFacts | src/main/java/com/wholeyear/util/Defintion.java:84-105 | a fact about the catalogue data, not a behaviour: the simple catalogue builds a 2 x 2 square and a single cell |
| Placements.ToStringRoundTrip | src/main/java/com/wholeyear/util/Placement.java:81-86 | the "id @ (r,c) ori=k covers [...]" text determines every field of the placement: parsing it gives the placement back (for ids without spaces) |
| Placements.ToStringInjective | src/main/java/com/wholeyear/util/Placement.java:81-86 | different placements (ids without spaces) print differently |
| Placements.ListTextRoundTrip | src/main/java/com/wholeyear/util/Placement.java:81-86 | the list text of the covered cells parses back to the same list |
| ExactCover.RowSets | src/main/java/com/wholeyear/util/ExactCoverSolver.java:107-130 | a row has a node in column j iff its mask is true at j (for j below the column count) |
| ExactCover.InitialColumns | src/main/java/com/wholeyear/util/ExactCoverSolver.java:112-120 | after construction each column's size counts the rows true in that column |
| ExactCover.CoverMatches | src/main/java/com/wholeyear/util/ExactCoverSolver.java:51-63 | covering a column gives the structure of the active set without it: the column leaves and every row through it leaves the other columns |
| ExactCover.UncoverRestores | src/main/java/com/wholeyear/util/ExactCoverSolver.java:51-74 | uncover after cover restores every column's membership and size |
| ExactCover.CoverEachMatches | src/main/java/com/wholeyear/util/ExactCoverSolver.java:178-180 | covering a row's other columns one after another equals removing them all |
| ExactCover.SelectColumn | src/main/java/com/wholeyear/util/ExactCoverSolver.java:194-204 | the chosen column is active and of minimum size, and no earlier active column has that size |
| ExactCover.SearchSound | src/main/java/com/wholeyear/util/ExactCoverSolver.java:163-192 | a successful search extends the partial solution by non-empty rows that cover each remaining column exactly once |
| ExactCover.TryRowsSound | src/main/java/com/wholeyear/util/ExactCoverSolver.java:176-189 | the loop over the chosen column's rows only succeeds with an exact cover of the active columns |
| ExactCover.SearchComplete | src/main/java/com/wholeyear/util/ExactCoverSolver.java:163-192 | when some set of rows exactly covers the active columns, the search succeeds |
| ExactCover.TryRowsComplete | src/main/java/com/wholeyear/util/ExactCoverSolver.java:176-189 | trying the rows of the chosen column in order reaches a success when an exact cover uses a row at or after the current one |
| ExactCover.SolveSound | src/main/java/com/wholeyear/util/ExactCoverSolver.java:151-157 | a returned list holds row indices in range, each row non-empty, covering every column exactly once |
| ExactCover.SolveComplete | src/main/java/com/wholeyear/util/ExactCoverSolver.java:151-157 | solve returns null exactly when the matrix has no exact cover |
| ExactCover.ZeroColumns | src/main/java/com/wholeyear/util/ExactCoverSolver.java:164-171 | with no columns the search succeeds at once with the empty list |
| ExactCover.EmptyColumnFails | src/main/java/com/wholeyear/util/ExactCoverSolver.java:176-191 | a column with no true entry makes solve return null |
| ExactCover.UncoveredColumn | src/main/java/com/wholeyear/util/ExactCoverSolver.java:13-14 | no list of rows covers a column that no row marks |
| Solvers.AbsCells | src/main/java/com/wholeyear/util/Solver.java:104-114 | the absolute cells exist iff every shifted cell is fillable, and are then anchor plus offsets in shape order |
| Solvers.GenerateAllPlacementsSpec | src/main/java/com/wholeyear/util/Solver.java:90-125 | a placement is emitted iff it is some piece's orientation o at an anchor whose box fits the board with all cells fillable, covering anchor plus offsets in order |
| Solvers.OrientationPlacementsSpec | src/main/java/com/wholeyear/util/Solver.java:96-119 | the placements of one piece are exactly the legal ones over its orientations |
| Solvers.AnchorRowsSpec | src/main/java/com/wholeyear/util/Solver.java:102-118 | the anchor-row loop emits exactly the legal placements from the current row on |
| Solvers.PlacementAtSpec | src/main/java/com/wholeyear/util/Solver.java:104-117 | one anchor yields a placement iff the placement legally puts the shape at exactly that anchor |
| Solvers.AnchorColsSpec | src/main/java/com/wholeyear/util/Solver.java:103-118 | the anchor-column loop emits exactly the legal placements in this row from the current column on |
| Solvers.GeneratedPlacementCells | src/main/java/com/wholeyear/util/Solver.java:106-114 | every covered cell of a generated placement was fillable |
| Solvers.PieceIds | src/main/java/com/wholeyear/util/Solver.java:39-43 | the piece ids occurring among the placements, each once |
| Solvers.MatrixRow | src/main/java/com/wholeyear/util/Solver.java:53-64 | a row is true at a cell column iff the placement covers that cell, and at a piece column iff it is the placement's piece |
| Solvers.ExactlyOnePieceColumn | src/main/java/com/wholeyear/util/Solver.java:60-62 | each matrix row marks exactly one piece column |
| Solvers.Matrix | src/main/java/com/wholeyear/util/Solver.java:27-65 | the matrix has one column per fillable cell plus one per distinct piece id among the placements, and one row per placement |
| Solvers.SolutionLegalSound | src/main/java/com/wholeyear/util/Solver.java:25-88 | every placement of a returned solution legally places some orientation of one of the pieces |
| Solvers.SolveSound | src/main/java/com/wholeyear/util/Solver.java:25-88 | a returned solution consists of legal placements that cover every fillable cell exactly once, use every piece having a placement, and use no piece twice |
| Solvers.SolveFound | src/main/java/com/wholeyear/util/Solver.java:69-76 | solve returns null exactly when the exact-cover search does |
| Solvers.SolutionIsTiling | src/main/java/com/wholeyear/util/Solver.java:69-85 | a returned solution is a tiling by the generated placements |
| Solvers.TilingIsFound | src/main/java/com/wholeyear/util/Solver.java:25-88 | whenever the generated placements can tile the board, solve returns a solution |
| Solvers.SolveComplete | src/main/java/com/wholeyear/util/Solver.java:25-88 | solve returns a solution exactly when the generated placements can tile the board |
| Controllers.UpdateTargetDate | src/main/java/com/wholeyear/solver/SolverController.java:122-162 | a month outside 1..12 is rejected before any change; otherwise the board is reset, and the targets are the first fillable cell labelled with the decimal day and the first labelled with the month, both TARGET, or none when either label is missing; nothing else differs from the reset board |
| Controllers.ResetAfterUpdate | src/main/java/com/wholeyear/solver/SolverController.java:141-161 | the update changes only targets: resetting its result gives the reset of the original board, so the previous date's targets are gone |
| Controllers.UpdateReadsResetOnly | src/main/java/com/wholeyear/solver/SolverController.java:141 | the outcome depends only on the reset board, not on the old targets |
| Controllers.UpdateIdempotent | src/main/java/com/wholeyear/solver/SolverController.java:141-161 | applying the same date twice gives the same state as applying it once |
| Controllers.UpdateOnWholeYearBoard | src/main/java/com/wholeyear/solver/SolverController.java:144-161 | on the whole-year board a day in 1..31 targets exactly its day cell and its month cell; any other day leaves no target |
| Controllers.FreshBoard | src/main/java/com/wholeyear/solver/SolverController.java:30 | the controller's board is the whole-year board, which is its own reset |
| Controllers.StartIsUpdate | src/main/java/com/wholeyear/solver/SolverController.java:28-63 | the constructor's targeting is what updateTargetDate does for the same date |
| Controllers.InitialPieces | src/main/java/com/wholeyear/solver/SolverController.java:29 | the controller's pieces are the loaded catalogue |
| Controllers.InitialIsUpdate | src/main/java/com/wholeyear/solver/SolverController.java:28-63 | the initial state is the fresh board and catalogue retargeted to the given date |
| Controllers.GetBoard | src/main/java/com/wholeyear/solver/SolverController.java:105-120 | rows·cols entries in strict row-major order, every grid position present, each with its label and state |
| Controllers.GetBoardFillable | src/main/java/com/wholeyear/solver/SolverController.java:105-120 | a cell is fillable iff the board listing has a FILLABLE entry at it |
| Controllers.Register | src/main/java/com/wholeyear/solver/SolverController.java:94-101 | registering the pieces maps each id to the last catalogue index carrying it and keeps older entries for other ids |
| Controllers.GetPieces | src/main/java/com/wholeyear/solver/SolverController.java:90-103 | pieces are numbered 0..n−1 in catalogue order, named by id, shaped by canonical cells, and the id-to-index table is registered |
| Controllers.GetPiecesIndexes | src/main/java/com/wholeyear/solver/SolverController.java:90-103 | with distinct ids, each piece's id maps to its own index |
| Controllers.SolveResponse | src/main/java/com/wholeyear/solver/SolverController.java:66-88 | after getPieces, solve returns an empty list when there is no solution and otherwise one entry per placement, naming the catalogue index of its piece and its covered cells |
| Controllers.SolveResponseCovers | src/main/java/com/wholeyear/solver/SolverController.java:66-88 | a non-empty response covers every fillable cell and no cell twice |
| Controllers.SolveResponseFillable | src/main/java/com/wholeyear/solver/SolverController.java:66-88 | every cell of a solve response is a fillable cell of the board |
| App.Candidates | src/frontend/src/App.js:82-85 | the candidate cells are anchor plus each shape offset, same count and order |
| App.BoardCellSet | src/frontend/src/App.js:104-106 | the board-cell set holds exactly the positions of entries whose state is not OFF_BOARD |
| App.TargetCellSet | src/frontend/src/App.js:96-101 | the target set holds exactly the positions of TARGET entries |
| App.FilledCells | src/frontend/src/App.js:88-93 | the filled set holds exactly the cells of some placement |
| App.Decide | src/frontend/src/App.js:78-121 | no dragged piece; otherwise off the board iff some candidate is not a board cell (checked first); otherwise overlapping iff some candidate is filled or a target; otherwise placed |
| App.SetUsed | src/frontend/src/App.js:124-128 | only the pieces with that id change, and only their used flag |
| App.HandleDrop | src/frontend/src/App.js:78-137 | a drop always clears the dragged piece; a rejected drop changes nothing else; an accepted one appends exactly one placement and marks only that piece used |
| App.DropKeepsConsistent | src/frontend/src/App.js:88-135 | drops keep the placements pairwise disjoint, off the targets and on the board |
| App.DropIgnoresUsed | src/frontend/src/App.js:124-135 | whether the dragged piece is already used makes no difference to a drop |
| App.SecondDropAccepted | src/frontend/src/App.js:124-135 | a piece already used is placed again when its cells are free |
| App.Turn | src/frontend/src/App.js:144-148 | the rotation is the back end's rotate90 with height max row+1: (row,col) goes to (col, height−1−row) |
| App.TurnBounds | src/frontend/src/App.js:144-148 | the turned shape's rows span the old columns, and its columns start at 0 and span the old rows |
| App.TurnKeepsNormalized | src/frontend/src/App.js:144-148 | a shape starting at row 0 and column 0 still does after a turn |
| App.FourTurnsIdentity | src/frontend/src/App.js:144-148 | four turns of a normalised shape give back the same sequence |
| App.FourTurnsDrift | src/frontend/src/App.js:144-148 | a shape not at row 0 and column 0 drifts: four turns of [(0,1)] give [(0,0)] |
| App.RotatePiece | src/frontend/src/App.js:140-156 | the pieces with the matching id get their shape turned a quarter turn, with the same number of cells; every other piece, and every other field, is unchanged |
| App.RotateFourTimes | src/frontend/src/App.js:140-156 | four rotations of a piece with a normalised shape restore the state |
| App.Without | src/frontend/src/App.js:161 | the filtered solution holds exactly the placements of other pieces |
| App.WithoutConcat | src/frontend/src/App.js:161 | filtering keeps the order of the remaining placements |
| App.HandlePieceRestore | src/frontend/src/App.js:159-168 | every placement of the piece is removed and the others are kept, and only that piece's used flag becomes false |
| App.RestoreKeepsConsistent | src/frontend/src/App.js:159-168 | a restore keeps the placements disjoint, off the targets and on the board |
| App.RestoreUnplaced | src/frontend/src/App.js:159-168 | restoring a piece that has no placement leaves the solution as it was |
| App.RestoreUndoesDrop | src/frontend/src/App.js:78-168 | restoring a freshly placed piece that had no earlier placement gives back the solution before the drop and leaves the piece unused |
| App.HandleSolve | src/frontend/src/App.js:37-47 | auto-solve replaces the whole solution and leaves the pieces' used flags alone |
| App.SolveKeepsConsistent | src/frontend/src/App.js:16-47 | when the board shown is the getBoard listing and the solution is the server's solve response, the auto-solved state is consistent: disjoint, off the targets and on the board |
| App.AnswerDisjoint | src/frontend/src/App.js:37-47 | the placements taken from a solve response share no cell |
| App.AnswerFillable | src/frontend/src/App.js:37-47 | every cell of the placements taken from a solve response is fillable |
| App.FillableConsistent | src/frontend/src/App.js:16-47 | placements on fillable cells stay on the listed board and never cover a target |
| App.FillableListed | src/main/java/com/wholeyear/solver/SolverController.java:105-120 | a fillable cell is listed by getBoard as on the board and never as a target |
| App.HandleDateChange | src/frontend/src/App.js:50-71 | a date change empties the solution and installs the refetched board |
| App.DateChangeConsistent | src/frontend/src/App.js:50-71 | a date change empties the solution, so the manual-play invariant holds whatever board comes back (an empty solution is trivially consistent) |
| Colors.JsRem | src/frontend/src/components/Board.js:109 | JavaScript's remainder by 360: same residue as the dividend, with the dividend's sign |
| Colors.JsRemVersusEuclid | src/frontend/src/components/Board.js:109 | it agrees with the mathematical remainder except for negative non-multiples of 360, where it is 360 lower |
| Colors.PieceHue | src/frontend/src/components/PiecesList.js:58 | a non-negative id gets a hue in [0, 360) that is a multiple of 40 |
| Colors.SameHue | src/frontend/src/components/PiecesList.js:58 | two pieces with non-negative ids share a hue iff their ids differ by a multiple of 9, so the nine catalogue pieces all differ |
| Colors.NegativeHue | src/frontend/src/components/Board.js:109 | for a negative id the hue is 0 when the id is a multiple of 9 and otherwise 40 times its residue mod 9 minus 360, so it is negative exactly for the non-multiples of 9 |
| BoardView.Owner | src/frontend/src/components/Board.js:23-28 | a cell has an owner iff some placement covers it |
| BoardView.OwnerOfDisjoint | src/frontend/src/components/Board.js:23-28 | with disjoint placements, a covered cell's owner is the piece of the placement covering it |
| BoardView.CellMapFrom | src/frontend/src/components/Board.js:17-20 | the position table holds, for each position with entries, the last entry there |
| BoardView.AssignFrom | src/frontend/src/components/Board.js:23-28 | the ownership table maps each covered cell to the last placement covering it, so later placements overwrite earlier ones |
| BoardView.AssignCells | src/frontend/src/components/Board.js:25-27 | one placement's cells all get its id; other entries are kept |
| BoardView.SquareShows | src/frontend/src/components/Board.js:43-110 | the square computed from the lookup tables satisfies every drawing rule stated directly on the inputs |
| BoardView.Render | src/frontend/src/components/Board.js:9-44 | empty board data gives only the loading view; otherwise the grid is (max row+1) x (max col+1) and each square follows the rules: placeholder iff no entry, no label or an empty label; target iff TARGET or listed; thick or no line by neighbour ownership for a filled square, thin lines otherwise; background red, then hue, then white |
| BoardView.OutlineOfPlacement | src/frontend/src/components/Board.js:82-96 | with disjoint placements of distinct pieces, a side has no line exactly when the neighbour belongs to the same placement |
| BoardView.SharedEdge | src/frontend/src/components/Board.js:82-96 | two filled neighbours agree on the edge between them: both draw it or neither does |
| PiecesList.Mark | src/frontend/src/components/PiecesList.js:38-41 | after marking, grid position (r,c) is true iff it was or the shape contains (r+minRow, c+minCol) |
| PiecesList.RenderShape | src/frontend/src/components/PiecesList.js:27-58 | an empty shape gives the placeholder; otherwise the grid is (maxRow−minRow+1) x (maxCol−minCol+1), (r,c) is true iff the shape contains (r+minRow, c+minCol), the squares are the grid flattened, and the hue is the piece's |
| PiecesList.FlatIndex | src/frontend/src/components/PiecesList.js:52 | flattening has rows·cols entries in row-major order: entry r·cols+c is grid (r,c) |
| PiecesList.FilledCountIsDistinctOffsets | src/frontend/src/components/PiecesList.js:38-52 | the number of filled squares equals the number of distinct cells of the shape |
| PiecesList.Render | src/frontend/src/components/PiecesList.js:7-31 | an empty list shows the loading text; otherwise one item per piece with its id and name, the placeholder exactly for an empty shape, and otherwise a grid spanning the shape's bounding box that marks exactly the shape's cells, flattened into the squares, in the piece's hue |

## Left out

- HTTP, Spring annotations, `fetch`/`async`, JSON (de)serialisation and React
  hooks and JSX are not modelled. Each endpoint and handler is a function of the
  state it reads. Data that the front end fetches (board entries, pieces, an
  auto-solve answer) is a parameter.
- The `SolverController` constructor reads today's date from the system clock.
  In `Controllers.Start` and `Controllers.Initial` the date is a parameter.
- The parsing of the `"YYYY-MM-DD"` request string (`split`, `parseInt`) is not
  modelled. `Controllers.UpdateTargetDate` takes the month and day as integers.
  Malformed strings, and the unused year, are outside the model.
- `ExactCover` abstracts the DLX nodes and their L/R/U/D relinking to the set of
  active columns. A row is linked in an active column exactly when all its
  columns are still active. `CoverMatches` and `UncoverRestores` prove that
  cover and uncover act on that view as the relinking does. No refinement proof
  of the linked-node code is attempted.
- `Pieces.Dedup` abstracts the signature string `"r,c;"` over the sorted cells
  to the multiset of the cells. The two identify the same shapes because a
  sorted list is determined by its members (`Cells.SortedCellsUnique`). The
  string encoding itself is not modelled.
- `Controllers.Solve` requires that `getPieces` has registered every piece id.
  Its Java counterpart instead throws on an unregistered id when it unboxes the
  missing index. That failure is not modelled.
- Java `null` for whole lists (the board shape, the label grid, a template, the
  piece list) cannot be expressed with sequences. Only null labels, the null
  label argument of `findCellByLabel` and the null results are modelled.
- Integer widths are unbounded, except in `Cells.HashCode`. Sizes, indices and
  coordinates on these boards are far below 2^31, and `selectColumn`'s
  `Integer.MAX_VALUE` start value is modelled as "no column yet".
- Console output (`System.out`, `System.err`, `printShape`, `printLabels`,
  `console.error`) and `alert` are omitted.
- `App.RotatePiece` omits the `selectedPiece` update, because it is display
  state that no handler here reads.
- The drop, rotate and restore handlers are not wired to the components. In the
  shipped `App.js`, `onDrop` is passed to the board component but never read
  there, and the piece list ignores its rotate and restore props. The model
  describes the handlers themselves.
- `BoardView.Render` takes `targetCells` as a parameter, but `App.js` never
  passes that prop, so in the application it is always the default `[]`.
- `PlacementDto.java`, `PieceDto.java` and `BoardCell.java` are not part of this
  model beyond their fields. The JSON field name the solve response uses for the
  piece index cannot be compared with the front end's `pieceId`.
- CSS sizes, gaps and colour strings are reduced to the classifications they
  encode: three side styles and three background kinds with a hue.
- Copy constructors, getters and the Swing-era `PiecePlacer` described in the
  `Placement` documentation are omitted. `Placement` is an immutable datatype,
  so its getters are its fields and it never touches a board.
