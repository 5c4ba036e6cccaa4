/** The board component of the web front end (`components/Board.js`): a pure
    derivation of what each grid position shows from the board entries, the
    solution and an optional list of target cells. Pixel sizes and CSS are
    reduced to the classifications they encode: which of three border styles
    each side gets, and which of three backgrounds the square has. */
module BoardView {
  import opened Results
  import opened Cells
  import opened Boards
  import Controllers
  import App
  import Colors

  type BoardCell = Controllers.BoardCell
  type UiPlacement = App.UiPlacement

  /** 'none', '2px solid black' and '1px solid #999'. */
  datatype Side = NoLine | Thick | Thin

  datatype Borders = Borders(top: Side, right: Side, bottom: Side, left: Side)

  /** The three backgrounds: the target red, the piece's hue, plain white. */
  datatype Background = Red | Hue(hue: int) | White

  /** A grid position: the grey placeholder, or a labelled square with its
      target flag, the piece id assigned to it, its borders and background. */
  datatype Square =
    | Placeholder
    | Labelled(text: string, target: bool, fill: Option<int>, borders: Borders, background: Background)

  datatype View = LoadingBoard | Grid(rows: int, cols: int, squares: seq<seq<Square>>)

  // ---- reference readings of the inputs ----------------------------------

  /** The last board entry at `x`: later entries for the same key win. */
  function LastEntry(data: seq<BoardCell>, x: Cell): (e: Option<BoardCell>)
    ensures e.Some? <==> exists k :: 0 <= k < |data| && Controllers.PosOf(data[k]) == x
    ensures e.Some? ==> Controllers.PosOf(e.value) == x && e.value in data
    decreases |data|
  {
    if |data| == 0 then None
    else if Controllers.PosOf(data[|data| - 1]) == x then Some(data[|data| - 1])
    else
      var e := LastEntry(data[..|data| - 1], x);
      assert forall k :: 0 <= k < |data| - 1 ==> data[..|data| - 1][k] == data[k];
      e
  }

  /** The piece id of the last placement covering `x`. */
  function Owner(sol: seq<UiPlacement>, x: Cell): (o: Option<int>)
    ensures o.Some? <==> App.Filled(sol, x)
    decreases |sol|
  {
    if |sol| == 0 then None
    else if x in sol[|sol| - 1].cells then Some(sol[|sol| - 1].pieceId)
    else
      var o := Owner(sol[..|sol| - 1], x);
      assert forall k :: 0 <= k < |sol| - 1 ==> sol[..|sol| - 1][k] == sol[k];
      o
  }

  /** Peeling the first entry off: the last entry is found in the rest if it
      is there at all. */
  lemma {:induction false} LastEntryCons(data: seq<BoardCell>, x: Cell)
    requires |data| > 0
    ensures LastEntry(data, x) ==
      match LastEntry(data[1..], x)
      case Some(e) => Some(e)
      case None => if Controllers.PosOf(data[0]) == x then Some(data[0]) else None
    decreases |data|
  {
    if |data| > 1 && Controllers.PosOf(data[|data| - 1]) != x {
      var front := data[..|data| - 1];
      assert front[1..] == data[1..][..|data[1..]| - 1];
      LastEntryCons(front, x);
    } else if |data| == 1 {
      assert data[1..] == [];
    }
  }

  lemma {:induction false} OwnerCons(sol: seq<UiPlacement>, x: Cell)
    requires |sol| > 0
    ensures Owner(sol, x) ==
      match Owner(sol[1..], x)
      case Some(id) => Some(id)
      case None => if x in sol[0].cells then Some(sol[0].pieceId) else None
    decreases |sol|
  {
    if |sol| > 1 && x !in sol[|sol| - 1].cells {
      var front := sol[..|sol| - 1];
      assert front[1..] == sol[1..][..|sol[1..]| - 1];
      OwnerCons(front, x);
    } else if |sol| == 1 {
      assert sol[1..] == [];
    }
  }

  /** In a solution whose placements do not overlap, a covered cell belongs
      to the one placement that covers it. */
  lemma {:induction false} OwnerOfDisjoint(sol: seq<UiPlacement>, k: nat, x: Cell)
    requires App.Disjoint(sol) && k < |sol| && x in sol[k].cells
    ensures Owner(sol, x) == Some(sol[k].pieceId)
    decreases |sol|
  {
    if k < |sol| - 1 {
      assert App.NoCommon(sol[k].cells, sol[|sol| - 1].cells);
      var front := sol[..|sol| - 1];
      assert App.Disjoint(front) by {
        forall i, j | 0 <= i < j < |front| ensures App.NoCommon(front[i].cells, front[j].cells) {
          assert front[i] == sol[i] && front[j] == sol[j];
        }
      }
      OwnerOfDisjoint(front, k, x);
    }
  }

  // ---- the lookup tables, built the way the component builds them ----------

  /** The position-to-entry table: each board entry, in order, is stored under its
      position (a later entry replaces an earlier one), starting from `m`. */
  function CellMapFrom(m: map<Cell, BoardCell>, data: seq<BoardCell>): (r: map<Cell, BoardCell>)
    ensures forall x :: x in r <==> x in m || LastEntry(data, x).Some?
    ensures forall x :: x in r ==> r[x] == if LastEntry(data, x).Some? then LastEntry(data, x).value else m[x]
    decreases |data|
  {
    if |data| == 0 then m
    else
      var r := CellMapFrom(m[Controllers.PosOf(data[0]) := data[0]], data[1..]);
      forall x ensures LastEntry(data, x) ==
        match LastEntry(data[1..], x)
        case Some(e) => Some(e)
        case None => if Controllers.PosOf(data[0]) == x then Some(data[0]) else None
      {
        LastEntryCons(data, x);
      }
      r
  }

  /** One placement's contribution to the ownership table: each of its cells is
      assigned the piece id. */
  function AssignCells(a: map<Cell, int>, id: int, cells: seq<Cell>): (r: map<Cell, int>)
    ensures forall x :: x in r <==> x in a || x in cells
    ensures forall x :: x in r ==> r[x] == if x in cells then id else a[x]
    decreases |cells|
  {
    if |cells| == 0 then a
    else AssignCells(a[cells[0] := id], id, cells[1..])
  }

  /** The ownership table: every placement, in order, writes its piece id
      onto its cells, continued from `a`. */
  function AssignFrom(a: map<Cell, int>, sol: seq<UiPlacement>): (r: map<Cell, int>)
    ensures forall x :: x in r <==> x in a || Owner(sol, x).Some?
    ensures forall x :: x in r ==> r[x] == if Owner(sol, x).Some? then Owner(sol, x).value else a[x]
    decreases |sol|
  {
    if |sol| == 0 then a
    else
      var r := AssignFrom(AssignCells(a, sol[0].pieceId, sol[0].cells), sol[1..]);
      forall x ensures Owner(sol, x) ==
        match Owner(sol[1..], x)
        case Some(id) => Some(id)
        case None => if x in sol[0].cells then Some(sol[0].pieceId) else None
      {
        OwnerCons(sol, x);
      }
      r
  }

  /** The number of grid positions a dimension `n` yields (none when negative). */
  function Length(n: int): nat {
    if n < 0 then 0 else n
  }

  function EntryRows(data: seq<BoardCell>): (rs: seq<int>)
    ensures |rs| == |data| && forall k :: 0 <= k < |data| ==> rs[k] == data[k].row
  {
    seq(|data|, k requires 0 <= k < |data| => data[k].row)
  }

  function EntryCols(data: seq<BoardCell>): (cs: seq<int>)
    ensures |cs| == |data| && forall k :: 0 <= k < |data| ==> cs[k] == data[k].col
  {
    seq(|data|, k requires 0 <= k < |data| => data[k].col)
  }

  // ---- one square ----------------------------------------------------------

  function Up(x: Cell): Cell { Cell(x.row - 1, x.col) }
  function Down(x: Cell): Cell { Cell(x.row + 1, x.col) }
  function Left(x: Cell): Cell { Cell(x.row, x.col - 1) }
  function Right(x: Cell): Cell { Cell(x.row, x.col + 1) }

  /** The side facing neighbour `y`: no line when `y` belongs to the same piece,
      a thick line otherwise. */
  function Edge(assignment: map<Cell, int>, y: Cell, id: int): Side {
    if y in assignment && assignment[y] == id then NoLine else Thick
  }

  /** The square at `x`, from the two lookup tables and the target set. */
  function SquareAt(cellMap: map<Cell, BoardCell>, assignment: map<Cell, int>, targetSet: set<Cell>, x: Cell): Square {
    if x !in cellMap || cellMap[x].cellLabel.None? || cellMap[x].cellLabel.value == "" then Placeholder
    else
      var cell := cellMap[x];
      var isFilled := x in assignment;
      var isTarget := cell.state == Target || x in targetSet;
      var borders :=
        if isFilled then
          var id := assignment[x];
          Borders(Edge(assignment, Up(x), id), Edge(assignment, Right(x), id),
                  Edge(assignment, Down(x), id), Edge(assignment, Left(x), id))
        else Borders(Thin, Thin, Thin, Thin);
      var background :=
        if isTarget then Red
        else if isFilled then Hue(Colors.PieceHue(assignment[x]))
        else White;
      Labelled(cell.cellLabel.value, isTarget, if isFilled then Some(assignment[x]) else None, borders, background)
  }

  // ---- what a square shows, stated on the inputs ----------------------------

  /** A position with no board entry, or whose entry has no or an empty
      label, is the plain placeholder whatever covers it. */
  predicate PlaceholderRule(data: seq<BoardCell>, x: Cell, sq: Square) {
    sq.Placeholder? <==>
      (LastEntry(data, x).None? || LastEntry(data, x).value.cellLabel.None? || LastEntry(data, x).value.cellLabel.value == "")
  }

  /** A labelled square shows its label, is a target exactly when its entry
      is TARGET or it is listed as a target, and carries the id of the last
      placement covering it. */
  predicate ContentRule(data: seq<BoardCell>, sol: seq<UiPlacement>, targetCells: seq<Cell>, x: Cell, sq: Square) {
    sq.Labelled? ==>
      LastEntry(data, x).Some? && LastEntry(data, x).value.cellLabel == Some(sq.text)
      && (sq.target <==> LastEntry(data, x).value.state == Target || x in targetCells)
      && sq.fill == Owner(sol, x)
  }

  /** The side towards `y` of a square filled with piece `id`. */
  predicate SideRule(sol: seq<UiPlacement>, id: int, y: Cell, s: Side) {
    s == NoLine <==> Owner(sol, y) == Some(id)
  }

  /** A filled square draws no line towards a neighbour with the same piece
      id and a thick line towards any other; an unfilled square has four thin
      lines. */
  predicate BorderRule(sol: seq<UiPlacement>, x: Cell, sq: Square) {
    sq.Labelled? ==>
      match sq.fill
      case None => sq.borders == Borders(Thin, Thin, Thin, Thin)
      case Some(id) =>
        sq.borders.top != Thin && sq.borders.right != Thin && sq.borders.bottom != Thin && sq.borders.left != Thin
        && SideRule(sol, id, Up(x), sq.borders.top) && SideRule(sol, id, Right(x), sq.borders.right)
        && SideRule(sol, id, Down(x), sq.borders.bottom) && SideRule(sol, id, Left(x), sq.borders.left)
  }

  /** Red for a target, whether or not it is covered; otherwise the piece's
      hue for a filled square; otherwise white. */
  predicate BackgroundRule(sq: Square) {
    sq.Labelled? ==>
      (sq.background == Red <==> sq.target)
      && (sq.background.Hue? <==> !sq.target && sq.fill.Some?)
      && (sq.background.Hue? ==> sq.background.hue == Colors.PieceHue(sq.fill.value))
  }

  predicate Shows(data: seq<BoardCell>, sol: seq<UiPlacement>, targetCells: seq<Cell>, x: Cell, sq: Square) {
    PlaceholderRule(data, x, sq) && ContentRule(data, sol, targetCells, x, sq)
    && BorderRule(sol, x, sq) && BackgroundRule(sq)
  }

  /** The square computed from the lookup tables shows what the inputs say. */
  lemma SquareShows(data: seq<BoardCell>, sol: seq<UiPlacement>, targetCells: seq<Cell>, x: Cell)
    ensures Shows(data, sol, targetCells, x,
                  SquareAt(CellMapFrom(map[], data), AssignFrom(map[], sol), (set t | t in targetCells), x))
  {
    var assignment := AssignFrom(map[], sol);
    var sq := SquareAt(CellMapFrom(map[], data), assignment, (set t | t in targetCells), x);
    assert PlaceholderRule(data, x, sq);
    assert ContentRule(data, sol, targetCells, x, sq);
    if sq.Labelled? && sq.fill.Some? {
      EdgeShows(sol, Up(x), sq.fill.value);
      EdgeShows(sol, Right(x), sq.fill.value);
      EdgeShows(sol, Down(x), sq.fill.value);
      EdgeShows(sol, Left(x), sq.fill.value);
    }
    assert BorderRule(sol, x, sq);
  }

  /** A side drawn from the ownership table follows the side rule. */
  lemma EdgeShows(sol: seq<UiPlacement>, y: Cell, id: int)
    ensures Edge(AssignFrom(map[], sol), y, id) != Thin
    ensures SideRule(sol, id, y, Edge(AssignFrom(map[], sol), y, id))
  {
  }

  // ---- the component ---------------------------------------------------------

  /** `Board({boardData, solution, targetCells})`. Without board entries only
      the loading text is shown; otherwise a grid of (max row + 1) by
      (max col + 1) positions, scanned row by row, each showing what the
      inputs say about it. */
  function Render(data: seq<BoardCell>, sol: seq<UiPlacement>, targetCells: seq<Cell>): (v: View)
    ensures v.LoadingBoard? <==> |data| == 0
    ensures v.Grid? ==>
      (forall k :: 0 <= k < |data| ==> data[k].row < v.rows && data[k].col < v.cols)
      && (exists k :: 0 <= k < |data| && data[k].row == v.rows - 1)
      && (exists k :: 0 <= k < |data| && data[k].col == v.cols - 1)
    ensures v.Grid? ==>
      |v.squares| == Length(v.rows)
      && forall r :: 0 <= r < |v.squares| ==>
        |v.squares[r]| == Length(v.cols)
        && forall c :: 0 <= c < |v.squares[r]| ==> Shows(data, sol, targetCells, Cell(r, c), v.squares[r][c])
  {
    if |data| == 0 then LoadingBoard
    else
      var rows := Max(EntryRows(data)) + 1;
      var cols := Max(EntryCols(data)) + 1;
      var cellMap := CellMapFrom(map[], data);
      var assignment := AssignFrom(map[], sol);
      var targetSet := set t | t in targetCells;
      var squares := seq(Length(rows), r requires 0 <= r < Length(rows) =>
        seq(Length(cols), c requires 0 <= c < Length(cols) => SquareAt(cellMap, assignment, targetSet, Cell(r, c))));
      forall r, c | 0 <= r < Length(rows) && 0 <= c < Length(cols)
        ensures Shows(data, sol, targetCells, Cell(r, c), squares[r][c])
      {
        SquareShows(data, sol, targetCells, Cell(r, c));
      }
      Grid(rows, cols, squares)
  }

  // ---- consequences for a solution of non-overlapping placements -----------

  /** When the placements do not overlap and no two share a piece id, a
      filled square's side has no line exactly when the neighbour belongs to
      the same placement: the outline of every placed piece is drawn. */
  lemma OutlineOfPlacement(sol: seq<UiPlacement>, k: nat, x: Cell, y: Cell, s: Side)
    requires App.Disjoint(sol) && k < |sol| && x in sol[k].cells
    requires forall i, j :: 0 <= i < j < |sol| ==> sol[i].pieceId != sol[j].pieceId
    requires SideRule(sol, Owner(sol, x).value, y, s)
    ensures s == NoLine <==> y in sol[k].cells
  {
    OwnerOfDisjoint(sol, k, x);
    if y in sol[k].cells {
      OwnerOfDisjoint(sol, k, y);
    } else if Owner(sol, y).Some? {
      var j :| 0 <= j < |sol| && y in sol[j].cells;
      OwnerOfDisjoint(sol, j, y);
      if j < k {
        assert sol[j].pieceId != sol[k].pieceId;
      } else if j > k {
        assert sol[k].pieceId != sol[j].pieceId;
      }
    }
  }

  /** Two filled neighbours agree about the line between them. */
  lemma SharedEdge(data: seq<BoardCell>, sol: seq<UiPlacement>, targetCells: seq<Cell>, x: Cell, a: Square, b: Square)
    requires Shows(data, sol, targetCells, x, a) && Shows(data, sol, targetCells, Right(x), b)
    requires a.Labelled? && b.Labelled? && a.fill.Some? && b.fill.Some?
    ensures a.borders.right == NoLine <==> b.borders.left == NoLine
  {
    assert Left(Right(x)) == x;
  }
}
