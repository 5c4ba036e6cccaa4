/** The piece list of the web front end (`components/PiecesList.js`): every
    piece is drawn as a small grid of its bounding box, with the squares the
    shape occupies filled in the piece's hue. */
module PiecesList {
  import opened Cells
  import App
  import Colors

  /** "No shape defined", or the bounding-box grid with its flattened
      squares and the hue of the filled ones. */
  datatype ShapeView = NoShape | ShapeGrid(rows: int, cols: int, grid: seq<seq<bool>>, squares: seq<bool>, hue: int)

  datatype Item = Item(key: int, name: string, view: ShapeView)

  /** "Loading pieces...", or one item per piece. */
  datatype ListView = LoadingPieces | Items(items: seq<Item>)

  /** A rows x cols grid of `false`. */
  function Blank(rows: nat, cols: nat): (g: seq<seq<bool>>)
    ensures |g| == rows && forall r :: 0 <= r < rows ==> |g[r]| == cols && forall c :: 0 <= c < cols ==> !g[r][c]
  {
    seq(rows, r => seq(cols, c => false))
  }

  predicate Shaped(g: seq<seq<bool>>, rows: nat, cols: nat) {
    |g| == rows && forall r :: 0 <= r < rows ==> |g[r]| == cols
  }

  /** Sets the square of each cell, shifted by (-minRow, -minCol), to true,
      one cell after another. */
  function Mark(g: seq<seq<bool>>, rows: nat, cols: nat, cells: seq<Cell>, minRow: int, minCol: int): (h: seq<seq<bool>>)
    requires Shaped(g, rows, cols)
    requires forall i :: 0 <= i < |cells| ==> 0 <= cells[i].row - minRow < rows && 0 <= cells[i].col - minCol < cols
    ensures Shaped(h, rows, cols)
    ensures forall r, c :: 0 <= r < rows && 0 <= c < cols ==> (h[r][c] <==> g[r][c] || Cell(r + minRow, c + minCol) in cells)
    decreases |cells|
  {
    if |cells| == 0 then g
    else
      var r0, c0 := cells[0].row - minRow, cells[0].col - minCol;
      var g' := g[r0 := g[r0][c0 := true]];
      var h := Mark(g', rows, cols, cells[1..], minRow, minCol);
      forall r, c | 0 <= r < rows && 0 <= c < cols
        ensures h[r][c] <==> g[r][c] || Cell(r + minRow, c + minCol) in cells
      {
        assert cells == [cells[0]] + cells[1..];
      }
      h
  }

  /** The flattened grid: its rows one after another. */
  function Flat(g: seq<seq<bool>>): seq<bool> {
    if |g| == 0 then [] else g[0] + Flat(g[1..])
  }

  /** A rows x cols grid whose square (r, c) is filled exactly when the cell
      (r + minRow, c + minCol) is among `cells`. */
  predicate Depicts(g: seq<seq<bool>>, rows: nat, cols: nat, cells: seq<Cell>, minRow: int, minCol: int) {
    Shaped(g, rows, cols)
    && forall r, c :: 0 <= r < rows && 0 <= c < cols ==> (g[r][c] <==> Cell(r + minRow, c + minCol) in cells)
  }

  /** Marking cells on a blank grid fills exactly the squares of those cells. */
  lemma MarkBlank(rows: nat, cols: nat, cells: seq<Cell>, minRow: int, minCol: int)
    requires forall i :: 0 <= i < |cells| ==> 0 <= cells[i].row - minRow < rows && 0 <= cells[i].col - minCol < cols
    ensures Depicts(Mark(Blank(rows, cols), rows, cols, cells, minRow, minCol), rows, cols, cells, minRow, minCol)
  {
    var b := Blank(rows, cols);
    var g := Mark(b, rows, cols, cells, minRow, minCol);
    forall r, c | 0 <= r < rows && 0 <= c < cols
      ensures g[r][c] <==> Cell(r + minRow, c + minCol) in cells
    {
      assert !b[r][c];
    }
  }

  /** Every cell of a shape lies inside its bounding box. */
  lemma ShapeInBox(shape: seq<Cell>)
    ensures forall i :: 0 <= i < |shape| ==>
      0 <= shape[i].row - MinRow(shape) < MaxRow(shape) - MinRow(shape) + 1
      && 0 <= shape[i].col - MinCol(shape) < MaxCol(shape) - MinCol(shape) + 1
  {
    forall i | 0 <= i < |shape|
      ensures 0 <= shape[i].row - MinRow(shape) < MaxRow(shape) - MinRow(shape) + 1
      ensures 0 <= shape[i].col - MinCol(shape) < MaxCol(shape) - MinCol(shape) + 1
    {
      InBox(shape, i);
    }
  }

  /** The bounding-box grid of a shape: `rows` is max row - min row + 1 and
      `cols` likewise; a square is filled exactly when the shape holds the
      cell it stands for; the squares come out row by row. */
  function RenderShape(shape: seq<Cell>, id: int): (v: ShapeView)
    ensures v.NoShape? <==> |shape| == 0
    ensures v.ShapeGrid? ==>
      v.rows == MaxRow(shape) - MinRow(shape) + 1 && v.cols == MaxCol(shape) - MinCol(shape) + 1
      && v.rows > 0 && v.cols > 0 && Depicts(v.grid, v.rows, v.cols, shape, MinRow(shape), MinCol(shape))
      && v.squares == Flat(v.grid)
      && v.hue == Colors.PieceHue(id)
  {
    if |shape| == 0 then NoShape
    else
      var minRow, minCol := MinRow(shape), MinCol(shape);
      var rows, cols := MaxRow(shape) - minRow + 1, MaxCol(shape) - minCol + 1;
      ShapeInBox(shape);
      InBox(shape, 0);
      var grid := Mark(Blank(rows, cols), rows, cols, shape, minRow, minCol);
      MarkBlank(rows, cols, shape, minRow, minCol);
      ShapeGrid(rows, cols, grid, Flat(grid), Colors.PieceHue(id))
  }

  // ---- the flattened squares -------------------------------------------------

  /** Square (r, c) of the grid is entry r * cols + c of the flattened list. */
  lemma {:induction false} FlatIndex(g: seq<seq<bool>>, rows: nat, cols: nat, r: nat, c: nat)
    requires Shaped(g, rows, cols) && r < rows && c < cols
    ensures |Flat(g)| == rows * cols && r * cols + c < rows * cols
    ensures Flat(g)[r * cols + c] == g[r][c]
    decreases rows
  {
    FlatLength(g, rows, cols);
    if r == 0 {
      assert Flat(g) == g[0] + Flat(g[1..]);
    } else {
      FlatIndex(g[1..], rows - 1, cols, r - 1, c);
      assert r * cols + c == cols + ((r - 1) * cols + c);
    }
  }

  lemma {:induction false} FlatLength(g: seq<seq<bool>>, rows: nat, cols: nat)
    requires Shaped(g, rows, cols)
    ensures |Flat(g)| == rows * cols
    decreases rows
  {
    if rows > 0 {
      FlatLength(g[1..], rows - 1, cols);
      assert rows * cols == cols + (rows - 1) * cols;
    }
  }

  /** Every entry of the flattened list is some square (r, c). */
  lemma {:induction false} FlatCover(g: seq<seq<bool>>, rows: nat, cols: nat, k: nat) returns (r: nat, c: nat)
    requires Shaped(g, rows, cols) && k < |Flat(g)|
    ensures r < rows && c < cols && k == r * cols + c && Flat(g)[k] == g[r][c]
    decreases rows
  {
    FlatLength(g, rows, cols);
    if k < cols {
      r, c := 0, k;
    } else {
      FlatLength(g[1..], rows - 1, cols);
      var r', c' := FlatCover(g[1..], rows - 1, cols, k - cols);
      r, c := r' + 1, c';
      assert r * cols + c == cols + (r' * cols + c');
    }
  }

  // ---- how many squares are filled -------------------------------------------

  /** The positions of the filled squares in the flattened list. */
  function FilledIndexes(squares: seq<bool>): set<int> {
    set k | 0 <= k < |squares| && squares[k]
  }

  /** A map that is one-to-one on `s` keeps the number of elements: its
      image `img` is as large as `s`. */
  lemma {:induction false} InjectiveImage<A, B>(s: set<A>, f: A -> B) returns (img: set<B>)
    requires forall a, b :: a in s && b in s && f(a) == f(b) ==> a == b
    ensures forall y :: y in img <==> exists a :: a in s && f(a) == y
    ensures |img| == |s|
    decreases |s|
  {
    if s == {} {
      img := {};
    } else {
      var a :| a in s;
      var rest := s - {a};
      var img' := InjectiveImage(rest, f);
      assert f(a) !in img';
      img := img' + {f(a)};
    }
  }

  lemma {:induction false} MulAtLeast(k: int, n: int)
    requires k >= 1 && n > 0
    ensures k * n >= n
    decreases k
  {
    if k > 1 {
      MulAtLeast(k - 1, n);
      assert k * n == (k - 1) * n + n;
    }
  }

  /** Where the square of cell `x` lands in the flattened list of `shape`'s grid. */
  function Position(shape: seq<Cell>, x: Cell): int {
    (x.row - MinRow(shape)) * (MaxCol(shape) - MinCol(shape) + 1) + (x.col - MinCol(shape))
  }

  /** Two rows p, q of a grid with n columns: an entry of row p comes after
      every entry of row q < p. */
  lemma RowsApart(p: int, q: int, n: int, a: int, b: int)
    requires n > 0 && 0 <= a < n && 0 <= b < n && p > q
    ensures p * n + a > q * n + b
  {
    MulAtLeast(p - q, n);
    assert (p - q) * n == p * n - q * n;
  }

  /** Two cells of the bounding box are at the same flattened position only
      if they are the same cell. */
  lemma PositionInjective(shape: seq<Cell>, a: Cell, b: Cell)
    requires var n := MaxCol(shape) - MinCol(shape) + 1;
      n > 0 && 0 <= a.col - MinCol(shape) < n && 0 <= b.col - MinCol(shape) < n
    requires Position(shape, a) == Position(shape, b)
    ensures a == b
  {
    var n := MaxCol(shape) - MinCol(shape) + 1;
    var p, q := a.row - MinRow(shape), b.row - MinRow(shape);
    var ca, cb := a.col - MinCol(shape), b.col - MinCol(shape);
    FlatInjective(p, q, n, ca, cb);
  }

  /** Row-major flattening of a grid with n columns is injective. */
  lemma FlatInjective(p: int, q: int, n: int, a: int, b: int)
    requires n > 0 && 0 <= a < n && 0 <= b < n
    requires p * n + a == q * n + b
    ensures p == q && a == b
  {
    if p > q {
      RowsApart(p, q, n, a, b);
    } else if q > p {
      RowsApart(q, p, n, b, a);
    }
  }

  /** A cell of the shape lies inside the bounding box. */
  lemma InBox(shape: seq<Cell>, i: nat)
    requires i < |shape|
    ensures 0 <= shape[i].row - MinRow(shape) <= MaxRow(shape) - MinRow(shape)
    ensures 0 <= shape[i].col - MinCol(shape) <= MaxCol(shape) - MinCol(shape)
  {
    assert Rows(shape)[i] == shape[i].row && Cols(shape)[i] == shape[i].col;
  }

  /** A grid of `shape`'s bounding box as `RenderShape` describes it. */
  predicate BoxGrid(shape: seq<Cell>, v: ShapeView) {
    v.ShapeGrid? && v.cols == MaxCol(shape) - MinCol(shape) + 1 && v.rows > 0 && v.cols > 0
    && Depicts(v.grid, v.rows, v.cols, shape, MinRow(shape), MinCol(shape)) && v.squares == Flat(v.grid)
  }

  /** The square of a cell in the box is filled. */
  lemma BoxSquare(shape: seq<Cell>, v: ShapeView, x: Cell, r: nat, c: nat)
    requires BoxGrid(shape, v) && x in shape
    requires r < v.rows && c < v.cols && r == x.row - MinRow(shape) && c == x.col - MinCol(shape)
    ensures 0 <= Position(shape, x) < |v.squares| && v.squares[Position(shape, x)]
  {
    assert v.grid[r][c] by {
      assert Cell(r + MinRow(shape), c + MinCol(shape)) == x;
    }
    FlatIndex(v.grid, v.rows, v.cols, r, c);
  }

  /** The square of a cell of the shape is filled. */
  lemma CellSquare(shape: seq<Cell>, id: int, i: nat)
    requires i < |shape|
    ensures var v := RenderShape(shape, id);
      0 <= Position(shape, shape[i]) < |v.squares| && v.squares[Position(shape, shape[i])]
  {
    var v := RenderShape(shape, id);
    InBox(shape, i);
    assert BoxGrid(shape, v);
    BoxSquare(shape, v, shape[i], shape[i].row - MinRow(shape), shape[i].col - MinCol(shape));
  }

  /** A filled square is the square of a cell of the shape. */
  lemma SquareCell(shape: seq<Cell>, id: int, k: int) returns (x: Cell)
    requires |shape| > 0
    requires 0 <= k < |RenderShape(shape, id).squares| && RenderShape(shape, id).squares[k]
    ensures x in shape && Position(shape, x) == k
  {
    var v := RenderShape(shape, id);
    assert BoxGrid(shape, v);
    var r, c := FlatCover(v.grid, v.rows, v.cols, k);
    x := Cell(r + MinRow(shape), c + MinCol(shape));
    assert v.grid[r][c];
    assert Position(shape, x) == r * v.cols + c;
  }

  /** The grid fills as many squares as the shape has distinct offsets:
      repeated offsets share a square and nothing else is filled. */
  lemma FilledCountIsDistinctOffsets(shape: seq<Cell>, id: int)
    requires |shape| > 0
    ensures |FilledIndexes(RenderShape(shape, id).squares)| == |set x | x in shape|
  {
    var v := RenderShape(shape, id);
    var cellsOf := set x | x in shape;
    var f := (x: Cell) => Position(shape, x);
    forall a, b | a in cellsOf && b in cellsOf && f(a) == f(b) ensures a == b {
      var i :| 0 <= i < |shape| && shape[i] == a;
      var j :| 0 <= j < |shape| && shape[j] == b;
      InBox(shape, i);
      InBox(shape, j);
      PositionInjective(shape, a, b);
    }
    var image := InjectiveImage(cellsOf, f);
    forall k | k in image ensures k in FilledIndexes(v.squares) {
      var x :| x in cellsOf && f(x) == k;
      var i :| 0 <= i < |shape| && shape[i] == x;
      CellSquare(shape, id, i);
    }
    forall k | k in FilledIndexes(v.squares) ensures k in image {
      var x := SquareCell(shape, id, k);
      assert x in cellsOf && f(x) == k;
    }
    assert image == FilledIndexes(v.squares);
  }

  // ---- the component -----------------------------------------------------------

  /** A shape grid shows the piece: its bounding box, exactly its cells, the
      grid flattened into squares, and the piece's hue. */
  predicate ItemDepicts(view: ShapeView, piece: App.UiPiece)
    requires view.ShapeGrid?
  {
    var shape := piece.shape;
    view.rows == MaxRow(shape) - MinRow(shape) + 1 && view.cols == MaxCol(shape) - MinCol(shape) + 1
    && Depicts(view.grid, view.rows, view.cols, shape, MinRow(shape), MinCol(shape))
    && view.squares == Flat(view.grid)
    && view.hue == Colors.PieceHue(piece.id)
  }

  /** `PiecesList({pieces})`: the loading text for an empty list, otherwise
      one item per piece, in order, keyed and coloured by its id. */
  function Render(pieces: seq<App.UiPiece>): (v: ListView)
    ensures v.LoadingPieces? <==> |pieces| == 0
    ensures v.Items? ==>
      |v.items| == |pieces|
      && forall i :: 0 <= i < |pieces| ==>
        v.items[i].key == pieces[i].id && v.items[i].name == pieces[i].name
        && (v.items[i].view.NoShape? <==> |pieces[i].shape| == 0)
        && (v.items[i].view.ShapeGrid? ==> ItemDepicts(v.items[i].view, pieces[i]))
  {
    if |pieces| == 0 then LoadingPieces
    else Items(seq(|pieces|, i requires 0 <= i < |pieces| =>
      Item(pieces[i].id, pieces[i].name, RenderShape(pieces[i].shape, pieces[i].id))))
  }
}
