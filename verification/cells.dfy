/** Board coordinates (`Cell.java`) and the shape arithmetic that pieces,
    placements and the front end all share: bounding boxes, translation and
    normalisation to a zero-based corner. */
module Cells {
  import opened Results
  import Text

  /** A (row, col) coordinate; both fields are fixed at construction. */
  datatype Cell = Cell(row: int, col: int)

  /** Java `Cell.equals`: field-wise comparison. */
  function Equals(a: Cell, b: Cell): (eq: bool)
    ensures eq <==> a == b
  {
    a.row == b.row && a.col == b.col
  }

  /** Java `int` arithmetic wraps modulo 2^32 into [-2^31, 2^31). */
  function Wrap32(x: int): (w: int)
    ensures -0x8000_0000 <= w < 0x8000_0000
    ensures (w - x) % 0x1_0000_0000 == 0
  {
    var m := (x + 0x8000_0000) % 0x1_0000_0000;
    m - 0x8000_0000
  }

  /** Java `Cell.hashCode`: `31 * row + col` in 32-bit arithmetic. */
  function HashCode(c: Cell): (h: int)
    ensures -0x8000_0000 <= h < 0x8000_0000
    ensures (h - (31 * c.row + c.col)) % 0x1_0000_0000 == 0
  {
    Wrap32(Wrap32(31 * c.row) + c.col)
  }

  /** Cells that `equals` agrees on always share a hash code. */
  lemma HashConsistentWithEquals(a: Cell, b: Cell)
    requires Equals(a, b)
    ensures HashCode(a) == HashCode(b)
  {
  }

  /** The hash is not injective: two different cells can collide. */
  lemma HashCollision()
    ensures Cell(0, 31) != Cell(1, 0) && HashCode(Cell(0, 31)) == HashCode(Cell(1, 0))
  {
  }

  /** Java `Cell.toString`: "(row,col)". */
  function ToString(c: Cell): string {
    "(" + Text.IntToString(c.row) + "," + Text.IntToString(c.col) + ")"
  }

  /** Position of the first `ch` in `s`, or |s| when it does not occur. */
  function IndexOf(s: string, ch: char): (k: nat)
    ensures k <= |s|
    ensures k < |s| ==> s[k] == ch
    ensures forall i :: 0 <= i < k ==> s[i] != ch
  {
    if |s| == 0 then 0 else if s[0] == ch then 0 else 1 + IndexOf(s[1..], ch)
  }

  /** Reads back a "(row,col)" text. */
  function ParseCell(s: string): Option<Cell> {
    if |s| < 2 || s[0] != '(' || s[|s| - 1] != ')' then None
    else
      var inner := s[1..|s| - 1];
      var k := IndexOf(inner, ',');
      if k == |inner| then None
      else
        match (Text.ParseInt(inner[..k]), Text.ParseInt(inner[k + 1..]))
        case (Some(r), Some(c)) => Some(Cell(r, c))
        case _ => None
  }

  /** `toString` is faithful: the coordinate can be read back from its text. */
  lemma ToStringRoundTrip(c: Cell)
    ensures ParseCell(ToString(c)) == Some(c)
  {
    var a := Text.IntToString(c.row);
    var b := Text.IntToString(c.col);
    ToStringShape(c);
    NoCommaInInt(c.row);
    IndexOfPrefix(a, ',', "," + b);
    CommaSplit(a, b);
    Text.IntToStringRoundTrip(c.row);
    Text.IntToStringRoundTrip(c.col);
  }

  /** "(row,col)" is bracketed, and between the brackets stand row, ',' and col. */
  lemma ToStringShape(c: Cell)
    ensures var s := ToString(c);
      |s| >= 2 && s[0] == '(' && s[|s| - 1] == ')'
      && s[1..|s| - 1] == Text.IntToString(c.row) + ("," + Text.IntToString(c.col))
  {
    var s := ToString(c);
    assert s == "(" + (Text.IntToString(c.row) + ("," + Text.IntToString(c.col))) + ")";
  }

  /** A rendered integer holds no comma. */
  lemma NoCommaInInt(x: int)
    ensures ',' !in Text.IntToString(x)
  {
    var a := Text.IntToString(x);
    forall i | 0 <= i < |a| ensures a[i] != ',' {
      assert a[i] == '-' || Text.IsDigit(a[i]);
    }
  }

  /** The text around the comma splits back into its two halves. */
  lemma CommaSplit(a: string, b: string)
    ensures (a + ("," + b))[..|a|] == a && (a + ("," + b))[|a| + 1..] == b
  {
  }

  lemma IndexOfPrefix(a: string, ch: char, rest: string)
    requires ch !in a && |rest| > 0 && rest[0] == ch
    ensures IndexOf(a + rest, ch) == |a|
  {
    var k := IndexOf(a + rest, ch);
    assert (a + rest)[|a|] == ch;
  }

  /** Row-major order: the order of Java's `for r { for c { … } }` scans. */
  predicate Before(a: Cell, b: Cell) {
    a.row < b.row || (a.row == b.row && a.col < b.col)
  }

  // ---- row-major scans -------------------------------------------------

  predicate InGrid(rows: nat, cols: nat, x: Cell) {
    0 <= x.row < rows && 0 <= x.col < cols
  }

  /** Every cell of the rows x cols grid satisfying `p`, from (r, c) onwards in row-major order. */
  function ScanFrom(rows: nat, cols: nat, p: Cell -> bool, r: nat, c: nat): (s: seq<Cell>)
    requires c <= cols
    decreases rows - r, cols - c
    ensures forall i :: 0 <= i < |s| ==> InGrid(rows, cols, s[i]) && p(s[i]) && !Before(s[i], Cell(r, c))
    ensures forall i, j :: 0 <= i < j < |s| ==> Before(s[i], s[j])
    ensures forall x :: InGrid(rows, cols, x) && !Before(x, Cell(r, c)) && p(x) ==> x in s
  {
    if r >= rows then []
    else if c == cols then ScanFrom(rows, cols, p, r + 1, 0)
    else
      var rest := ScanFrom(rows, cols, p, r, c + 1);
      if p(Cell(r, c)) then [Cell(r, c)] + rest else rest
  }

  /** Every cell satisfying `p`, each once, in row-major order. */
  function Scan(rows: nat, cols: nat, p: Cell -> bool): (s: seq<Cell>)
    ensures forall x :: x in s <==> InGrid(rows, cols, x) && p(x)
    ensures forall i, j :: 0 <= i < j < |s| ==> Before(s[i], s[j])
  {
    ScanFrom(rows, cols, p, 0, 0)
  }

  /** The first cell in row-major order satisfying `p`, as the early-returning Java loops find it. */
  function FindFirst(rows: nat, cols: nat, p: Cell -> bool): (res: Option<Cell>)
    ensures res.Some? ==> InGrid(rows, cols, res.value) && p(res.value)
    ensures res.Some? ==> forall y :: InGrid(rows, cols, y) && Before(y, res.value) ==> !p(y)
    ensures res.None? ==> forall y :: InGrid(rows, cols, y) ==> !p(y)
  {
    var s := Scan(rows, cols, p);
    if |s| == 0 then None
    else
      assert forall y :: InGrid(rows, cols, y) && p(y) ==> y == s[0] || Before(s[0], y) by {
        forall y | InGrid(rows, cols, y) && p(y) ensures y == s[0] || Before(s[0], y) {
          var k :| 0 <= k < |s| && s[k] == y;
          if k > 0 { assert Before(s[0], s[k]); }
        }
      }
      Some(s[0])
  }

  // ---- shape arithmetic ------------------------------------------------

  function Rows(s: seq<Cell>): (rs: seq<int>)
    ensures |rs| == |s| && forall i :: 0 <= i < |s| ==> rs[i] == s[i].row
  {
    seq(|s|, i requires 0 <= i < |s| => s[i].row)
  }

  function Cols(s: seq<Cell>): (cs: seq<int>)
    ensures |cs| == |s| && forall i :: 0 <= i < |s| ==> cs[i] == s[i].col
  {
    seq(|s|, i requires 0 <= i < |s| => s[i].col)
  }

  /** Minimum of a list, 0 for the empty list (Java's `min().orElse(0)`). */
  function Min(xs: seq<int>): (m: int)
    ensures forall i :: 0 <= i < |xs| ==> m <= xs[i]
    ensures |xs| > 0 ==> exists i :: 0 <= i < |xs| && xs[i] == m
    ensures |xs| == 0 ==> m == 0
  {
    if |xs| == 0 then 0
    else if |xs| == 1 then xs[0]
    else
      var t := Min(xs[1..]);
      assert forall i :: 1 <= i < |xs| ==> xs[i] == xs[1..][i - 1];
      if xs[0] <= t then xs[0] else t
  }

  /** Maximum of a list, 0 for the empty list (Java's `max().orElse(0)`). */
  function Max(xs: seq<int>): (m: int)
    ensures forall i :: 0 <= i < |xs| ==> xs[i] <= m
    ensures |xs| > 0 ==> exists i :: 0 <= i < |xs| && xs[i] == m
    ensures |xs| == 0 ==> m == 0
  {
    if |xs| == 0 then 0
    else if |xs| == 1 then xs[0]
    else
      var t := Max(xs[1..]);
      assert forall i :: 1 <= i < |xs| ==> xs[i] == xs[1..][i - 1];
      if xs[0] >= t then xs[0] else t
  }

  function MinRow(s: seq<Cell>): int { Min(Rows(s)) }
  function MinCol(s: seq<Cell>): int { Min(Cols(s)) }
  function MaxRow(s: seq<Cell>): int { Max(Rows(s)) }
  function MaxCol(s: seq<Cell>): int { Max(Cols(s)) }

  /** Every cell of `s` shifted by (dr, dc), order kept. */
  function Translate(s: seq<Cell>, dr: int, dc: int): (t: seq<Cell>)
    ensures |t| == |s|
    ensures forall i :: 0 <= i < |s| ==> t[i] == Cell(s[i].row + dr, s[i].col + dc)
  {
    seq(|s|, i requires 0 <= i < |s| => Cell(s[i].row + dr, s[i].col + dc))
  }

  /** A shape whose smallest row and smallest column are both 0. */
  predicate Normalized(s: seq<Cell>) {
    |s| > 0 && MinRow(s) == 0 && MinCol(s) == 0
  }

  /** Shift a shape so that its minimum row and column become 0. */
  function Normalize(s: seq<Cell>): (t: seq<Cell>)
    ensures |t| == |s|
    ensures |s| > 0 ==> Normalized(t)
    ensures forall i :: 0 <= i < |s| ==> t[i] == Cell(s[i].row - MinRow(s), s[i].col - MinCol(s))
  {
    var t := Translate(s, -MinRow(s), -MinCol(s));
    if |s| > 0 then
      MinTranslated(Rows(s), Rows(t), -MinRow(s));
      MinTranslated(Cols(s), Cols(t), -MinCol(s));
      t
    else t
  }

  lemma MinTranslated(xs: seq<int>, ys: seq<int>, d: int)
    requires |xs| == |ys| > 0
    requires forall i :: 0 <= i < |xs| ==> ys[i] == xs[i] + d
    ensures Min(ys) == Min(xs) + d
  {
    var i :| 0 <= i < |xs| && xs[i] == Min(xs);
    var j :| 0 <= j < |ys| && ys[j] == Min(ys);
    assert Min(ys) <= ys[i];
    assert Min(xs) <= xs[j];
  }

  /** A normalised shape is left alone by `Normalize`. */
  lemma NormalizeIdempotent(s: seq<Cell>)
    requires Normalized(s)
    ensures Normalize(s) == s
  {
    var t := Normalize(s);
    assert forall i :: 0 <= i < |s| ==> t[i] == Cell(s[i].row - 0, s[i].col - 0) == s[i];
  }

  /** Strictly increasing in row-major order (hence without repeats). */
  predicate SortedCells(s: seq<Cell>) {
    forall i, j :: 0 <= i < j < |s| ==> Before(s[i], s[j])
  }

  /** Checking neighbours suffices for row-major sortedness. */
  lemma {:induction false} SortedFromAdjacent(s: seq<Cell>)
    requires forall i :: 0 <= i < |s| - 1 ==> Before(s[i], s[i + 1])
    ensures SortedCells(s)
  {
    if |s| > 1 {
      SortedFromAdjacent(s[1..]);
      forall j | 1 <= j < |s| ensures Before(s[0], s[j]) {
        assert s[j] == s[1..][j - 1];
        if j > 1 { assert Before(s[1..][0], s[1..][j - 1]); }
      }
    }
  }

  /** The first element of a non-empty sequence is one of its members. */
  lemma HeadIsMember(t: seq<Cell>)
    ensures |t| > 0 ==> t[0] in t
  {
  }

  /** A row-major sorted list is determined by the cells it contains. */
  lemma {:induction false} SortedCellsUnique(s: seq<Cell>, t: seq<Cell>)
    requires SortedCells(s) && SortedCells(t)
    requires forall x :: x in s <==> x in t
    ensures s == t
    decreases |s|
  {
    if |s| == 0 {
      if |t| > 0 {
        HeadIsMember(t);
        assert false;
      }
    } else {
      assert s[0] in t;
      assert t[0] in s;
      assert s[0] == t[0];
      forall x ensures x in s[1..] <==> x in t[1..] {
        if x in s[1..] {
          var i :| 0 <= i < |s| - 1 && s[1..][i] == x;
          assert Before(s[0], s[i + 1]);
          assert x in t;
          var k :| 0 <= k < |t| && t[k] == x;
          assert k != 0;
          assert t[1..][k - 1] == x;
        }
        if x in t[1..] {
          var i :| 0 <= i < |t| - 1 && t[1..][i] == x;
          assert Before(t[0], t[i + 1]);
          assert x in s;
          var k :| 0 <= k < |s| && s[k] == x;
          assert k != 0;
          assert s[1..][k - 1] == x;
        }
      }
      SortedCellsUnique(s[1..], t[1..]);
    }
  }

  /** Bounds that pin down the minima: nothing negative, and a zero in each coordinate. */
  lemma NormalizedByBounds(s: seq<Cell>, i: nat, j: nat)
    requires i < |s| && j < |s| && s[i].row == 0 && s[j].col == 0
    requires forall k :: 0 <= k < |s| ==> s[k].row >= 0 && s[k].col >= 0
    ensures Normalized(s)
  {
    var a :| 0 <= a < |s| && Rows(s)[a] == Min(Rows(s));
    var b :| 0 <= b < |s| && Cols(s)[b] == Min(Cols(s));
    assert Min(Rows(s)) <= Rows(s)[i] && Min(Cols(s)) <= Cols(s)[j];
  }

  /** `m` bounds every row from above and is attained. */
  lemma MaxRowIs(s: seq<Cell>, i: nat, m: int)
    requires i < |s| && s[i].row == m
    requires forall k :: 0 <= k < |s| ==> s[k].row <= m
    ensures MaxRow(s) == m
  {
    var a :| 0 <= a < |s| && Rows(s)[a] == Max(Rows(s));
    assert Rows(s)[i] <= Max(Rows(s));
  }

  /** `m` bounds every column from above and is attained. */
  lemma MaxColIs(s: seq<Cell>, i: nat, m: int)
    requires i < |s| && s[i].col == m
    requires forall k :: 0 <= k < |s| ==> s[k].col <= m
    ensures MaxCol(s) == m
  {
    var a :| 0 <= a < |s| && Cols(s)[a] == Max(Cols(s));
    assert Cols(s)[i] <= Max(Cols(s));
  }

  // ---- character positions in a text grid -----------------------------

  /** Character `ch` sits at `x` in the grid of strings `g`. */
  predicate HasCharAt(g: seq<string>, ch: char, x: Cell) {
    0 <= x.row < |g| && 0 <= x.col < |g[x.row]| && g[x.row][x.col] == ch
  }

  /** The columns of `ch` at or after column `c` of one row `line`, as cells of row `r`. */
  function RowPositions(line: string, ch: char, r: int, c: nat): seq<Cell>
    decreases |line| - c
  {
    if c >= |line| then []
    else if line[c] == ch then [Cell(r, c)] + RowPositions(line, ch, r, c + 1)
    else RowPositions(line, ch, r, c + 1)
  }

  /** The coordinates of `ch` in rows `r` onwards, row by row; written without
      a predicate argument so that it can be evaluated on constant grids. */
  function PositionsFrom(g: seq<string>, ch: char, r: nat): seq<Cell>
    decreases |g| - r
  {
    if r >= |g| then [] else RowPositions(g[r], ch, r, 0) + PositionsFrom(g, ch, r + 1)
  }

  function Positions(g: seq<string>, ch: char): seq<Cell> {
    PositionsFrom(g, ch, 0)
  }

  lemma {:induction false} RowPositionsSpec(line: string, ch: char, r: int, c: nat)
    ensures forall x :: x in RowPositions(line, ch, r, c) <==>
      x.row == r && c <= x.col < |line| && line[x.col] == ch
    ensures SortedCells(RowPositions(line, ch, r, c))
    decreases |line| - c
  {
    if c < |line| {
      RowPositionsSpec(line, ch, r, c + 1);
      var rest := RowPositions(line, ch, r, c + 1);
      if line[c] == ch {
        assert forall j :: 0 <= j < |rest| ==> Before(Cell(r, c), rest[j]) by {
          forall j | 0 <= j < |rest| ensures Before(Cell(r, c), rest[j]) {
            assert rest[j] in rest;
          }
        }
        SortedAppend([Cell(r, c)], rest);
      }
    }
  }

  lemma {:induction false} PositionsFromSpec(g: seq<string>, ch: char, r: nat)
    ensures forall x :: x in PositionsFrom(g, ch, r) <==> HasCharAt(g, ch, x) && x.row >= r
    ensures SortedCells(PositionsFrom(g, ch, r))
    decreases |g| - r
  {
    if r < |g| {
      RowPositionsSpec(g[r], ch, r, 0);
      PositionsFromSpec(g, ch, r + 1);
      var row, rest := RowPositions(g[r], ch, r, 0), PositionsFrom(g, ch, r + 1);
      assert forall i, j :: 0 <= i < |row| && 0 <= j < |rest| ==> Before(row[i], rest[j]) by {
        forall i, j | 0 <= i < |row| && 0 <= j < |rest| ensures Before(row[i], rest[j]) {
          assert row[i] in row && rest[j] in rest;
        }
      }
      SortedAppend(row, rest);
    }
  }

  /** Joining two sorted lists, the first wholly before the second, stays sorted. */
  lemma SortedAppend(a: seq<Cell>, b: seq<Cell>)
    requires SortedCells(a) && SortedCells(b)
    requires forall i, j :: 0 <= i < |a| && 0 <= j < |b| ==> Before(a[i], b[j])
    ensures SortedCells(a + b)
  {
    var t := a + b;
    forall i, j | 0 <= i < j < |t| ensures Before(t[i], t[j]) {
      if j < |a| { assert t[i] == a[i] && t[j] == a[j]; }
      else if i >= |a| { assert t[i] == b[i - |a|] && t[j] == b[j - |a|]; }
      else { assert t[i] == a[i] && t[j] == b[j - |a|]; }
    }
  }

  /** The positions of `ch` in the whole grid: each occurrence once, row-major. */
  lemma PositionsSpec(g: seq<string>, ch: char)
    ensures forall x :: x in Positions(g, ch) <==> HasCharAt(g, ch, x)
    ensures SortedCells(Positions(g, ch))
  {
    PositionsFromSpec(g, ch, 0);
  }
}
