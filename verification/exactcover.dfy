/** Knuth's Algorithm X as run by `ExactCoverSolver.java`, with the dancing-links
    linked node structure abstracted to sets.

    The linked structure at any moment is determined by the set of columns still
    linked into the header list ("active"): a row is still threaded through the
    list of an active column exactly when none of its columns has been covered.
    `Columns` is that view of the structure, `Cover`/`Uncover` are the two
    link operations on it, and `Search` is the recursive search over active
    column sets. */
module ExactCover {
  import opened Results

  /** The solver's input: `numCols` columns and one boolean mask per row. */
  datatype Problem = Problem(numCols: nat, rows: seq<seq<bool>>)

  /** The constructor reads `rowMask[c]` for every c < numCols. */
  predicate WellFormed(p: Problem) {
    forall i :: 0 <= i < |p.rows| ==> |p.rows[i]| >= p.numCols
  }

  /** The numbers below `n`. */
  function Below(n: nat): (s: set<nat>)
    ensures forall j: nat :: j in s <==> j < n
  {
    if n == 0 then {} else Below(n - 1) + {n - 1}
  }

  /** The columns linked into the header list after construction. */
  function AllCols(p: Problem): set<nat> {
    Below(p.numCols)
  }

  /** Row `i` of the matrix is true at column `j`. */
  predicate Marks(p: Problem, i: nat, j: nat) {
    i < |p.rows| && j < p.numCols && j < |p.rows[i]| && p.rows[i][j]
  }

  /** For each row, the columns in which it has a node. The search below works
      on these column sets. */
  function RowSets(p: Problem): (rs: seq<set<nat>>)
    ensures |rs| == |p.rows|
    ensures forall i: nat, j: nat :: i < |rs| ==> (j in rs[i] <==> Marks(p, i, j))
  {
    seq(|p.rows|, i requires 0 <= i < |p.rows| => set j: nat | j < p.numCols && Marks(p, i, j))
  }

  /** Row i's column set holds exactly the marked columns below `numCols`. */
  lemma RowSetAt(p: Problem, i: nat)
    requires WellFormed(p) && i < |p.rows|
    ensures i < |RowSets(p)|
    ensures forall j: nat :: j in RowSets(p)[i] <==> j < p.numCols && p.rows[i][j]
  {
  }

  /** The rows still threaded through column `c` when `active` are the uncovered columns. */
  function ColumnRows(rs: seq<set<nat>>, active: set<nat>, c: nat): set<nat> {
    set i: nat | i < |rs| && c in rs[i] && rs[i] <= active
  }

  /** The `size` counter of column `c`. */
  function Size(rs: seq<set<nat>>, active: set<nat>, c: nat): nat {
    |ColumnRows(rs, active, c)|
  }

  /** The whole linked structure: each active column with the rows in its list. */
  function Columns(rs: seq<set<nat>>, active: set<nat>): map<nat, set<nat>> {
    map c | c in active :: ColumnRows(rs, active, c)
  }

  /** After construction every row sits in the list of every column it marks, so
      each size counts the rows that are true in that column. */
  lemma InitialColumns(p: Problem, c: nat)
    requires WellFormed(p) && c < p.numCols
    ensures ColumnRows(RowSets(p), AllCols(p), c) == set i: nat | i < |p.rows| && p.rows[i][c]
  {
    var rs := RowSets(p);
    var lhs := ColumnRows(rs, AllCols(p), c);
    var rhs := set i: nat | i < |p.rows| && p.rows[i][c];
    forall i: nat ensures i in lhs <==> i in rhs {
      if i < |p.rows| {
        assert rs[i] <= AllCols(p);
      }
    }
  }

  // ---- cover / uncover -------------------------------------------------

  /** `ColumnHeader.cover()`: unlink column `c` from the header list and every
      row of its list from all other columns. */
  function Cover(lists: map<nat, set<nat>>, c: nat): map<nat, set<nat>>
    requires c in lists
  {
    map j | j in lists && j != c :: lists[j] - lists[c]
  }

  /** `ColumnHeader.uncover()`: relink each row of `saved` (the list `c` kept while
      covered) into the other columns it marks, then relink `c` itself. */
  function Uncover(rs: seq<set<nat>>, lists: map<nat, set<nat>>, c: nat, saved: set<nat>): map<nat, set<nat>> {
    map j | j in lists.Keys + {c} ::
      if j == c then saved
      else lists[j] + set i: nat | i in saved && i < |rs| && j in rs[i]
  }

  /** Covering an active column gives the structure of the smaller active set. */
  lemma CoverMatches(rs: seq<set<nat>>, active: set<nat>, c: nat)
    requires c in active
    ensures Cover(Columns(rs, active), c) == Columns(rs, active - {c})
  {
    var lists := Columns(rs, active);
    var lhs := Cover(lists, c);
    var rhs := Columns(rs, active - {c});
    assert lhs.Keys == rhs.Keys;
    forall j | j in lhs.Keys ensures lhs[j] == rhs[j] {
      forall i: nat ensures i in lhs[j] <==> i in rhs[j] {
        if i < |rs| && c in rs[i] && rs[i] <= active {
          assert i in lists[c];
        }
      }
    }
  }

  /** `uncover` undoes `cover`: every column gets back its list, and so its size. */
  lemma UncoverRestores(rs: seq<set<nat>>, active: set<nat>, c: nat)
    requires c in active
    ensures Uncover(rs, Cover(Columns(rs, active), c), c, Columns(rs, active)[c]) == Columns(rs, active)
  {
    CoverMatches(rs, active, c);
    var saved := Columns(rs, active)[c];
    var lhs := Uncover(rs, Columns(rs, active - {c}), c, saved);
    var rhs := Columns(rs, active);
    assert lhs.Keys == rhs.Keys;
    forall j | j in lhs.Keys ensures lhs[j] == rhs[j] {
      if j != c {
        forall i: nat ensures i in lhs[j] <==> i in rhs[j] {
          if i < |rs| && j in rs[i] && rs[i] <= active && c in rs[i] {
            assert i in saved;
          }
        }
      }
    }
  }

  /** Covering several columns one after the other, as the search does for the
      remaining columns of a chosen row. */
  function CoverEach(lists: map<nat, set<nat>>, js: seq<nat>): map<nat, set<nat>>
    requires forall k :: 0 <= k < |js| ==> js[k] in lists
    requires forall k, l :: 0 <= k < l < |js| ==> js[k] != js[l]
  {
    if |js| == 0 then lists
    else CoverEach(Cover(lists, js[0]), js[1..])
  }

  /** The elements of a list of columns. */
  function SetOf(js: seq<nat>): (s: set<nat>)
    ensures forall k :: 0 <= k < |js| ==> js[k] in s
    ensures forall x :: x in s ==> exists k :: 0 <= k < |js| && js[k] == x
  {
    if |js| == 0 then {} else {js[0]} + SetOf(js[1..])
  }

  /** Whatever the order, covering a set of active columns leaves the structure of
      the active set without them. */
  lemma {:induction false} CoverEachMatches(rs: seq<set<nat>>, active: set<nat>, js: seq<nat>)
    requires forall k :: 0 <= k < |js| ==> js[k] in active
    requires forall k, l :: 0 <= k < l < |js| ==> js[k] != js[l]
    ensures CoverEach(Columns(rs, active), js) == Columns(rs, active - SetOf(js))
  {
    if |js| > 0 {
      CoverMatches(rs, active, js[0]);
      CoverEachMatches(rs, active - {js[0]}, js[1..]);
      assert (active - {js[0]}) - SetOf(js[1..]) == active - SetOf(js);
    } else {
      assert active - SetOf(js) == active;
    }
  }

  // ---- column choice ---------------------------------------------------

  /** After scanning the header list up to (not including) column `j`, `best` is the
      first active column of least size seen so far, or none when no active
      column lies below `j`. */
  ghost predicate BestSoFar(rs: seq<set<nat>>, active: set<nat>, j: nat, best: Option<nat>) {
    match best
    case None => forall k :: k in active ==> k >= j
    case Some(b) =>
      b in active && b < j
      && (forall k :: k in active && k < j ==> Size(rs, active, b) <= Size(rs, active, k))
      && (forall k :: k in active && k < b ==> Size(rs, active, b) < Size(rs, active, k))
  }

  /** The header scan of `selectColumn` from column `j` on: a column replaces the
      current best only when its size is strictly smaller. */
  function SelectFrom(n: nat, rs: seq<set<nat>>, active: set<nat>, j: nat, best: Option<nat>): (res: Option<nat>)
    requires j <= n
    requires BestSoFar(rs, active, j, best)
    ensures BestSoFar(rs, active, n, res)
    decreases n - j
  {
    if j == n then best
    else if j in active && (best.None? || Size(rs, active, j) < Size(rs, active, best.value)) then
      SelectFrom(n, rs, active, j + 1, Some(j))
    else
      SelectFrom(n, rs, active, j + 1, best)
  }

  /** `selectColumn()` over the header list of columns 0 .. n-1: the first
      uncovered column of minimum size. */
  function SelectColumn(n: nat, rs: seq<set<nat>>, active: set<nat>): (c: nat)
    requires active != {} && active <= Below(n)
    ensures c in active
    ensures forall k :: k in active ==> Size(rs, active, c) <= Size(rs, active, k)
    ensures forall k :: k in active && k < c ==> Size(rs, active, c) < Size(rs, active, k)
  {
    SelectFrom(n, rs, active, 0, None).value
  }

  // ---- search ----------------------------------------------------------

  /** Row `i` is in the list of column `c` while `active` are the uncovered columns. */
  predicate Candidate(rs: seq<set<nat>>, active: set<nat>, c: nat, i: nat)
    requires i < |rs|
  {
    c in rs[i] && rs[i] <= active
  }

  /** `search(k, result)`: `partial` is the solution stack. With no column left it
      succeeds with the stack; otherwise it tries the rows of the chosen column. */
  function Search(n: nat, rs: seq<set<nat>>, active: set<nat>, partial: seq<nat>): Option<seq<nat>>
    requires active <= Below(n)
    decreases |active|, 1, 0
  {
    if active == {} then Some(partial)
    else TryRows(n, rs, active, SelectColumn(n, rs, active), 0, partial)
  }

  /** The loop over column `c`'s list, from row `i` on in list (row index) order:
      each row is pushed, its columns covered, and the search recursed; the first
      success is returned, otherwise the next row is tried. */
  function TryRows(n: nat, rs: seq<set<nat>>, active: set<nat>, c: nat, i: nat, partial: seq<nat>): Option<seq<nat>>
    requires active <= Below(n) && c in active
    decreases |active|, 0, |rs| - i
  {
    if i >= |rs| then None
    else if Candidate(rs, active, c, i) then
      assert active - rs[i] < active by { assert c !in active - rs[i]; }
      match Search(n, rs, active - rs[i], partial + [i])
      case Some(s) => Some(s)
      case None => TryRows(n, rs, active, c, i + 1, partial)
    else TryRows(n, rs, active, c, i + 1, partial)
  }

  /** `solve()`: the row indices of an exact cover, or none. */
  function Solve(p: Problem): Option<seq<nat>>
    requires WellFormed(p)
  {
    Search(p.numCols, RowSets(p), AllCols(p), [])
  }

  // ---- correctness -----------------------------------------------------

  /** Every listed row is in range, non-empty and inside `cols`. */
  ghost predicate RowsWithin(rs: seq<set<nat>>, sel: seq<nat>, cols: set<nat>) {
    forall k :: 0 <= k < |sel| ==> sel[k] < |rs| && rs[sel[k]] != {} && rs[sel[k]] <= cols
  }

  /** Every column of `cols` is marked by some listed row. */
  ghost predicate CoversAll(rs: seq<set<nat>>, sel: seq<nat>, cols: set<nat>) {
    forall j :: j in cols ==> exists k :: 0 <= k < |sel| && sel[k] < |rs| && j in rs[sel[k]]
  }

  /** No two listed rows share a column. */
  ghost predicate PairwiseDisjoint(rs: seq<set<nat>>, sel: seq<nat>) {
    forall k, l :: 0 <= k < l < |sel| && sel[k] < |rs| && sel[l] < |rs| ==> rs[sel[k]] !! rs[sel[l]]
  }

  /** `sel` lists rows that together mark every column of `cols` exactly once. */
  ghost predicate ExactCoverOf(rs: seq<set<nat>>, sel: seq<nat>, cols: set<nat>) {
    RowsWithin(rs, sel, cols) && CoversAll(rs, sel, cols) && PairwiseDisjoint(rs, sel)
  }

  /** Every row of the set is in range and inside `cols`. */
  ghost predicate SetWithin(rs: seq<set<nat>>, rows: set<nat>, cols: set<nat>) {
    forall r :: r in rows ==> r < |rs| && rs[r] <= cols
  }

  /** Every column of `cols` is marked by some row of the set. */
  ghost predicate SetCovers(rs: seq<set<nat>>, rows: set<nat>, cols: set<nat>) {
    forall j :: j in cols ==> exists r :: r in rows && r < |rs| && j in rs[r]
  }

  /** No two rows of the set share a column. */
  ghost predicate SetDisjoint(rs: seq<set<nat>>, rows: set<nat>) {
    forall r1, r2 :: r1 in rows && r2 in rows && r1 != r2 && r1 < |rs| && r2 < |rs| ==> rs[r1] !! rs[r2]
  }

  /** A set of row indices that is an exact cover of `cols`. */
  ghost predicate ExactCoverSet(rs: seq<set<nat>>, rows: set<nat>, cols: set<nat>) {
    SetWithin(rs, rows, cols) && SetCovers(rs, rows, cols) && SetDisjoint(rs, rows)
  }

  lemma ConsWithin(rs: seq<set<nat>>, i: nat, rest: seq<nat>, active: set<nat>)
    requires i < |rs| && rs[i] != {} && rs[i] <= active
    requires RowsWithin(rs, rest, active - rs[i])
    ensures RowsWithin(rs, [i] + rest, active)
  {
  }

  lemma ConsCovers(rs: seq<set<nat>>, i: nat, rest: seq<nat>, active: set<nat>)
    requires i < |rs| && rs[i] <= active
    requires CoversAll(rs, rest, active - rs[i])
    ensures CoversAll(rs, [i] + rest, active)
  {
    var sel := [i] + rest;
    forall j | j in active ensures exists k :: 0 <= k < |sel| && sel[k] < |rs| && j in rs[sel[k]] {
      if j in rs[i] {
        assert j in rs[sel[0]];
      } else {
        assert j in active - rs[i];
        var k :| 0 <= k < |rest| && rest[k] < |rs| && j in rs[rest[k]];
        assert sel[k + 1] == rest[k];
      }
    }
  }

  lemma ConsDisjoint(rs: seq<set<nat>>, i: nat, rest: seq<nat>, active: set<nat>)
    requires i < |rs| && rs[i] <= active
    requires RowsWithin(rs, rest, active - rs[i]) && PairwiseDisjoint(rs, rest)
    ensures PairwiseDisjoint(rs, [i] + rest)
  {
    var sel := [i] + rest;
    forall k, l | 0 <= k < l < |sel| ensures rs[sel[k]] !! rs[sel[l]] {
      if k == 0 {
        assert sel[l] == rest[l - 1];
      } else {
        assert sel[k] == rest[k - 1] && sel[l] == rest[l - 1];
      }
    }
  }

  /** Putting a row in front of an exact cover of the columns it leaves. */
  lemma ConsCover(rs: seq<set<nat>>, i: nat, rest: seq<nat>, active: set<nat>)
    requires i < |rs| && rs[i] != {} && rs[i] <= active
    requires ExactCoverOf(rs, rest, active - rs[i])
    ensures ExactCoverOf(rs, [i] + rest, active)
  {
    ConsWithin(rs, i, rest, active);
    ConsCovers(rs, i, rest, active);
    ConsDisjoint(rs, i, rest, active);
  }

  /** Whatever `Search` returns extends the stack by an exact cover of the active columns. */
  lemma {:induction false} SearchSound(n: nat, rs: seq<set<nat>>, active: set<nat>, partial: seq<nat>)
    requires active <= Below(n)
    ensures var res := Search(n, rs, active, partial);
      res.Some? ==> |partial| <= |res.value| && res.value[..|partial|] == partial
                    && ExactCoverOf(rs, res.value[|partial|..], active)
    decreases |active|, 1, 0
  {
    if active == {} {
      assert Search(n, rs, active, partial) == Some(partial);
      assert partial[|partial|..] == [];
    } else {
      TryRowsSound(n, rs, active, SelectColumn(n, rs, active), 0, partial);
    }
  }

  /** Pushing row `i` and then finding an exact cover of the columns it leaves
      extends the stack by an exact cover of all the active columns. */
  lemma StepSound(rs: seq<set<nat>>, active: set<nat>, i: nat, partial: seq<nat>, s: seq<nat>)
    requires i < |rs| && rs[i] != {} && rs[i] <= active
    requires |partial| + 1 <= |s| && s[..|partial| + 1] == partial + [i]
    requires ExactCoverOf(rs, s[|partial| + 1..], active - rs[i])
    ensures |partial| <= |s| && s[..|partial|] == partial
    ensures ExactCoverOf(rs, s[|partial|..], active)
  {
    var m := |partial|;
    assert s[..m] == partial by { assert s[..m] == s[..m + 1][..m]; }
    assert s[m] == i by { assert s[..m + 1][m] == i; }
    assert s[m..] == [i] + s[m + 1..];
    ConsCover(rs, i, s[m + 1..], active);
  }

  lemma {:induction false} TryRowsSound(n: nat, rs: seq<set<nat>>, active: set<nat>, c: nat, i: nat, partial: seq<nat>)
    requires active <= Below(n) && c in active
    ensures var res := TryRows(n, rs, active, c, i, partial);
      res.Some? ==> |partial| <= |res.value| && res.value[..|partial|] == partial
                    && ExactCoverOf(rs, res.value[|partial|..], active)
    decreases |active|, 0, |rs| - i
  {
    if i < |rs| {
      if Candidate(rs, active, c, i) {
        assert active - rs[i] < active by { assert c !in active - rs[i]; }
        var inner := Search(n, rs, active - rs[i], partial + [i]);
        SearchSound(n, rs, active - rs[i], partial + [i]);
        if inner.Some? {
          StepSound(rs, active, i, partial, inner.value);
          assert TryRows(n, rs, active, c, i, partial) == inner;
        } else {
          TryRowsSound(n, rs, active, c, i + 1, partial);
        }
      } else {
        TryRowsSound(n, rs, active, c, i + 1, partial);
      }
    }
  }

  /** Dropping one row from an exact cover leaves an exact cover of the columns
      that row does not mark. */
  lemma RemoveRow(rs: seq<set<nat>>, rows: set<nat>, active: set<nat>, r: nat)
    requires ExactCoverSet(rs, rows, active) && r in rows
    ensures ExactCoverSet(rs, rows - {r}, active - rs[r])
  {
    forall j | j in active - rs[r] ensures exists r2 :: r2 in rows - {r} && r2 < |rs| && j in rs[r2] {
      var r2 :| r2 in rows && r2 < |rs| && j in rs[r2];
    }
  }

  /** If an exact cover of the active columns exists, `Search` finds one. */
  lemma {:induction false} SearchComplete(n: nat, rs: seq<set<nat>>, active: set<nat>, partial: seq<nat>, rows: set<nat>)
    requires active <= Below(n) && ExactCoverSet(rs, rows, active)
    ensures Search(n, rs, active, partial).Some?
    decreases |active|, 1, 0
  {
    if active != {} {
      var c := SelectColumn(n, rs, active);
      var r :| r in rows && r < |rs| && c in rs[r];
      TryRowsComplete(n, rs, active, c, 0, partial, rows, r);
    }
  }

  lemma {:induction false} TryRowsComplete(n: nat, rs: seq<set<nat>>, active: set<nat>, c: nat, i: nat, partial: seq<nat>,
                                           rows: set<nat>, r: nat)
    requires active <= Below(n) && c in active
    requires ExactCoverSet(rs, rows, active) && r in rows && r < |rs| && c in rs[r] && i <= r
    ensures TryRows(n, rs, active, c, i, partial).Some?
    decreases |active|, 0, |rs| - i
  {
    if i == r {
      assert rs[r] <= active;
      assert Candidate(rs, active, c, r);
      assert active - rs[r] < active by { assert c !in active - rs[r]; }
      RemoveRow(rs, rows, active, r);
      SearchComplete(n, rs, active - rs[r], partial + [r], rows - {r});
    } else {
      TryRowsComplete(n, rs, active, c, i + 1, partial, rows, r);
    }
  }

  lemma WithinAsSet(rs: seq<set<nat>>, sel: seq<nat>, cols: set<nat>)
    requires RowsWithin(rs, sel, cols)
    ensures SetWithin(rs, set k | 0 <= k < |sel| :: sel[k], cols)
  {
  }

  lemma CoversAsSet(rs: seq<set<nat>>, sel: seq<nat>, cols: set<nat>)
    requires CoversAll(rs, sel, cols)
    ensures SetCovers(rs, set k | 0 <= k < |sel| :: sel[k], cols)
  {
    var rows := set k | 0 <= k < |sel| :: sel[k];
    forall j | j in cols ensures exists r :: r in rows && r < |rs| && j in rs[r] {
      var k :| 0 <= k < |sel| && sel[k] < |rs| && j in rs[sel[k]];
      assert sel[k] in rows;
    }
  }

  lemma DisjointAsSet(rs: seq<set<nat>>, sel: seq<nat>)
    requires PairwiseDisjoint(rs, sel)
    ensures SetDisjoint(rs, set k | 0 <= k < |sel| :: sel[k])
  {
    var rows := set k | 0 <= k < |sel| :: sel[k];
    forall r1, r2 | r1 in rows && r2 in rows && r1 != r2 && r1 < |rs| && r2 < |rs| ensures rs[r1] !! rs[r2] {
      var k1 :| 0 <= k1 < |sel| && sel[k1] == r1;
      var k2 :| 0 <= k2 < |sel| && sel[k2] == r2;
      if k1 > k2 { assert rs[sel[k2]] !! rs[sel[k1]]; }
    }
  }

  /** The rows of a listed cover, as a set, form an exact cover. */
  lemma CoverAsSet(rs: seq<set<nat>>, sel: seq<nat>, cols: set<nat>)
    requires ExactCoverOf(rs, sel, cols)
    ensures ExactCoverSet(rs, set k | 0 <= k < |sel| :: sel[k], cols)
  {
    WithinAsSet(rs, sel, cols);
    CoversAsSet(rs, sel, cols);
    DisjointAsSet(rs, sel);
  }

  /** A column of an exact cover is marked by one of its chosen rows. */
  lemma CoverRow(rs: seq<set<nat>>, sel: seq<nat>, cols: set<nat>, j: nat) returns (k: nat)
    requires CoversAll(rs, sel, cols) && j in cols
    ensures k < |sel| && sel[k] < |rs| && j in rs[sel[k]]
  {
    k :| 0 <= k < |sel| && sel[k] < |rs| && j in rs[sel[k]];
  }

  /** A column of an exact cover given as a set is marked by one of its rows. */
  lemma SetCoverRow(rs: seq<set<nat>>, rows: set<nat>, cols: set<nat>, j: nat) returns (r: nat)
    requires SetCovers(rs, rows, cols) && j in cols
    ensures r in rows && r < |rs| && j in rs[r]
  {
    r :| r in rows && r < |rs| && j in rs[r];
  }

  /** `solve()` returns row indices in range that cover every column exactly once,
      never choosing an empty row. */
  lemma SolveSound(p: Problem)
    requires WellFormed(p)
    ensures Solve(p).Some? ==> ExactCoverOf(RowSets(p), Solve(p).value, AllCols(p))
  {
    SearchSound(p.numCols, RowSets(p), AllCols(p), []);
    if Solve(p).Some? {
      assert Solve(p).value[0..] == Solve(p).value;
    }
  }

  /** `solve()` returns none exactly when the matrix has no exact cover. */
  lemma SolveComplete(p: Problem)
    requires WellFormed(p)
    ensures Solve(p).Some? <==> exists rows :: ExactCoverSet(RowSets(p), rows, AllCols(p))
  {
    var rs := RowSets(p);
    SolveSound(p);
    if Solve(p).Some? {
      CoverAsSet(rs, Solve(p).value, AllCols(p));
    }
    if rows :| ExactCoverSet(rs, rows, AllCols(p)) {
      SearchComplete(p.numCols, rs, AllCols(p), [], rows);
    }
  }

  /** With no columns the search succeeds at once with an empty list. */
  lemma ZeroColumns(p: Problem)
    requires WellFormed(p) && p.numCols == 0
    ensures Solve(p) == Some([])
  {
    assert AllCols(p) == {};
  }

  /** No list of rows covers a column that no row marks. */
  lemma UncoveredColumn(rs: seq<set<nat>>, res: Option<seq<nat>>, cols: set<nat>, j: nat)
    requires j in cols && forall i :: 0 <= i < |rs| ==> j !in rs[i]
    ensures res.Some? ==> !CoversAll(rs, res.value, cols)
  {
  }

  /** A column that no row marks makes the result none. */
  lemma EmptyColumnFails(p: Problem, j: nat)
    requires WellFormed(p) && j < p.numCols
    requires forall i :: 0 <= i < |p.rows| ==> !p.rows[i][j]
    ensures Solve(p).None?
  {
    SolveSound(p);
    var rs := RowSets(p);
    assert j in AllCols(p);
    UncoveredColumn(rs, Solve(p), AllCols(p), j);
  }
}
