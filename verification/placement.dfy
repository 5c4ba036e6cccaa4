/** `Placement.java`: one candidate position of a piece, as handed to the
    exact-cover search. It is plain immutable data and never touches a board;
    the datatype's destructors are the Java getters, and the covered cells are
    an immutable sequence where Java exposes an unmodifiable list view. */
module Placements {
  import opened Results
  import opened Cells
  import Text

  datatype Placement = Placement(pieceId: string, orientationIdx: int, anchorRow: int, anchorCol: int, covered: seq<Cell>)

  // ---- rendering -------------------------------------------------------

  /** The elements of a Java list of cells, separated by ", ". */
  function Items(cs: seq<Cell>): string {
    if |cs| == 0 then ""
    else if |cs| == 1 then Cells.ToString(cs[0])
    else Cells.ToString(cs[0]) + (", " + Items(cs[1..]))
  }

  /** Java's `List.toString()` of a list of cells: "[(r,c), (r,c)]". */
  function ListText(cs: seq<Cell>): string {
    "[" + Items(cs) + "]"
  }

  /** The tail " covers [cells]". */
  function CoversText(cs: seq<Cell>): string {
    " covers " + ListText(cs)
  }

  /** The tail " ori=k covers [cells]". */
  function OrientationText(o: int, cs: seq<Cell>): string {
    " ori=" + (Text.IntToString(o) + CoversText(cs))
  }

  /** The tail " @ (row,col) ori=k covers [cells]". */
  function AnchorText(anchor: Cell, o: int, cs: seq<Cell>): string {
    " @ " + (Cells.ToString(anchor) + OrientationText(o, cs))
  }

  /** Java `toString()`: "id @ (row,col) ori=k covers [cells]". */
  function ToString(p: Placement): string {
    p.pieceId + AnchorText(Cell(p.anchorRow, p.anchorCol), p.orientationIdx, p.covered)
  }

  // ---- reading the text back -------------------------------------------

  /** Reads the elements of a rendered cell list. */
  function ParseItems(s: string): Option<seq<Cell>>
    decreases |s|
  {
    if |s| == 0 then Some([])
    else
      var k := IndexOf(s, ')');
      if k == |s| then None
      else
        match ParseCell(s[..k + 1])
        case None => None
        case Some(c) =>
          var rest := s[k + 1..];
          if |rest| == 0 then Some([c])
          else if |rest| >= 2 && rest[..2] == ", " then
            match ParseItems(rest[2..])
            case None => None
            case Some(cs) => Some([c] + cs)
          else None
  }

  /** Reads a rendered cell list "[…]". */
  function ParseCellList(s: string): Option<seq<Cell>> {
    if |s| < 2 || s[0] != '[' || s[|s| - 1] != ']' then None
    else ParseItems(s[1..|s| - 1])
  }

  /** Reads " covers [cells]". */
  function ParseCovers(t: string): Option<seq<Cell>> {
    if |t| < 8 || t[..8] != " covers " then None else ParseCellList(t[8..])
  }

  /** Reads " ori=k covers [cells]". */
  function ParseOrientation(t: string): Option<(int, seq<Cell>)> {
    if |t| < 5 || t[..5] != " ori=" then None
    else
      var u := t[5..];
      var k := IndexOf(u, ' ');
      match (Text.ParseInt(u[..k]), ParseCovers(u[k..]))
      case (Some(o), Some(cs)) => Some((o, cs))
      case _ => None
  }

  /** Reads " @ (row,col) ori=k covers [cells]". */
  function ParseAnchor(t: string): Option<(Cell, int, seq<Cell>)> {
    if |t| < 3 || t[..3] != " @ " then None
    else
      var u := t[3..];
      var k := IndexOf(u, ')');
      if k == |u| then None
      else
        match (ParseCell(u[..k + 1]), ParseOrientation(u[k + 1..]))
        case (Some(anchor), Some((o, cs))) => Some((anchor, o, cs))
        case _ => None
  }

  /** Reads the text `ToString` produces, for a piece id without spaces. */
  function Parse(s: string): Option<Placement> {
    var k := IndexOf(s, ' ');
    match ParseAnchor(s[k..])
    case None => None
    case Some((anchor, o, cs)) => Some(Placement(s[..k], o, anchor.row, anchor.col, cs))
  }

  // ---- round trips ------------------------------------------------------

  /** A concatenation splits back into its two parts. */
  lemma Split(a: string, b: string)
    ensures (a + b)[..|a|] == a && (a + b)[|a|..] == b
  {
  }

  /** A rendered integer holds only '-' and digits. */
  lemma IntTextHasNo(x: int, ch: char)
    requires ch != '-' && !Text.IsDigit(ch)
    ensures ch !in Text.IntToString(x)
  {
    var s := Text.IntToString(x);
    assert forall i :: 0 <= i < |s| ==> s[i] != ch;
  }

  /** The first ')' of a rendered cell followed by anything is its last character. */
  lemma CellTextEnd(c: Cell, tail: string)
    ensures IndexOf(Cells.ToString(c) + tail, ')') == |Cells.ToString(c)| - 1
  {
    var a := Text.IntToString(c.row);
    var b := Text.IntToString(c.col);
    IntTextHasNo(c.row, ')');
    IntTextHasNo(c.col, ')');
    var front := "(" + a + "," + b;
    assert ')' !in front;
    assert Cells.ToString(c) + tail == front + (")" + tail);
    IndexOfPrefix(front, ')', ")" + tail);
  }

  /** One rendered cell followed by the rest of a rendered list. */
  lemma ParseItemsCons(c: Cell, tail: string)
    requires |tail| == 0 || (|tail| >= 2 && tail[..2] == ", ")
    ensures |tail| == 0 ==> ParseItems(Cells.ToString(c) + tail) == Some([c])
    ensures |tail| > 0 && ParseItems(tail[2..]).Some? ==>
      ParseItems(Cells.ToString(c) + tail) == Some([c] + ParseItems(tail[2..]).value)
  {
    var head := Cells.ToString(c);
    CellTextEnd(c, tail);
    Split(head, tail);
    Cells.ToStringRoundTrip(c);
  }

  /** Reading the elements back recovers the list. */
  lemma {:induction false} ItemsRoundTrip(cs: seq<Cell>)
    ensures ParseItems(Items(cs)) == Some(cs)
    decreases |cs|, 1
  {
    if |cs| == 1 {
      SingleItemRoundTrip(cs);
    } else if |cs| > 1 {
      MoreItemsRoundTrip(cs);
    }
  }

  lemma SingleItemRoundTrip(cs: seq<Cell>)
    requires |cs| == 1
    ensures ParseItems(Items(cs)) == Some(cs)
  {
    ParseItemsCons(cs[0], "");
    assert Items(cs) == Cells.ToString(cs[0]) + "";
    assert [cs[0]] == cs;
  }

  /** A list of two or more cells: the first cell, ", ", then the rest. */
  lemma MoreItemsRoundTrip(cs: seq<Cell>)
    requires |cs| > 1
    ensures ParseItems(Items(cs)) == Some(cs)
    decreases |cs|, 0
  {
    ItemsRoundTrip(cs[1..]);
    ItemsCons(cs);
  }

  /** The step of `MoreItemsRoundTrip`: if the rest reads back, so does the list. */
  lemma ItemsCons(cs: seq<Cell>)
    requires |cs| > 1 && ParseItems(Items(cs[1..])) == Some(cs[1..])
    ensures ParseItems(Items(cs)) == Some(cs)
  {
    ItemsUnfold(cs);
    ParseCommaCons(cs[0], Items(cs[1..]));
    HeadTail(cs);
  }

  /** A list of two or more cells renders as its first cell, ", ", then the rest. */
  lemma ItemsUnfold(cs: seq<Cell>)
    requires |cs| > 1
    ensures Items(cs) == Cells.ToString(cs[0]) + (", " + Items(cs[1..]))
  {
  }

  /** A rendered cell, ", ", then text that reads back as a list. */
  lemma ParseCommaCons(c: Cell, rest: string)
    requires ParseItems(rest).Some?
    ensures ParseItems(Cells.ToString(c) + (", " + rest)) == Some([c] + ParseItems(rest).value)
  {
    var tail := ", " + rest;
    Split(", ", rest);
    ParseItemsCons(c, tail);
  }

  /** A non-empty list is its first element followed by the rest. */
  lemma HeadTail(cs: seq<Cell>)
    requires |cs| > 0
    ensures [cs[0]] + cs[1..] == cs
  {
  }

  /** Java's list rendering of cells loses nothing. */
  lemma ListTextRoundTrip(cs: seq<Cell>)
    ensures ParseCellList(ListText(cs)) == Some(cs)
  {
    var s := ListText(cs);
    assert s[1..|s| - 1] == Items(cs);
    ItemsRoundTrip(cs);
  }

  lemma CoversRoundTrip(cs: seq<Cell>)
    ensures ParseCovers(CoversText(cs)) == Some(cs)
  {
    Split(" covers ", ListText(cs));
    ListTextRoundTrip(cs);
  }

  lemma OrientationRoundTrip(o: int, cs: seq<Cell>)
    ensures ParseOrientation(OrientationText(o, cs)) == Some((o, cs))
  {
    var oText := Text.IntToString(o);
    var rest := CoversText(cs);
    var u := oText + rest;
    Split(" ori=", u);
    IntTextHasNo(o, ' ');
    IndexOfPrefix(oText, ' ', rest);
    Split(oText, rest);
    Text.IntToStringRoundTrip(o);
    CoversRoundTrip(cs);
  }

  lemma AnchorRoundTrip(anchor: Cell, o: int, cs: seq<Cell>)
    ensures ParseAnchor(AnchorText(anchor, o, cs)) == Some((anchor, o, cs))
  {
    var cellText := Cells.ToString(anchor);
    var rest := OrientationText(o, cs);
    var u := cellText + rest;
    Split(" @ ", u);
    CellTextEnd(anchor, rest);
    Split(cellText, rest);
    Cells.ToStringRoundTrip(anchor);
    OrientationRoundTrip(o, cs);
  }

  /** For a piece id without spaces, `toString` determines the whole placement:
      id, anchor, orientation index and every covered cell in order. */
  lemma ToStringRoundTrip(p: Placement)
    requires ' ' !in p.pieceId
    ensures Parse(ToString(p)) == Some(p)
  {
    var anchor := Cell(p.anchorRow, p.anchorCol);
    var afterId := AnchorText(anchor, p.orientationIdx, p.covered);
    IndexOfPrefix(p.pieceId, ' ', afterId);
    Split(p.pieceId, afterId);
    AnchorRoundTrip(anchor, p.orientationIdx, p.covered);
  }

  /** Two placements with space-free ids render differently unless they are equal. */
  lemma ToStringInjective(p: Placement, q: Placement)
    requires ' ' !in p.pieceId && ' ' !in q.pieceId
    ensures ToString(p) == ToString(q) ==> p == q
  {
    ToStringRoundTrip(p);
    ToStringRoundTrip(q);
  }
}
