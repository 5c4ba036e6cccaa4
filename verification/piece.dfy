/** Puzzle pieces (`Piece.java`): an ASCII template normalised to a zero-based
    corner, and the enumeration of its distinct rotations and mirror images. */
module Pieces {
  import opened Results
  import opened Cells

  datatype PieceError = EmptyTemplate | RaggedTemplate | NoCells

  /** `canonical` is normalised; `height` and `width` bound it. */
  datatype Piece = Piece(id: string, canonical: seq<Cell>, height: int, width: int)

  predicate IsHash(tpl: seq<string>, x: Cell) {
    0 <= x.row < |tpl| && 0 <= x.col < |tpl[x.row]| && tpl[x.row][x.col] == '#'
  }

  predicate RectangularTemplate(tpl: seq<string>) {
    |tpl| > 0 && forall r :: 0 <= r < |tpl| ==> |tpl[r]| == |tpl[0]|
  }

  /** The '#' positions of the template, in row-major order. */
  function RawCells(tpl: seq<string>): (raw: seq<Cell>)
    requires RectangularTemplate(tpl)
    ensures forall x :: x in raw <==> IsHash(tpl, x)
    ensures forall i, j :: 0 <= i < j < |raw| ==> Before(raw[i], raw[j])
  {
    assert forall x :: IsHash(tpl, x) ==> InGrid(|tpl|, |tpl[0]|, x);
    Scan(|tpl|, |tpl[0]|, x => IsHash(tpl, x))
  }

  /** Cells of `s` are pairwise different. */
  predicate Distinct(s: seq<Cell>) {
    forall i, j :: 0 <= i < j < |s| ==> s[i] != s[j]
  }

  /** `s` fits in an h x w box anchored at (0, 0) and touches all four of its sides. */
  predicate Tight(s: seq<Cell>, h: int, w: int) {
    Normalized(s) && MaxRow(s) == h - 1 && MaxCol(s) == w - 1
  }

  /** The canonical cells: the '#' positions, in row-major order, shifted so
      that the smallest row and column are 0. */
  function Canonical(tpl: seq<string>): (norm: seq<Cell>)
    requires RectangularTemplate(tpl)
    ensures var raw := RawCells(tpl);
      |norm| == |raw| && Distinct(norm)
      && (forall i :: 0 <= i < |raw| ==> norm[i] == Cell(raw[i].row - MinRow(raw), raw[i].col - MinCol(raw)))
    ensures |norm| > 0 <==> exists x :: IsHash(tpl, x)
    ensures |norm| > 0 ==> Normalized(norm)
  {
    CanonicalSpec(tpl);
    Normalize(RawCells(tpl))
  }

  /** The shifted '#' cells: pairwise different, none exactly when the
      template has no '#', and normalised otherwise. */
  lemma CanonicalSpec(tpl: seq<string>)
    requires RectangularTemplate(tpl)
    ensures var raw := RawCells(tpl);
      var norm := Normalize(raw);
      |norm| == |raw| && Distinct(norm)
      && (forall i :: 0 <= i < |raw| ==> norm[i] == Cell(raw[i].row - MinRow(raw), raw[i].col - MinCol(raw)))
      && (|norm| > 0 <==> exists x :: IsHash(tpl, x))
      && (|norm| > 0 ==> Normalized(norm))
  {
    var raw := RawCells(tpl);
    var norm := Normalize(raw);
    forall i, j | 0 <= i < j < |norm| ensures norm[i] != norm[j] {
      assert Before(raw[i], raw[j]);
    }
    if |raw| > 0 {
      assert IsHash(tpl, raw[0]);
    }
  }

  /** The Java constructor `Piece(id, asciiTpl)`: template checks in source
      order, then the canonical cells and their bounding box. */
  function Make(id: string, tpl: seq<string>): (res: Result<Piece, PieceError>)
    ensures |tpl| == 0 ==> res == Err(EmptyTemplate)
    ensures |tpl| > 0 && !RectangularTemplate(tpl) ==> res == Err(RaggedTemplate)
    ensures RectangularTemplate(tpl) && (forall x :: !IsHash(tpl, x)) ==> res == Err(NoCells)
    ensures res.Ok? <==> RectangularTemplate(tpl) && exists x :: IsHash(tpl, x)
    ensures res.Ok? ==> res.value.id == id && res.value.canonical == Canonical(tpl)
    ensures res.Ok? ==> Tight(res.value.canonical, res.value.height, res.value.width)
  {
    if |tpl| == 0 then Err(EmptyTemplate)
    else if !RectangularTemplate(tpl) then Err(RaggedTemplate)
    else
      var norm := Canonical(tpl);
      if |norm| == 0 then Err(NoCells)
      else Ok(Piece(id, norm, MaxRow(norm) + 1, MaxCol(norm) + 1))
  }

  /** Java `rotate90(shape, height, width)`: (r, c) goes to (c, height - 1 - r). */
  function Rotate90(s: seq<Cell>, h: int, w: int): (t: seq<Cell>)
    ensures |t| == |s|
  {
    seq(|s|, i requires 0 <= i < |s| => Cell(s[i].col, h - 1 - s[i].row))
  }

  /** The horizontal flip of `generateAllOrientations`: col goes to width - 1 - col. */
  function Mirror(s: seq<Cell>, w: int): (t: seq<Cell>)
    ensures |t| == |s|
  {
    seq(|s|, i requires 0 <= i < |s| => Cell(s[i].row, w - 1 - s[i].col))
  }

  /** `k` quarter turns, swapping the box dimensions after each one. */
  function RotateTimes(s: seq<Cell>, h: int, w: int, k: nat): (t: seq<Cell>)
    ensures |t| == |s|
    decreases k
  {
    if k == 0 then s else RotateTimes(Rotate90(s, h, w), w, h, k - 1)
  }

  lemma MaxMapped(xs: seq<int>, ys: seq<int>, a: int)
    requires |xs| == |ys| > 0
    requires forall i :: 0 <= i < |xs| ==> ys[i] == a - xs[i]
    ensures Max(ys) == a - Min(xs) && Min(ys) == a - Max(xs)
  {
    var i :| 0 <= i < |xs| && xs[i] == Min(xs);
    var j :| 0 <= j < |ys| && ys[j] == Max(ys);
    assert ys[i] <= Max(ys) && Min(xs) <= xs[j];
    var i' :| 0 <= i' < |xs| && xs[i'] == Max(xs);
    var j' :| 0 <= j' < |ys| && ys[j'] == Min(ys);
    assert Min(ys) <= ys[i'] && xs[j'] <= Max(xs);
  }

  /** A quarter turn of a tight h x w shape is a tight w x h shape. */
  lemma RotateKeepsTight(s: seq<Cell>, h: int, w: int)
    requires Tight(s, h, w)
    ensures Tight(Rotate90(s, h, w), w, h)
  {
    var t := Rotate90(s, h, w);
    assert Rows(t) == Cols(s);
    MaxMapped(Rows(s), Cols(t), h - 1);
  }

  /** Mirroring a tight shape keeps it tight in the same box. */
  lemma MirrorKeepsTight(s: seq<Cell>, h: int, w: int)
    requires Tight(s, h, w)
    ensures Tight(Mirror(s, w), h, w)
  {
    var t := Mirror(s, w);
    assert Rows(t) == Rows(s);
    MaxMapped(Cols(s), Cols(t), w - 1);
  }

  /** The box height after `k` quarter turns of an h x w box: h for even k, w for odd k. */
  function TurnedHeight(h: int, w: int, k: nat): int
    decreases k
  {
    if k == 0 then h else TurnedHeight(w, h, k - 1)
  }

  /** Any number of quarter turns keeps a tight shape tight, in the box of
      the matching parity. */
  lemma {:induction false} RotateTimesKeepsTight(s: seq<Cell>, h: int, w: int, k: nat)
    requires Tight(s, h, w)
    ensures Tight(RotateTimes(s, h, w, k), TurnedHeight(h, w, k), TurnedHeight(w, h, k))
    decreases k, 1
  {
    if k == 0 {
      RotateTimesZero(s, h, w);
    } else {
      RotateTimesKeepsTightAfterFirst(s, h, w, k);
    }
  }

  /** The inductive step of `RotateTimesKeepsTight`: the first turn keeps the
      shape tight in the swapped box, and the remaining k - 1 turns do the rest. */
  lemma RotateTimesKeepsTightAfterFirst(s: seq<Cell>, h: int, w: int, k: nat)
    requires k > 0 && Tight(s, h, w)
    ensures Tight(RotateTimes(s, h, w, k), TurnedHeight(h, w, k), TurnedHeight(w, h, k))
    decreases k, 0
  {
    RotateKeepsTight(s, h, w);
    RotateTimesKeepsTight(Rotate90(s, h, w), w, h, k - 1);
    RotateTimesTightStep(s, h, w, k);
  }

  /** No turn at all leaves the shape and its box as they are. */
  lemma RotateTimesZero(s: seq<Cell>, h: int, w: int)
    ensures RotateTimes(s, h, w, 0) == s && TurnedHeight(h, w, 0) == h && TurnedHeight(w, h, 0) == w
  {
  }

  /** If the last k - 1 turns keep the once-turned shape tight, all k turns
      keep the shape tight. */
  lemma RotateTimesTightStep(s: seq<Cell>, h: int, w: int, k: nat)
    requires k > 0
    requires Tight(RotateTimes(Rotate90(s, h, w), w, h, k - 1), TurnedHeight(w, h, k - 1), TurnedHeight(h, w, k - 1))
    ensures Tight(RotateTimes(s, h, w, k), TurnedHeight(h, w, k), TurnedHeight(w, h, k))
  {
    RotateTimesStep(s, h, w, k);
  }

  /** The first of `k` quarter turns, and the box it leaves. */
  lemma RotateTimesStep(s: seq<Cell>, h: int, w: int, k: nat)
    requires k > 0
    ensures RotateTimes(s, h, w, k) == RotateTimes(Rotate90(s, h, w), w, h, k - 1)
    ensures TurnedHeight(h, w, k) == TurnedHeight(w, h, k - 1)
    ensures TurnedHeight(w, h, k) == TurnedHeight(h, w, k - 1)
  {
  }

  /** Four quarter turns in alternating boxes give back the original list. */
  lemma FourRotate90(s: seq<Cell>, h: int, w: int)
    ensures Rotate90(Rotate90(Rotate90(Rotate90(s, h, w), w, h), h, w), w, h) == s
  {
  }

  /** Four quarter turns with swapped dimensions give back the original list. */
  lemma FourRotationsIdentity(s: seq<Cell>, h: int, w: int)
    ensures RotateTimes(s, h, w, 4) == s
  {
    var s1 := Rotate90(s, h, w);
    var s2 := Rotate90(s1, w, h);
    var s3 := Rotate90(s2, h, w);
    var s4 := Rotate90(s3, w, h);
    assert RotateTimes(s, h, w, 4) == s4 by {
      assert RotateTimes(s3, w, h, 0) == s3;
    }
    FourRotate90(s, h, w);
  }

  /** The starting shape for a flip pass: the canonical cells or their mirror image. */
  function FlipStart(p: Piece, flip: nat): seq<Cell> {
    if flip == 0 then p.canonical else Mirror(p.canonical, p.width)
  }

  /** The eight shapes `generateAllOrientations` visits, in loop order
      (flip 0 then 1, each with rotations 0..3), each normalised. */
  function Candidates(p: Piece): (cs: seq<seq<Cell>>)
    ensures |cs| == 8
    ensures forall i :: 0 <= i < 8 ==>
      cs[i] == Normalize(RotateTimes(FlipStart(p, i / 4), p.height, p.width, i % 4))
    ensures forall i :: 0 <= i < 8 ==> |cs[i]| == |p.canonical|
    ensures |p.canonical| > 0 ==> forall i :: 0 <= i < 8 ==> Normalized(cs[i])
  {
    seq(8, i requires 0 <= i < 8 => Normalize(RotateTimes(FlipStart(p, i / 4), p.height, p.width, i % 4)))
  }

  /** The duplicate signature: the sorted coordinate list, which two shapes
      share exactly when they hold the same cells with the same multiplicities. */
  function Signature(s: seq<Cell>): multiset<Cell> {
    multiset(s)
  }

  /** Keep each shape whose signature has not been seen, in order. */
  function Dedup(cands: seq<seq<Cell>>, seen: set<multiset<Cell>>): (r: seq<seq<Cell>>)
    ensures |r| <= |cands|
    ensures forall i :: 0 <= i < |r| ==> r[i] in cands
    ensures |cands| > 0 && Signature(cands[0]) !in seen ==> |r| > 0 && r[0] == cands[0]
  {
    if |cands| == 0 then []
    else if Signature(cands[0]) in seen then Dedup(cands[1..], seen)
    else [cands[0]] + Dedup(cands[1..], seen + {Signature(cands[0])})
  }

  /** Candidate k is the first with its signature, and that signature was not seen. */
  predicate FirstUnseen(cands: seq<seq<Cell>>, seen: set<multiset<Cell>>, k: nat)
    requires k < |cands|
  {
    Signature(cands[k]) !in seen && forall j :: 0 <= j < k ==> Signature(cands[j]) != Signature(cands[k])
  }

  /** Among the first n candidates, those that are first-unseen, in candidate order. */
  function FirstUnseenAmong(cands: seq<seq<Cell>>, seen: set<multiset<Cell>>, n: nat): seq<seq<Cell>>
    requires n <= |cands|
  {
    if n == 0 then []
    else FirstUnseenAmong(cands, seen, n - 1) + (if FirstUnseen(cands, seen, n - 1) then [cands[n - 1]] else [])
  }

  /** Dropping the first candidate and counting its signature as seen shifts
      first-unseen positions by one. */
  lemma FirstUnseenShift(cands: seq<seq<Cell>>, seen: set<multiset<Cell>>, k: nat)
    requires k + 1 < |cands|
    ensures FirstUnseen(cands, seen, k + 1) <==> FirstUnseen(cands[1..], seen + {Signature(cands[0])}, k)
  {
    var tail := cands[1..];
    assert forall j :: 0 <= j < k ==> tail[j] == cands[j + 1];
    assert tail[k] == cands[k + 1];
    if FirstUnseen(tail, seen + {Signature(cands[0])}, k) {
      forall j | 0 <= j < k + 1 ensures Signature(cands[j]) != Signature(cands[k + 1]) {
        if j > 0 { assert cands[j] == tail[j - 1]; }
      }
    }
  }

  /** The filter, seen from the first candidate. */
  lemma {:induction false} FirstUnseenAmongCons(cands: seq<seq<Cell>>, seen: set<multiset<Cell>>, n: nat)
    requires 1 <= n <= |cands|
    ensures FirstUnseenAmong(cands, seen, n) ==
      (if Signature(cands[0]) in seen then [] else [cands[0]])
      + FirstUnseenAmong(cands[1..], seen + {Signature(cands[0])}, n - 1)
  {
    var head: seq<seq<Cell>> := if Signature(cands[0]) in seen then [] else [cands[0]];
    var seen' := seen + {Signature(cands[0])};
    if n == 1 {
      assert FirstUnseen(cands, seen, 0) <==> Signature(cands[0]) !in seen;
      assert FirstUnseenAmong(cands, seen, 1) == [] + head;
    } else {
      FirstUnseenAmongCons(cands, seen, n - 1);
      FirstUnseenShift(cands, seen, n - 2);
      assert cands[1..][n - 2] == cands[n - 1];
      var step: seq<seq<Cell>> := if FirstUnseen(cands, seen, n - 1) then [cands[n - 1]] else [];
      assert FirstUnseenAmong(cands[1..], seen', n - 1) == FirstUnseenAmong(cands[1..], seen', n - 2) + step;
      calc {
        FirstUnseenAmong(cands, seen, n);
        FirstUnseenAmong(cands, seen, n - 1) + step;
        (head + FirstUnseenAmong(cands[1..], seen', n - 2)) + step;
        head + FirstUnseenAmong(cands[1..], seen', n - 1);
      }
    }
  }

  /** De-duplication keeps exactly the candidates that are the first of their
      signature and whose signature was not seen, in candidate order. */
  lemma {:induction false} DedupKeepsFirstUnseen(cands: seq<seq<Cell>>, seen: set<multiset<Cell>>)
    ensures Dedup(cands, seen) == FirstUnseenAmong(cands, seen, |cands|)
  {
    if |cands| > 0 {
      var sig := Signature(cands[0]);
      FirstUnseenAmongCons(cands, seen, |cands|);
      DedupKeepsFirstUnseen(cands[1..], seen + {sig});
      if sig in seen {
        assert seen + {sig} == seen;
      }
    }
  }

  predicate FreshSignatures(r: seq<seq<Cell>>, seen: set<multiset<Cell>>) {
    forall i :: 0 <= i < |r| ==> Signature(r[i]) !in seen
  }

  predicate DistinctSignatures(r: seq<seq<Cell>>) {
    forall i, j :: 0 <= i < j < |r| ==> Signature(r[i]) != Signature(r[j])
  }

  /** Some kept shape has signature `sig`. */
  predicate HasSignature(r: seq<seq<Cell>>, sig: multiset<Cell>) {
    exists i :: 0 <= i < |r| && Signature(r[i]) == sig
  }

  /** Kept shapes have signatures not seen before and pairwise different. */
  lemma {:induction false} DedupFresh(cands: seq<seq<Cell>>, seen: set<multiset<Cell>>)
    ensures FreshSignatures(Dedup(cands, seen), seen)
    ensures DistinctSignatures(Dedup(cands, seen))
  {
    if |cands| > 0 {
      if Signature(cands[0]) in seen {
        assert Dedup(cands, seen) == Dedup(cands[1..], seen);
        DedupFresh(cands[1..], seen);
      } else {
        var sig := Signature(cands[0]);
        var rest := Dedup(cands[1..], seen + {sig});
        DedupFresh(cands[1..], seen + {sig});
        var r := Dedup(cands, seen);
        assert r == [cands[0]] + rest;
        forall i | 0 <= i < |r| ensures Signature(r[i]) !in seen {
          if i > 0 { assert r[i] == rest[i - 1]; }
        }
        forall i, j | 0 <= i < j < |r| ensures Signature(r[i]) != Signature(r[j]) {
          assert r[j] == rest[j - 1];
          if i > 0 { assert r[i] == rest[i - 1]; }
        }
      }
    }
  }

  /** No signature is lost: every candidate's signature was seen or is kept. */
  lemma {:induction false} DedupComplete(cands: seq<seq<Cell>>, seen: set<multiset<Cell>>, k: nat)
    requires k < |cands|
    ensures Signature(cands[k]) in seen || HasSignature(Dedup(cands, seen), Signature(cands[k]))
  {
    if k > 0 {
      var sig := Signature(cands[0]);
      var seen' := if sig in seen then seen else seen + {sig};
      DedupComplete(cands[1..], seen', k - 1);
      assert cands[1..][k - 1] == cands[k];
      if sig in seen {
        assert Dedup(cands, seen) == Dedup(cands[1..], seen);
      } else if Signature(cands[k]) !in seen {
        DedupKeepsTail(cands, seen, Signature(cands[k]));
      }
    } else if Signature(cands[0]) !in seen {
      assert Dedup(cands, seen)[0] == cands[0];
    }
  }

  /** When the first candidate is kept, a signature kept from the rest, or the
      first candidate's own, is kept overall. */
  lemma DedupKeepsTail(cands: seq<seq<Cell>>, seen: set<multiset<Cell>>, s: multiset<Cell>)
    requires |cands| > 0 && Signature(cands[0]) !in seen
    requires s == Signature(cands[0]) || HasSignature(Dedup(cands[1..], seen + {Signature(cands[0])}), s)
    ensures HasSignature(Dedup(cands, seen), s)
  {
    var rest := Dedup(cands[1..], seen + {Signature(cands[0])});
    var r := Dedup(cands, seen);
    assert r == [cands[0]] + rest;
    if s == Signature(cands[0]) {
      assert Signature(r[0]) == s;
    } else {
      var i :| 0 <= i < |rest| && Signature(rest[i]) == s;
      assert r[i + 1] == rest[i];
    }
  }

  /** Java `generateAllOrientations()`. */
  function Orientations(p: Piece): seq<seq<Cell>> {
    Dedup(Candidates(p), {})
  }

  /** Between one and eight orientations are returned, the first being the
      canonical shape itself. */
  lemma OrientationsCountAndFirst(p: Piece)
    requires Tight(p.canonical, p.height, p.width)
    ensures 1 <= |Orientations(p)| <= 8 && Orientations(p)[0] == p.canonical
  {
    NormalizeIdempotent(p.canonical);
    assert Candidates(p)[0] == p.canonical;
  }

  /** Every orientation is one of the candidates, normalised, with as many
      cells as the canonical shape. */
  lemma OrientationsNormalized(p: Piece)
    requires |p.canonical| > 0
    ensures forall i :: 0 <= i < |Orientations(p)| ==> Orientations(p)[i] in Candidates(p)
    ensures forall i :: 0 <= i < |Orientations(p)| ==>
      Normalized(Orientations(p)[i]) && |Orientations(p)[i]| == |p.canonical|
  {
    var os := Orientations(p);
    forall i | 0 <= i < |os| ensures Normalized(os[i]) && |os[i]| == |p.canonical| {
      CandidateShape(p, os[i]);
    }
  }

  lemma CandidateShape(p: Piece, o: seq<Cell>)
    requires |p.canonical| > 0 && o in Candidates(p)
    ensures Normalized(o) && |o| == |p.canonical|
  {
    var cs := Candidates(p);
    var k :| 0 <= k < 8 && cs[k] == o;
    assert Normalized(cs[k]);
  }

  /** No two orientations have the same cells, and every candidate's cells
      occur among the orientations. */
  lemma OrientationsDistinctAndComplete(p: Piece)
    ensures DistinctSignatures(Orientations(p))
    ensures forall k :: 0 <= k < 8 ==> HasSignature(Orientations(p), Signature(Candidates(p)[k]))
  {
    var cs := Candidates(p);
    DedupFresh(cs, {});
    forall k | 0 <= k < 8 ensures HasSignature(Orientations(p), Signature(cs[k])) {
      DedupComplete(cs, {}, k);
    }
  }

  /** Every candidate is the canonical shape, optionally mirrored, then turned
      k < 4 times with the box dimensions swapping after each turn; the
      normalisation step changes nothing. */
  lemma CandidatesAreTurnedImages(p: Piece, i: nat)
    requires Tight(p.canonical, p.height, p.width) && i < 8
    ensures Candidates(p)[i] == RotateTimes(FlipStart(p, i / 4), p.height, p.width, i % 4)
    ensures |Candidates(p)[i]| == |p.canonical|
  {
    var start := FlipStart(p, i / 4);
    if i / 4 == 1 { MirrorKeepsTight(p.canonical, p.height, p.width); }
    assert Tight(start, p.height, p.width);
    RotateTimesKeepsTight(start, p.height, p.width, i % 4);
    NormalizeIdempotent(RotateTimes(start, p.height, p.width, i % 4));
  }

  /** The template scan agrees with the evaluable list of '#' positions. */
  lemma RawCellsArePositions(tpl: seq<string>)
    requires RectangularTemplate(tpl)
    ensures RawCells(tpl) == Positions(tpl, '#')
  {
    PositionsSpec(tpl, '#');
    forall x ensures x in RawCells(tpl) <==> x in Positions(tpl, '#') {
      assert IsHash(tpl, x) <==> HasCharAt(tpl, '#', x);
    }
    SortedCellsUnique(RawCells(tpl), Positions(tpl, '#'));
  }

  /** A rectangular template with `n > 0` '#' characters yields a piece of `n` cells. */
  lemma TemplateSize(id: string, tpl: seq<string>, n: nat)
    requires RectangularTemplate(tpl) && |Positions(tpl, '#')| == n && n > 0
    ensures Make(id, tpl).Ok? && |Make(id, tpl).value.canonical| == n
  {
    RawCellsArePositions(tpl);
  }

  /** A template whose '#' cells already touch row 0 and column 0 is its own canonical form. */
  lemma CanonicalOfNormalized(tpl: seq<string>)
    requires RectangularTemplate(tpl) && Normalized(RawCells(tpl))
    ensures Canonical(tpl) == RawCells(tpl)
  {
    NormalizeIdempotent(RawCells(tpl));
    assert Canonical(tpl) == Normalize(RawCells(tpl));
  }
}
