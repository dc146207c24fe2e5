/**
  `constraintScore`: how many cells of the row, the column and the box of a
  cell are filled, counted unit by unit (so a cell in two of the units counts
  twice, and the cell itself counts in all three when filled).
 */
module Score {
  import opened Geometry
  import opened Board

  /** Number of non-blank entries of xs. */
  function NonBlank(xs: seq<int>): (n: int)
    ensures 0 <= n <= |xs|
  {
    |xs| - Occurrences(xs, 0)
  }

  /** The score the source computes, as the sum of the three unit counts. */
  function ScoreOf(cells: seq<int>, i: int): int
    requires IsCell(i)
  {
    NonBlank(Values(cells, Rows(RowId(i))))
    + NonBlank(Values(cells, Cols(ColId(i))))
    + NonBlank(Values(cells, Boxes(BoxId(i))))
  }

  /** One more element extends the non-blank count by one exactly when it is filled. */
  lemma NonBlankSnoc(xs: seq<int>, k: int)
    requires 0 <= k < |xs|
    ensures NonBlank(xs[..k + 1]) == NonBlank(xs[..k]) + (if xs[k] != 0 then 1 else 0)
  {
    assert xs[..k + 1][..k] == xs[..k];
  }

  /** The box cell (rr, cc) the nested loops visit is entry rr * 3 + cc of the box unit. */
  lemma BoxOrder(i: int, rr: int, cc: int)
    requires IsCell(i) && 0 <= rr < 3 && 0 <= cc < 3
    ensures Boxes(BoxId(i))[rr * 3 + cc] == CellAt((RowId(i) / 3) * 3 + rr, (ColId(i) / 3) * 3 + cc)
  {
    var b := BoxId(i);
    Thirds(RowId(i) / 3, ColId(i) / 3);
    Thirds(rr, cc);
    assert b / 3 == RowId(i) / 3 && b % 3 == ColId(i) / 3;
  }

  /** The count over row r grows by the cell the row loop visits at column x. */
  lemma RowStep(cells: seq<int>, r: int, x: int)
    requires |cells| == 81 && 0 <= r < 9 && 0 <= x < 9
    ensures var row := Values(cells, Rows(r));
      && 0 <= r * 9 + x < 81 && |row| == 9
      && NonBlank(row[..x + 1]) == NonBlank(row[..x]) + (if cells[r * 9 + x] != 0 then 1 else 0)
  {
    NonBlankSnoc(Values(cells, Rows(r)), x);
  }

  /** The count over column c grows by the cell the column loop visits at row x. */
  lemma ColStep(cells: seq<int>, c: int, x: int)
    requires |cells| == 81 && 0 <= c < 9 && 0 <= x < 9
    ensures var col := Values(cells, Cols(c));
      && 0 <= x * 9 + c < 81 && |col| == 9
      && NonBlank(col[..x + 1]) == NonBlank(col[..x]) + (if cells[x * 9 + c] != 0 then 1 else 0)
  {
    NonBlankSnoc(Values(cells, Cols(c)), x);
  }

  /** The count over the box of i grows by the cell the nested loops visit at (rr, cc). */
  lemma BoxStep(cells: seq<int>, i: int, br: int, bc: int, rr: int, cc: int)
    requires |cells| == 81 && IsCell(i) && 0 <= rr < 3 && 0 <= cc < 3
    requires br == (RowId(i) / 3) * 3 && bc == (ColId(i) / 3) * 3
    ensures var box, k, j := Values(cells, Boxes(BoxId(i))), rr * 3 + cc, CellAt(br + rr, bc + cc);
      && IsCell(j) && |box| == 9
      && NonBlank(box[..k + 1]) == NonBlank(box[..k]) + (if cells[j] != 0 then 1 else 0)
  {
    var x, y := br + rr, bc + cc;
    assert 0 <= x < 9 && 0 <= y < 9;
    CellAtCoordinates(x, y);
    BoxOrder(i, rr, cc);
    var box, k := Values(cells, Boxes(BoxId(i))), rr * 3 + cc;
    assert box[k] == cells[CellAt(x, y)];
    NonBlankSnoc(box, k);
  }

  /** `constraintScore(cells, i)`: the row, column and box counts, in that order. */
  method ConstraintScore(cells: seq<int>, i: int) returns (score: int)
    requires |cells| == 81 && IsCell(i)
    ensures score == ScoreOf(cells, i)
  {
    var r := RowId(i);
    var c := ColId(i);
    score := 0;
    score := CountRow(cells, r, score);
    score := CountCol(cells, c, score);
    score := CountBox(cells, i, score);
  }

  /** The first loop of `constraintScore`: one more for each filled cell of row r. */
  method CountRow(cells: seq<int>, r: int, score0: int) returns (score: int)
    requires |cells| == 81 && 0 <= r < 9
    ensures score == score0 + NonBlank(Values(cells, Rows(r)))
  {
    ghost var row := Values(cells, Rows(r));
    score := score0;
    for x := 0 to 9
      invariant score == score0 + NonBlank(row[..x])
    {
      RowStep(cells, r, x);
      if cells[r * 9 + x] != 0 {
        score := score + 1;
      }
    }
    assert row[..9] == row;
  }

  /** The second loop of `constraintScore`: one more for each filled cell of column c. */
  method CountCol(cells: seq<int>, c: int, score0: int) returns (score: int)
    requires |cells| == 81 && 0 <= c < 9
    ensures score == score0 + NonBlank(Values(cells, Cols(c)))
  {
    ghost var col := Values(cells, Cols(c));
    score := score0;
    for x := 0 to 9
      invariant score == score0 + NonBlank(col[..x])
    {
      ColStep(cells, c, x);
      if cells[x * 9 + c] != 0 {
        score := score + 1;
      }
    }
    assert col[..9] == col;
  }

  /** The nested loops of `constraintScore`: one more for each filled cell of the box of i. */
  method CountBox(cells: seq<int>, i: int, score0: int) returns (score: int)
    requires |cells| == 81 && IsCell(i)
    ensures score == score0 + NonBlank(Values(cells, Boxes(BoxId(i))))
  {
    var r := RowId(i);
    var c := ColId(i);
    ghost var box := Values(cells, Boxes(BoxId(i)));
    score := score0;
    var br := (r / 3) * 3;
    var bc := (c / 3) * 3;
    for rr := 0 to 3
      invariant score == score0 + NonBlank(box[..rr * 3])
    {
      score := CountBoxRow(cells, i, br, bc, rr, score);
    }
    assert box[..9] == box;
  }

  /** The inner loop of the box count: one more for each filled cell of row rr of the box. */
  method CountBoxRow(cells: seq<int>, i: int, br: int, bc: int, rr: int, score0: int) returns (score: int)
    requires |cells| == 81 && IsCell(i) && 0 <= rr < 3
    requires br == (RowId(i) / 3) * 3 && bc == (ColId(i) / 3) * 3
    ensures var box := Values(cells, Boxes(BoxId(i)));
      score - score0 == NonBlank(box[..(rr + 1) * 3]) - NonBlank(box[..rr * 3])
  {
    ghost var box := Values(cells, Boxes(BoxId(i)));
    score := score0;
    for cc := 0 to 3
      invariant score == score0 + NonBlank(box[..rr * 3 + cc]) - NonBlank(box[..rr * 3])
    {
      BoxStep(cells, i, br, bc, rr, cc);
      var j := CellAt(br + rr, bc + cc);
      if cells[j] != 0 {
        score := score + 1;
      }
    }
    assert rr * 3 + 3 == (rr + 1) * 3;
  }

  /** A blank entry keeps the count below the length. */
  lemma NonBlankWithBlank(xs: seq<int>, k: int)
    requires 0 <= k < |xs| && xs[k] == 0
    ensures NonBlank(xs) <= |xs| - 1
  {
    OccurrencesNone(xs, 0);
  }

  /** The score is at most 27, and at most 24 for a blank cell (the only cells the search scores). */
  lemma ScoreBounds(cells: seq<int>, i: int)
    requires |cells| == 81 && IsCell(i)
    ensures 0 <= ScoreOf(cells, i) <= 27
    ensures cells[i] == 0 ==> ScoreOf(cells, i) <= 24
  {
    if cells[i] == 0 {
      var r, c, b := RowId(i), ColId(i), BoxId(i);
      UnitsWellFormed(r, i);
      UnitsWellFormed(c, i);
      UnitsWellFormed(b, i);
      var p :| 0 <= p < 9 && Rows(r)[p] == i;
      var q :| 0 <= q < 9 && Cols(c)[q] == i;
      var s :| 0 <= s < 9 && Boxes(b)[s] == i;
      NonBlankWithBlank(Values(cells, Rows(r)), p);
      NonBlankWithBlank(Values(cells, Cols(c)), q);
      NonBlankWithBlank(Values(cells, Boxes(b)), s);
    }
  }

  /** On a board without blanks every cell scores 27. */
  lemma CompleteBoardScore(cells: seq<int>, i: int)
    requires |cells| == 81 && IsCell(i) && Complete(cells)
    ensures ScoreOf(cells, i) == 27
  {
    var r, c, b := RowId(i), ColId(i), BoxId(i);
    UnitsWellFormed(r, i);
    UnitsWellFormed(c, i);
    UnitsWellFormed(b, i);
    UnitFilled(cells, Rows(r));
    UnitFilled(cells, Cols(c));
    UnitFilled(cells, Boxes(b));
  }

  /** On a board without blanks, every entry of a unit is filled. */
  lemma UnitFilled(cells: seq<int>, g: seq<int>)
    requires |cells| == 81 && Complete(cells) && forall x :: x in g ==> IsCell(x)
    ensures NonBlank(Values(cells, g)) == |g|
  {
    var xs := Values(cells, g);
    forall k | 0 <= k < |g| ensures xs[k] != 0 {
      assert g[k] in g;
    }
    OccurrencesNone(xs, 0);
  }

  /** Filling a blank cell of i's row raises i's score. */
  lemma FillingRowRaisesScore(cells: seq<int>, i: int, j: int, v: int)
    requires |cells| == 81 && IsCell(i) && IsCell(j) && RowId(j) == RowId(i)
    requires cells[j] == 0 && v != 0
    ensures ScoreOf(cells[j := v], i) > ScoreOf(cells, i)
  {
    var c, b := ColId(i), BoxId(i);
    RowGainsOne(cells, RowId(i), j, v);
    UnitsWellFormed(c, i);
    UnitsWellFormed(b, i);
    MonotoneNonBlank(cells, j, v, Cols(c));
    MonotoneNonBlank(cells, j, v, Boxes(b));
  }

  /** Filling a blank cell of row r adds exactly one to the row's count. */
  lemma RowGainsOne(cells: seq<int>, r: int, j: int, v: int)
    requires |cells| == 81 && IsCell(j) && RowId(j) == r
    requires cells[j] == 0 && v != 0
    ensures NonBlank(Values(cells[j := v], Rows(r))) == NonBlank(Values(cells, Rows(r))) + 1
  {
    var row, row' := Values(cells, Rows(r)), Values(cells[j := v], Rows(r));
    var cj := ColId(j);
    assert Rows(r)[cj] == j;
    forall k | 0 <= k < 9 ensures row'[k] == row[cj := v][k] {
      CellAtCoordinates(r, k);
    }
    assert row' == row[cj := v];
    OccurrencesUpdate(row, cj, v, 0);
  }

  /** Filling a blank cell never lowers the count of any unit. */
  lemma MonotoneNonBlank(cells: seq<int>, j: int, v: int, g: seq<int>)
    requires |cells| == 81 && IsCell(j) && cells[j] == 0 && v != 0
    requires forall x :: x in g ==> IsCell(x)
    ensures NonBlank(Values(cells[j := v], g)) >= NonBlank(Values(cells, g))
  {
    var xs, ys := Values(cells, g), Values(cells[j := v], g);
    OccurrencesSubset(ys, xs);
  }

  /** Where ys is blank, xs is blank too: xs has at least as many blanks. */
  lemma {:induction false} OccurrencesSubset(ys: seq<int>, xs: seq<int>)
    requires |xs| == |ys| && forall k :: 0 <= k < |ys| && ys[k] == 0 ==> xs[k] == 0
    ensures Occurrences(ys, 0) <= Occurrences(xs, 0)
  {
    if ys != [] {
      var n := |ys| - 1;
      OccurrencesSubset(ys[..n], xs[..n]);
    }
  }
}
