/**
  Index geometry of the 81-cell row-major board: row, column and box of a
  cell, the 27 units (9 rows, 9 columns, 9 boxes) and the 20 peers of a cell.
 */
module Geometry {

  /** A linear cell index 0..80. */
  predicate IsCell(i: int) { 0 <= i < 81 }

  /** Row of a cell (`rowId`, and the identical `row` used by `isSafe`). */
  function RowId(i: int): (r: int)
    requires IsCell(i)
    ensures 0 <= r < 9 && r * 9 <= i < r * 9 + 9
  {
    i / 9
  }

  /** Column of a cell (`colId`, and the identical `col` used by `isSafe`). */
  function ColId(i: int): (c: int)
    requires IsCell(i)
    ensures 0 <= c < 9 && RowId(i) * 9 + c == i
  {
    i % 9
  }

  /** Box of a cell, numbered row-major over the 3x3 arrangement of boxes. */
  function BoxId(i: int): (b: int)
    requires IsCell(i)
    ensures 0 <= b < 9
    ensures b == (RowId(i) / 3) * 3 + ColId(i) / 3
  {
    (i / 27) * 3 + (i % 9) / 3
  }

  /** The cell at row r, column c. */
  function CellAt(r: int, c: int): int { r * 9 + c }

  lemma CellAtCoordinates(r: int, c: int)
    requires 0 <= r < 9 && 0 <= c < 9
    ensures IsCell(CellAt(r, c)) && RowId(CellAt(r, c)) == r && ColId(CellAt(r, c)) == c
  {
  }

  /** i and j lie in a common row, column or box (i == j allowed). */
  predicate SameUnit(i: int, j: int)
    requires IsCell(i) && IsCell(j)
  {
    RowId(i) == RowId(j) || ColId(i) == ColId(j) || BoxId(i) == BoxId(j)
  }

  /** j is a peer of i: a different cell sharing a row, column or box. */
  predicate IsPeer(i: int, j: int)
    requires IsCell(i) && IsCell(j)
  {
    i != j && SameUnit(i, j)
  }

  /** Two cells lie in the same 3x3 box iff their rows and columns fall in the same thirds. */
  lemma {:induction false} SameBoxByThirds(i: int, j: int)
    requires IsCell(i) && IsCell(j)
    ensures BoxId(i) == BoxId(j) <==> RowId(i) / 3 == RowId(j) / 3 && ColId(i) / 3 == ColId(j) / 3
  {
    var bi, bj := BoxId(i), BoxId(j);
    assert bi / 3 == RowId(i) / 3 && bi % 3 == ColId(i) / 3;
    assert bj / 3 == RowId(j) / 3 && bj % 3 == ColId(j) / 3;
  }

  // ---------------------------------------------------------------------------
  // Units: the `rows`, `cols` and `boxes` tables

  /** Row unit r: cells r*9+0 .. r*9+8, left to right. */
  function Rows(r: int): seq<int>
  {
    seq(9, c => r * 9 + c)
  }

  /** Column unit c: cells 0*9+c .. 8*9+c, top to bottom. */
  function Cols(c: int): seq<int>
  {
    seq(9, r => r * 9 + c)
  }

  /** Box unit b, filled row-major from its top-left cell (br, bc) = ((b/3)*3, (b%3)*3). */
  function Boxes(b: int): seq<int>
  {
    seq(9, k => ((b / 3) * 3 + k / 3) * 9 + (b % 3) * 3 + k % 3)
  }

  /** Every cell of row unit r, and only those, has row r. */
  lemma RowsMembers(r: int, j: int)
    requires 0 <= r < 9
    ensures j in Rows(r) <==> IsCell(j) && RowId(j) == r
  {
    if IsCell(j) && RowId(j) == r {
      assert Rows(r)[ColId(j)] == j;
    }
  }

  /** Every cell of column unit c, and only those, has column c. */
  lemma ColsMembers(c: int, j: int)
    requires 0 <= c < 9
    ensures j in Cols(c) <==> IsCell(j) && ColId(j) == c
  {
    if IsCell(j) && ColId(j) == c {
      assert Cols(c)[RowId(j)] == j;
    }
  }

  /** Splitting a small index into its third and its offset within the third. */
  lemma Thirds(a: int, t: int)
    requires 0 <= a && 0 <= t < 3
    ensures (a * 3 + t) / 3 == a && (a * 3 + t) % 3 == t
  {
  }

  /** Every cell of box unit b, and only those, has box b. */
  lemma BoxesMembers(b: int, j: int)
    requires 0 <= b < 9
    ensures j in Boxes(b) <==> IsCell(j) && BoxId(j) == b
  {
    if j in Boxes(b) {
      var k :| 0 <= k < 9 && Boxes(b)[k] == j;
      BoxEntry(b, k);
    }
    if IsCell(j) && BoxId(j) == b {
      BoxPosition(b, j);
    }
  }

  /** Entry k of box unit b is a cell of box b. */
  lemma BoxEntry(b: int, k: int)
    requires 0 <= b < 9 && 0 <= k < 9
    ensures IsCell(Boxes(b)[k]) && BoxId(Boxes(b)[k]) == b
  {
    var br, bc := b / 3, b % 3;
    var r, c := br * 3 + k / 3, bc * 3 + k % 3;
    assert Boxes(b)[k] == CellAt(r, c);
    CellAtCoordinates(r, c);
    Thirds(br, k / 3);
    Thirds(bc, k % 3);
  }

  /** A cell of box b stands in box unit b at position (row % 3) * 3 + column % 3. */
  lemma BoxPosition(b: int, j: int)
    requires 0 <= b < 9 && IsCell(j) && BoxId(j) == b
    ensures Boxes(b)[(RowId(j) % 3) * 3 + ColId(j) % 3] == j
  {
    var r, c := RowId(j), ColId(j);
    var k := (r % 3) * 3 + c % 3;
    Thirds(r % 3, c % 3);
    assert Boxes(b)[k] == ((b / 3) * 3 + r % 3) * 9 + (b % 3) * 3 + c % 3;
    assert (b / 3) * 3 + r % 3 == r && (b % 3) * 3 + c % 3 == c;
  }

  /** A sequence without repeated elements. */
  predicate Distinct(s: seq<int>)
  {
    forall a, b :: 0 <= a < b < |s| ==> s[a] != s[b]
  }

  /** Each unit holds 9 distinct cells, and a cell lies in the units named by its ids. */
  lemma {:induction false} UnitsWellFormed(u: int, i: int)
    requires 0 <= u < 9 && IsCell(i)
    ensures |Rows(u)| == 9 && Distinct(Rows(u)) && forall x :: x in Rows(u) ==> IsCell(x)
    ensures |Cols(u)| == 9 && Distinct(Cols(u)) && forall x :: x in Cols(u) ==> IsCell(x)
    ensures |Boxes(u)| == 9 && Distinct(Boxes(u)) && forall x :: x in Boxes(u) ==> IsCell(x)
    ensures i in Rows(RowId(i)) && i in Cols(ColId(i)) && i in Boxes(BoxId(i))
  {
    forall x | x in Boxes(u) ensures IsCell(x) { BoxesMembers(u, x); }
    forall a, b | 0 <= a < b < 9 ensures Boxes(u)[a] != Boxes(u)[b] {
      var ra, ca := (u / 3) * 3 + a / 3, (u % 3) * 3 + a % 3;
      var rb, cb := (u / 3) * 3 + b / 3, (u % 3) * 3 + b % 3;
      CellAtCoordinates(ra, ca);
      CellAtCoordinates(rb, cb);
    }
    RowsMembers(RowId(i), i);
    ColsMembers(ColId(i), i);
    BoxesMembers(BoxId(i), i);
  }

  /** The 27 units in the order the conflict scan visits them: rows, columns, boxes. */
  function Unit(t: int): seq<int>
  {
    if t < 9 then Rows(t) else if t < 18 then Cols(t - 9) else Boxes(t - 18)
  }

  /** Two cells of one unit share a row, column or box. */
  lemma InCommonUnit(t: int, i: int, j: int)
    requires 0 <= t < 27 && i in Unit(t) && j in Unit(t)
    ensures IsCell(i) && IsCell(j) && SameUnit(i, j)
  {
    if t < 9 {
      RowsMembers(t, i);
      RowsMembers(t, j);
    } else if t < 18 {
      ColsMembers(t - 9, i);
      ColsMembers(t - 9, j);
    } else {
      BoxesMembers(t - 18, i);
      BoxesMembers(t - 18, j);
    }
  }

  /** A unit holding both of two cells that share a row, column or box. */
  function CommonUnit(i: int, j: int): (t: int)
    requires IsCell(i) && IsCell(j) && SameUnit(i, j)
    ensures 0 <= t < 27 && i in Unit(t) && j in Unit(t)
  {
    if RowId(i) == RowId(j) then
      RowsMembers(RowId(i), i); RowsMembers(RowId(i), j);
      RowId(i)
    else if ColId(i) == ColId(j) then
      ColsMembers(ColId(i), i); ColsMembers(ColId(i), j);
      9 + ColId(i)
    else
      BoxesMembers(BoxId(i), i); BoxesMembers(BoxId(i), j);
      18 + BoxId(i)
  }

  /** Two cells share one of the 27 units exactly when they share a row, column or box. */
  lemma {:induction false} SharedUnit(i: int, j: int)
    requires IsCell(i) && IsCell(j)
    ensures (exists t :: 0 <= t < 27 && i in Unit(t) && j in Unit(t)) <==> SameUnit(i, j)
  {
    if exists t :: 0 <= t < 27 && i in Unit(t) && j in Unit(t) {
      var t :| 0 <= t < 27 && i in Unit(t) && j in Unit(t);
      InCommonUnit(t, i, j);
    }
    if SameUnit(i, j) {
      var t := CommonUnit(i, j);
    }
  }

  /** Each of the 27 units holds 9 distinct cells. */
  lemma UnitWellFormed(t: int)
    requires 0 <= t < 27
    ensures |Unit(t)| == 9 && Distinct(Unit(t)) && forall x :: x in Unit(t) ==> IsCell(x)
  {
    if t < 9 {
      UnitsWellFormed(t, 0);
    } else if t < 18 {
      UnitsWellFormed(t - 9, 0);
    } else {
      UnitsWellFormed(t - 18, 0);
    }
  }

  // ---------------------------------------------------------------------------
  // Peers

  /** The t-th of the 8 values in 0..8 other than x, in increasing order. */
  function Skip(t: int, x: int): int { if t < x then t else t + 1 }

  /** Position of y among the values in 0..8 other than x (inverse of Skip). */
  function Unskip(y: int, x: int): int { if y < x then y else y - 1 }

  /**
    The peers of cell i, in the iteration order of the set the source builds
    by adding the row, then the column, then the box of i and deleting i:
    the 8 other cells of i's row, the 8 other cells of i's column, then the 4
    cells of i's box off i's row and column, row-major.
   */
  function Peers(i: int): seq<int>
    requires IsCell(i)
  {
    seq(20, k requires 0 <= k < 20 => CellAt(PeerRow(i, k), PeerCol(i, k)))
  }

  /** Row of the k-th entry of the peer list of i. */
  function PeerRow(i: int, k: int): (r: int)
    requires IsCell(i) && 0 <= k < 20
    ensures 0 <= r < 9
  {
    var r := RowId(i);
    if k < 8 then r
    else if k < 16 then Skip(k - 8, r)
    else (r / 3) * 3 + Skip((k - 16) / 2, r % 3)
  }

  /** Column of the k-th entry of the peer list of i. */
  function PeerCol(i: int, k: int): (c: int)
    requires IsCell(i) && 0 <= k < 20
    ensures 0 <= c < 9
  {
    var c := ColId(i);
    if k < 8 then Skip(k, c)
    else if k < 16 then c
    else (c / 3) * 3 + Skip((k - 16) % 2, c % 3)
  }

  /** The element at position k of the peer list is the cell at (PeerRow, PeerCol). */
  lemma PeerAt(i: int, k: int)
    requires IsCell(i) && 0 <= k < 20
    ensures |Peers(i)| == 20
    ensures var p := Peers(i)[k];
      IsCell(p) && RowId(p) == PeerRow(i, k) && ColId(p) == PeerCol(i, k)
  {
    CellAtCoordinates(PeerRow(i, k), PeerCol(i, k));
  }

  /** Position, in the peer list of i, of a peer j of i. */
  function PeerPosition(i: int, j: int): (k: int)
    requires IsCell(i) && IsCell(j) && IsPeer(i, j)
    ensures 0 <= k < 20
  {
    var r, c := RowId(i), ColId(i);
    if RowId(j) == r then Unskip(ColId(j), c)
    else if ColId(j) == c then 8 + Unskip(RowId(j), r)
    else 16 + 2 * Unskip(RowId(j) % 3, r % 3) + Unskip(ColId(j) % 3, c % 3)
  }

  /** Every entry of the peer list is a peer of i. */
  lemma PeerAtIsPeer(i: int, k: int)
    requires IsCell(i) && 0 <= k < 20
    ensures |Peers(i)| == 20 && IsCell(Peers(i)[k]) && IsPeer(i, Peers(i)[k])
  {
    PeerAt(i, k);
    SameBoxByThirds(i, Peers(i)[k]);
  }

  /** Different positions of the peer list hold different cells. */
  lemma PeersDiffer(i: int, a: int, b: int)
    requires IsCell(i) && 0 <= a < b < 20
    ensures |Peers(i)| == 20 && Peers(i)[a] != Peers(i)[b]
  {
    PeerAt(i, a);
    PeerAt(i, b);
  }

  /** Each peer j of i stands in the peer list at PeerPosition(i, j). */
  lemma PeerFound(i: int, j: int)
    requires IsCell(i) && IsCell(j) && IsPeer(i, j)
    ensures |Peers(i)| == 20 && Peers(i)[PeerPosition(i, j)] == j
  {
    var r, c := RowId(i), ColId(i);
    var k := PeerPosition(i, j);
    var p := Peers(i)[k];
    PeerAt(i, k);
    if RowId(j) == r {
      assert ColId(p) == ColId(j);
    } else if ColId(j) == c {
      assert RowId(p) == RowId(j);
    } else {
      SameBoxByThirds(i, j);
      PeerInBox(r, c, RowId(j), ColId(j));
    }
    assert RowId(p) == RowId(j) && ColId(p) == ColId(j);
  }

  /** A cell (rj, cj) of the box of (r, c), off its row and column, is found back from its offsets. */
  lemma PeerInBox(r: int, c: int, rj: int, cj: int)
    requires 0 <= r < 9 && 0 <= c < 9 && 0 <= rj < 9 && 0 <= cj < 9
    requires rj != r && cj != c && rj / 3 == r / 3 && cj / 3 == c / 3
    ensures var t := 2 * Unskip(rj % 3, r % 3) + Unskip(cj % 3, c % 3);
      (r / 3) * 3 + Skip(t / 2, r % 3) == rj && (c / 3) * 3 + Skip(t % 2, c % 3) == cj
  {
  }

  /** `peers[i]` holds exactly the 20 peers of i, each once, and never i itself. */
  lemma {:induction false} PeersSpec(i: int)
    requires IsCell(i)
    ensures |Peers(i)| == 20 && Distinct(Peers(i)) && i !in Peers(i)
    ensures forall j :: j in Peers(i) <==> IsCell(j) && IsPeer(i, j)
  {
    var P := Peers(i);
    forall k | 0 <= k < 20 ensures IsCell(P[k]) && IsPeer(i, P[k]) {
      PeerAtIsPeer(i, k);
    }
    forall a, b | 0 <= a < b < 20 ensures P[a] != P[b] {
      PeersDiffer(i, a, b);
    }
    forall j | IsCell(j) && IsPeer(i, j) ensures j in P {
      PeerFound(i, j);
    }
  }
}
