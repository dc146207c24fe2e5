/** An optional value, for the `number | null` fields and results of the source. */
module Options {
  datatype Option<+T> = None | Some(value: T)
}

/**
  Boards and the Sudoku rules over them. A board is a sequence of 81 integers
  in row-major order, 0 for a blank cell and 1..9 for a digit; the textual
  form of the user interface maps onto it through Text.ToText / Text.FromText.
 */
module Board {
  import opened Geometry

  /** Number of positions of s that hold x. */
  function Occurrences(s: seq<int>, x: int): (n: nat)
    ensures n <= |s|
  {
    if s == [] then 0
    else Occurrences(s[..|s| - 1], x) + (if s[|s| - 1] == x then 1 else 0)
  }

  /** Writing y at position i moves one occurrence from s[i] to y. */
  lemma {:induction false} OccurrencesUpdate(s: seq<int>, i: int, y: int, x: int)
    requires 0 <= i < |s|
    ensures Occurrences(s[i := y], x)
         == Occurrences(s, x) - (if s[i] == x then 1 else 0) + (if y == x then 1 else 0)
  {
    var n := |s| - 1;
    if i == n {
      assert s[i := y][..n] == s[..n];
    } else {
      assert s[i := y][..n] == s[..n][i := y];
      OccurrencesUpdate(s[..n], i, y, x);
    }
  }

  /** x occurs nowhere in s exactly when it has no occurrences. */
  lemma {:induction false} OccurrencesNone(s: seq<int>, x: int)
    ensures Occurrences(s, x) == 0 <==> forall k :: 0 <= k < |s| ==> s[k] != x
  {
    if s != [] {
      var n := |s| - 1;
      OccurrencesNone(s[..n], x);
      assert forall k :: 0 <= k < n ==> s[..n][k] == s[k];
    }
  }

  /** `Array.prototype.indexOf`: the first position of x in s, or -1. */
  function IndexOf(s: seq<int>, x: int): (k: int)
    ensures -1 <= k < |s|
    ensures k == -1 ==> forall j :: 0 <= j < |s| ==> s[j] != x
    ensures k != -1 ==> s[k] == x && forall j :: 0 <= j < k ==> s[j] != x
  {
    if s == [] then -1
    else if s[0] == x then 0
    else
      var k := IndexOf(s[1..], x);
      if k == -1 then -1 else k + 1
  }

  /** Number of blank cells: what every step of the backtracking search decreases. */
  function Blanks(b: seq<int>): nat { Occurrences(b, 0) }

  /** Every cell holds a digit (no blank). */
  predicate Complete(b: seq<int>)
  {
    forall i :: 0 <= i < |b| ==> b[i] != 0
  }

  /** Every cell is blank or a digit 1..9. */
  predicate Digits(b: seq<int>)
  {
    forall i :: 0 <= i < |b| ==> 0 <= b[i] <= 9
  }

  /** No two peers hold the same digit (blanks never clash). */
  predicate Consistent(b: seq<int>)
    requires |b| == 81
  {
    forall i, j :: 0 <= i < 81 && 0 <= j < 81 && IsPeer(i, j) && b[i] != 0 ==> b[i] != b[j]
  }

  /** Every digit of `before` stands at the same place in `after`. */
  predicate KeepsDigits(before: seq<int>, after: seq<int>)
  {
    |before| == |after| && forall i :: 0 <= i < |before| && before[i] != 0 ==> after[i] == before[i]
  }

  /** A solved grid: every cell a digit 1..9 and no two peers equal. */
  predicate Solved(b: seq<int>)
  {
    && |b| == 81
    && (forall i :: 0 <= i < 81 ==> 1 <= b[i] <= 9)
    && Consistent(b)
  }

  /** v occurs nowhere in the row, column or 3x3 box of i (i itself included). */
  predicate Safe(b: seq<int>, i: int, v: int)
    requires |b| == 81 && IsCell(i)
  {
    forall j :: 0 <= j < 81 && SameUnit(i, j) ==> b[j] != v
  }

  /** Placing a safe digit in a blank cell keeps a consistent board consistent. */
  lemma PlaceKeepsConsistent(b: seq<int>, i: int, v: int)
    requires |b| == 81 && IsCell(i) && b[i] == 0 && v != 0
    requires Consistent(b) && Safe(b, i, v)
    ensures Consistent(b[i := v])
  {
    var b' := b[i := v];
    forall p, q | IsCell(p) && IsCell(q) && IsPeer(p, q) && b'[p] != 0
      ensures b'[p] != b'[q]
    {
      if p == i {
        assert b[q] != v;
      } else if q == i {
        assert IsPeer(q, p);
        assert b[p] != v;
      }
    }
  }

  // ---------------------------------------------------------------------------
  // Units as the tests see them: each row, column and box a permutation of 1..9

  /** The values a board holds at the cells of a unit, in unit order. */
  function Values(b: seq<int>, g: seq<int>): (xs: seq<int>)
    ensures |xs| == |g|
    ensures forall k :: 0 <= k < |g| && 0 <= g[k] < |b| ==> xs[k] == b[g[k]]
  {
    seq(|g|, k requires 0 <= k < |g| => if 0 <= g[k] < |b| then b[g[k]] else 0)
  }

  /** Nine distinct values, all in 1..9 (the tests' `isPerm19`). */
  predicate IsPerm19(xs: seq<int>)
  {
    && |xs| == 9
    && (forall k :: 0 <= k < 9 ==> 1 <= xs[k] <= 9)
    && Distinct(xs)
  }

  /** Every row, column and box of the board is a permutation of 1..9. */
  predicate UnitsArePermutations(b: seq<int>)
  {
    forall t :: 0 <= t < 27 ==> IsPerm19(Values(b, Unit(t)))
  }

  /** In a solved grid the given unit is a permutation of 1..9. */
  lemma SolvedUnit(b: seq<int>, t: int)
    requires Solved(b) && 0 <= t < 27
    ensures IsPerm19(Values(b, Unit(t)))
  {
    UnitWellFormed(t);
    var u := Unit(t);
    var xs := Values(b, u);
    forall k | 0 <= k < 9 ensures 1 <= xs[k] <= 9 {
      assert u[k] in u;
      assert xs[k] == b[u[k]];
    }
    forall p, q | 0 <= p < q < 9 ensures xs[p] != xs[q] {
      assert u[p] in u && u[q] in u && u[p] != u[q];
      InCommonUnit(t, u[p], u[q]);
      assert IsPeer(u[p], u[q]) && b[u[p]] != 0;
      assert xs[p] == b[u[p]] && xs[q] == b[u[q]];
    }
  }

  /** In a solved grid every unit is a permutation of 1..9 (the test of `generateSolved`). */
  lemma SolvedUnits(b: seq<int>)
    requires Solved(b)
    ensures UnitsArePermutations(b)
  {
    forall t | 0 <= t < 27 ensures IsPerm19(Values(b, Unit(t))) {
      SolvedUnit(b, t);
    }
  }

  /** A cell holds the value at its position in each unit containing it. */
  lemma ValueInUnit(b: seq<int>, t: int, i: int) returns (p: int)
    requires |b| == 81 && 0 <= t < 27 && i in Unit(t)
    ensures 0 <= p < 9 && Unit(t)[p] == i && Values(b, Unit(t))[p] == b[i]
  {
    UnitWellFormed(t);
    p :| 0 <= p < 9 && Unit(t)[p] == i;
  }

  /** Two peers hold different values when their common unit is a permutation. */
  lemma PeersDifferInUnit(b: seq<int>, i: int, j: int)
    requires |b| == 81 && IsCell(i) && IsCell(j) && IsPeer(i, j)
    requires UnitsArePermutations(b)
    ensures b[i] != b[j]
  {
    var t := CommonUnit(i, j);
    var p := ValueInUnit(b, t, i);
    var q := ValueInUnit(b, t, j);
    var xs := Values(b, Unit(t));
    assert IsPerm19(xs);
    if p < q { assert xs[p] != xs[q]; } else { assert xs[q] != xs[p]; }
  }

  /** A grid whose 27 units are permutations of 1..9 is solved. */
  lemma UnitsSolved(b: seq<int>)
    requires |b| == 81 && UnitsArePermutations(b)
    ensures Solved(b)
  {
    forall i | 0 <= i < 81 ensures 1 <= b[i] <= 9 {
      UnitsWellFormed(RowId(i), i);
      var k := ValueInUnit(b, RowId(i), i);
      assert IsPerm19(Values(b, Unit(RowId(i))));
    }
    forall i, j | 0 <= i < 81 && 0 <= j < 81 && IsPeer(i, j) && b[i] != 0 ensures b[i] != b[j] {
      PeersDifferInUnit(b, i, j);
    }
  }

  /** A grid is solved exactly when each of its 27 units is a permutation of 1..9. */
  lemma SolvedIffUnitsArePermutations(b: seq<int>)
    requires |b| == 81
    ensures Solved(b) <==> UnitsArePermutations(b)
  {
    if Solved(b) { SolvedUnits(b); }
    if UnitsArePermutations(b) { UnitsSolved(b); }
  }

  /** The elements of a sequence, as a set. */
  function Elements(s: seq<int>): set<int> { set x | x in s }

  /** A sequence without repetitions has as many elements as positions. */
  lemma {:induction false} DistinctCard(s: seq<int>)
    requires Distinct(s)
    ensures |Elements(s)| == |s|
  {
    if s != [] {
      var n := |s| - 1;
      assert Distinct(s[..n]);
      DistinctCard(s[..n]);
      assert Elements(s) == Elements(s[..n]) + {s[n]};
      assert s[n] !in Elements(s[..n]);
    }
  }

  /** A subset has at most the cardinality of its superset. */
  lemma SubsetCard(a: set<int>, b: set<int>)
    requires a <= b
    ensures |a| <= |b|
  {
    assert b == a + (b - a);
    assert a * (b - a) == {};
  }

  /** Pigeonhole: nine distinct values in 1..9 include every digit. */
  lemma Perm19Covers(xs: seq<int>, d: int)
    requires IsPerm19(xs) && 1 <= d <= 9
    ensures d in xs
  {
    DistinctCard(xs);
    if d !in xs {
      var others := {1, 2, 3, 4, 5, 6, 7, 8, 9} - {d};
      assert |others| == 8;
      assert Elements(xs) <= others;
      SubsetCard(Elements(xs), others);
    }
  }
}
