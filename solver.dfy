/**
  The backtracking core of the board engine: Fisher-Yates `shuffle`, the
  placement test `isSafe`, the randomised in-place `solve`, `generateSolved`
  and the solution counter `countSolutions`.

  `Math.random()` is replaced by a stream of random naturals `rng` read from a
  cursor; every consumer returns the advanced cursor. A draw `rng(k) % (i + 1)`
  stands for `Math.floor(Math.random() * (i + 1))`.
 */
module Solver {
  import opened Geometry
  import opened Board

  /** `range(n)`: the indices 0..n-1. */
  function Range(n: nat): (s: seq<int>)
    ensures |s| == n && forall k :: 0 <= k < n ==> s[k] == k
  {
    seq(n, k => k)
  }

  /** n consecutive draws from the stream, starting at the cursor. */
  function Draw(rng: nat -> nat, cursor: nat, n: nat): (d: seq<nat>)
    ensures |d| == n
  {
    seq(n, k requires 0 <= k < n => rng(cursor + k))
  }

  /** The digits 1..9 in order, the input of every shuffle of digits. */
  const AllDigits: seq<int> := [1, 2, 3, 4, 5, 6, 7, 8, 9]

  /**
    `shuffle`: Fisher-Yates on a fresh copy of the input. The swap partner of
    position i (from the last down to 1) is choices[n-1-i] % (i + 1).
   */
  method Shuffle<T>(arr: seq<T>, choices: seq<nat>) returns (r: seq<T>)
    requires |arr| <= |choices| + 1
    ensures |r| == |arr| && multiset(r) == multiset(arr)
  {
    var a := new T[|arr|](k requires 0 <= k < |arr| => arr[k]);
    assert a[..] == arr;
    var i := a.Length - 1;
    while i > 0
      invariant -1 <= i < a.Length || (a.Length == 0 && i == -1)
      invariant multiset(a[..]) == multiset(arr)
    {
      var j := choices[a.Length - 1 - i] % (i + 1);
      a[i], a[j] := a[j], a[i];
      i := i - 1;
    }
    r := a[..];
  }

  /** Every element of a shuffle of the digits is a digit 1..9. */
  lemma ShuffledDigit(order: seq<int>, k: int)
    requires multiset(order) == multiset(AllDigits) && 0 <= k < |order|
    ensures 1 <= order[k] <= 9
  {
    assert order[k] in multiset(order);
    assert order[k] in AllDigits;
  }

  /** The cell at offset (y, z) of the 3x3 box holding cell i. */
  function BoxCell(i: int, y: int, z: int): int
    requires IsCell(i)
  {
    CellAt((RowId(i) / 3) * 3 + y, (ColId(i) / 3) * 3 + z)
  }

  /** `shuffle([1, ..., 9])` with the next 8 draws of the stream: a permutation of the digits. */
  method ShuffleDigits(rng: nat -> nat, cursor: nat) returns (order: seq<int>, next: nat)
    ensures IsPerm19(order) && next == cursor + 8
  {
    order := Shuffle(AllDigits, Draw(rng, cursor, 8));
    ShuffleOfDigitsIsPerm19(order);
    next := cursor + 8;
  }

  /** `isSafe`: scans i's row and column, then its 3x3 box, for val. */
  method IsSafe(board: array<int>, i: int, val: int) returns (safe: bool)
    requires board.Length == 81 && IsCell(i)
    ensures safe == Safe(board[..], i, val)
  {
    var r, c := RowId(i), ColId(i);
    for x := 0 to 9
      invariant forall y :: 0 <= y < x ==> board[CellAt(r, y)] != val && board[CellAt(y, c)] != val
    {
      if board[CellAt(r, x)] == val {
        SameRowOrColumn(i, x);
        return false;
      }
      if board[CellAt(x, c)] == val {
        SameRowOrColumn(i, x);
        return false;
      }
    }
    for y := 0 to 3
      invariant forall y', z :: 0 <= y' < y && 0 <= z < 3 ==> board[BoxCell(i, y', z)] != val
    {
      for z := 0 to 3
        invariant forall y', z' :: 0 <= y' < y && 0 <= z' < 3 ==> board[BoxCell(i, y', z')] != val
        invariant forall z' :: 0 <= z' < z ==> board[BoxCell(i, y, z')] != val
      {
        SameBox(i, y, z);
        if board[BoxCell(i, y, z)] == val {
          return false;
        }
      }
    }
    SafeCovers(board[..], i, val);
    return true;
  }

  /** The cells `isSafe` reads in i's row and column share a unit with i. */
  lemma SameRowOrColumn(i: int, x: int)
    requires IsCell(i) && 0 <= x < 9
    ensures IsCell(CellAt(RowId(i), x)) && SameUnit(i, CellAt(RowId(i), x))
    ensures IsCell(CellAt(x, ColId(i))) && SameUnit(i, CellAt(x, ColId(i)))
  {
    CellAtCoordinates(RowId(i), x);
    CellAtCoordinates(x, ColId(i));
  }

  /** The cells `isSafe` reads in i's box share a unit with i. */
  lemma SameBox(i: int, y: int, z: int)
    requires IsCell(i) && 0 <= y < 3 && 0 <= z < 3
    ensures IsCell(BoxCell(i, y, z)) && SameUnit(i, BoxCell(i, y, z))
  {
    var r, c := RowId(i), ColId(i);
    CellAtCoordinates((r / 3) * 3 + y, (c / 3) * 3 + z);
    Thirds(r / 3, y);
    Thirds(c / 3, z);
    SameBoxByThirds(i, BoxCell(i, y, z));
  }

  /** Every cell sharing a unit with i is one of the cells `isSafe` reads. */
  lemma SafeCovers(b: seq<int>, i: int, val: int)
    requires |b| == 81 && IsCell(i)
    requires forall y :: 0 <= y < 9 ==> b[CellAt(RowId(i), y)] != val && b[CellAt(y, ColId(i))] != val
    requires forall y, z :: 0 <= y < 3 && 0 <= z < 3 ==> b[BoxCell(i, y, z)] != val
    ensures Safe(b, i, val)
  {
    forall j | 0 <= j < 81 && SameUnit(i, j) ensures b[j] != val {
      var r, c := RowId(i), ColId(i);
      if RowId(j) == r {
        assert j == CellAt(r, ColId(j));
      } else if ColId(j) == c {
        assert j == CellAt(RowId(j), c);
      } else {
        SameBoxByThirds(i, j);
        assert j == BoxCell(i, RowId(j) % 3, ColId(j) % 3);
      }
    }
  }

  /**
    `solve`: fills the first blank with each safe digit of a shuffled 1..9 in
    turn, recursing and undoing the placement when the recursion fails.
   */
  method Solve(board: array<int>, rng: nat -> nat, cursor: nat) returns (solved: bool, next: nat)
    requires board.Length == 81
    modifies board
    ensures cursor <= next
    ensures solved ==> Complete(board[..]) && KeepsDigits(old(board[..]), board[..])
    ensures !solved ==> board[..] == old(board[..])
    ensures Digits(old(board[..])) ==> Digits(board[..])
    ensures Consistent(old(board[..])) ==> Consistent(board[..])
    decreases Blanks(board[..]), 1
  {
    var idx := IndexOf(board[..], 0);
    if idx == -1 {
      return true, cursor;
    }
    var order;
    order, next := ShuffleDigits(rng, cursor);
    ghost var b0 := board[..];
    for k := 0 to 9
      invariant board[..] == b0
      invariant cursor <= next
    {
      var v := order[k];
      var safe := IsSafe(board, idx, v);
      if safe {
        solved, next := TryPlace(board, idx, v, rng, next);
        if solved {
          return;
        }
      }
    }
    return false, next;
  }

  /** One successful `isSafe` test in `solve`: place v, recurse, undo when the recursion fails. */
  method TryPlace(board: array<int>, idx: int, v: int, rng: nat -> nat, cursor: nat)
    returns (solved: bool, next: nat)
    requires board.Length == 81 && IsCell(idx) && board[idx] == 0 && 1 <= v <= 9
    requires Safe(board[..], idx, v)
    modifies board
    ensures cursor <= next
    ensures solved ==> Complete(board[..]) && KeepsDigits(old(board[..]), board[..])
    ensures !solved ==> board[..] == old(board[..])
    ensures Digits(old(board[..])) ==> Digits(board[..])
    ensures Consistent(old(board[..])) ==> Consistent(board[..])
    decreases Blanks(board[..]), 0
  {
    ghost var b0 := board[..];
    board[idx] := v;
    assert board[..] == b0[idx := v];
    OccurrencesUpdate(b0, idx, v, 0);
    if Consistent(b0) {
      PlaceKeepsConsistent(b0, idx, v);
    }
    solved, next := Solve(board, rng, cursor);
    if !solved {
      board[idx] := 0;
      assert board[..] == b0;
    }
  }

  /** Position of cell i inside its 3x3 box, row-major (0..8). */
  function BoxOffset(i: int): (k: int)
    requires IsCell(i)
    ensures 0 <= k < 9
  {
    (RowId(i) % 3) * 3 + ColId(i) % 3
  }

  /** Cell i lies in the b-th box of the main diagonal. */
  predicate OnDiagonalBox(i: int, b: int)
    requires IsCell(i)
  {
    RowId(i) / 3 == b && ColId(i) / 3 == b
  }

  /** A diagonal-box cell is determined by its box and its offset in the box. */
  lemma DiagonalCell(i: int, b: int)
    requires IsCell(i) && OnDiagonalBox(i, b)
    ensures i == CellAt(b * 3 + RowId(i) % 3, b * 3 + ColId(i) % 3)
  {
  }

  /** The value the diagonal-box seeding of `generateSolved` puts at cell i. */
  function SeedValue(seeds: seq<seq<int>>, i: int): int
    requires IsCell(i) && forall t :: 0 <= t < |seeds| ==> |seeds[t]| == 9
  {
    var r, c := RowId(i), ColId(i);
    if r / 3 == c / 3 && r / 3 < |seeds| then seeds[r / 3][BoxOffset(i)] else 0
  }

  /** Seeding one more diagonal box changes exactly the cells of that box. */
  lemma SeedValueStep(seeds: seq<seq<int>>, nums: seq<int>, i: int)
    requires IsCell(i) && |nums| == 9 && forall t :: 0 <= t < |seeds| ==> |seeds[t]| == 9
    ensures forall t :: 0 <= t < |seeds + [nums]| ==> |(seeds + [nums])[t]| == 9
    ensures SeedValue(seeds + [nums], i)
         == if OnDiagonalBox(i, |seeds|) then nums[BoxOffset(i)] else SeedValue(seeds, i)
  {
  }

  /** Seeding the diagonal boxes with permutations of 1..9 gives a consistent board. */
  lemma SeedsConsistent(b: seq<int>, seeds: seq<seq<int>>)
    requires |b| == 81 && |seeds| <= 3
    requires forall t :: 0 <= t < |seeds| ==> |seeds[t]| == 9 && IsPerm19(seeds[t])
    requires forall i :: 0 <= i < 81 ==> b[i] == SeedValue(seeds, i)
    ensures Digits(b) && Consistent(b)
  {
    forall i, j | 0 <= i < 81 && 0 <= j < 81 && IsPeer(i, j) && b[i] != 0
      ensures b[i] != b[j]
    {
      SeedPairDiffers(seeds, i, j);
    }
  }

  /** Two peers holding seeded digits hold different ones. */
  lemma SeedPairDiffers(seeds: seq<seq<int>>, i: int, j: int)
    requires |seeds| <= 3 && forall t :: 0 <= t < |seeds| ==> |seeds[t]| == 9 && IsPerm19(seeds[t])
    requires IsCell(i) && IsCell(j) && IsPeer(i, j)
    ensures SeedValue(seeds, i) != 0 ==> SeedValue(seeds, i) != SeedValue(seeds, j)
  {
    var ri, ci, rj, cj := RowId(i), ColId(i), RowId(j), ColId(j);
    if ri / 3 == ci / 3 && ri / 3 < |seeds| && rj / 3 == cj / 3 && rj / 3 < |seeds| {
      SameBoxByThirds(i, j);
      assert ri / 3 == rj / 3;
      var t := ri / 3;
      DiagonalCell(i, t);
      DiagonalCell(j, t);
      var p, q := BoxOffset(i), BoxOffset(j);
      assert p != q;
      var s := seeds[t];
      assert SeedValue(seeds, i) == s[p] && SeedValue(seeds, j) == s[q];
      if p < q { assert s[p] != s[q]; } else { assert s[q] != s[p]; }
    }
  }

  /** The inner loops of `generateSolved`: copy nums into the b-th diagonal box, row by row. */
  method SeedBox(board: array<int>, b: int, nums: seq<int>)
    requires board.Length == 81 && 0 <= b < 3 && |nums| == 9
    modifies board
    ensures forall i :: 0 <= i < 81 ==>
      board[i] == if OnDiagonalBox(i, b) then nums[BoxOffset(i)] else old(board[i])
  {
    var br, bc := b * 3, b * 3;
    var k := 0;
    for r := 0 to 3
      invariant k == r * 3
      invariant forall i :: 0 <= i < 81 ==>
        board[i] == if OnDiagonalBox(i, b) && BoxOffset(i) < k then nums[BoxOffset(i)] else old(board[i])
    {
      for c := 0 to 3
        invariant k == r * 3 + c
        invariant forall i :: 0 <= i < 81 ==>
          board[i] == if OnDiagonalBox(i, b) && BoxOffset(i) < k then nums[BoxOffset(i)] else old(board[i])
      {
        var j := CellAt(br + r, bc + c);
        DiagonalAt(b, r, c);
        forall i | 0 <= i < 81 && OnDiagonalBox(i, b) && BoxOffset(i) == k
          ensures i == j
        {
          DiagonalOffsetUnique(i, j, b);
        }
        board[j] := nums[k];
        k := k + 1;
      }
    }
  }

  /** The cell at offset (r, c) of the b-th diagonal box is on that box, at offset r * 3 + c. */
  lemma DiagonalAt(b: int, r: int, c: int)
    requires 0 <= b < 3 && 0 <= r < 3 && 0 <= c < 3
    ensures IsCell(CellAt(b * 3 + r, b * 3 + c))
    ensures OnDiagonalBox(CellAt(b * 3 + r, b * 3 + c), b) && BoxOffset(CellAt(b * 3 + r, b * 3 + c)) == r * 3 + c
  {
    CellAtCoordinates(b * 3 + r, b * 3 + c);
    Thirds(b, r);
    Thirds(b, c);
  }

  /** Two cells of one diagonal box at the same offset are the same cell. */
  lemma DiagonalOffsetUnique(i: int, j: int, b: int)
    requires IsCell(i) && IsCell(j) && OnDiagonalBox(i, b) && OnDiagonalBox(j, b)
    requires BoxOffset(i) == BoxOffset(j)
    ensures i == j
  {
    DiagonalCell(i, b);
    DiagonalCell(j, b);
    Thirds(RowId(i) % 3, ColId(i) % 3);
    Thirds(RowId(j) % 3, ColId(j) % 3);
  }

  /**
    The first half of `generateSolved`: a fresh empty board whose three
    diagonal boxes are filled with shuffled digits (the ghost `seeds`).
   */
  method SeedDiagonal(rng: nat -> nat, cursor: nat) returns (board: array<int>, next: nat, ghost seeds: seq<seq<int>>)
    ensures fresh(board) && board.Length == 81 && cursor <= next
    ensures |seeds| == 3 && forall t :: 0 <= t < 3 ==> |seeds[t]| == 9 && IsPerm19(seeds[t])
    ensures forall i :: 0 <= i < 81 ==> board[i] == SeedValue(seeds, i)
  {
    board := new int[81](_ => 0);
    next := cursor;
    seeds := [];
    for b := 0 to 3
      invariant |seeds| == b && cursor <= next
      invariant forall t :: 0 <= t < b ==> |seeds[t]| == 9 && IsPerm19(seeds[t])
      invariant forall i :: 0 <= i < 81 ==> board[i] == SeedValue(seeds, i)
    {
      var nums;
      nums, next := ShuffleDigits(rng, next);
      SeedBox(board, b, nums);
      forall i | 0 <= i < 81 ensures board[i] == SeedValue(seeds + [nums], i) {
        SeedValueStep(seeds, nums, i);
      }
      seeds := seeds + [nums];
    }
  }

  /**
    `generateSolved`: seed the diagonal boxes, then complete the board with
    `solve` (whose result the source ignores).
   */
  method GenerateSolved(rng: nat -> nat, cursor: nat) returns (grid: seq<int>, next: nat)
    ensures cursor <= next
    ensures |grid| == 81 && Digits(grid) && Consistent(grid)
    ensures Complete(grid) ==> Solved(grid)
  {
    var board, n, seeds := SeedDiagonal(rng, cursor);
    SeedsConsistent(board[..], seeds);
    var _, n' := Solve(board, rng, n);
    next := n';
    grid := board[..];
  }

  /** A shuffle of 1..9 is a permutation of 1..9. */
  lemma ShuffleOfDigitsIsPerm19(nums: seq<int>)
    requires |nums| == 9 && multiset(nums) == multiset(AllDigits)
    ensures IsPerm19(nums)
  {
    forall k | 0 <= k < 9 ensures 1 <= nums[k] <= 9 {
      ShuffledDigit(nums, k);
    }
    forall p, q | 0 <= p < q < 9 ensures nums[p] != nums[q] {
      if nums[p] == nums[q] {
        TwiceInMultiset(nums, p, q);
        DigitsOnce(nums[p]);
      }
    }
  }

  /** Each value occurs at most once among the digits 1..9. */
  lemma DigitsOnce(v: int)
    ensures multiset(AllDigits)[v] <= 1
  {
    DigitsDistinct();
    OnceInDistinct(AllDigits, v);
  }

  /** The digits 1..9 are listed without repeats. */
  lemma DigitsDistinct()
    ensures Distinct(AllDigits)
  {
    forall a, b | 0 <= a < b < 9 ensures AllDigits[a] != AllDigits[b] {
      assert AllDigits[a] == a + 1 && AllDigits[b] == b + 1;
    }
  }

  /** In a sequence without repeats every value occurs at most once. */
  lemma {:induction false} OnceInDistinct(s: seq<int>, v: int)
    requires Distinct(s)
    ensures multiset(s)[v] <= 1
  {
    if s != [] {
      var n := |s| - 1;
      assert s == s[..n] + [s[n]];
      assert Distinct(s[..n]);
      OnceInDistinct(s[..n], v);
      if s[n] == v {
        assert v !in s[..n];
      }
    }
  }

  /** Two equal entries make their value occur twice in the multiset. */
  lemma TwiceInMultiset(s: seq<int>, p: int, q: int)
    requires 0 <= p < q < |s| && s[p] == s[q]
    ensures multiset(s)[s[p]] >= 2
  {
    assert s == s[..p] + [s[p]] + s[p + 1..q] + [s[q]] + s[q + 1..];
  }

  // ---------------------------------------------------------------------------
  // countSolutions

  /**
    The value of the counter after the search `backtrack` runs on board b with
    the counter starting at `count`: stop at once when the limit is reached,
    count a board without blanks, otherwise try the digits at the first blank.
   */
  function CountFrom(b: seq<int>, limit: int, count: int): int
    requires |b| == 81
    decreases Blanks(b), 1, 0
  {
    if count >= limit then count
    else
      var idx := IndexOf(b, 0);
      if idx == -1 then count + 1 else TryDigits(b, idx, 1, limit, count)
  }

  /** The loop of `backtrack` over the digits v..9 at blank idx. */
  function TryDigits(b: seq<int>, idx: int, v: int, limit: int, count: int): int
    requires |b| == 81 && IsCell(idx) && b[idx] == 0 && 1 <= v <= 10
    decreases Blanks(b), 0, 10 - v
  {
    if v > 9 then count
    else if Safe(b, idx, v) then
      OccurrencesUpdate(b, idx, v, 0);
      var c := CountFrom(b[idx := v], limit, count);
      if c >= limit then c else TryDigits(b, idx, v + 1, limit, c)
    else TryDigits(b, idx, v + 1, limit, count)
  }

  /** The counter never decreases, and never passes a limit it started below. */
  lemma {:induction false} CountFromBounds(b: seq<int>, limit: int, count: int)
    requires |b| == 81
    ensures count <= CountFrom(b, limit, count)
    ensures count < limit ==> CountFrom(b, limit, count) <= limit
    decreases Blanks(b), 1, 0
  {
    if count < limit {
      var idx := IndexOf(b, 0);
      if idx != -1 {
        TryDigitsBounds(b, idx, 1, limit, count);
      }
    }
  }

  lemma {:induction false} TryDigitsBounds(b: seq<int>, idx: int, v: int, limit: int, count: int)
    requires |b| == 81 && IsCell(idx) && b[idx] == 0 && 1 <= v <= 10 && count < limit
    ensures count <= TryDigits(b, idx, v, limit, count) <= limit
    decreases Blanks(b), 0, 10 - v
  {
    if v <= 9 {
      if Safe(b, idx, v) {
        OccurrencesUpdate(b, idx, v, 0);
        CountFromBounds(b[idx := v], limit, count);
        var c := CountFrom(b[idx := v], limit, count);
        if c < limit {
          TryDigitsBounds(b, idx, v + 1, limit, c);
        }
      } else {
        TryDigitsBounds(b, idx, v + 1, limit, count);
      }
    }
  }

  /** `countSolutions` returns a count in [0, limit] (0 when limit <= 0). */
  lemma CountSolutionsRange(b: seq<int>, limit: int)
    requires |b| == 81
    ensures 0 <= CountFrom(b, limit, 0) <= if limit > 0 then limit else 0
  {
    CountFromBounds(b, limit, 0);
  }

  /** On a board without blanks the count is 1 whenever the limit allows one. */
  lemma CountFullBoard(b: seq<int>, limit: int)
    requires |b| == 81 && Complete(b) && limit >= 1
    ensures CountFrom(b, limit, 0) == 1
  {
    assert IndexOf(b, 0) == -1;
  }

  /**
    The nested `backtrack` of `countSolutions`, with the closure counter as an
    in/out parameter: every placement is undone before it returns.
   */
  method Backtrack(board: array<int>, limit: int, count: int) returns (total: int)
    requires board.Length == 81
    modifies board
    ensures board[..] == old(board[..])
    ensures total == CountFrom(old(board[..]), limit, count)
    decreases Blanks(board[..])
  {
    if count >= limit {
      return count;
    }
    var idx := IndexOf(board[..], 0);
    if idx == -1 {
      return count + 1;
    }
    ghost var b0 := board[..];
    total := count;
    var v := 1;
    while v <= 9
      invariant 1 <= v <= 10
      invariant board[..] == b0
      invariant total < limit
      invariant TryDigits(b0, idx, v, limit, total) == TryDigits(b0, idx, 1, limit, count)
    {
      var safe := IsSafe(board, idx, v);
      if safe {
        board[idx] := v;
        assert board[..] == b0[idx := v];
        OccurrencesUpdate(b0, idx, v, 0);
        total := Backtrack(board, limit, total);
        board[idx] := 0;
        assert board[..] == b0;
        if total >= limit {
          return;
        }
      }
      v := v + 1;
    }
  }

  /** `countSolutions(board, limit)`: the board is restored and the count lies in [0, limit]. */
  method CountSolutions(board: array<int>, limit: int) returns (n: int)
    requires board.Length == 81
    modifies board
    ensures board[..] == old(board[..])
    ensures n == CountFrom(old(board[..]), limit, 0)
    ensures 0 <= n <= if limit > 0 then limit else 0
  {
    CountSolutionsRange(board[..], limit);
    n := Backtrack(board, limit, 0);
  }
}
