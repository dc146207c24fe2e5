/**
  `generatePuzzle`: start from a solved grid and blank its cells in a random
  order, keeping a removal only when `countSolutions` with limit 2 still
  returns 1, until the clue count reaches a target drawn from the preset.
 */
module Generator {
  import opened Geometry
  import opened Board
  import opened Solver

  /** The difficulty presets. */
  datatype Difficulty = Easy | Medium | Hard

  /** The clue range of a preset, both ends inclusive. */
  function ClueRange(d: Difficulty): (range: (int, int))
  {
    match d
    case Easy => (36, 49)
    case Medium => (30, 35)
    case Hard => (24, 29)
  }

  function MinClues(d: Difficulty): int { ClueRange(d).0 }

  function MaxClues(d: Difficulty): int { ClueRange(d).1 }

  /** Each range is non-empty and the harder presets ask for strictly fewer clues. */
  lemma PresetsOrdered()
    ensures forall d :: 17 <= MinClues(d) <= MaxClues(d) < 81
    ensures MaxClues(Hard) < MinClues(Medium) && MaxClues(Medium) < MinClues(Easy)
  {
    forall d ensures 17 <= MinClues(d) <= MaxClues(d) < 81 {
      match d
      case Easy =>
      case Medium =>
      case Hard =>
    }
  }

  /** `floor(random * (max - min + 1)) + min`, with the random draw `roll`. */
  function TargetClues(d: Difficulty, roll: nat): (t: int)
    ensures MinClues(d) <= t <= MaxClues(d)
    ensures roll <= MaxClues(d) - MinClues(d) ==> t == MinClues(d) + roll
  {
    roll % (MaxClues(d) - MinClues(d) + 1) + MinClues(d)
  }

  /** Every value of the preset's range is the target for some draw. */
  lemma TargetCluesCoversRange(d: Difficulty, t: int)
    requires MinClues(d) <= t <= MaxClues(d)
    ensures TargetClues(d, t - MinClues(d)) == t
  {
  }

  /** `puzzle.filter((v) => v !== 0).length`. */
  function ClueCount(b: seq<int>): (n: int)
    ensures 0 <= n <= |b|
  {
    |b| - Blanks(b)
  }

  /** A board without blanks has a clue in every cell. */
  lemma ClueCountComplete(b: seq<int>)
    requires Complete(b)
    ensures ClueCount(b) == |b|
  {
    OccurrencesNone(b, 0);
  }

  /** The three arrays `generatePuzzle` returns (cells as numbers, 0 for ""). */
  datatype Generated = Generated(puzzle: seq<int>, fixed: seq<bool>, solution: seq<int>)

  /** Blanking cells of a consistent board leaves it consistent. */
  lemma SubBoardConsistent(p: seq<int>, s: seq<int>)
    requires |p| == 81 && KeepsDigits(p, s) && Consistent(s)
    ensures Consistent(p)
  {
    forall i, j | 0 <= i < 81 && 0 <= j < 81 && IsPeer(i, j) && p[i] != 0
      ensures p[i] != p[j]
    {
      if p[j] != 0 {
        assert p[i] == s[i] && p[j] == s[j];
      }
    }
  }

  /** Every element of a shuffle of `range(81)` is a cell index. */
  lemma ShuffledCell(order: seq<int>, k: int)
    requires multiset(order) == multiset(Range(81)) && 0 <= k < |order|
    ensures IsCell(order[k])
  {
    assert order[k] in multiset(order);
    assert order[k] in Range(81);
  }

  /** `shuffle(range(81))` with the next 80 draws: every cell index, each visited by the loop. */
  method ShuffleCells(rng: nat -> nat, cursor: nat) returns (order: seq<int>, next: nat)
    ensures |order| == 81 && next == cursor + 80
    ensures forall k :: 0 <= k < 81 ==> IsCell(order[k])
    ensures forall i :: IsCell(i) ==> i in order
  {
    order := Shuffle(Range(81), Draw(rng, cursor, 80));
    forall k | 0 <= k < 81 ensures IsCell(order[k]) {
      ShuffledCell(order, k);
    }
    forall i | IsCell(i) ensures i in order {
      assert Range(81)[i] == i;
      assert i in multiset(Range(81));
    }
    next := cursor + 80;
  }

  /**
    One step of the removal loop on a clue: blank it, count the solutions of a
    copy with limit 2, and put the clue back unless the count is exactly 1.
   */
  method TryRemove(puzzle: array<int>, idx: int) returns (removed: bool)
    requires puzzle.Length == 81 && IsCell(idx) && puzzle[idx] != 0
    modifies puzzle
    ensures removed <==> CountFrom(old(puzzle[..])[idx := 0], 2, 0) == 1
    ensures removed ==> puzzle[..] == old(puzzle[..])[idx := 0]
    ensures !removed ==> puzzle[..] == old(puzzle[..])
  {
    var backup := puzzle[idx];
    puzzle[idx] := 0;
    var temp := new int[81](k requires 0 <= k < 81 reads puzzle => puzzle[k]);
    assert temp[..] == puzzle[..];
    var count := CountSolutions(temp, 2);
    removed := count == 1;
    if !removed {
      puzzle[idx] := backup;
    }
  }

  /**
    The state of the removal loop: the puzzle only blanks cells of the
    solution, and once it differs from it, `countSolutions` with limit 2
    returns 1 on it.
   */
  ghost predicate Thinned(p: seq<int>, solved: seq<int>)
  {
    && |p| == 81 && |solved| == 81
    && (forall i :: 0 <= i < 81 ==> p[i] == 0 || p[i] == solved[i])
    && (p == solved || CountFrom(p, 2, 0) == 1)
  }

  /** A step of the removal loop keeps it thinned and lowers the clue count by one exactly when it removes a clue. */
  lemma ThinStep(before: seq<int>, after: seq<int>, solved: seq<int>, idx: int, removed: bool)
    requires Thinned(before, solved) && IsCell(idx) && before[idx] != 0
    requires removed ==> after == before[idx := 0] && CountFrom(after, 2, 0) == 1
    requires !removed ==> after == before
    ensures Thinned(after, solved)
    ensures ClueCount(after) == ClueCount(before) - (if removed then 1 else 0)
  {
    if removed {
      OccurrencesUpdate(before, idx, 0, 0);
      forall i | 0 <= i < 81 ensures after[i] == 0 || after[i] == solved[i] {
        assert i != idx ==> after[i] == before[i];
      }
    }
  }

  /**
    Clue i was kept for a reason: blanking it in some board that has all of
    p's clues and only clues of the solution did not leave a count of exactly
    one solution (with limit 2).
   */
  ghost predicate Rejected(p: seq<int>, solved: seq<int>, i: int)
    requires 0 <= i < 81
  {
    exists q: seq<int> :: |q| == 81 && KeepsDigits(p, q) && KeepsDigits(q, solved)
      && q[i] != 0 && CountFrom(q[i := 0], 2, 0) != 1
  }

  /** The first n cells of the order are blank in p or were kept for a reason. */
  ghost predicate Tried(p: seq<int>, solved: seq<int>, order: seq<int>, n: int)
    requires |p| == 81 && |order| == 81 && 0 <= n <= 81
    requires forall k :: 0 <= k < 81 ==> IsCell(order[k])
  {
    forall k :: 0 <= k < n ==> IsCell(order[k]) && (p[order[k]] == 0 || Rejected(p, solved, order[k]))
  }

  /** The state of the removal loop after n cells of the order. */
  ghost predicate Carving(p: seq<int>, solved: seq<int>, order: seq<int>, n: int)
    requires |order| == 81 && 0 <= n <= 81
    requires forall k :: 0 <= k < 81 ==> IsCell(order[k])
  {
    Thinned(p, solved) && Tried(p, solved, order, n)
  }

  /**
    One pass of the removal loop over a clue, kept exactly when the count is
    one: the loop state moves on by one cell and the clue count drops by the
    removal.
   */
  lemma CarveStep(before: seq<int>, after: seq<int>, solved: seq<int>, order: seq<int>, n: int, removed: bool)
    requires |order| == 81 && 0 <= n < 81
    requires forall k :: 0 <= k < 81 ==> IsCell(order[k])
    requires Carving(before, solved, order, n) && before[order[n]] != 0
    requires removed <==> CountFrom(before[order[n] := 0], 2, 0) == 1
    requires removed ==> after == before[order[n] := 0]
    requires !removed ==> after == before
    ensures Carving(after, solved, order, n + 1)
    ensures ClueCount(after) == ClueCount(before) - (if removed then 1 else 0)
  {
    ThinStep(before, after, solved, order[n], removed);
    TriedStep(before, after, solved, order, n, removed);
  }

  /** A cell of the order that is already blank extends the tried prefix. */
  lemma TriedSkip(p: seq<int>, solved: seq<int>, order: seq<int>, n: int)
    requires |p| == 81 && |order| == 81 && 0 <= n < 81
    requires forall k :: 0 <= k < 81 ==> IsCell(order[k])
    requires Carving(p, solved, order, n) && p[order[n]] == 0
    ensures Carving(p, solved, order, n + 1)
  {
  }

  /** Once the whole order is tried, every clue left was kept for a reason. */
  lemma TriedAll(p: seq<int>, solved: seq<int>, order: seq<int>)
    requires |p| == 81 && |order| == 81
    requires forall k :: 0 <= k < 81 ==> IsCell(order[k])
    requires forall i :: IsCell(i) ==> i in order
    requires Tried(p, solved, order, 81)
    ensures forall i :: 0 <= i < 81 && p[i] != 0 ==> Rejected(p, solved, i)
  {
    forall i | 0 <= i < 81 && p[i] != 0 ensures Rejected(p, solved, i) {
      assert IsCell(i);
      var k :| 0 <= k < 81 && order[k] == i;
    }
  }

  /** A pass of the removal loop over a clue extends the tried prefix by that cell. */
  lemma TriedStep(before: seq<int>, after: seq<int>, solved: seq<int>, order: seq<int>, n: int, removed: bool)
    requires Thinned(before, solved) && |order| == 81 && 0 <= n < 81
    requires forall k :: 0 <= k < 81 ==> IsCell(order[k])
    requires Tried(before, solved, order, n) && before[order[n]] != 0
    requires removed ==> after == before[order[n] := 0]
    requires !removed ==> after == before && CountFrom(before[order[n] := 0], 2, 0) != 1
    ensures |after| == 81 && Tried(after, solved, order, n + 1)
  {
    assert KeepsDigits(after, before);
    forall k | 0 <= k < n + 1 && after[order[k]] != 0 ensures Rejected(after, solved, order[k]) {
      var i := order[k];
      if k < n {
        var q :| |q| == 81 && KeepsDigits(before, q) && KeepsDigits(q, solved)
          && q[i] != 0 && CountFrom(q[i := 0], 2, 0) != 1;
        assert KeepsDigits(after, q);
      } else {
        assert KeepsDigits(after, before) && KeepsDigits(before, solved);
      }
    }
  }

  /**
    g is what `generatePuzzle(diff)` hands out for a drawn target of clues:
    81 cells each, clues exactly where the puzzle has a digit and agreeing
    with the solution, the target inside the preset's range and, for a full
    solution, a solved grid, `countSolutions(puzzle, 2)` returning 1 and at
    least the target of clues: exactly the target, or only clues whose
    removal was refused.
   */
  ghost predicate GeneratedFor(g: Generated, diff: Difficulty, target: int)
  {
    && MinClues(diff) <= target <= MaxClues(diff)
    && |g.puzzle| == 81 && |g.fixed| == 81 && |g.solution| == 81
    && (forall i :: 0 <= i < 81 ==> (g.fixed[i] <==> g.puzzle[i] != 0))
    && KeepsDigits(g.puzzle, g.solution)
    && (Complete(g.solution) ==>
          && Solved(g.solution)
          && CountFrom(g.puzzle, 2, 0) == 1
          && target <= ClueCount(g.puzzle)
          && (ClueCount(g.puzzle) == target || forall i :: 0 <= i < 81 && g.puzzle[i] != 0 ==> Rejected(g.puzzle, g.solution, i)))
  }

  /**
    `generatePuzzle`: the puzzle only blanks cells of the solution and stays
    consistent. When `generateSolved` produced a full grid, `countSolutions`
    with limit 2 returns 1 on the puzzle, and the puzzle never goes below the
    drawn target: it either stops at exactly the target, or keeps only clues
    whose removal was refused.
   */
  method GeneratePuzzle(diff: Difficulty, rng: nat -> nat, cursor: nat) returns (g: Generated, next: nat, ghost target: int)
    ensures cursor <= next
    ensures MinClues(diff) <= target <= MaxClues(diff)
    ensures |g.puzzle| == 81 && |g.fixed| == 81 && |g.solution| == 81
    ensures forall i :: 0 <= i < 81 ==> (g.fixed[i] <==> g.puzzle[i] != 0)
    ensures KeepsDigits(g.puzzle, g.solution)
    ensures Digits(g.puzzle) && Consistent(g.puzzle) && Digits(g.solution) && Consistent(g.solution)
    ensures Complete(g.solution) ==> Solved(g.solution)
    ensures Complete(g.solution) ==> CountFrom(g.puzzle, 2, 0) == 1
    ensures Complete(g.solution) ==> MinClues(diff) <= target <= ClueCount(g.puzzle)
    ensures Complete(g.solution) ==>
      ClueCount(g.puzzle) == target || forall i :: 0 <= i < 81 && g.puzzle[i] != 0 ==> Rejected(g.puzzle, g.solution, i)
    ensures GeneratedFor(g, diff, target)
  {
    var solved;
    solved, next := GenerateSolved(rng, cursor);
    var targetClues := TargetClues(diff, rng(next));
    target := targetClues;
    next := next + 1;
    var order;
    order, next := ShuffleCells(rng, next);
    var puzzle := new int[81](k requires 0 <= k < 81 => solved[k]);
    assert puzzle[..] == solved;
    PresetsOrdered();
    Carve(puzzle, solved, order, targetClues);
    var carved := puzzle[..];
    assert KeepsDigits(carved, solved);
    SubBoardConsistent(carved, solved);
    if Complete(solved) && carved == solved {
      CountFullBoard(solved, 2);
    }
    g := Generated(carved, seq(81, i requires 0 <= i < 81 => carved[i] != 0), solved);
  }

  /**
    The removal loop of `generatePuzzle`: visit the cells in `order`, blank
    each clue whose removal leaves a count of exactly one, and stop as soon as
    the clue count reaches the target.
   */
  method Carve(puzzle: array<int>, solved: seq<int>, order: seq<int>, targetClues: int)
    requires puzzle.Length == 81 && puzzle[..] == solved && targetClues < 81
    requires |order| == 81 && forall k :: 0 <= k < 81 ==> IsCell(order[k])
    requires forall i :: IsCell(i) ==> i in order
    modifies puzzle
    ensures Thinned(puzzle[..], solved)
    ensures Complete(solved) ==> targetClues <= ClueCount(puzzle[..])
    ensures Complete(solved) ==>
      ClueCount(puzzle[..]) == targetClues
      || forall i :: 0 <= i < 81 && puzzle[i] != 0 ==> Rejected(puzzle[..], solved, i)
  {
    if Complete(solved) {
      ClueCountComplete(solved);
    }
    ghost var stopped := false;
    for n := 0 to 81
      invariant Carving(puzzle[..], solved, order, n)
      invariant Complete(solved) ==> ClueCount(puzzle[..]) > targetClues
    {
      var idx := order[n];
      var backup := puzzle[idx];
      if backup == 0 {
        TriedSkip(puzzle[..], solved, order, n);
        continue;
      }
      ghost var before := puzzle[..];
      var removed := TryRemove(puzzle, idx);
      CarveStep(before, puzzle[..], solved, order, n, removed);
      var cluesLeft := ClueCount(puzzle[..]);
      if cluesLeft <= targetClues {
        assert Complete(solved) ==> cluesLeft == targetClues;
        stopped := true;
        break;
      }
    }
    if !stopped {
      TriedAll(puzzle[..], solved, order);
    }
  }
}
