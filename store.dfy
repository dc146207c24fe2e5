/**
  The game store: the board, its clue mask, the conflict set, focus,
  difficulty, timing and the solution, with the five actions that update
  them. Cells are numbers (0 for ""); the clock's `Date.now()` and the random
  stream of `generatePuzzle` are parameters of the actions that read them.
 */
module Store {
  import opened Options
  import opened Geometry
  import opened Board
  import opened Solver
  import opened Generator
  import opened Conflicts

  class SudokuStore {
    var cells: seq<int>
    var fixed: seq<bool>
    var errors: set<int>
    var active: Option<int>
    var difficulty: Difficulty
    var startAt: Option<int>
    var completedInMs: Option<int>
    var solution: Option<seq<int>>
    var gameActive: bool

    /** The store's own invariant: 81 cells of digits, and `errors` is the conflict set of the board. */
    ghost predicate Valid()
      reads this
    {
      && |cells| == 81 && |fixed| == 81
      && Digits(cells)
      && errors == ConflictSet(cells)
      && (solution.Some? ==> |solution.value| == 81)
    }

    /** Every clue cell still shows its solution digit. */
    ghost predicate CluesIntact()
      reads this
      requires Valid()
    {
      solution.Some? ==> forall i :: 0 <= i < 81 && fixed[i] ==> cells[i] == solution.value[i]
    }

    /** The initial state: an empty board with no clues, no game and the "easy" preset. */
    constructor ()
      ensures Valid() && CluesIntact()
      ensures cells == seq(81, _ => 0) && fixed == seq(81, _ => false) && errors == {}
      ensures active == None && difficulty == Easy && startAt == None
      ensures completedInMs == None && solution == None && !gameActive
    {
      cells := seq(81, _ => 0);
      fixed := seq(81, _ => false);
      errors := {};
      active := None;
      difficulty := Easy;
      startAt := None;
      completedInMs := None;
      solution := None;
      gameActive := false;
      EmptyBoardNoConflicts();
    }

    /**
      `newGame(d)` at time `now`: a fresh puzzle of difficulty `d` (or the
      stored one), whose clues are exactly its non-blank cells and agree with
      the solution; the stored board, clue mask and solution are a triple
      generated for that difficulty and the drawn `target`; the timer
      restarts and nothing is in conflict.
     */
    method NewGame(d: Option<Difficulty>, now: int, rng: nat -> nat, cursor: nat) returns (next: nat, ghost target: int)
      modifies this
      ensures Valid() && CluesIntact()
      ensures cursor <= next
      ensures difficulty == (if d.Some? then d.value else old(difficulty))
      ensures solution.Some? && KeepsDigits(cells, solution.value)
      ensures GeneratedFor(Generated(cells, fixed, solution.value), difficulty, target)
      ensures forall i :: 0 <= i < 81 ==> (fixed[i] <==> cells[i] != 0)
      ensures Consistent(cells) && errors == {}
      ensures Complete(solution.value) ==> Solved(solution.value) && CountFrom(cells, 2, 0) == 1
      ensures active == None && startAt == Some(now) && completedInMs == None && gameActive
    {
      var diff := if d.Some? then d.value else difficulty;
      var g;
      g, next, target := GeneratePuzzle(diff, rng, cursor);
      NoConflictsIffConsistent(g.puzzle);
      difficulty := diff;
      cells := g.puzzle;
      fixed := g.fixed;
      solution := Some(g.solution);
      errors := {};
      active := None;
      startAt := Some(now);
      completedInMs := None;
      gameActive := true;
    }

    /** `setActive(i)`: only the focus changes. */
    method SetActive(i: Option<int>)
      modifies this
      ensures active == i
      ensures cells == old(cells) && fixed == old(fixed) && errors == old(errors)
      ensures difficulty == old(difficulty) && startAt == old(startAt)
      ensures completedInMs == old(completedInMs) && solution == old(solution) && gameActive == old(gameActive)
    {
      active := i;
    }

    /**
      `inputDigit(i, v)` at time `now`: a clue is left alone; any other cell
      takes v (0 when the grid sends ""), the conflicts are recomputed, and the
      completion time is set when this input completes a conflict-free board
      of a started, not yet completed game; in every other case it is cleared,
      so blanking a cell always clears it.
     */
    method InputDigit(i: int, v: int, now: int)
      requires Valid() && IsCell(i) && 0 <= v <= 9
      modifies this
      ensures Valid()
      ensures old(CluesIntact()) ==> CluesIntact()
      ensures old(fixed[i]) ==> cells == old(cells) && errors == old(errors) && completedInMs == old(completedInMs)
      ensures !old(fixed[i]) ==> cells == old(cells)[i := v]
      ensures !old(fixed[i]) ==>
        completedInMs == if Complete(cells) && errors == {} && old(completedInMs).None? && old(startAt).Some?
          then Some(now - old(startAt).value) else None
      ensures !old(fixed[i]) && v == 0 ==> completedInMs == None
      ensures completedInMs.Some? && completedInMs != old(completedInMs) ==> Solved(cells)
      ensures fixed == old(fixed) && active == old(active) && difficulty == old(difficulty)
      ensures startAt == old(startAt) && solution == old(solution) && gameActive == old(gameActive)
    {
      if fixed[i] {
        return;
      }
      var next := cells[i := v];
      var bad := ComputeConflicts(next);
      var done: Option<int> := None;
      var filled := NoBlank(next);
      assert v == 0 ==> next[i] == 0 && !filled;
      if filled && |bad| == 0 && completedInMs.None? && startAt.Some? {
        done := Some(now - startAt.value);
        CompletionIsSolved(next);
      }
      cells := next;
      errors := bad;
      completedInMs := done;
    }

    /** `clearCell(i)`: the cell becomes blank (clue or not) and the conflicts are recomputed. */
    method ClearCell(i: int)
      requires Valid() && IsCell(i)
      modifies this
      ensures Valid()
      ensures !old(fixed[i]) && old(CluesIntact()) ==> CluesIntact()
      ensures cells == old(cells)[i := 0]
      ensures fixed == old(fixed) && active == old(active) && difficulty == old(difficulty)
      ensures startAt == old(startAt) && completedInMs == old(completedInMs)
      ensures solution == old(solution) && gameActive == old(gameActive)
    {
      var next := cells[i := 0];
      var bad := ComputeConflicts(next);
      cells := next;
      errors := bad;
    }

    /** `setDifficulty(d)`: only the stored preset changes. */
    method SetDifficulty(d: Difficulty)
      modifies this
      ensures difficulty == d
      ensures cells == old(cells) && fixed == old(fixed) && errors == old(errors) && active == old(active)
      ensures startAt == old(startAt) && completedInMs == old(completedInMs)
      ensures solution == old(solution) && gameActive == old(gameActive)
    {
      difficulty := d;
    }
  }

  /** `next.every((x) => x !== "")`, scanning the cells. */
  method NoBlank(b: seq<int>) returns (all: bool)
    ensures all <==> Complete(b)
  {
    for k := 0 to |b|
      invariant forall j :: 0 <= j < k ==> b[j] != 0
    {
      if b[k] == 0 {
        return false;
      }
    }
    return true;
  }

  /**
    The completion test is exact: a board of digits without blanks has no
    conflicts exactly when it is a solved grid.
   */
  lemma CompletionIsSolved(b: seq<int>)
    requires |b| == 81 && Digits(b)
    ensures Complete(b) && ConflictSet(b) == {} <==> Solved(b)
  {
    NoConflictsIffConsistent(b);
  }
}
