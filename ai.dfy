/**
  `nextAIMove`: one human-looking step towards the solution. The stages are
  tried in order: correct a wrong entry, a naked single, a hidden single in a
  row, then a column, then a box, and finally the most constrained open cell.
  Cells and digits are numbers here (0 for a blank); the move's digit is the
  number whose text the source returns.
 */
module AI {
  import opened Geometry
  import opened Board
  import opened Options
  import opened Buckets
  import opened Candidates
  import opened Score

  /** The heuristic behind a move. */
  datatype Reason = FixWrong | NakedSingle | HiddenSingleRow | HiddenSingleCol | HiddenSingleBox | MostConstrained

  /** One AI step: place `value` at cell `index`. */
  datatype Move = Move(index: int, value: int, reason: Reason)

  /** The three boards `nextAIMove` reads. */
  predicate WellSized(cells: seq<int>, fixed: seq<bool>, solution: seq<int>)
  {
    |cells| == 81 && |fixed| == 81 && |solution| == 81
  }

  /** A cell the player filled with a digit other than the solution's. */
  predicate Wrong(cells: seq<int>, fixed: seq<bool>, solution: seq<int>, i: int)
    requires WellSized(cells, fixed, solution) && IsCell(i)
  {
    !fixed[i] && cells[i] != 0 && cells[i] != solution[i]
  }

  /** A blank cell the player may fill: the cells the later stages consider. */
  predicate Open(cells: seq<int>, fixed: seq<bool>, i: int)
    requires |cells| == 81 && |fixed| == 81 && IsCell(i)
  {
    !fixed[i] && cells[i] == 0
  }

  /** The clue cells hold their solution digits. */
  predicate CluesAgree(cells: seq<int>, fixed: seq<bool>, solution: seq<int>)
    requires WellSized(cells, fixed, solution)
  {
    forall i :: 0 <= i < 81 && fixed[i] ==> cells[i] == solution[i]
  }

  // ---------------------------------------------------------------------------
  // Stage 0: fix wrong entries

  /** The first wrong entry, scanning the cells in order. */
  method FindWrong(cells: seq<int>, fixed: seq<bool>, solution: seq<int>) returns (r: Option<int>)
    requires WellSized(cells, fixed, solution)
    ensures r.None? <==> forall k :: 0 <= k < 81 ==> !Wrong(cells, fixed, solution, k)
    ensures r.Some? ==> IsCell(r.value) && Wrong(cells, fixed, solution, r.value)
    ensures r.Some? ==> forall k :: 0 <= k < r.value ==> !Wrong(cells, fixed, solution, k)
  {
    for i := 0 to 81
      invariant forall k :: 0 <= k < i ==> !Wrong(cells, fixed, solution, k)
    {
      if fixed[i] {
        continue;
      }
      if cells[i] != 0 && cells[i] != solution[i] {
        assert Wrong(cells, fixed, solution, i);
        return Some(i);
      }
    }
    return None;
  }

  // ---------------------------------------------------------------------------
  // Stage 1: naked singles

  /** `[...s][0]` for a candidate set: its least element, since digits are added in increasing order. */
  method SmallestCandidate(s: set<int>) returns (d: int)
    requires s != {} && forall e :: e in s ==> 1 <= e <= 9
    ensures d in s && forall e :: e in s ==> d <= e
  {
    d := 1;
    while d !in s
      invariant 1 <= d <= 9 && forall e :: e in s ==> d <= e
      decreases 9 - d
    {
      d := d + 1;
    }
  }

  /** A set of one element is that element's singleton. */
  lemma Singleton(s: set<int>, x: int)
    requires |s| == 1 && x in s
    ensures s == {x}
  {
    forall y | y in s ensures y == x {
      if y != x {
        SubsetCard({x, y}, s);
      }
    }
  }

  /** No open cell has exactly one candidate. */
  predicate NoNakedSingle(cells: seq<int>, fixed: seq<bool>)
    requires |cells| == 81 && |fixed| == 81
  {
    forall k :: 0 <= k < 81 && Open(cells, fixed, k) ==> |CandidateSet(cells, k)| != 1
  }

  /** The first open cell with exactly one candidate, with that candidate. */
  method FindNakedSingle(cells: seq<int>, fixed: seq<bool>, cand: seq<set<int>>) returns (r: Option<(int, int)>)
    requires |cells| == 81 && |fixed| == 81
    requires |cand| == 81 && forall k :: 0 <= k < 81 ==> cand[k] == CandidateSet(cells, k)
    ensures r.None? <==> NoNakedSingle(cells, fixed)
    ensures r.Some? ==> var (i, v) := r.value;
      && IsCell(i) && Open(cells, fixed, i) && CandidateSet(cells, i) == {v}
      && forall k :: 0 <= k < i && Open(cells, fixed, k) ==> |CandidateSet(cells, k)| != 1
  {
    for i := 0 to 81
      invariant forall k :: 0 <= k < i && Open(cells, fixed, k) ==> |CandidateSet(cells, k)| != 1
    {
      if fixed[i] {
        continue;
      }
      if cells[i] == 0 && |cand[i]| == 1 {
        var only := SmallestCandidate(cand[i]);
        Singleton(cand[i], only);
        return Some((i, only));
      }
    }
    return None;
  }

  // ---------------------------------------------------------------------------
  // Stages 2-4: hidden singles

  /** The open cells of the unit list g that have v as a candidate, in list order. */
  function Holders(cells: seq<int>, fixed: seq<bool>, g: seq<int>, v: int): (hs: seq<int>)
    requires |cells| == 81 && |fixed| == 81 && forall k :: 0 <= k < |g| ==> IsCell(g[k])
    ensures forall x :: x in hs <==> x in g && IsCell(x) && Open(cells, fixed, x) && v in CandidateSet(cells, x)
  {
    if g == [] then []
    else
      var n := |g| - 1;
      Holders(cells, fixed, g[..n], v)
      + (if Open(cells, fixed, g[n]) && v in CandidateSet(cells, g[n]) then [g[n]] else [])
  }

  /** The cells of a unit are cells, for indexing. */
  lemma UnitCells(t: int)
    requires 0 <= t < 27
    ensures |Unit(t)| == 9 && forall k :: 0 <= k < 9 ==> IsCell(Unit(t)[k])
  {
    UnitWellFormed(t);
    forall k | 0 <= k < 9 ensures IsCell(Unit(t)[k]) {
      assert Unit(t)[k] in Unit(t);
    }
  }

  /** The holders of v in unit t (rows 0..8, columns 9..17, boxes 18..26). */
  function UnitHolders(cells: seq<int>, fixed: seq<bool>, t: int, v: int): (hs: seq<int>)
    requires |cells| == 81 && |fixed| == 81 && 0 <= t < 27
    ensures forall x :: x in hs <==> x in Unit(t) && IsCell(x) && Open(cells, fixed, x) && v in CandidateSet(cells, x)
  {
    UnitCells(t);
    Holders(cells, fixed, Unit(t), v)
  }

  /** In unit t, v is a candidate of exactly one open cell, i. */
  predicate HiddenSingle(cells: seq<int>, fixed: seq<bool>, t: int, i: int, v: int)
    requires |cells| == 81 && |fixed| == 81 && 0 <= t < 27
  {
    UnitHolders(cells, fixed, t, v) == [i]
  }

  /** No digit is a candidate of exactly one open cell in any of the units lo..hi-1. */
  ghost predicate NoHiddenSingle(cells: seq<int>, fixed: seq<bool>, lo: int, hi: int)
    requires |cells| == 81 && |fixed| == 81 && 0 <= lo <= hi <= 27
  {
    forall t :: lo <= t < hi ==> NoHiddenSingleIn(cells, fixed, t)
  }

  /**
    (i, v) is a hidden single of the first unit in lo..hi-1 that has one: the
    units before it have none.
   */
  ghost predicate FirstHiddenSingle(cells: seq<int>, fixed: seq<bool>, lo: int, hi: int, i: int, v: int)
    requires |cells| == 81 && |fixed| == 81 && 0 <= lo <= hi <= 27
  {
    exists t :: lo <= t < hi && NoHiddenSingle(cells, fixed, lo, t) && HiddenSingle(cells, fixed, t, i, v)
  }

  /** No digit is a candidate of exactly one open cell in unit t. */
  ghost predicate NoHiddenSingleIn(cells: seq<int>, fixed: seq<bool>, t: int)
    requires |cells| == 81 && |fixed| == 81 && 0 <= t < 27
  {
    forall v :: |UnitHolders(cells, fixed, t, v)| != 1
  }

  /** `for (const v of cand[i])`: push cell i onto the list of each of its candidates, in increasing order. */
  method AddCandidates(where: Buckets, s: set<int>, i: int) returns (where': Buckets)
    requires KeysDistinct(where) && ListsNonEmpty(where)
    requires forall e :: e in s ==> 1 <= e <= 9
    ensures KeysDistinct(where') && ListsNonEmpty(where')
    ensures forall v :: Get(where', v) == Get(where, v) + (if v in s then [i] else [])
  {
    where' := where;
    for d := 1 to 10
      invariant KeysDistinct(where') && ListsNonEmpty(where')
      invariant forall v :: Get(where', v) == Get(where, v) + (if v < d && v in s then [i] else [])
    {
      if d in s {
        PushKeeps(where', d, i);
        forall w ensures Get(Push(where', d, i), w) == if w == d then Get(where', w) + [i] else Get(where', w) {
          PushGet(where', d, i, w);
        }
        where' := Push(where', d, i);
      }
    }
  }

  /** In insertion order, the first entry whose list has one cell is v's, and that cell is i. */
  ghost predicate FirstSingleEntry(where: Buckets, v: int, i: int)
  {
    exists e :: 0 <= e < |where| && where[e] == (v, [i]) && forall p :: 0 <= p < e ==> |where[p].1| != 1
  }

  /** The first entry of the map whose list holds exactly one cell. */
  method FirstSingle(where: Buckets) returns (r: Option<(int, int)>)
    requires KeysDistinct(where)
    ensures r.Some? ==> Get(where, r.value.1) == [r.value.0]
    ensures r.Some? ==> FirstSingleEntry(where, r.value.1, r.value.0)
    ensures r.None? ==> forall v :: |Get(where, v)| != 1
  {
    for e := 0 to |where|
      invariant forall p :: 0 <= p < e ==> |where[p].1| != 1
    {
      var (v, pos) := where[e];
      if |pos| == 1 {
        GetEntry(where, e);
        return Some((pos[0], v));
      }
    }
    forall v ensures |Get(where, v)| != 1 {
      if Get(where, v) != [] {
        GetFound(where, v);
      }
    }
    return None;
  }

  /**
    The scan of one unit: `where` maps each candidate digit to the open cells
    of the unit that have it; the first entry whose list has one cell wins.
   */
  method ScanUnit(cells: seq<int>, fixed: seq<bool>, cand: seq<set<int>>, t: int)
    returns (r: Option<(int, int)>)
    requires |cells| == 81 && |fixed| == 81 && 0 <= t < 27
    requires |cand| == 81 && forall k :: 0 <= k < 81 ==> cand[k] == CandidateSet(cells, k)
    ensures r.Some? ==> HiddenSingle(cells, fixed, t, r.value.0, r.value.1)
    ensures r.None? ==> NoHiddenSingleIn(cells, fixed, t)
  {
    var unit := Unit(t);
    UnitCells(t);
    var where: Buckets := [];
    for n := 0 to |unit|
      invariant Listed(cells, fixed, unit, n, where)
    {
      var i := unit[n];
      if fixed[i] || cells[i] != 0 {
        ListedStep(cells, fixed, unit, n, where, where);
        continue;
      }
      var where' := AddCandidates(where, cand[i], i);
      ListedStep(cells, fixed, unit, n, where, where');
      where := where';
    }
    assert unit[..|unit|] == unit;
    r := FirstSingle(where);
  }

  /** The map lists, for every digit, its holders among the first n cells of the unit. */
  ghost predicate Listed(cells: seq<int>, fixed: seq<bool>, unit: seq<int>, n: int, where: Buckets)
    requires |cells| == 81 && |fixed| == 81 && 0 <= n <= |unit|
    requires forall k :: 0 <= k < |unit| ==> IsCell(unit[k])
  {
    && KeysDistinct(where) && ListsNonEmpty(where)
    && forall v :: Get(where, v) == Holders(cells, fixed, unit[..n], v)
  }

  /** One more cell of the unit: an open cell joins the lists of its candidates, any other cell changes nothing. */
  lemma ListedStep(cells: seq<int>, fixed: seq<bool>, unit: seq<int>, n: int, where: Buckets, where': Buckets)
    requires |cells| == 81 && |fixed| == 81 && 0 <= n < |unit|
    requires forall k :: 0 <= k < |unit| ==> IsCell(unit[k])
    requires Listed(cells, fixed, unit, n, where)
    requires KeysDistinct(where') && ListsNonEmpty(where')
    requires !Open(cells, fixed, unit[n]) ==> where' == where
    requires Open(cells, fixed, unit[n]) ==>
      forall v :: Get(where', v) == Get(where, v) + (if v in CandidateSet(cells, unit[n]) then [unit[n]] else [])
    ensures Listed(cells, fixed, unit, n + 1, where')
  {
    assert unit[..n + 1][..n] == unit[..n];
  }

  /**
    The hidden-single stage over the nine units lo..lo+8 (rows from 0,
    columns from 9, boxes from 18), unit by unit.
   */
  method ScanUnits(cells: seq<int>, fixed: seq<bool>, cand: seq<set<int>>, lo: int)
    returns (r: Option<(int, int)>)
    requires |cells| == 81 && |fixed| == 81 && (lo == 0 || lo == 9 || lo == 18)
    requires |cand| == 81 && forall k :: 0 <= k < 81 ==> cand[k] == CandidateSet(cells, k)
    ensures r.Some? ==> FirstHiddenSingle(cells, fixed, lo, lo + 9, r.value.0, r.value.1)
    ensures r.None? ==> NoHiddenSingle(cells, fixed, lo, lo + 9)
  {
    for u := 0 to 9
      invariant NoHiddenSingle(cells, fixed, lo, lo + u)
    {
      var found := ScanUnit(cells, fixed, cand, lo + u);
      if found.Some? {
        FirstHiddenAt(cells, fixed, lo, lo + 9, lo + u, found.value.0, found.value.1);
        return found;
      }
      NoHiddenSingleStep(cells, fixed, lo, lo + u);
    }
    return None;
  }

  /** A hidden single of unit t, with none in the units lo..t-1 before it, is the first one of lo..hi-1. */
  lemma FirstHiddenAt(cells: seq<int>, fixed: seq<bool>, lo: int, hi: int, t: int, i: int, v: int)
    requires |cells| == 81 && |fixed| == 81 && 0 <= lo <= t < hi <= 27
    requires NoHiddenSingle(cells, fixed, lo, t) && HiddenSingle(cells, fixed, t, i, v)
    ensures FirstHiddenSingle(cells, fixed, lo, hi, i, v)
  {
  }

  /** A unit without a hidden single extends the range of units without one. */
  lemma NoHiddenSingleStep(cells: seq<int>, fixed: seq<bool>, lo: int, t: int)
    requires |cells| == 81 && |fixed| == 81 && 0 <= lo <= t < 27
    requires NoHiddenSingle(cells, fixed, lo, t) && NoHiddenSingleIn(cells, fixed, t)
    ensures NoHiddenSingle(cells, fixed, lo, t + 1)
  {
  }

  /** A hidden single's cell is an open cell and its digit one of the cell's candidates. */
  lemma HiddenSingleCell(cells: seq<int>, fixed: seq<bool>, t: int, i: int, v: int)
    requires |cells| == 81 && |fixed| == 81 && 0 <= t < 27 && HiddenSingle(cells, fixed, t, i, v)
    ensures IsCell(i) && i in Unit(t) && Open(cells, fixed, i) && v in CandidateSet(cells, i)
  {
    assert i in UnitHolders(cells, fixed, t, v);
  }

  // ---------------------------------------------------------------------------
  // Stage 5: most constrained cell

  /** The rank the search gives cell k: its score when open, -1 otherwise. */
  ghost function Priority(cells: seq<int>, fixed: seq<bool>, k: int): (p: int)
    requires |cells| == 81 && |fixed| == 81 && IsCell(k)
    ensures p >= -1 && (p == -1 <==> !Open(cells, fixed, k))
  {
    if Open(cells, fixed, k) then ScoreOf(cells, k) else -1
  }

  /** The first open cell of highest `constraintScore`, or -1 when no cell is open. */
  method MostConstrainedCell(cells: seq<int>, fixed: seq<bool>) returns (best: int)
    requires |cells| == 81 && |fixed| == 81
    ensures best == -1 <==> forall k :: 0 <= k < 81 ==> !Open(cells, fixed, k)
    ensures best != -1 ==> IsCell(best) && Open(cells, fixed, best)
    ensures best != -1 ==> forall k :: 0 <= k < 81 && Open(cells, fixed, k) ==> ScoreOf(cells, k) <= ScoreOf(cells, best)
    ensures best != -1 ==> forall k :: 0 <= k < best && Open(cells, fixed, k) ==> ScoreOf(cells, k) < ScoreOf(cells, best)
  {
    best := -1;
    var score := -1;
    ghost var ranks: seq<int> := [];
    for i := 0 to 81
      invariant |ranks| == i && Ranked(cells, fixed, ranks)
      invariant FirstMax(ranks, best, score)
    {
      if fixed[i] || cells[i] != 0 {
        RankedStep(cells, fixed, ranks, -1);
        FirstMaxStep(ranks, best, score, -1);
        ranks := ranks + [-1];
        continue;
      }
      var s := ConstraintScore(cells, i);
      RankedStep(cells, fixed, ranks, s);
      FirstMaxStep(ranks, best, score, s);
      ranks := ranks + [s];
      if s > score {
        score := s;
        best := i;
      }
    }
    FirstMaxIsBest(cells, fixed, ranks, best, score);
  }

  /**
    best is the first position of the maximum score of ranks, or -1 with
    score -1 when every rank is -1.
   */
  predicate FirstMax(ranks: seq<int>, best: int, score: int)
  {
    && (forall k :: 0 <= k < |ranks| ==> ranks[k] <= score)
    && (best == -1 ==> score == -1)
    && (best != -1 ==> 0 <= best < |ranks| && ranks[best] == score >= 0
                       && forall k :: 0 <= k < best ==> ranks[k] < score)
  }

  /** ranks lists the Priority of the first |ranks| cells. */
  ghost predicate Ranked(cells: seq<int>, fixed: seq<bool>, ranks: seq<int>)
    requires |cells| == 81 && |fixed| == 81
  {
    |ranks| <= 81 && forall k :: 0 <= k < |ranks| ==> ranks[k] == Priority(cells, fixed, k)
  }

  /** The rank of the next cell extends the list. */
  lemma RankedStep(cells: seq<int>, fixed: seq<bool>, ranks: seq<int>, r: int)
    requires |cells| == 81 && |fixed| == 81 && Ranked(cells, fixed, ranks) && |ranks| < 81
    requires if Open(cells, fixed, |ranks|) then r == ScoreOf(cells, |ranks|) else r == -1
    ensures Ranked(cells, fixed, ranks + [r]) && r >= -1
  {
    assert r == Priority(cells, fixed, |ranks|);
    assert forall k :: 0 <= k < |ranks| ==> (ranks + [r])[k] == ranks[k];
  }

  /** One more rank r: the first maximum moves to it exactly when r beats the maximum so far. */
  lemma FirstMaxStep(ranks: seq<int>, best: int, score: int, r: int)
    requires FirstMax(ranks, best, score) && r >= -1
    ensures if r > score then FirstMax(ranks + [r], |ranks|, r) else FirstMax(ranks + [r], best, score)
  {
    assert forall k :: 0 <= k < |ranks| ==> (ranks + [r])[k] == ranks[k];
  }

  /** The first maximum of the ranks is the first open cell of highest score. */
  lemma FirstMaxIsBest(cells: seq<int>, fixed: seq<bool>, ranks: seq<int>, best: int, score: int)
    requires |cells| == 81 && |fixed| == 81 && |ranks| == 81
    requires Ranked(cells, fixed, ranks) && FirstMax(ranks, best, score)
    ensures best == -1 <==> forall k :: 0 <= k < 81 ==> !Open(cells, fixed, k)
    ensures best != -1 ==> IsCell(best) && Open(cells, fixed, best)
    ensures best != -1 ==> forall k :: 0 <= k < 81 && Open(cells, fixed, k) ==> ScoreOf(cells, k) <= ScoreOf(cells, best)
    ensures best != -1 ==> forall k :: 0 <= k < best && Open(cells, fixed, k) ==> ScoreOf(cells, k) < ScoreOf(cells, best)
  {
    if best == -1 {
      forall k | 0 <= k < 81 ensures !Open(cells, fixed, k) {
        assert ranks[k] <= -1;
      }
    } else {
      assert ranks[best] == Priority(cells, fixed, best) == ScoreOf(cells, best);
      forall k | 0 <= k < 81 && Open(cells, fixed, k) ensures ScoreOf(cells, k) <= ScoreOf(cells, best) {
        assert ranks[k] == Priority(cells, fixed, k) == ScoreOf(cells, k);
      }
      forall k | 0 <= k < best && Open(cells, fixed, k) ensures ScoreOf(cells, k) < ScoreOf(cells, best) {
        assert ranks[k] == Priority(cells, fixed, k) == ScoreOf(cells, k);
      }
    }
  }

  // ---------------------------------------------------------------------------
  // nextAIMove

  /**
    What the stage named by a move's reason establishes about it. A fix is the
    first wrong entry, corrected. Every other move targets an open cell, once
    no entry is wrong, and comes from the first stage that applies: the first
    naked single; a hidden single of the first unit that has one, after no
    naked single (and, for columns and boxes, no hidden single in the units
    scanned before); or, after none of those, the solution digit at the first
    open cell of highest score.
   */
  ghost predicate Justified(cells: seq<int>, fixed: seq<bool>, solution: seq<int>, m: Move)
    requires WellSized(cells, fixed, solution)
  {
    && IsCell(m.index) && !fixed[m.index]
    && (m.reason != FixWrong ==> Open(cells, fixed, m.index) && forall k :: 0 <= k < 81 ==> !Wrong(cells, fixed, solution, k))
    && match m.reason
      case FixWrong =>
        && Wrong(cells, fixed, solution, m.index) && m.value == solution[m.index]
        && forall k :: 0 <= k < m.index ==> !Wrong(cells, fixed, solution, k)
      case NakedSingle =>
        && CandidateSet(cells, m.index) == {m.value}
        && forall k :: 0 <= k < m.index && Open(cells, fixed, k) ==> |CandidateSet(cells, k)| != 1
      case HiddenSingleRow =>
        NoNakedSingle(cells, fixed) && FirstHiddenSingle(cells, fixed, 0, 9, m.index, m.value)
      case HiddenSingleCol =>
        && NoNakedSingle(cells, fixed) && NoHiddenSingle(cells, fixed, 0, 9)
        && FirstHiddenSingle(cells, fixed, 9, 18, m.index, m.value)
      case HiddenSingleBox =>
        && NoNakedSingle(cells, fixed) && NoHiddenSingle(cells, fixed, 0, 18)
        && FirstHiddenSingle(cells, fixed, 18, 27, m.index, m.value)
      case MostConstrained =>
        && NoNakedSingle(cells, fixed) && NoHiddenSingle(cells, fixed, 0, 27)
        && m.value == solution[m.index]
        && (forall k :: 0 <= k < 81 && Open(cells, fixed, k) ==> ScoreOf(cells, k) <= ScoreOf(cells, m.index))
        && forall k :: 0 <= k < m.index && Open(cells, fixed, k) ==> ScoreOf(cells, k) < ScoreOf(cells, m.index)
  }

  /**
    `nextAIMove(cells, fixed, solution)`: null exactly when every non-clue cell
    already holds its solution digit; otherwise a move from the first stage
    that applies. When the solution is a solved grid that the clues agree with,
    the move always places the solution digit on a cell that does not hold it
    yet.
   */
  method NextAIMove(cells: seq<int>, fixed: seq<bool>, solution: seq<int>) returns (m: Option<Move>)
    requires WellSized(cells, fixed, solution)
    ensures m.None? <==> forall i :: 0 <= i < 81 && !fixed[i] ==> cells[i] != 0 && cells[i] == solution[i]
    ensures m.Some? ==> Justified(cells, fixed, solution, m.value)
    ensures m.Some? && Solved(solution) && CluesAgree(cells, fixed, solution) ==>
      m.value.value == solution[m.value.index] && cells[m.value.index] != solution[m.value.index]
  {
    var wrong := FindWrong(cells, fixed, solution);
    if wrong.Some? {
      var i := wrong.value;
      m := Some(Move(i, solution[i], FixWrong));
      assert Justified(cells, fixed, solution, m.value);
      return;
    }
    m := Deduce(cells, fixed, solution);
    if m.None? {
      forall k | 0 <= k < 81 && !fixed[k] ensures cells[k] != 0 && cells[k] == solution[k] {
        assert !Open(cells, fixed, k) && !Wrong(cells, fixed, solution, k);
      }
    } else if Solved(solution) && CluesAgree(cells, fixed, solution) {
      assert 1 <= solution[m.value.index] <= 9;
    }
  }

  /**
    The stages of `nextAIMove` after the check for wrong entries: naked single,
    hidden single in rows, columns and boxes, then the most constrained cell.
   */
  method Deduce(cells: seq<int>, fixed: seq<bool>, solution: seq<int>) returns (m: Option<Move>)
    requires WellSized(cells, fixed, solution)
    requires forall k :: 0 <= k < 81 ==> !Wrong(cells, fixed, solution, k)
    ensures m.None? <==> forall k :: 0 <= k < 81 ==> !Open(cells, fixed, k)
    ensures m.Some? ==> m.value.reason != FixWrong && Justified(cells, fixed, solution, m.value)
    ensures m.Some? && Solved(solution) && CluesAgree(cells, fixed, solution) ==> m.value.value == solution[m.value.index]
  {
    var cand := ComputeCandidates(cells);

    var naked := FindNakedSingle(cells, fixed, cand);
    if naked.Some? {
      var (i, v) := naked.value;
      if Solved(solution) && CluesAgree(cells, fixed, solution) {
        NoWrongKeepsDigits(cells, fixed, solution);
        NakedSingleIsSolution(cells, solution, i, v);
      }
      m := Some(Move(i, v, NakedSingle));
      assert Justified(cells, fixed, solution, m.value);
      return;
    }

    var inRow := ScanUnits(cells, fixed, cand, 0);
    if inRow.Some? {
      var (i, v) := inRow.value;
      HiddenMove(cells, fixed, solution, 0, i, v);
      m := Some(Move(i, v, HiddenSingleRow));
      assert Justified(cells, fixed, solution, m.value);
      return;
    }
    var inCol := ScanUnits(cells, fixed, cand, 9);
    if inCol.Some? {
      var (i, v) := inCol.value;
      HiddenMove(cells, fixed, solution, 9, i, v);
      m := Some(Move(i, v, HiddenSingleCol));
      assert Justified(cells, fixed, solution, m.value);
      return;
    }
    var inBox := ScanUnits(cells, fixed, cand, 18);
    if inBox.Some? {
      var (i, v) := inBox.value;
      HiddenMove(cells, fixed, solution, 18, i, v);
      m := Some(Move(i, v, HiddenSingleBox));
      assert Justified(cells, fixed, solution, m.value);
      return;
    }
    assert NoHiddenSingle(cells, fixed, 0, 27);

    var best := MostConstrainedCell(cells, fixed);
    if best != -1 {
      m := Some(Move(best, solution[best], MostConstrained));
      assert Justified(cells, fixed, solution, m.value);
      return;
    }
    return None;
  }

  /** What a hidden single found in units lo..lo+8 gives the move built from it. */
  lemma HiddenMove(cells: seq<int>, fixed: seq<bool>, solution: seq<int>, lo: int, i: int, v: int)
    requires WellSized(cells, fixed, solution) && (lo == 0 || lo == 9 || lo == 18)
    requires FirstHiddenSingle(cells, fixed, lo, lo + 9, i, v)
    requires forall k :: 0 <= k < 81 ==> !Wrong(cells, fixed, solution, k)
    ensures IsCell(i) && Open(cells, fixed, i)
    ensures Solved(solution) && CluesAgree(cells, fixed, solution) ==> v == solution[i]
  {
    var t :| lo <= t < lo + 9 && NoHiddenSingle(cells, fixed, lo, t) && HiddenSingle(cells, fixed, t, i, v);
    HiddenSingleCell(cells, fixed, t, i, v);
    if Solved(solution) && CluesAgree(cells, fixed, solution) {
      NoWrongKeepsDigits(cells, fixed, solution);
      HiddenSingleIsSolution(cells, fixed, solution, t, i, v);
    }
  }

  // ---------------------------------------------------------------------------
  // Why the moves are right

  /** With the clues agreeing and no wrong entry, every filled cell holds its solution digit. */
  lemma NoWrongKeepsDigits(cells: seq<int>, fixed: seq<bool>, solution: seq<int>)
    requires WellSized(cells, fixed, solution) && CluesAgree(cells, fixed, solution)
    requires forall k :: 0 <= k < 81 ==> !Wrong(cells, fixed, solution, k)
    ensures KeepsDigits(cells, solution)
  {
    forall k | 0 <= k < 81 && cells[k] != 0 ensures solution[k] == cells[k] {
      assert !Wrong(cells, fixed, solution, k);
    }
  }

  /** A naked single's only candidate is the solution digit. */
  lemma NakedSingleIsSolution(cells: seq<int>, solution: seq<int>, i: int, v: int)
    requires |cells| == 81 && Solved(solution) && KeepsDigits(cells, solution)
    requires IsCell(i) && cells[i] == 0 && CandidateSet(cells, i) == {v}
    ensures v == solution[i]
  {
    SolutionIsCandidate(cells, solution, i);
  }

  /** A candidate of a cell is held by none of its peers. */
  lemma CandidateNotOnPeer(cells: seq<int>, i: int, j: int, v: int)
    requires |cells| == 81 && IsCell(i) && IsCell(j) && v in CandidateSet(cells, i)
    ensures IsPeer(i, j) ==> cells[j] != v
  {
  }

  /**
    A hidden single's digit is the solution digit: the solution places it at
    some cell j of the unit; j cannot hold it already (it is a candidate of a
    peer), so j is open with it as a candidate, and i is the only such cell.
   */
  lemma HiddenSingleIsSolution(cells: seq<int>, fixed: seq<bool>, solution: seq<int>, t: int, i: int, v: int)
    requires WellSized(cells, fixed, solution) && Solved(solution) && CluesAgree(cells, fixed, solution)
    requires KeepsDigits(cells, solution)
    requires 0 <= t < 27 && HiddenSingle(cells, fixed, t, i, v)
    ensures IsCell(i) && v == solution[i]
  {
    HiddenSingleCell(cells, fixed, t, i, v);
    UnitCells(t);
    SolvedUnit(solution, t);
    Perm19Covers(Values(solution, Unit(t)), v);
    var p :| 0 <= p < 9 && Values(solution, Unit(t))[p] == v;
    var j := Unit(t)[p];
    assert j in Unit(t) && solution[j] == v;
    InCommonUnit(t, i, j);
    CandidateNotOnPeer(cells, i, j, v);
    assert cells[j] == 0;
    assert Open(cells, fixed, j);
    SolutionIsCandidate(cells, solution, j);
    assert j in UnitHolders(cells, fixed, t, v);
  }

  // ---------------------------------------------------------------------------
  // Repeated moves reach the solution

  /** Number of cells where the board differs from the solution. */
  function Mismatches(cells: seq<int>, solution: seq<int>): (n: nat)
    requires |cells| == |solution|
    ensures n <= |cells|
    ensures n == 0 <==> cells == solution
  {
    if cells == [] then 0
    else
      var k := |cells| - 1;
      Mismatches(cells[..k], solution[..k]) + (if cells[k] != solution[k] then 1 else 0)
  }

  /** Writing the solution digit into a differing cell removes exactly one mismatch. */
  lemma {:induction false} MoveRemovesMismatch(cells: seq<int>, solution: seq<int>, i: int)
    requires |cells| == |solution| && 0 <= i < |cells| && cells[i] != solution[i]
    ensures Mismatches(cells[i := solution[i]], solution) == Mismatches(cells, solution) - 1
  {
    var k := |cells| - 1;
    var c' := cells[i := solution[i]];
    if i == k {
      assert c'[..k] == cells[..k];
    } else {
      assert c'[..k] == cells[..k][i := solution[i]];
      MoveRemovesMismatch(cells[..k], solution[..k], i);
    }
  }

  /**
    With clues that agree with a solved grid, `nextAIMove` has no move exactly
    when the board is the solution; every move it makes keeps the clues
    agreeing and removes one mismatch, so applying its moves one after another
    reaches the solution after `Mismatches` steps.
   */
  lemma NoMoveIffSolution(cells: seq<int>, fixed: seq<bool>, solution: seq<int>)
    requires WellSized(cells, fixed, solution) && Solved(solution) && CluesAgree(cells, fixed, solution)
    ensures (forall k :: 0 <= k < 81 && !fixed[k] ==> cells[k] != 0 && cells[k] == solution[k])
      <==> cells == solution
  {
    if forall k :: 0 <= k < 81 && !fixed[k] ==> cells[k] != 0 && cells[k] == solution[k] {
      assert forall k :: 0 <= k < 81 ==> cells[k] == solution[k];
    }
  }

  /** Applying a move that places the solution digit on a non-clue cell that lacks it. */
  lemma MoveProgress(cells: seq<int>, fixed: seq<bool>, solution: seq<int>, i: int)
    requires WellSized(cells, fixed, solution) && CluesAgree(cells, fixed, solution)
    requires IsCell(i) && !fixed[i] && cells[i] != solution[i]
    ensures CluesAgree(cells[i := solution[i]], fixed, solution)
    ensures Mismatches(cells[i := solution[i]], solution) == Mismatches(cells, solution) - 1
  {
    MoveRemovesMismatch(cells, solution, i);
  }
}
