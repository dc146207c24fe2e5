/**
  What the game hook derives from the store for the screen: the digit
  counts of the number pad, arrow-key movement between cells, and the
  timer's text.
 */
module View {
  import opened Geometry
  import opened Board
  import opened Decimal

  // ---------------------------------------------------------------------------
  // counts

  /** `counts`: one pass over the cells, bumping the counter of each non-blank digit. */
  method Counts(cells: seq<int>) returns (counts: seq<int>)
    requires Digits(cells)
    ensures |counts| == 10 && counts[0] == 0
    ensures forall d :: 1 <= d <= 9 ==> counts[d] == Occurrences(cells, d)
  {
    var tally := new int[10](_ => 0);
    for k := 0 to |cells|
      invariant tally[0] == 0
      invariant forall d :: 1 <= d <= 9 ==> tally[d] == Occurrences(cells[..k], d)
    {
      assert cells[..k + 1][..k] == cells[..k];
      var v := cells[k];
      if v != 0 {
        tally[v] := tally[v] + 1;
      }
    }
    assert cells[..|cells|] == cells;
    counts := tally[..];
  }

  /** counts[d] + counts[d + 1] + ... + counts[9]. */
  function SumFrom(counts: seq<int>, d: nat): int
    decreases |counts| - d
  {
    if d >= |counts| then 0 else counts[d] + SumFrom(counts, d + 1)
  }

  /** Occurrences of the digits d..9 in xs. */
  function DigitsFrom(xs: seq<int>, d: nat): nat
    decreases 10 - d
  {
    if d > 9 then 0 else Occurrences(xs, d) + DigitsFrom(xs, d + 1)
  }

  /** One more element x adds one to the count of the digits d..9 exactly when x is among them. */
  lemma {:induction false} DigitsFromSnoc(xs: seq<int>, x: int, d: nat)
    ensures DigitsFrom(xs + [x], d) == DigitsFrom(xs, d) + (if d <= x <= 9 then 1 else 0)
    decreases 10 - d
  {
    assert (xs + [x])[..|xs|] == xs;
    if d <= 9 {
      DigitsFromSnoc(xs, x, d + 1);
    }
  }

  /** On a board of digits, the occurrences of 1..9 add up to the non-blank cells. */
  lemma {:induction false} DigitsAddUp(xs: seq<int>)
    requires Digits(xs)
    ensures DigitsFrom(xs, 1) == |xs| - Occurrences(xs, 0)
  {
    if xs != [] {
      var n := |xs| - 1;
      assert xs == xs[..n] + [xs[n]];
      DigitsAddUp(xs[..n]);
      DigitsFromSnoc(xs[..n], xs[n], 1);
    }
  }

  /** The counters from d on add up to the occurrences of the digits d..9. */
  lemma {:induction false} SumIsDigits(cells: seq<int>, counts: seq<int>, d: nat)
    requires 1 <= d <= 10 && |counts| == 10
    requires forall e :: 1 <= e <= 9 ==> counts[e] == Occurrences(cells, e)
    ensures SumFrom(counts, d) == DigitsFrom(cells, d)
    decreases 10 - d
  {
    if d <= 9 {
      SumIsDigits(cells, counts, d + 1);
    }
  }

  /** counts[1..9] add up to the number of filled cells, so at most 81 on a board. */
  lemma CountsSum(cells: seq<int>, counts: seq<int>)
    requires Digits(cells) && |counts| == 10
    requires forall d :: 1 <= d <= 9 ==> counts[d] == Occurrences(cells, d)
    ensures SumFrom(counts, 1) == |cells| - Occurrences(cells, 0) <= |cells|
  {
    SumIsDigits(cells, counts, 1);
    DigitsAddUp(cells);
  }

  // ---------------------------------------------------------------------------
  // moveIndex

  datatype Direction = Up | Down | Left | Right

  /** `moveIndex(i, dir)`: one step in dir, staying on the board at its edges. */
  function MoveIndex(i: int, dir: Direction): (j: int)
    requires IsCell(i)
    ensures IsCell(j)
    ensures dir.Up? || dir.Down? ==> ColId(j) == ColId(i)
    ensures dir.Left? || dir.Right? ==> RowId(j) == RowId(i)
    ensures dir.Up? ==> RowId(j) == if RowId(i) == 0 then 0 else RowId(i) - 1
    ensures dir.Down? ==> RowId(j) == if RowId(i) == 8 then 8 else RowId(i) + 1
    ensures dir.Left? ==> ColId(j) == if ColId(i) == 0 then 0 else ColId(i) - 1
    ensures dir.Right? ==> ColId(j) == if ColId(i) == 8 then 8 else ColId(i) + 1
  {
    var r, c := i / 9, i % 9;
    var nr := match dir
      case Up => Max(0, r - 1)
      case Down => Min(8, r + 1)
      case _ => r;
    var nc := match dir
      case Left => Max(0, c - 1)
      case Right => Min(8, c + 1)
      case _ => c;
    nr * 9 + nc
  }

  function Max(a: int, b: int): int { if a >= b then a else b }

  function Min(a: int, b: int): int { if a <= b then a else b }

  /** At the edge it moves towards, the cursor stays where it is. */
  lemma MoveAtEdge(i: int, dir: Direction)
    requires IsCell(i)
    requires match dir
      case Up => RowId(i) == 0
      case Down => RowId(i) == 8
      case Left => ColId(i) == 0
      case Right => ColId(i) == 8
    ensures MoveIndex(i, dir) == i
  {
    var j := MoveIndex(i, dir);
    CellAtCoordinates(RowId(j), ColId(j));
    CellAtCoordinates(RowId(i), ColId(i));
  }

  /** Away from the edge, the opposite step undoes a step. */
  lemma MoveBack(i: int, dir: Direction)
    requires IsCell(i)
    requires match dir
      case Up => RowId(i) != 0
      case Down => RowId(i) != 8
      case Left => ColId(i) != 0
      case Right => ColId(i) != 8
    ensures MoveIndex(MoveIndex(i, dir), Opposite(dir)) == i
  {
    var k := MoveIndex(MoveIndex(i, dir), Opposite(dir));
    CellAtCoordinates(RowId(k), ColId(k));
    CellAtCoordinates(RowId(i), ColId(i));
  }

  function Opposite(dir: Direction): Direction
  {
    match dir
    case Up => Down
    case Down => Up
    case Left => Right
    case Right => Left
  }

  // ---------------------------------------------------------------------------
  // formatTime

  /** JavaScript's `%`: the remainder takes the sign of the dividend. */
  function JsRem(a: int, b: int): int
    requires b > 0
  {
    if a >= 0 then a % b else -((-a) % b)
  }

  /** `formatTime(ms)`: whole minutes, then whole seconds, each padded to two digits. */
  function FormatTime(ms: int): (t: string)
    ensures ms >= 0 ==> |t| >= 5 && t[|t| - 3] == ':'
  {
    var s := ms / 1000;
    Clock(s / 60, JsRem(s, 60))
  }

  /** The clock text of m minutes and sec seconds. */
  function Clock(m: int, sec: int): string
  {
    PadStart2(IntToString(m)) + ":" + PadStart2(IntToString(sec))
  }

  /**
    t reads back as m minutes and sec seconds: a minutes field of at least two
    digits, a colon, and a seconds field of exactly two digits.
   */
  predicate ReadsAs(t: string, m: nat, sec: nat)
  {
    && |t| >= 5
    && var mm, ss := t[..|t| - 3], t[|t| - 2..];
    && t == mm + ":" + ss
    && |mm| >= 2 && |ss| == 2 && AllDigits(mm) && AllDigits(ss)
    && ParseDigits(mm) == m && ParseDigits(ss) == sec
  }

  /** For a non-negative time the text reads back as its whole minutes and the seconds past the minute. */
  lemma FormatTimeReadsBack(ms: int)
    requires ms >= 0
    ensures ReadsAs(FormatTime(ms), (ms / 1000) / 60, (ms / 1000) % 60)
  {
    var s := ms / 1000;
    assert JsRem(s, 60) == s % 60;
    ClockText(s / 60, s % 60);
  }

  /** The clock text of m minutes and sec seconds splits back into its two fields. */
  lemma ClockText(m: nat, sec: nat)
    requires sec < 100
    ensures ReadsAs(Clock(m, sec), m, sec)
  {
    var a, b := PadStart2(IntToString(m)), PadStart2(IntToString(sec));
    ClockField(m);
    ClockField(sec);
    Split(a, b);
  }

  /** A field of the clock: at least two digits that read back as n. */
  lemma ClockField(n: nat)
    ensures var f := PadStart2(IntToString(n));
      |f| >= 2 && (n < 100 ==> |f| == 2) && AllDigits(f) && ParseDigits(f) == n
  {
    PaddedReadsBack(NatToString(n));
    ParseNatToString(n);
    if 10 <= n < 100 {
      assert |NatToString(n / 10)| == 1;
    }
  }

  /** Around a colon, a two-character right part is recovered by position. */
  lemma Split(mm: string, ss: string)
    requires |ss| == 2
    ensures var t := mm + ":" + ss;
      t[..|t| - 3] == mm && t[|t| - 2..] == ss && t[|t| - 3] == ':'
  {
  }

  /** Padding a digit string with zeros keeps it a digit string denoting the same number. */
  lemma PaddedReadsBack(s: string)
    requires AllDigits(s)
    ensures AllDigits(PadStart2(s)) && ParseDigits(PadStart2(s)) == ParseDigits(s)
  {
    var r := PadStart2(s);
    var z := r[..|r| - |s|];
    assert r == z + s;
    ParseLeadingZeros(z, s);
  }
}
