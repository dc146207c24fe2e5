/**
  `computeCandidates`: for every blank cell, the digits 1..9 that none of its
  20 peers holds; the empty set for a filled cell.
 */
module Candidates {
  import opened Geometry
  import opened Board

  /** Some peer of cell i holds d. */
  predicate HeldByPeer(cells: seq<int>, i: int, d: int)
    requires |cells| == 81 && IsCell(i)
  {
    exists j :: 0 <= j < 81 && IsPeer(i, j) && cells[j] == d
  }

  /** The candidates of cell i. */
  function CandidateSet(cells: seq<int>, i: int): set<int>
    requires |cells| == 81 && IsCell(i)
  {
    if cells[i] != 0 then {} else set d | 1 <= d <= 9 && !HeldByPeer(cells, i, d)
  }

  /** The digits the peers listed in ps[..n] hold. */
  function UsedBy(cells: seq<int>, ps: seq<int>, n: int): set<int>
    requires 0 <= n <= |ps| && forall k :: 0 <= k < |ps| ==> 0 <= ps[k] < |cells|
  {
    set m | 0 <= m < n && cells[ps[m]] != 0 :: cells[ps[m]]
  }

  /** Looking at one more peer adds its digit, if any. */
  lemma UsedByStep(cells: seq<int>, ps: seq<int>, n: int)
    requires 0 <= n < |ps| && forall k :: 0 <= k < |ps| ==> 0 <= ps[k] < |cells|
    ensures UsedBy(cells, ps, n + 1)
         == UsedBy(cells, ps, n) + (if cells[ps[n]] != 0 then {cells[ps[n]]} else {})
  {
  }

  /** Looking at one more digit d adds it when it is unused. */
  lemma FreeStep(used: set<int>, d: int)
    requires 1 <= d
    ensures (set e | 1 <= e < d + 1 && e !in used)
         == (set e | 1 <= e < d && e !in used) + (if d !in used then {d} else {})
  {
    var after, before := set e | 1 <= e < d + 1 && e !in used, set e | 1 <= e < d && e !in used;
    forall e ensures e in after <==> e in before + (if d !in used then {d} else {}) {
    }
  }

  /** The digits the peers of i hold are exactly those of its peer list. */
  lemma UsedByPeers(cells: seq<int>, i: int, d: int)
    requires |cells| == 81 && IsCell(i) && d != 0
    ensures |Peers(i)| == 20 && forall k :: 0 <= k < 20 ==> 0 <= Peers(i)[k] < 81
    ensures d in UsedBy(cells, Peers(i), 20) <==> HeldByPeer(cells, i, d)
  {
    PeersSpec(i);
    var ps := Peers(i);
    forall k | 0 <= k < 20 ensures 0 <= ps[k] < 81 {
      assert ps[k] in ps;
    }
    if d in UsedBy(cells, ps, 20) {
      var m :| 0 <= m < 20 && cells[ps[m]] != 0 && cells[ps[m]] == d;
      assert ps[m] in ps;
    }
    if HeldByPeer(cells, i, d) {
      var j :| 0 <= j < 81 && IsPeer(i, j) && cells[j] == d;
      assert j in ps;
      var m :| 0 <= m < 20 && ps[m] == j;
      assert cells[ps[m]] == d;
    }
  }

  /** `computeCandidates(cells)`. */
  method ComputeCandidates(cells: seq<int>) returns (cand: seq<set<int>>)
    requires |cells| == 81
    ensures |cand| == 81 && forall i :: 0 <= i < 81 ==> cand[i] == CandidateSet(cells, i)
  {
    var a := new set<int>[81];
    for i := 0 to 81
      invariant forall k :: 0 <= k < i ==> a[k] == CandidateSet(cells, k)
    {
      if cells[i] != 0 {
        a[i] := {};
        continue;
      }
      a[i] := FreeCandidates(cells, i);
    }
    cand := a[..];
  }

  /**
    The body of `computeCandidates` for a blank cell: collect the digits its
    peers use, then keep the digits 1..9 not among them.
   */
  method FreeCandidates(cells: seq<int>, i: int) returns (s: set<int>)
    requires |cells| == 81 && IsCell(i) && cells[i] == 0
    ensures s == CandidateSet(cells, i)
  {
    var ps := Peers(i);
    UsedByPeers(cells, i, 1);
    var used: set<int> := {};
    for n := 0 to 20
      invariant used == UsedBy(cells, ps, n)
    {
      var p := ps[n];
      UsedByStep(cells, ps, n);
      if cells[p] != 0 {
        used := used + {cells[p]};
      }
    }
    s := {};
    for d := 1 to 10
      invariant s == set e | 1 <= e < d && e !in used
    {
      FreeStep(used, d);
      if d !in used {
        s := s + {d};
      }
    }
    FreeDigits(cells, i, used, s);
  }

  /** The digits 1..9 that no peer uses are the candidates of a blank cell. */
  lemma FreeDigits(cells: seq<int>, i: int, used: set<int>, s: set<int>)
    requires |cells| == 81 && IsCell(i) && cells[i] == 0
    requires |Peers(i)| == 20 && forall k :: 0 <= k < 20 ==> 0 <= Peers(i)[k] < 81
    requires used == UsedBy(cells, Peers(i), 20)
    requires s == set e | 1 <= e < 10 && e !in used
    ensures s == CandidateSet(cells, i)
  {
    forall d | 1 <= d <= 9 ensures d in s <==> d in CandidateSet(cells, i) {
      UsedByPeers(cells, i, d);
    }
  }

  // ---------------------------------------------------------------------------
  // Properties

  /** Candidates are digits, and a filled cell has none. */
  lemma CandidatesAreDigits(cells: seq<int>, i: int, d: int)
    requires |cells| == 81 && IsCell(i) && d in CandidateSet(cells, i)
    ensures 1 <= d <= 9 && cells[i] == 0
  {
  }

  /** For a blank cell, d is a candidate exactly when `isSafe` accepts d there. */
  lemma CandidateIffSafe(cells: seq<int>, i: int, d: int)
    requires |cells| == 81 && IsCell(i) && cells[i] == 0 && 1 <= d <= 9
    ensures d in CandidateSet(cells, i) <==> Safe(cells, i, d)
  {
    if d in CandidateSet(cells, i) {
      forall j | 0 <= j < 81 && SameUnit(i, j) ensures cells[j] != d {
        if j != i {
          assert IsPeer(i, j);
        }
      }
    }
  }

  /**
    When every filled cell agrees with a solved grid, each blank cell keeps its
    solution digit among its candidates.
   */
  lemma SolutionIsCandidate(cells: seq<int>, solution: seq<int>, i: int)
    requires |cells| == 81 && Solved(solution) && KeepsDigits(cells, solution)
    requires IsCell(i) && cells[i] == 0
    ensures solution[i] in CandidateSet(cells, i)
  {
    forall j | 0 <= j < 81 && IsPeer(i, j) ensures cells[j] != solution[i] {
      if cells[j] != 0 {
        assert cells[j] == solution[j];
        assert IsPeer(j, i);
      }
    }
  }

  /** A digit a peer holds is never a candidate. */
  lemma PeerDigitNotCandidate(cells: seq<int>, i: int, j: int)
    requires |cells| == 81 && IsCell(i) && IsCell(j) && IsPeer(i, j) && cells[j] != 0
    ensures cells[j] !in CandidateSet(cells, i)
  {
  }

  /** Filling a cell never adds a candidate anywhere. */
  lemma CandidatesShrink(cells: seq<int>, j: int, v: int, i: int)
    requires |cells| == 81 && IsCell(j) && cells[j] == 0 && v != 0 && IsCell(i)
    ensures CandidateSet(cells[j := v], i) <= CandidateSet(cells, i)
    ensures i != j && IsPeer(i, j) ==> v !in CandidateSet(cells[j := v], i)
  {
  }
}
