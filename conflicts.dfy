/**
  `computeConflicts`: every non-blank cell whose digit occurs again in one of
  its 27 groups (rows, columns, boxes). Each group is scanned with an
  insertion-ordered map from digit to the group cells holding it; the cells of
  every list longer than one are added to the result.
 */
module Conflicts {
  import opened Geometry
  import opened Board
  import opened Buckets

  /** Every entry of g indexes vals. */
  predicate InBounds(vals: seq<int>, g: seq<int>)
  {
    forall k :: 0 <= k < |g| ==> 0 <= g[k] < |vals|
  }

  /** The cells of g holding v, in the order of g. */
  function Positions(vals: seq<int>, g: seq<int>, v: int): (ps: seq<int>)
    requires InBounds(vals, g)
    ensures forall x :: x in ps <==> x in g && vals[x] == v
  {
    if g == [] then []
    else
      var n := |g| - 1;
      assert InBounds(vals, g[..n]);
      Positions(vals, g[..n], v) + (if vals[g[n]] == v then [g[n]] else [])
  }

  /** Cell i holds a digit that one of its peers holds too. */
  predicate InConflict(vals: seq<int>, i: int)
    requires |vals| == 81 && IsCell(i)
  {
    vals[i] != 0 && exists j :: 0 <= j < 81 && IsPeer(i, j) && vals[j] == vals[i]
  }

  /** The set `computeConflicts` is meant to return. */
  function ConflictSet(vals: seq<int>): set<int>
    requires |vals| == 81
  {
    set i | 0 <= i < 81 && InConflict(vals, i)
  }

  /** What the scan of one group adds: the cells of every digit list longer than one. */
  function GroupConflicts(vals: seq<int>, g: seq<int>): set<int>
    requires InBounds(vals, g)
  {
    set x | x in g && vals[x] != 0 && |Positions(vals, g, vals[x])| > 1
  }

  // ---------------------------------------------------------------------------
  // The groups

  /** The box group the scan lists from its top-left cell `base`. */
  function BoxGroup(base: int): seq<int>
  {
    [base, base + 1, base + 2, base + 9, base + 10, base + 11, base + 18, base + 19, base + 20]
  }

  /** The box group at `br * 27 + bc * 3` is box `br * 3 + bc` of the unit tables. */
  lemma BoxGroupIsBox(br: int, bc: int)
    requires 0 <= br < 3 && 0 <= bc < 3
    ensures BoxGroup(br * 27 + bc * 3) == Boxes(br * 3 + bc)
  {
    var b := br * 3 + bc;
    Thirds(br, bc);
    assert b / 3 == br && b % 3 == bc;
    forall k | 0 <= k < 9 ensures BoxGroup(br * 27 + bc * 3)[k] == Boxes(b)[k] {
      assert Boxes(b)[k] == (br * 3 + k / 3) * 9 + bc * 3 + k % 3;
    }
  }

  /** The group list of the scan: 9 rows, 9 columns, then the boxes row-major. */
  method BuildGroups() returns (groups: seq<seq<int>>)
    ensures |groups| == 27 && forall t :: 0 <= t < 27 ==> groups[t] == Unit(t)
  {
    groups := [];
    for r := 0 to 9
      invariant |groups| == r && forall t :: 0 <= t < r ==> groups[t] == Unit(t)
    {
      groups := groups + [seq(9, c => r * 9 + c)];
    }
    for c := 0 to 9
      invariant |groups| == 9 + c && forall t :: 0 <= t < 9 + c ==> groups[t] == Unit(t)
    {
      groups := groups + [seq(9, r => r * 9 + c)];
    }
    for br := 0 to 3
      invariant |groups| == 18 + br * 3 && forall t :: 0 <= t < 18 + br * 3 ==> groups[t] == Unit(t)
    {
      for bc := 0 to 3
        invariant |groups| == 18 + br * 3 + bc && forall t :: 0 <= t < 18 + br * 3 + bc ==> groups[t] == Unit(t)
      {
        var base := br * 27 + bc * 3;
        BoxGroupIsBox(br, bc);
        groups := groups + [BoxGroup(base)];
      }
    }
  }

  // ---------------------------------------------------------------------------
  // Scanning one group

  /**
    The first loop over a group: `seen` maps each digit met to the group cells
    holding it, in group order; blanks are skipped.
   */
  method ScanGroup(vals: seq<int>, g: seq<int>) returns (seen: Buckets)
    requires InBounds(vals, g)
    ensures KeysDistinct(seen) && ListsNonEmpty(seen)
    ensures forall v :: v != 0 ==> Get(seen, v) == Positions(vals, g, v)
    ensures Get(seen, 0) == []
  {
    seen := [];
    for n := 0 to |g|
      invariant Scanned(vals, g, n, seen)
    {
      var idx := g[n];
      var v := vals[idx];
      ScanStep(vals, g, n, seen);
      if v == 0 {
        continue;
      }
      seen := Push(seen, v, idx);
    }
    assert g[..|g|] == g;
  }

  /** seen is the map of the first n cells of g: every digit to its cells there, in order. */
  ghost predicate Scanned(vals: seq<int>, g: seq<int>, n: int, seen: Buckets)
    requires InBounds(vals, g) && 0 <= n <= |g|
  {
    && InBounds(vals, g[..n])
    && KeysDistinct(seen) && ListsNonEmpty(seen)
    && (forall v :: v != 0 ==> Get(seen, v) == Positions(vals, g[..n], v))
    && Get(seen, 0) == []
  }

  /** One more cell of the group: a blank leaves the map alone, a digit is pushed onto its list. */
  lemma ScanStep(vals: seq<int>, g: seq<int>, n: int, seen: Buckets)
    requires InBounds(vals, g) && 0 <= n < |g| && Scanned(vals, g, n, seen)
    ensures Scanned(vals, g, n + 1, if vals[g[n]] == 0 then seen else Push(seen, vals[g[n]], g[n]))
  {
    var idx, v := g[n], vals[g[n]];
    assert g[..n + 1][..n] == g[..n];
    assert InBounds(vals, g[..n + 1]);
    forall w | w != 0 ensures Positions(vals, g[..n + 1], w) == Positions(vals, g[..n], w) + (if v == w then [idx] else []) {
    }
    if v != 0 {
      PushKeeps(seen, v, idx);
      forall w ensures Get(Push(seen, v, idx), w) == if w == v then Get(seen, w) + [idx] else Get(seen, w) {
        PushGet(seen, v, idx, w);
      }
    }
  }

  /** The cells listed under the entries of es whose list is longer than one. */
  function EntriesUnion(es: Buckets): set<int>
  {
    if es == [] then {}
    else
      var e := es[|es| - 1];
      EntriesUnion(es[..|es| - 1]) + (if |e.1| > 1 then Elements(e.1) else {})
  }

  lemma {:induction false} EntriesUnionMember(es: Buckets, x: int)
    ensures x in EntriesUnion(es) <==> exists p :: 0 <= p < |es| && |es[p].1| > 1 && x in es[p].1
  {
    if es != [] {
      var n := |es| - 1;
      EntriesUnionMember(es[..n], x);
      assert forall p :: 0 <= p < n ==> es[..n][p] == es[p];
    }
  }

  /** A group without repeated cells has distinct positions for every digit. */
  lemma {:induction false} PositionsDistinct(vals: seq<int>, g: seq<int>, v: int)
    requires InBounds(vals, g) && Distinct(g)
    ensures Distinct(Positions(vals, g, v))
  {
    if g != [] {
      var n := |g| - 1;
      assert InBounds(vals, g[..n]) && Distinct(g[..n]);
      PositionsDistinct(vals, g[..n], v);
      assert forall k :: 0 <= k < n ==> g[..n][k] == g[k] != g[n];
      assert g[n] !in g[..n];
    }
  }

  /**
    In a group without repeated cells, the list of a digit holding x has more
    than one entry exactly when another cell of the group holds that digit.
   */
  lemma TwoPositions(vals: seq<int>, g: seq<int>, v: int, x: int)
    requires InBounds(vals, g) && Distinct(g) && x in Positions(vals, g, v)
    ensures |Positions(vals, g, v)| > 1 <==> exists j :: j in g && j != x && vals[j] == v
  {
    var ps := Positions(vals, g, v);
    PositionsDistinct(vals, g, v);
    if |ps| > 1 {
      var j := if ps[0] != x then ps[0] else ps[1];
      assert j in ps && j != x;
    }
    if exists j :: j in g && j != x && vals[j] == v {
      var j :| j in g && j != x && vals[j] == v;
      var a :| 0 <= a < |ps| && ps[a] == x;
      var b :| 0 <= b < |ps| && ps[b] == j;
      assert a != b;
    }
  }

  /** The entries of a completed scan contribute exactly the group's conflicts. */
  lemma EntriesUnionIsGroupConflicts(vals: seq<int>, g: seq<int>, seen: Buckets)
    requires InBounds(vals, g)
    requires KeysDistinct(seen)
    requires forall v :: v != 0 ==> Get(seen, v) == Positions(vals, g, v)
    requires Get(seen, 0) == []
    ensures EntriesUnion(seen) == GroupConflicts(vals, g)
  {
    forall x ensures x in EntriesUnion(seen) <==> x in GroupConflicts(vals, g) {
      EntriesUnionMember(seen, x);
      if x in EntriesUnion(seen) {
        var p :| 0 <= p < |seen| && |seen[p].1| > 1 && x in seen[p].1;
        GetEntry(seen, p);
        var v := seen[p].0;
        assert v != 0;
        assert x in Positions(vals, g, v);
      }
      if x in GroupConflicts(vals, g) {
        var v := vals[x];
        GetFound(seen, v);
        var p := Find(seen, v);
        assert seen[p].1 == Positions(vals, g, v);
      }
    }
  }

  // ---------------------------------------------------------------------------
  // All groups

  /** Every unit indexes a board. */
  lemma UnitInBounds(vals: seq<int>, t: int)
    requires |vals| == 81 && 0 <= t < 27
    ensures InBounds(vals, Unit(t)) && Distinct(Unit(t))
  {
    UnitWellFormed(t);
    forall k | 0 <= k < |Unit(t)| ensures 0 <= Unit(t)[k] < 81 {
      assert Unit(t)[k] in Unit(t);
    }
  }

  /** The result after the scan of the first n groups. */
  function UnionUpTo(vals: seq<int>, n: int): set<int>
    requires |vals| == 81 && 0 <= n <= 27
  {
    if n == 0 then {}
    else
      UnitInBounds(vals, n - 1);
      UnionUpTo(vals, n - 1) + GroupConflicts(vals, Unit(n - 1))
  }

  /** A cell reported by group t is in the result once the first n > t groups are scanned. */
  lemma {:induction false} UnionIncludes(vals: seq<int>, n: int, t: int, x: int)
    requires |vals| == 81 && 0 <= t < n <= 27
    requires InBounds(vals, Unit(t)) && x in GroupConflicts(vals, Unit(t))
    ensures x in UnionUpTo(vals, n)
  {
    UnitInBounds(vals, n - 1);
    assert UnionUpTo(vals, n) == UnionUpTo(vals, n - 1) + GroupConflicts(vals, Unit(n - 1));
    if t < n - 1 {
      UnionIncludes(vals, n - 1, t, x);
    }
  }

  /** In a group without repeated cells, a cell is reported exactly when another cell holds its digit. */
  lemma GroupConflictsMember(vals: seq<int>, g: seq<int>, x: int)
    requires InBounds(vals, g) && Distinct(g)
    ensures x in GroupConflicts(vals, g) <==>
      x in g && vals[x] != 0 && exists j :: j in g && j != x && vals[j] == vals[x]
  {
    if x in g && vals[x] != 0 {
      assert x in Positions(vals, g, vals[x]);
      TwoPositions(vals, g, vals[x], x);
    }
  }

  /** The same, for one of the 27 units. */
  lemma GroupConflictMember(vals: seq<int>, t: int, x: int)
    requires |vals| == 81 && 0 <= t < 27
    ensures InBounds(vals, Unit(t))
    ensures x in GroupConflicts(vals, Unit(t)) <==>
      x in Unit(t) && vals[x] != 0 && exists j :: j in Unit(t) && j != x && vals[j] == vals[x]
  {
    UnitInBounds(vals, t);
    GroupConflictsMember(vals, Unit(t), x);
  }

  /** The group that reported a cell found in the union of the first n groups. */
  lemma {:induction false} UnionWitness(vals: seq<int>, n: int, x: int) returns (t: int)
    requires |vals| == 81 && 0 <= n <= 27 && x in UnionUpTo(vals, n)
    ensures 0 <= t < n && InBounds(vals, Unit(t)) && x in GroupConflicts(vals, Unit(t))
  {
    UnitInBounds(vals, n - 1);
    if x in GroupConflicts(vals, Unit(n - 1)) {
      t := n - 1;
    } else {
      t := UnionWitness(vals, n - 1, x);
    }
  }

  /** A cell some group reports is in conflict with a peer. */
  lemma UnionSound(vals: seq<int>, x: int)
    requires |vals| == 81 && x in UnionUpTo(vals, 27)
    ensures x in ConflictSet(vals)
  {
    var t := UnionWitness(vals, 27, x);
    GroupConflictMember(vals, t, x);
    var j :| j in Unit(t) && j != x && vals[j] == vals[x];
    InCommonUnit(t, x, j);
    assert IsPeer(x, j);
    assert InConflict(vals, x);
  }

  /** A cell in conflict with a peer is reported by the group they share. */
  lemma UnionComplete(vals: seq<int>, x: int)
    requires |vals| == 81 && x in ConflictSet(vals)
    ensures x in UnionUpTo(vals, 27)
  {
    var j :| 0 <= j < 81 && IsPeer(x, j) && vals[j] == vals[x];
    var t := CommonUnit(x, j);
    GroupConflictMember(vals, t, x);
    UnionIncludes(vals, 27, t, x);
  }

  /** After all 27 groups the result is exactly the set of cells in conflict. */
  lemma UnionIsConflictSet(vals: seq<int>)
    requires |vals| == 81
    ensures UnionUpTo(vals, 27) == ConflictSet(vals)
  {
    forall x | x in UnionUpTo(vals, 27) ensures x in ConflictSet(vals) {
      UnionSound(vals, x);
    }
    forall x | x in ConflictSet(vals) ensures x in UnionUpTo(vals, 27) {
      UnionComplete(vals, x);
    }
  }

  /** The second loop over a group: every cell of a list longer than one joins `bad`. */
  method ReportGroup(seen: Buckets, bad0: set<int>) returns (bad: set<int>)
    ensures bad == bad0 + EntriesUnion(seen)
  {
    bad := bad0;
    for e := 0 to |seen|
      invariant bad == bad0 + EntriesUnion(seen[..e])
    {
      var idxs := seen[e].1;
      assert seen[..e + 1][..e] == seen[..e];
      if |idxs| > 1 {
        ghost var bad1 := bad;
        for m := 0 to |idxs|
          invariant bad == bad1 + Elements(idxs[..m])
        {
          assert Elements(idxs[..m + 1]) == Elements(idxs[..m]) + {idxs[m]};
          bad := bad + {idxs[m]};
        }
        assert idxs[..|idxs|] == idxs;
      }
    }
    assert seen[..|seen|] == seen;
  }

  /** `computeConflicts`: the scan of the 27 groups returns exactly the cells in conflict. */
  method ComputeConflicts(vals: seq<int>) returns (bad: set<int>)
    requires |vals| == 81
    ensures bad == ConflictSet(vals)
  {
    bad := {};
    var groups := BuildGroups();
    for t := 0 to 27
      invariant bad == UnionUpTo(vals, t)
    {
      var g := groups[t];
      UnitInBounds(vals, t);
      var seen := ScanGroup(vals, g);
      bad := ReportGroup(seen, bad);
      EntriesUnionIsGroupConflicts(vals, g, seen);
    }
    UnionIsConflictSet(vals);
  }

  // ---------------------------------------------------------------------------
  // Properties

  /** A board has no conflict exactly when it is consistent. */
  lemma NoConflictsIffConsistent(vals: seq<int>)
    requires |vals| == 81
    ensures ConflictSet(vals) == {} <==> Consistent(vals)
  {
    if ConflictSet(vals) == {} {
      forall i, j | 0 <= i < 81 && 0 <= j < 81 && IsPeer(i, j) && vals[i] != 0
        ensures vals[i] != vals[j]
      {
        assert i !in ConflictSet(vals);
      }
    }
    if Consistent(vals) {
      forall i | 0 <= i < 81 ensures !InConflict(vals, i) {
      }
    }
  }

  /** Every conflicting cell holds a digit, and its digit sits on a conflicting peer too. */
  lemma ConflictsComeInPairs(vals: seq<int>, i: int)
    requires |vals| == 81 && i in ConflictSet(vals)
    ensures vals[i] != 0
    ensures exists j :: 0 <= j < 81 && IsPeer(i, j) && vals[j] == vals[i] && j in ConflictSet(vals)
  {
    var j :| 0 <= j < 81 && IsPeer(i, j) && vals[j] == vals[i];
    assert IsPeer(j, i);
    assert InConflict(vals, j);
  }

  /** An empty board has no conflict. */
  lemma EmptyBoardNoConflicts()
    ensures ConflictSet(seq(81, _ => 0)) == {}
  {
    var vals := seq(81, _ => 0);
    forall i | 0 <= i < 81 ensures !InConflict(vals, i) {
    }
  }

  /** Two 1s side by side in the top row conflict with each other and with nothing else. */
  lemma RowDuplicateConflicts()
    ensures ConflictSet([1, 1] + seq(79, _ => 0)) == {0, 1}
  {
    var vals := [1, 1] + seq(79, _ => 0);
    assert vals[0] == 1 && vals[1] == 1;
    assert IsPeer(0, 1) && IsPeer(1, 0);
    assert InConflict(vals, 0) by { assert vals[1] == vals[0]; }
    assert InConflict(vals, 1) by { assert vals[0] == vals[1]; }
    forall i | 0 <= i < 81 ensures InConflict(vals, i) <==> i < 2 {
      if i >= 2 {
        assert vals[i] == 0;
      }
    }
  }
}
