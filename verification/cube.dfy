/**
 The candidate cube: 729 candidate states, and per area a potential, a resumable cursor
 and a weak-pass flag. Every operation is a pure function from cube to cube.

 The potential of an area is meant to equal 10 * (#FREE members) + (#WEAK_UNOBTAINABLE
 members); `Consistent` states this for all 324 areas and the lemmas below show that the
 constructor establishes it and every mark operation keeps it.
 */
module Cube {
  import opened Indices
  import Matrix
  import Table

  datatype CellState = Free | Occupied | Unobtainable | WeakUnobtainable

  /** What a candidate in state s contributes to the potential of each of its areas. */
  function Weight(s: CellState): int
  {
    if s == Free then 10 else if s == WeakUnobtainable then 1 else 0
  }

  /** The state markUnobtainable leaves behind: only OCCUPIED survives it. */
  function Strengthened(s: CellState): CellState
  {
    if s == Occupied then Occupied else Unobtainable
  }

  datatype Cube = Cube(cells: seq<CellState>, potentials: seq<int>,
                       possibleValue: seq<int>, usingWeakValue: seq<bool>)
  {
    /** The fixed array sizes of the source: 9*9*9 states, 4*9*9 of each per-area field. */
    predicate Valid()
    {
      |cells| == 729 && |potentials| == 324 && |possibleValue| == 324 && |usingWeakValue| == 324
    }

    function State(c: CellIndex): CellState
      requires Valid()
    {
      cells[c.Address()]
    }

    function Potential(a: AreaIndex): int
      requires Valid()
    {
      potentials[a.Address()]
    }

    function Cursor(a: AreaIndex): int
      requires Valid()
    {
      possibleValue[a.Address()]
    }

    function UsingWeak(a: AreaIndex): bool
      requires Valid()
    {
      usingWeakValue[a.Address()]
    }

    /** State of the i-th member of area a. */
    function MemberState(a: AreaIndex, i: Coord): CellState
      requires Valid()
    {
      State(IndexOfCell(a, i))
    }
  }

  /** Number of the first n members of area a whose state is s. */
  function CountIn(cells: seq<CellState>, a: AreaIndex, s: CellState, n: int): int
    requires |cells| == 729 && 0 <= n <= 9
  {
    if n == 0 then 0
    else CountIn(cells, a, s, n - 1) + (if cells[IndexOfCell(a, n - 1).Address()] == s then 1 else 0)
  }

  /** Number of members of area a in state s. */
  function Count(c: Cube, a: AreaIndex, s: CellState): int
    requires c.Valid()
  {
    CountIn(c.cells, a, s, 9)
  }

  /** The potential area a should have: 10 per FREE member plus 1 per WEAK member. */
  function AreaWeight(c: Cube, a: AreaIndex): int
    requires c.Valid()
  {
    10 * Count(c, a, Free) + Count(c, a, WeakUnobtainable)
  }

  /** Every stored potential agrees with the members' states. */
  ghost predicate Consistent(c: Cube)
    requires c.Valid()
  {
    forall a: AreaIndex :: c.Potential(a) == AreaWeight(c, a)
  }

  /** Potentials moved by exactly as much as the members' weights did. */
  ghost predicate TracksWeights(c: Cube, r: Cube)
    requires c.Valid() && r.Valid()
  {
    forall a: AreaIndex :: r.Potential(a) - c.Potential(a) == AreaWeight(r, a) - AreaWeight(c, a)
  }

  /** Cursor and weak-pass flag of every area are the same in both cubes. */
  ghost predicate SameCursors(c: Cube, r: Cube)
  {
    r.possibleValue == c.possibleValue && r.usingWeakValue == c.usingWeakValue
  }

  // ---------------------------------------------------------------------------------
  // Counting lemmas

  /** Overwriting one state changes a member count only when the overwritten candidate is
      one of the counted members. */
  lemma {:induction false} CountInAfterUpdate(cells: seq<CellState>, a: AreaIndex, s: CellState,
                                              c: CellIndex, t: CellState, n: int)
    requires |cells| == 729 && 0 <= n <= 9
    ensures CountIn(cells[c.Address() := t], a, s, n) ==
            CountIn(cells, a, s, n) +
            (if Contains(a, c) && PositionIn(a.kind, c) < n
             then (if t == s then 1 else 0) - (if cells[c.Address()] == s then 1 else 0)
             else 0)
  {
    if n > 0 {
      CountInAfterUpdate(cells, a, s, c, t, n - 1);
      MemberAt(a, n - 1, c);
    }
  }

  /** The member of a at position i, and its address, pick out exactly the candidate
      that a contains at that position. */
  lemma MemberAt(a: AreaIndex, i: Coord, c: CellIndex)
    ensures IndexOfCell(a, i).Address() == c.Address() <==> Contains(a, c) && PositionIn(a.kind, c) == i
  {
    var m := IndexOfCell(a, i);
    MemberRoundTrip(a, i);
    CellAddressBijection(m, c);
    if Contains(a, c) {
      ContainingRoundTrip(a.kind, c);
    }
  }

  /** Member counts only look at the members' states. */
  lemma {:induction false} CountInSameMembers(c1: seq<CellState>, c2: seq<CellState>, a: AreaIndex,
                                              s: CellState, n: int)
    requires |c1| == 729 && |c2| == 729 && 0 <= n <= 9
    requires forall i: Coord :: i < n ==> c1[IndexOfCell(a, i).Address()] == c2[IndexOfCell(a, i).Address()]
    ensures CountIn(c1, a, s, n) == CountIn(c2, a, s, n)
  {
    if n > 0 {
      CountInSameMembers(c1, c2, a, s, n - 1);
    }
  }

  /** A member count never exceeds the number of members counted. */
  lemma {:induction false} CountInBounds(cells: seq<CellState>, a: AreaIndex, s: CellState, n: int)
    requires |cells| == 729 && 0 <= n <= 9
    ensures 0 <= CountIn(cells, a, s, n) <= n
  {
    if n > 0 {
      CountInBounds(cells, a, s, n - 1);
    }
  }

  /** A count is zero exactly when no counted member is in that state. */
  lemma {:induction false} CountInZero(cells: seq<CellState>, a: AreaIndex, s: CellState, n: int)
    requires |cells| == 729 && 0 <= n <= 9
    ensures CountIn(cells, a, s, n) == 0 <==>
            forall i: Coord :: i < n ==> cells[IndexOfCell(a, i).Address()] != s
  {
    if n > 0 {
      CountInZero(cells, a, s, n - 1);
      CountInBounds(cells, a, s, n - 1);
      var last := cells[IndexOfCell(a, n - 1).Address()];
      if CountIn(cells, a, s, n) == 0 {
        assert last != s;
      } else if last != s {
        assert CountIn(cells, a, s, n - 1) != 0;
      }
    }
  }

  /** If every member now in state s was already in state s, the count did not grow. */
  lemma {:induction false} CountInMonotone(c1: seq<CellState>, c2: seq<CellState>, a: AreaIndex,
                                           s: CellState, n: int)
    requires |c1| == 729 && |c2| == 729 && 0 <= n <= 9
    requires forall i: Coord :: i < n && c2[IndexOfCell(a, i).Address()] == s ==>
               c1[IndexOfCell(a, i).Address()] == s
    ensures CountIn(c2, a, s, n) <= CountIn(c1, a, s, n)
  {
    if n > 0 {
      CountInMonotone(c1, c2, a, s, n - 1);
    }
  }

  /** Consistency with TracksWeights carries over. */
  lemma TrackedConsistency(c: Cube, r: Cube)
    requires c.Valid() && r.Valid() && TracksWeights(c, r)
    ensures Consistent(c) ==> Consistent(r)
  {
  }

  /** In a consistent cube potentials are never negative, and a potential is zero exactly
      when the area has neither a FREE nor a WEAK member. */
  lemma PotentialMeaning(c: Cube, a: AreaIndex)
    requires c.Valid() && Consistent(c)
    ensures c.Potential(a) >= 0
    ensures c.Potential(a) == 0 <==> Count(c, a, Free) == 0 && Count(c, a, WeakUnobtainable) == 0
  {
    CountInBounds(c.cells, a, Free, 9);
    CountInBounds(c.cells, a, WeakUnobtainable, 9);
  }

  // ---------------------------------------------------------------------------------
  // Constructor

  /** Lemma: with every state FREE, each area counts nine FREE members and no WEAK one. */
  lemma {:induction false} AllFreeCounts(cells: seq<CellState>, a: AreaIndex, n: int)
    requires |cells| == 729 && 0 <= n <= 9
    requires forall p :: 0 <= p < 729 ==> cells[p] == Free
    ensures CountIn(cells, a, Free, n) == n && CountIn(cells, a, WeakUnobtainable, n) == 0
  {
    if n > 0 {
      AllFreeCounts(cells, a, n - 1);
    }
  }

  /** The cube constructor: every candidate FREE, every potential 9 * 10, every cursor -1,
      no weak pass started. The potentials it sets are the consistent ones. */
  function NewCube(): (c: Cube)
    ensures c.Valid()
    ensures forall d: CellIndex :: c.State(d) == Free
    ensures forall a: AreaIndex :: c.Potential(a) == 90 && c.Cursor(a) == -1 && !c.UsingWeak(a)
    ensures Consistent(c)
  {
    var c := Cube(seq(729, _ => Free), seq(324, _ => 90), seq(324, _ => -1), seq(324, _ => false));
    AllFreeConsistent(c);
    c
  }

  /** A cube with every state FREE and every potential 90 is consistent. */
  lemma AllFreeConsistent(c: Cube)
    requires c.Valid()
    requires forall p :: 0 <= p < 729 ==> c.cells[p] == Free
    requires forall p :: 0 <= p < 324 ==> c.potentials[p] == 90
    ensures Consistent(c)
  {
    forall a: AreaIndex ensures c.Potential(a) == AreaWeight(c, a) {
      AllFreeCounts(c.cells, a, 9);
    }
  }

  // ---------------------------------------------------------------------------------
  // Mark operations

  /** Subtract d from the potentials of the four areas containing candidate c. */
  function SubtractFromContaining(ps: seq<int>, c: CellIndex, d: int): (r: seq<int>)
    requires |ps| == 324
    ensures |r| == 324
    ensures forall a: AreaIndex :: r[a.Address()] == ps[a.Address()] - (if Contains(a, c) then d else 0)
  {
    var r := SubtractAt(SubtractAt(SubtractAt(SubtractAt(ps, ContainingArea(Column, c), d),
                                              ContainingArea(Row, c), d),
                                   ContainingArea(V, c), d),
                        ContainingArea(Subtable, c), d);
    assert forall a: AreaIndex :: r[a.Address()] == ps[a.Address()] - (if Contains(a, c) then d else 0) by {
      forall a: AreaIndex ensures r[a.Address()] == ps[a.Address()] - (if Contains(a, c) then d else 0) {
        SubtractAtOthers(ps, ContainingArea(Column, c), d, a);
        SubtractAtOthers(SubtractAt(ps, ContainingArea(Column, c), d), ContainingArea(Row, c), d, a);
        SubtractAtOthers(SubtractAt(SubtractAt(ps, ContainingArea(Column, c), d), ContainingArea(Row, c), d),
                         ContainingArea(V, c), d, a);
        SubtractAtOthers(SubtractAt(SubtractAt(SubtractAt(ps, ContainingArea(Column, c), d),
                                               ContainingArea(Row, c), d),
                                    ContainingArea(V, c), d),
                         ContainingArea(Subtable, c), d, a);
      }
    }
    r
  }

  /** Subtract d from the potential of area b. */
  function SubtractAt(ps: seq<int>, b: AreaIndex, d: int): (r: seq<int>)
    requires |ps| == 324
    ensures |r| == 324
  {
    ps[b.Address() := ps[b.Address()] - d]
  }

  /** SubtractAt changes area b and no other. */
  lemma SubtractAtOthers(ps: seq<int>, b: AreaIndex, d: int, a: AreaIndex)
    requires |ps| == 324
    ensures SubtractAt(ps, b, d)[a.Address()] == ps[a.Address()] - (if a == b then d else 0)
  {
    AreaAddressBijection(a, b);
  }

  /** markUnobtainable: a FREE candidate takes 10 off each of its four areas, a WEAK one
      takes 1; either becomes UNOBTAINABLE. Any other state is left as it is. */
  function MarkUnobtainable(c: Cube, ci: CellIndex): (r: Cube)
    requires c.Valid()
    ensures r.Valid() && SameCursors(c, r)
    ensures r.State(ci) == Strengthened(c.State(ci))
    ensures forall d: CellIndex :: d != ci ==> r.State(d) == c.State(d)
    ensures c.State(ci) == Free ==>
              forall a: AreaIndex :: r.Potential(a) == c.Potential(a) - (if Contains(a, ci) then 10 else 0)
    ensures c.State(ci) == WeakUnobtainable ==>
              forall a: AreaIndex :: r.Potential(a) == c.Potential(a) - (if Contains(a, ci) then 1 else 0)
    ensures c.State(ci) != Free && c.State(ci) != WeakUnobtainable ==> r == c
  {
    var s := c.State(ci);
    if s == Free || s == WeakUnobtainable then
      var pot := if s == Free then 10 else 1;
      CellAddressInjective(ci);
      c.(potentials := SubtractFromContaining(c.potentials, ci, pot),
         cells := c.cells[ci.Address() := Unobtainable])
    else
      c
  }

  /** markWeakUnobtainable: a FREE candidate becomes WEAK_UNOBTAINABLE and takes 9 off each
      of its four areas (its weight drops from 10 to 1); any other state is left alone. */
  function MarkWeakUnobtainable(c: Cube, ci: CellIndex): (r: Cube)
    requires c.Valid()
    ensures r.Valid() && SameCursors(c, r)
    ensures r.State(ci) == (if c.State(ci) == Free then WeakUnobtainable else c.State(ci))
    ensures forall d: CellIndex :: d != ci ==> r.State(d) == c.State(d)
    ensures forall a: AreaIndex ::
              r.Potential(a) == c.Potential(a) - (if Contains(a, ci) && c.State(ci) == Free then 9 else 0)
  {
    if c.State(ci) == Free then
      CellAddressInjective(ci);
      c.(potentials := SubtractFromContaining(c.potentials, ci, 9),
         cells := c.cells[ci.Address() := WeakUnobtainable])
    else
      c
  }

  /** Overwriting the state of one candidate moves each area's weight by the change of
      that candidate's weight, in exactly the areas that contain it. */
  lemma WeightAfterUpdate(c: Cube, ci: CellIndex, t: CellState, a: AreaIndex)
    requires c.Valid()
    ensures AreaWeight(c.(cells := c.cells[ci.Address() := t]), a) ==
            AreaWeight(c, a) + (if Contains(a, ci) then Weight(t) - Weight(c.State(ci)) else 0)
  {
    CountInAfterUpdate(c.cells, a, Free, ci, t, 9);
    CountInAfterUpdate(c.cells, a, WeakUnobtainable, ci, t, 9);
  }

  /** markUnobtainable moves every potential by exactly the change of that area's weight,
      so it keeps potential = 10 * #FREE + #WEAK. */
  lemma MarkUnobtainableTracksWeights(c: Cube, ci: CellIndex)
    requires c.Valid()
    ensures TracksWeights(c, MarkUnobtainable(c, ci))
    ensures Consistent(c) ==> Consistent(MarkUnobtainable(c, ci))
  {
    var r := MarkUnobtainable(c, ci);
    if r != c {
      forall a: AreaIndex
        ensures r.Potential(a) - c.Potential(a) == AreaWeight(r, a) - AreaWeight(c, a)
      {
        WeightAfterUpdate(c, ci, Unobtainable, a);
        assert r.cells == c.cells[ci.Address() := Unobtainable];
      }
    }
  }

  /** markWeakUnobtainable keeps potential = 10 * #FREE + #WEAK too. */
  lemma MarkWeakTracksWeights(c: Cube, ci: CellIndex)
    requires c.Valid()
    ensures TracksWeights(c, MarkWeakUnobtainable(c, ci))
    ensures Consistent(c) ==> Consistent(MarkWeakUnobtainable(c, ci))
  {
    var r := MarkWeakUnobtainable(c, ci);
    if c.State(ci) == Free {
      forall a: AreaIndex
        ensures r.Potential(a) - c.Potential(a) == AreaWeight(r, a) - AreaWeight(c, a)
      {
        WeightAfterUpdate(c, ci, WeakUnobtainable, a);
        assert r.cells == c.cells[ci.Address() := WeakUnobtainable];
      }
    }
  }

  /** markUnobtainable applied to each candidate of a list, first to last. */
  function MarkAllUnobtainable(c: Cube, list: seq<CellIndex>): (r: Cube)
    requires c.Valid()
    ensures r.Valid() && SameCursors(c, r)
    ensures forall d: CellIndex :: r.State(d) == (if d in list then Strengthened(c.State(d)) else c.State(d))
    ensures TracksWeights(c, r)
    decreases |list|
  {
    if |list| == 0 then c
    else
      var c1 := MarkUnobtainable(c, list[0]);
      MarkUnobtainableTracksWeights(c, list[0]);
      var r := MarkAllUnobtainable(c1, list[1..]);
      assert forall d: CellIndex :: d in list <==> d == list[0] || d in list[1..];
      r
  }

  /** markWeakUnobtainable applied to each candidate of a list, first to last: the loop of
      restoreLastSnapshot over a history. */
  function MarkAllWeak(c: Cube, list: seq<CellIndex>): (r: Cube)
    requires c.Valid()
    ensures r.Valid() && SameCursors(c, r)
    ensures forall d: CellIndex ::
              r.State(d) == (if d in list && c.State(d) == Free then WeakUnobtainable else c.State(d))
    ensures TracksWeights(c, r)
    decreases |list|
  {
    if |list| == 0 then c
    else
      var c1 := MarkWeakUnobtainable(c, list[0]);
      MarkWeakTracksWeights(c, list[0]);
      var r := MarkAllWeak(c1, list[1..]);
      assert forall d: CellIndex :: d in list <==> d == list[0] || d in list[1..];
      r
  }

  /** The 36 candidates markOccupied visits, in the order of its loop: for each i, the i-th
      member of the V area, then of the column, then of the row, then of the box. */
  function Neighbours(ci: CellIndex): (list: seq<CellIndex>)
    ensures |list| == 36
  {
    seq(36, j requires 0 <= j < 36 =>
      IndexOfCell(ContainingArea(NeighbourType(j % 4), ci), j / 4))
  }

  function NeighbourType(k: int): AreaType
  {
    if k == 0 then V else if k == 1 then Column else if k == 2 then Row else Subtable
  }

  /** Entry 4 * i + k of the neighbour list is the i-th member of the k-th area visited. */
  lemma NeighbourAt(ci: CellIndex, i: Coord, k: int)
    requires 0 <= k < 4
    ensures Neighbours(ci)[4 * i + k] == IndexOfCell(ContainingArea(NeighbourType(k), ci), i)
  {
    assert (4 * i + k) % 4 == k && (4 * i + k) / 4 == i;
  }

  /** Every neighbour shares an area with ci. */
  lemma NeighbourShares(ci: CellIndex, j: int)
    requires 0 <= j < 36
    ensures SharesArea(Neighbours(ci)[j], ci)
  {
    var t := NeighbourType(j % 4);
    MemberRoundTrip(ContainingArea(t, ci), j / 4);
    assert ContainingArea(t, Neighbours(ci)[j]) == ContainingArea(t, ci);
  }

  /** A candidate sharing the area of the k-th visited type with ci is a neighbour. */
  lemma SharerIsNeighbour(ci: CellIndex, d: CellIndex, k: int)
    requires 0 <= k < 4 && ContainingArea(NeighbourType(k), d) == ContainingArea(NeighbourType(k), ci)
    ensures d in Neighbours(ci)
  {
    var t := NeighbourType(k);
    var i := PositionIn(t, d);
    ContainingRoundTrip(t, d);
    NeighbourAt(ci, i, k);
  }

  /** The neighbour list holds exactly the candidates sharing an area with ci. */
  lemma NeighboursShareArea(ci: CellIndex, d: CellIndex)
    ensures d in Neighbours(ci) <==> SharesArea(d, ci)
  {
    if d in Neighbours(ci) {
      var j :| 0 <= j < 36 && Neighbours(ci)[j] == d;
      NeighbourShares(ci, j);
    }
    if ContainingArea(V, d) == ContainingArea(V, ci) {
      SharerIsNeighbour(ci, d, 0);
    } else if ContainingArea(Column, d) == ContainingArea(Column, ci) {
      SharerIsNeighbour(ci, d, 1);
    } else if ContainingArea(Row, d) == ContainingArea(Row, ci) {
      SharerIsNeighbour(ci, d, 2);
    } else if ContainingArea(Subtable, d) == ContainingArea(Subtable, ci) {
      SharerIsNeighbour(ci, d, 3);
    }
  }

  /** The neighbour list holds exactly the candidates sharing an area with ci, ci included. */
  lemma NeighboursAreSharers(ci: CellIndex)
    ensures forall d: CellIndex :: d in Neighbours(ci) <==> SharesArea(d, ci)
    ensures ci in Neighbours(ci)
  {
    forall d: CellIndex ensures d in Neighbours(ci) <==> SharesArea(d, ci) {
      NeighboursShareArea(ci, d);
    }
    assert SharesArea(ci, ci);
  }

  /** Setting a candidate of weight 0 to OCCUPIED changes no area weight. */
  lemma OccupyingKeepsWeights(m: Cube, ci: CellIndex)
    requires m.Valid() && Weight(m.State(ci)) == 0
    ensures forall a: AreaIndex :: AreaWeight(m.(cells := m.cells[ci.Address() := Occupied]), a) == AreaWeight(m, a)
  {
    forall a: AreaIndex ensures AreaWeight(m.(cells := m.cells[ci.Address() := Occupied]), a) == AreaWeight(m, a) {
      WeightAfterUpdate(m, ci, Occupied, a);
    }
  }

  /** markOccupied as the release build runs it: every candidate sharing an area with ci
      (ci included) goes through markUnobtainable, then ci becomes OCCUPIED. */
  function MarkOccupied(c: Cube, ci: CellIndex): (r: Cube)
    requires c.Valid()
    ensures r.Valid() && SameCursors(c, r)
    ensures r.State(ci) == Occupied
    ensures forall d: CellIndex :: d != ci ==>
              r.State(d) == (if SharesArea(d, ci) then Strengthened(c.State(d)) else c.State(d))
    ensures TracksWeights(c, r)
  {
    var m := MarkAllUnobtainable(c, Neighbours(ci));
    CellAddressInjective(ci);
    NeighboursAreSharers(ci);
    OccupyingKeepsWeights(m, ci);
    m.(cells := m.cells[ci.Address() := Occupied])
  }

  /** After markOccupied on a consistent cube, the four areas containing the candidate have
      potential 0: every other member is UNOBTAINABLE or OCCUPIED. */
  lemma MarkOccupiedClearsContainingAreas(c: Cube, ci: CellIndex, t: AreaType)
    requires c.Valid() && Consistent(c)
    ensures Consistent(MarkOccupied(c, ci))
    ensures MarkOccupied(c, ci).Potential(ContainingArea(t, ci)) == 0
  {
    var r := MarkOccupied(c, ci);
    var a := ContainingArea(t, ci);
    TrackedConsistency(c, r);
    MarkOccupiedClearsMembers(c, ci, t);
    assert forall i: Coord :: i < 9 ==> r.cells[IndexOfCell(a, i).Address()] != Free &&
                                        r.cells[IndexOfCell(a, i).Address()] != WeakUnobtainable by {
      forall i: Coord ensures r.cells[IndexOfCell(a, i).Address()] != Free &&
                              r.cells[IndexOfCell(a, i).Address()] != WeakUnobtainable {
        assert r.MemberState(a, i) == r.cells[IndexOfCell(a, i).Address()];
      }
    }
    CountInZero(r.cells, a, Free, 9);
    CountInZero(r.cells, a, WeakUnobtainable, 9);
  }

  /** After markOccupied no member of an area containing the candidate is FREE or WEAK. */
  lemma MarkOccupiedClearsMembers(c: Cube, ci: CellIndex, t: AreaType)
    requires c.Valid()
    ensures forall i: Coord ::
              && MarkOccupied(c, ci).MemberState(ContainingArea(t, ci), i) != Free
              && MarkOccupied(c, ci).MemberState(ContainingArea(t, ci), i) != WeakUnobtainable
  {
    var r := MarkOccupied(c, ci);
    var a := ContainingArea(t, ci);
    forall i: Coord ensures r.MemberState(a, i) != Free && r.MemberState(a, i) != WeakUnobtainable {
      var d := IndexOfCell(a, i);
      MemberRoundTrip(a, i);
      assert SharesArea(d, ci) by {
        assert ContainingArea(t, d) == ContainingArea(t, ci);
      }
    }
  }

  // ---------------------------------------------------------------------------------
  // Debug build checks

  /** The InconsistencyError conditions the debug build raises. */
  datatype InconsistencyError =
    | CellNotFree(cell: CellIndex, state: CellState)
    | NonzeroPotentialInContainingArea(cell: CellIndex, area: AreaIndex)
    | NoPossibleCellInForcedArea(area: AreaIndex)
    | ErasedAreaNotZero(area: AreaIndex)

  datatype Checked<T> = Ok(value: T) | Inconsistent(error: InconsistencyError)

  /** The four areas containing ci all have potential 0. */
  predicate ContainingAreasCleared(c: Cube, ci: CellIndex)
    requires c.Valid()
  {
    && c.Potential(ContainingArea(Column, ci)) == 0
    && c.Potential(ContainingArea(Row, ci)) == 0
    && c.Potential(ContainingArea(V, ci)) == 0
    && c.Potential(ContainingArea(Subtable, ci)) == 0
  }

  /** markOccupied of the debug build: refuses a candidate that is neither FREE nor WEAK,
      and afterwards refuses a containing area (column, row, v, box in turn) whose potential
      is not 0. */
  function MarkOccupiedChecked(c: Cube, ci: CellIndex): (r: Checked<Cube>)
    requires c.Valid()
    ensures r.Ok? <==> (c.State(ci) == Free || c.State(ci) == WeakUnobtainable) &&
                       ContainingAreasCleared(MarkOccupied(c, ci), ci)
    ensures r.Ok? ==> r.value == MarkOccupied(c, ci)
  {
    var s := c.State(ci);
    if s != Free && s != WeakUnobtainable then Inconsistent(CellNotFree(ci, s))
    else
      var m := MarkOccupied(c, ci);
      if m.Potential(ContainingArea(Column, ci)) != 0 then
        Inconsistent(NonzeroPotentialInContainingArea(ci, ContainingArea(Column, ci)))
      else if m.Potential(ContainingArea(Row, ci)) != 0 then
        Inconsistent(NonzeroPotentialInContainingArea(ci, ContainingArea(Row, ci)))
      else if m.Potential(ContainingArea(V, ci)) != 0 then
        Inconsistent(NonzeroPotentialInContainingArea(ci, ContainingArea(V, ci)))
      else if m.Potential(ContainingArea(Subtable, ci)) != 0 then
        Inconsistent(NonzeroPotentialInContainingArea(ci, ContainingArea(Subtable, ci)))
      else
        Ok(m)
  }

  /** On a consistent cube the debug checks of markOccupied fail exactly when the
      candidate is neither FREE nor WEAK: the after-check can never fire. */
  lemma CheckedMarkOccupiedOnConsistentCube(c: Cube, ci: CellIndex)
    requires c.Valid() && Consistent(c)
    ensures MarkOccupiedChecked(c, ci).Ok? <==> c.State(ci) == Free || c.State(ci) == WeakUnobtainable
  {
    MarkOccupiedClearsContainingAreas(c, ci, Column);
    MarkOccupiedClearsContainingAreas(c, ci, Row);
    MarkOccupiedClearsContainingAreas(c, ci, V);
    MarkOccupiedClearsContainingAreas(c, ci, Subtable);
  }

  // ---------------------------------------------------------------------------------
  // Area enumeration

  /** Outcome of IndexOfNextPossibileCell. The cube is returned in both cases: the source
      advances the cursor in place before it finds a candidate or throws. */
  datatype Scan = Found(cube: Cube, cell: CellIndex) | NoPossibleCell(cube: Cube)

  /** The least position j in [k, 9) whose member of a is in state s, or 9. */
  function FirstFrom(c: Cube, a: AreaIndex, k: int, s: CellState): (j: int)
    requires c.Valid() && 0 <= k <= 9
    ensures k <= j <= 9
    ensures j < 9 ==> c.MemberState(a, j) == s
    ensures forall i: Coord :: k <= i < j ==> c.MemberState(a, i) != s
    decreases 9 - k
  {
    if k == 9 then 9
    else if c.MemberState(a, k) == s then k
    else FirstFrom(c, a, k + 1, s)
  }

  /** Cursors have the values the scan can leave behind between calls. */
  ghost predicate CursorsInRange(c: Cube)
    requires c.Valid()
  {
    forall a: AreaIndex :: -1 <= c.Cursor(a) < 9
  }

  /** Operations that leave cursors alone keep them resumable. */
  lemma SameCursorsKeepRange(c: Cube, r: Cube)
    requires c.Valid() && r.Valid() && SameCursors(c, r) && CursorsInRange(c)
    ensures CursorsInRange(r)
  {
    forall a: AreaIndex ensures -1 <= r.Cursor(a) < 9 {
      assert r.Cursor(a) == c.Cursor(a);
    }
  }

  /** The cube with the cursor and weak flag of area a set to j and weak. */
  function SetCursor(c: Cube, a: AreaIndex, j: int, weak: bool): (r: Cube)
    requires c.Valid()
    ensures r.Valid() && r.cells == c.cells && r.potentials == c.potentials
    ensures r.Cursor(a) == j && r.UsingWeak(a) == weak
    ensures forall b: AreaIndex :: b != a ==> r.Cursor(b) == c.Cursor(b) && r.UsingWeak(b) == c.UsingWeak(b)
  {
    var p := a.Address();
    AreaAddressInjective(a);
    c.(possibleValue := c.possibleValue[p := j], usingWeakValue := c.usingWeakValue[p := weak])
  }

  /** The second (weak) pass, resumed from the cursor: the first WEAK member after it, or
      NoPossibleCell with the cursor at 9. */
  function WeakPass(c: Cube, a: AreaIndex): (r: Scan)
    requires c.Valid() && -1 <= c.Cursor(a) < 9
    ensures r.cube.Valid() && r.cube == SetCursor(c, a, r.cube.Cursor(a), c.UsingWeak(a))
    ensures r.Found? ==>
              && c.Cursor(a) < r.cube.Cursor(a) < 9
              && r.cell == IndexOfCell(a, r.cube.Cursor(a)) && Contains(a, r.cell)
              && c.State(r.cell) == WeakUnobtainable
              && forall i: Coord :: c.Cursor(a) < i < r.cube.Cursor(a) ==> c.MemberState(a, i) != WeakUnobtainable
    ensures r.NoPossibleCell? ==>
              && r.cube.Cursor(a) == 9
              && forall i: Coord :: c.Cursor(a) < i ==> c.MemberState(a, i) != WeakUnobtainable
  {
    var j := FirstFrom(c, a, c.Cursor(a) + 1, WeakUnobtainable);
    if j < 9 then
      MemberRoundTrip(a, j);
      Found(SetCursor(c, a, j, c.UsingWeak(a)), IndexOfCell(a, j))
    else NoPossibleCell(SetCursor(c, a, 9, c.UsingWeak(a)))
  }

  /** The first (FREE) pass, resumed from the cursor: the first FREE member after it, or,
      when there is none, the weak pass started afresh with the weak flag set. */
  function FreePass(c: Cube, a: AreaIndex): (r: Scan)
    requires c.Valid() && -1 <= c.Cursor(a) < 9
    ensures r.cube.Valid() && r.cube.cells == c.cells && r.cube.potentials == c.potentials
    ensures forall b: AreaIndex :: b != a ==> r.cube.Cursor(b) == c.Cursor(b) && r.cube.UsingWeak(b) == c.UsingWeak(b)
    ensures r.cube.UsingWeak(a) == (r.NoPossibleCell? || c.State(r.cell) != Free)
    ensures r.Found? ==> 0 <= r.cube.Cursor(a) < 9 && r.cell == IndexOfCell(a, r.cube.Cursor(a)) && Contains(a, r.cell)
    ensures r.Found? && c.State(r.cell) == Free ==>
              && c.Cursor(a) < r.cube.Cursor(a)
              && forall i: Coord :: c.Cursor(a) < i < r.cube.Cursor(a) ==> c.MemberState(a, i) != Free
    ensures r.Found? && c.State(r.cell) != Free ==>
              && c.State(r.cell) == WeakUnobtainable
              && (forall i: Coord :: c.Cursor(a) < i ==> c.MemberState(a, i) != Free)
              && (forall i: Coord :: i < r.cube.Cursor(a) ==> c.MemberState(a, i) != WeakUnobtainable)
    ensures r.NoPossibleCell? ==>
              && r.cube.Cursor(a) == 9
              && (forall i: Coord :: c.MemberState(a, i) != WeakUnobtainable)
              && (forall i: Coord :: c.Cursor(a) < i ==> c.MemberState(a, i) != Free)
  {
    var j := FirstFrom(c, a, c.Cursor(a) + 1, Free);
    if j < 9 then
      MemberRoundTrip(a, j);
      Found(SetCursor(c, a, j, false), IndexOfCell(a, j))
    else
      var c1 := SetCursor(c, a, -1, true);
      var r := WeakPass(c1, a);
      assert forall i: Coord :: c1.MemberState(a, i) == c.MemberState(a, i);
      assert r.cube.UsingWeak(a);
      r
  }

  /** IndexOfNextPossibileCell: resume the first pass over FREE members from the cursor;
      when it runs off the end, set the weak flag, reset the cursor and scan for WEAK members
      instead; when that pass also runs off the end, report NoPossibleCell with the cursor at 9.
      A second call after that is outside the contract (the source would scan past the area). */
  function NextPossibleCell(c: Cube, a: AreaIndex): (r: Scan)
    requires c.Valid() && -1 <= c.Cursor(a) < 9
    ensures r.cube.Valid()
    ensures r.cube.cells == c.cells && r.cube.potentials == c.potentials
    ensures forall b: AreaIndex :: b != a ==> r.cube.Cursor(b) == c.Cursor(b) && r.cube.UsingWeak(b) == c.UsingWeak(b)
    ensures c.UsingWeak(a) ==> r.cube.UsingWeak(a)
    // a candidate found is a member of the area, at the new cursor
    ensures r.Found? ==> 0 <= r.cube.Cursor(a) < 9 && r.cell == IndexOfCell(a, r.cube.Cursor(a)) && Contains(a, r.cell)
    // first pass: FREE members only, strictly after the old cursor, skipping no FREE member
    ensures r.Found? && !r.cube.UsingWeak(a) ==>
              && c.State(r.cell) == Free
              && c.Cursor(a) < r.cube.Cursor(a)
              && forall i: Coord :: c.Cursor(a) < i < r.cube.Cursor(a) ==> c.MemberState(a, i) != Free
    // weak pass: the first WEAK member after the weak cursor, and only once the FREE members
    // past the cursor ran out
    ensures r.Found? && r.cube.UsingWeak(a) ==>
              && c.State(r.cell) == WeakUnobtainable
              && (c.UsingWeak(a) ==> c.Cursor(a) < r.cube.Cursor(a))
              && (!c.UsingWeak(a) ==> forall i: Coord :: c.Cursor(a) < i ==> c.MemberState(a, i) != Free)
              && (forall i: Coord :: (if c.UsingWeak(a) then c.Cursor(a) else -1) < i < r.cube.Cursor(a) ==>
                                       c.MemberState(a, i) != WeakUnobtainable)
    // exhaustion: both passes came up empty
    ensures r.NoPossibleCell? ==>
              && r.cube.UsingWeak(a) && r.cube.Cursor(a) == 9
              && (forall i: Coord :: (if c.UsingWeak(a) then c.Cursor(a) else -1) < i ==>
                                       c.MemberState(a, i) != WeakUnobtainable)
              && (!c.UsingWeak(a) ==> forall i: Coord :: c.Cursor(a) < i ==> c.MemberState(a, i) != Free)
  {
    if c.UsingWeak(a) then WeakPass(c, a) else FreePass(c, a)
  }

  /** On a consistent cube a scan of an area of potential 0 always ends in NoPossibleCell. */
  lemma ZeroPotentialHasNoPossibleCell(c: Cube, a: AreaIndex)
    requires c.Valid() && Consistent(c) && -1 <= c.Cursor(a) < 9
    requires c.Potential(a) == 0
    ensures NextPossibleCell(c, a).NoPossibleCell?
  {
    PotentialMeaning(c, a);
    CountInZero(c.cells, a, Free, 9);
    CountInZero(c.cells, a, WeakUnobtainable, 9);
  }

  /** Area::value: the position of the first OCCUPIED member, or -1 when there is none. */
  function Value(c: Cube, a: AreaIndex): (r: int)
    requires c.Valid()
    ensures -1 <= r < 9
    ensures r == -1 <==> forall i: Coord :: c.MemberState(a, i) != Occupied
    ensures r >= 0 ==> c.MemberState(a, r) == Occupied && forall i: Coord :: i < r ==> c.MemberState(a, i) != Occupied
  {
    var j := FirstFrom(c, a, 0, Occupied);
    if j == 9 then -1 else j
  }

  // ---------------------------------------------------------------------------------
  // Reading the board off the cube

  /** The largest v < n whose candidate (x, y, v) is OCCUPIED, or -1. */
  function LastOccupied(c: Cube, x: Coord, y: Coord, n: int): (v: int)
    requires c.Valid() && 0 <= n <= 9
    ensures -1 <= v < n
    ensures v >= 0 ==> c.State(CellIndex(x, y, v)) == Occupied
    ensures forall w: Coord :: v < w < n ==> c.State(CellIndex(x, y, w)) != Occupied
    decreases n
  {
    if n == 0 then -1
    else if c.State(CellIndex(x, y, n - 1)) == Occupied then n - 1
    else LastOccupied(c, x, y, n - 1)
  }

  /** Board b shows cube c: a cell is empty exactly when none of its candidates is
      OCCUPIED, and otherwise holds one more than the largest OCCUPIED v. */
  ghost predicate ReadOff(c: Cube, b: Table.Grid)
    requires c.Valid()
  {
    && (forall x: Coord, y: Coord ::
          Table.Cell(b, x, y) == Table.Empty <==> forall v: Coord :: c.State(CellIndex(x, y, v)) != Occupied)
    && (forall x: Coord, y: Coord :: Table.Cell(b, x, y) != Table.Empty ==>
          && 1 <= Table.Cell(b, x, y) <= 9
          && c.State(CellIndex(x, y, Table.Cell(b, x, y) - 1)) == Occupied
          && forall w: Coord :: Table.Cell(b, x, y) - 1 < w ==> c.State(CellIndex(x, y, w)) != Occupied)
  }

  /** convertToTable: reset the table to Table::empty, then visit every candidate (x outer,
      y, v inner) and write v + 1 at (x, y) for each OCCUPIED one. A cell ends up empty
      exactly when none of its candidates is OCCUPIED, and otherwise holds one more than
      the largest OCCUPIED v. The previous contents of the table play no part. */
  method ConvertToTable(c: Cube, t: Table.Grid) returns (r: Table.Grid)
    requires c.Valid()
    ensures ReadOff(c, r)
  {
    var m := Matrix.Reset(t, Table.Empty);
    r := m;
    for x := 0 to 9
      invariant forall x': Coord, y': Coord ::
                  Table.Cell(r, x', y') == (if x' < x then LastOccupied(c, x', y', 9) + 1 else Table.Empty)
    {
      r := ConvertColumn(c, x, r);
    }
  }

  /** The middle loop of convertToTable, over the cells of column x. */
  method ConvertColumn(c: Cube, x: Coord, t: Table.Grid) returns (r: Table.Grid)
    requires c.Valid()
    requires forall y: Coord :: Table.Cell(t, x, y) == Table.Empty
    ensures forall y: Coord :: Table.Cell(r, x, y) == LastOccupied(c, x, y, 9) + 1
    ensures forall x': Coord, y: Coord :: x' != x ==> Table.Cell(r, x', y) == Table.Cell(t, x', y)
  {
    r := t;
    for y := 0 to 9
      invariant forall y': Coord :: Table.Cell(r, x, y') == (if y' < y then LastOccupied(c, x, y', 9) + 1 else Table.Empty)
      invariant forall x': Coord, y': Coord :: x' != x ==> Table.Cell(r, x', y') == Table.Cell(t, x', y')
    {
      r := ConvertCell(c, x, y, r);
    }
  }

  /** The innermost loop of convertToTable, over the candidates of cell (x, y). */
  method ConvertCell(c: Cube, x: Coord, y: Coord, t: Table.Grid) returns (r: Table.Grid)
    requires c.Valid() && Table.Cell(t, x, y) == Table.Empty
    ensures Table.Cell(r, x, y) == LastOccupied(c, x, y, 9) + 1
    ensures forall x': Coord, y': Coord :: (x', y') != (x, y) ==> Table.Cell(r, x', y') == Table.Cell(t, x', y')
  {
    r := t;
    for v := 0 to 9
      invariant Table.Cell(r, x, y) == LastOccupied(c, x, y, v) + 1
      invariant forall x': Coord, y': Coord :: (x', y') != (x, y) ==> Table.Cell(r, x', y') == Table.Cell(t, x', y')
    {
      if c.cells[x * 81 + y * 9 + v] == Occupied {
        assert c.State(CellIndex(x, y, v)) == Occupied;
        r := r.Set(x, y, v + 1);
      }
    }
  }
}
