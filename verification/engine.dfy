/**
 The search engine of the Solver: a current snapshot (cube, pool of remaining areas,
 history) and a stack of saved snapshots, with the decision and back-step counters.

 The engine keeps an invariant (`Inv`) that the search relies on:
 - every cube is consistent, its cursors are resumable, and no OCCUPIED candidate shares an
   area with a candidate that is not UNOBTAINABLE (`NoClash`);
 - every area that has left the pool has potential 0 (`PoolCovers`);
 - the pool shrinks by 4 per OCCUPIED candidate: |pool| + 4 * #OCCUPIED == 324;
 - the givens of the table are OCCUPIED.
 From these, an empty pool means 81 OCCUPIED candidates, one per board cell, no two in a
 common row, column or box: the board read off the cube is solved (`EmptyPoolIsSolved`).
 */
module Engine {
  import opened Indices
  import opened Cube
  import opened Pool
  import opened Counting
  import Table

  /** Snapshot: a cube, its pool of remaining areas, and the history of candidates whose
      weak downgrade a back-step applies to the snapshot below. */
  datatype Snapshot = Snapshot(cube: Cube, pool: seq<AreaIndex>, history: seq<CellIndex>)

  /** The solver: the current snapshot, the saved ones (top last), and the counters. */
  datatype Solver = Solver(current: Snapshot, stack: seq<Snapshot>, decisions: int, backsteps: int)

  // ---------------------------------------------------------------------------------
  // The engine invariant

  /** Addresses of the OCCUPIED candidates. */
  function OccupiedSet(c: Cube): (s: set<int>)
    requires c.Valid()
    ensures forall p :: p in s <==> 0 <= p < 729 && c.cells[p] == Occupied
  {
    set p | 0 <= p < 729 && c.cells[p] == Occupied
  }

  /** Every candidate sharing an area with an OCCUPIED one is UNOBTAINABLE. */
  ghost predicate NoClash(c: Cube)
    requires c.Valid()
  {
    forall d: CellIndex, e: CellIndex ::
      c.State(d) == Occupied && e != d && SharesArea(d, e) ==> c.State(e) == Unobtainable
  }

  /** Areas outside the pool have potential 0. */
  ghost predicate PoolCovers(sn: Snapshot)
    requires sn.cube.Valid()
  {
    forall a: AreaIndex :: a !in sn.pool ==> sn.cube.Potential(a) == 0
  }

  /** The givens of table t (values 1..9) are OCCUPIED in c. */
  ghost predicate KeepsGivens(c: Cube, t: Table.Grid)
    requires c.Valid()
  {
    forall x: Coord, y: Coord :: 1 <= Table.Cell(t, x, y) <= 9 ==>
      c.State(CellIndex(x, y, Table.Cell(t, x, y) - 1)) == Occupied
  }

  ghost predicate SnapshotInv(sn: Snapshot, t: Table.Grid)
  {
    && sn.cube.Valid()
    && Consistent(sn.cube)
    && CursorsInRange(sn.cube)
    && NoClash(sn.cube)
    && PoolCovers(sn)
    && |sn.pool| + 4 * |OccupiedSet(sn.cube)| == 324
    && KeepsGivens(sn.cube, t)
  }

  /** The engine invariant for a solve of table t: the current snapshot and every saved one
      keep it, and every saved snapshot has a front area to resume its decision from. */
  ghost predicate Inv(s: Solver, t: Table.Grid)
  {
    && SnapshotInv(s.current, t)
    && forall i :: 0 <= i < |s.stack| ==> SnapshotInv(s.stack[i], t) && |s.stack[i].pool| > 0
  }

  /** No snapshot holds a history entry. */
  predicate NoHistory(s: Solver)
  {
    s.current.history == [] && forall i :: 0 <= i < |s.stack| ==> s.stack[i].history == []
  }

  // ---------------------------------------------------------------------------------
  // Occupying a candidate

  /** The four areas containing ci. */
  function ContainingAreas(ci: CellIndex): (r: set<AreaIndex>)
    ensures forall a :: a in r <==> Contains(a, ci)
    ensures |r| == 4
  {
    var r := {ContainingArea(Column, ci), ContainingArea(Row, ci), ContainingArea(V, ci),
              ContainingArea(Subtable, ci)};
    assert r == {ContainingArea(Column, ci)} + {ContainingArea(Row, ci)} + {ContainingArea(V, ci)} +
                {ContainingArea(Subtable, ci)};
    r
  }

  /** A FREE or WEAK candidate of a consistent cube gives its areas positive potential. */
  lemma ContainingAreasPositive(c: Cube, ci: CellIndex, a: AreaIndex)
    requires c.Valid() && Consistent(c)
    requires c.State(ci) == Free || c.State(ci) == WeakUnobtainable
    requires Contains(a, ci)
    ensures c.Potential(a) > 0
  {
    PotentialMeaning(c, a);
    ContainingRoundTrip(a.kind, ci);
    CountInZero(c.cells, a, c.State(ci), 9);
  }

  /** Before a FREE or WEAK candidate is occupied, its four areas are still in the pool,
      so the pool has at least four entries for the partial_sort that follows. */
  lemma ContainingAreasInPool(sn: Snapshot, ci: CellIndex)
    requires sn.cube.Valid() && Consistent(sn.cube) && PoolCovers(sn)
    requires sn.cube.State(ci) == Free || sn.cube.State(ci) == WeakUnobtainable
    ensures forall a :: a in ContainingAreas(ci) ==> a in sn.pool
    ensures |sn.pool| >= 4
  {
    forall a | a in ContainingAreas(ci) ensures a in sn.pool {
      ContainingAreasPositive(sn.cube, ci, a);
    }
    ElementsCard(sn.pool, ContainingAreas(ci));
  }

  /** A set of entries of s has at most |s| elements. */
  lemma {:induction false} ElementsCard<T>(s: seq<T>, e: set<T>)
    requires forall x :: x in e ==> x in s
    ensures |e| <= |s|
    decreases |s|
  {
    if |s| > 0 {
      var rest := e - {s[0]};
      forall x | x in rest ensures x in s[1..] {
        var j :| 0 <= j < |s| && s[j] == x;
        assert s[1..][j - 1] == x;
      }
      ElementsCard(s[1..], rest);
    } else {
      assert e == {};
    }
  }

  /** markOccupied of a candidate that is not yet OCCUPIED adds exactly that candidate to the
      OCCUPIED ones. */
  lemma OccupyAddsOne(c: Cube, ci: CellIndex)
    requires c.Valid() && c.State(ci) != Occupied
    ensures OccupiedSet(MarkOccupied(c, ci)) == OccupiedSet(c) + {ci.Address()}
    ensures |OccupiedSet(MarkOccupied(c, ci))| == |OccupiedSet(c)| + 1
  {
    var r := MarkOccupied(c, ci);
    forall p | 0 <= p < 729 ensures r.cells[p] == Occupied <==> c.cells[p] == Occupied || p == ci.Address() {
      var d := CellAt(p);
      if d != ci {
        CellAddressInjective(ci);
        assert r.cells[p] == r.State(d) && c.cells[p] == c.State(d);
      }
    }
    assert ci.Address() !in OccupiedSet(c);
  }

  /** markOccupied of a FREE or WEAK candidate keeps NoClash. */
  lemma OccupyKeepsNoClash(c: Cube, ci: CellIndex)
    requires c.Valid() && NoClash(c)
    requires c.State(ci) == Free || c.State(ci) == WeakUnobtainable
    ensures NoClash(MarkOccupied(c, ci))
  {
    var r := MarkOccupied(c, ci);
    forall d: CellIndex, e: CellIndex | r.State(d) == Occupied && e != d && SharesArea(d, e)
      ensures r.State(e) == Unobtainable
    {
      if d == ci {
        assert c.State(e) != Occupied;
      } else {
        assert c.State(d) == Occupied;
        assert e != ci;
      }
    }
  }

  /** markOccupied turns no area with potential 0 into one with a positive potential. */
  lemma OccupyKeepsZeros(c: Cube, ci: CellIndex, a: AreaIndex)
    requires c.Valid() && Consistent(c) && c.Potential(a) == 0
    ensures MarkOccupied(c, ci).Potential(a) == 0
  {
    var r := MarkOccupied(c, ci);
    PotentialMeaning(c, a);
    CountInZero(c.cells, a, Free, 9);
    CountInZero(c.cells, a, WeakUnobtainable, 9);
    forall i: Coord ensures r.cells[IndexOfCell(a, i).Address()] != Free &&
                            r.cells[IndexOfCell(a, i).Address()] != WeakUnobtainable {
      assert r.State(IndexOfCell(a, i)) == r.cells[IndexOfCell(a, i).Address()];
      assert c.State(IndexOfCell(a, i)) == c.cells[IndexOfCell(a, i).Address()];
    }
    CountInZero(r.cells, a, Free, 9);
    CountInZero(r.cells, a, WeakUnobtainable, 9);
    TrackedConsistency(c, r);
    PotentialMeaning(r, a);
  }

  /** Every potential of a consistent cube is at least 0. */
  lemma PotentialsNonnegative(c: Cube)
    requires c.Valid() && Consistent(c)
    ensures forall a: AreaIndex :: c.Potential(a) >= 0
  {
    forall a: AreaIndex ensures c.Potential(a) >= 0 {
      PotentialMeaning(c, a);
    }
  }

  /** Erasing the first n areas after partial_sort(begin, begin + n, end), when the pool
      holds at least n areas of potential 0, erases only areas of potential 0. */
  lemma EraseOfZeros(m: Cube, pool: seq<AreaIndex>, r: seq<AreaIndex>, n: int, zeros: set<AreaIndex>)
    requires m.Valid() && Consistent(m)
    requires forall a :: a in zeros ==> a in pool && m.Potential(a) == 0
    requires |zeros| >= n
    requires PartialSorted(m.potentials, pool, r, n)
    ensures forall j :: 0 <= j < n ==> m.Potential(r[j]) == 0
    ensures forall a :: a in pool ==> a in r[n..] || m.Potential(a) == 0
  {
    PotentialsNonnegative(m);
    assert forall a :: a in pool ==> Key(m.potentials, a) >= 0 by {
      forall a | a in pool ensures Key(m.potentials, a) >= 0 {
        assert Key(m.potentials, a) == m.Potential(a);
      }
    }
    ErasedAreZero(m.potentials, pool, r, n, zeros);
    forall j | 0 <= j < n ensures m.Potential(r[j]) == 0 {
      assert Key(m.potentials, r[j]) == 0;
    }
  }

  /** After markOccupied on a consistent cube the four areas containing the candidate have
      potential 0. */
  lemma ContainingAreasZero(c: Cube, ci: CellIndex)
    requires c.Valid() && Consistent(c)
    ensures Consistent(MarkOccupied(c, ci))
    ensures forall a :: a in ContainingAreas(ci) ==> MarkOccupied(c, ci).Potential(a) == 0
  {
    MarkOccupiedClearsContainingAreas(c, ci, Column);
    MarkOccupiedClearsContainingAreas(c, ci, Row);
    MarkOccupiedClearsContainingAreas(c, ci, V);
    MarkOccupiedClearsContainingAreas(c, ci, Subtable);
    forall a | a in ContainingAreas(ci) ensures MarkOccupied(c, ci).Potential(a) == 0 {
      assert ContainingArea(a.kind, ci) == a;
    }
  }

  /** The 4 areas the commit step erases have potential 0 after markOccupied. */
  lemma CommitErasesZeros(sn: Snapshot, ci: CellIndex, r: seq<AreaIndex>)
    requires sn.cube.Valid() && Consistent(sn.cube) && PoolCovers(sn)
    requires sn.cube.State(ci) == Free || sn.cube.State(ci) == WeakUnobtainable
    requires PartialSorted(MarkOccupied(sn.cube, ci).potentials, sn.pool, r, 4)
    ensures forall a :: a in sn.pool ==> a in r[4..] || MarkOccupied(sn.cube, ci).Potential(a) == 0
  {
    ContainingAreasZero(sn.cube, ci);
    ContainingAreasInPool(sn, ci);
    EraseOfZeros(MarkOccupied(sn.cube, ci), sn.pool, r, 4, ContainingAreas(ci));
  }

  /** After the commit step, the areas outside the shortened pool still have potential 0. */
  lemma CommitKeepsPoolCovers(sn: Snapshot, ci: CellIndex, r: seq<AreaIndex>)
    requires sn.cube.Valid() && Consistent(sn.cube) && PoolCovers(sn)
    requires sn.cube.State(ci) == Free || sn.cube.State(ci) == WeakUnobtainable
    requires PartialSorted(MarkOccupied(sn.cube, ci).potentials, sn.pool, r, 4)
    ensures PoolCovers(Snapshot(MarkOccupied(sn.cube, ci), r[4..], sn.history))
  {
    CommitErasesZeros(sn, ci, r);
    forall a: AreaIndex | a !in r[4..] ensures MarkOccupied(sn.cube, ci).Potential(a) == 0 {
      if a !in sn.pool {
        OccupyKeepsZeros(sn.cube, ci, a);
      }
    }
  }

  /** markOccupied leaves every given OCCUPIED. */
  lemma OccupyKeepsGivens(c: Cube, ci: CellIndex, t: Table.Grid)
    requires c.Valid() && KeepsGivens(c, t)
    ensures KeepsGivens(MarkOccupied(c, ci), t)
  {
    var m := MarkOccupied(c, ci);
    forall x: Coord, y: Coord | 1 <= Table.Cell(t, x, y) <= 9
      ensures m.State(CellIndex(x, y, Table.Cell(t, x, y) - 1)) == Occupied
    {
      OccupyKeepsOccupied(c, ci, CellIndex(x, y, Table.Cell(t, x, y) - 1));
    }
  }

  /** markOccupied never takes a candidate out of OCCUPIED. */
  lemma OccupyKeepsOccupied(c: Cube, ci: CellIndex, d: CellIndex)
    requires c.Valid() && c.State(d) == Occupied
    ensures MarkOccupied(c, ci).State(d) == Occupied
  {
  }

  /** The commit step the solver takes for a FREE or WEAK candidate -- markOccupied, then
      partial_sort of the 4 least areas to the front and erase of those 4 -- keeps the
      snapshot invariant: the 4 erased areas are areas of potential 0. */
  lemma OccupyKeepsInv(sn: Snapshot, ci: CellIndex, r: seq<AreaIndex>, t: Table.Grid)
    requires SnapshotInv(sn, t)
    requires sn.cube.State(ci) == Free || sn.cube.State(ci) == WeakUnobtainable
    requires PartialSorted(MarkOccupied(sn.cube, ci).potentials, sn.pool, r, 4)
    ensures SnapshotInv(Snapshot(MarkOccupied(sn.cube, ci), r[4..], sn.history), t)
  {
    var c := sn.cube;
    var m := MarkOccupied(c, ci);
    MarkOccupiedClearsContainingAreas(c, ci, Column);
    SameCursorsKeepRange(c, m);
    OccupyKeepsNoClash(c, ci);
    OccupyAddsOne(c, ci);
    CommitKeepsPoolCovers(sn, ci, r);
    OccupyKeepsGivens(c, ci, t);
  }

  /** Reordering the pool keeps the snapshot invariant. */
  lemma ReorderKeepsInv(sn: Snapshot, r: seq<AreaIndex>, k: int, t: Table.Grid)
    requires SnapshotInv(sn, t) && PartialSorted(sn.cube.potentials, sn.pool, r, k)
    ensures SnapshotInv(sn.(pool := r), t)
  {
    SameEntries(sn.cube.potentials, sn.pool, r, k);
  }

  /** Advancing a cursor to a candidate found keeps the snapshot invariant. */
  lemma ScanKeepsInv(sn: Snapshot, a: AreaIndex, t: Table.Grid)
    requires SnapshotInv(sn, t) && NextPossibleCell(sn.cube, a).Found?
    ensures SnapshotInv(sn.(cube := NextPossibleCell(sn.cube, a).cube), t)
  {
    var c := sn.cube;
    var c1 := NextPossibleCell(c, a).cube;
    forall b: AreaIndex ensures AreaWeight(c1, b) == AreaWeight(c, b) {
      assert Count(c1, b, Free) == Count(c, b, Free);
      assert Count(c1, b, WeakUnobtainable) == Count(c, b, WeakUnobtainable);
    }
    assert OccupiedSet(c1) == OccupiedSet(c);
  }

  // ---------------------------------------------------------------------------------
  // The snapshot stack

  /** takeSnapshot: push the current snapshot; the new current one is a copy of its cube and
      pool with an empty history (the Snapshot copy constructor). */
  function TakeSnapshot(s: Solver): (r: Solver)
    ensures |r.stack| == |s.stack| + 1 && r.stack[..|s.stack|] == s.stack && r.stack[|s.stack|] == s.current
    ensures r.current.cube == s.current.cube && r.current.pool == s.current.pool && r.current.history == []
    ensures r.decisions == s.decisions && r.backsteps == s.backsteps
  {
    Solver(Snapshot(s.current.cube, s.current.pool, []), s.stack + [s.current], s.decisions, s.backsteps)
  }

  /** restoreLastSnapshot: pop the top snapshot and make it current, after applying
      markWeakUnobtainable, in the restored cube, to every candidate of the history of the
      snapshot being discarded. */
  function RestoreLastSnapshot(s: Solver): (r: Solver)
    requires |s.stack| > 0 && s.stack[|s.stack| - 1].cube.Valid()
    ensures |r.stack| == |s.stack| - 1 && r.stack == s.stack[..|s.stack| - 1]
    ensures var top := s.stack[|s.stack| - 1];
            && r.current.pool == top.pool && r.current.history == top.history
            && r.current.cube.Valid() && SameCursors(top.cube, r.current.cube)
            && TracksWeights(top.cube, r.current.cube)
            && forall d: CellIndex :: r.current.cube.State(d) ==
                 (if d in s.current.history && top.cube.State(d) == Free then WeakUnobtainable else top.cube.State(d))
    ensures r.decisions == s.decisions && r.backsteps == s.backsteps
  {
    var top := s.stack[|s.stack| - 1];
    Solver(top.(cube := MarkAllWeak(top.cube, s.current.history)), s.stack[..|s.stack| - 1],
           s.decisions, s.backsteps)
  }

  /** A back-step right after a snapshot was taken gives back the solver as it was: the
      fresh copy has no history, so nothing is downgraded. */
  lemma RestoreUndoesTake(s: Solver)
    requires s.current.cube.Valid()
    ensures RestoreLastSnapshot(TakeSnapshot(s)) == s
  {
    var r := RestoreLastSnapshot(TakeSnapshot(s));
    assert r.current.cube == s.current.cube;
    assert r.stack == s.stack;
  }

  /** The weak downgrade of a back-step keeps the snapshot invariant, whatever the history. */
  lemma WeakKeepsInv(sn: Snapshot, list: seq<CellIndex>, t: Table.Grid)
    requires SnapshotInv(sn, t)
    ensures SnapshotInv(sn.(cube := MarkAllWeak(sn.cube, list)), t)
  {
    var c := sn.cube;
    var w := MarkAllWeak(c, list);
    TrackedConsistency(c, w);
    SameCursorsKeepRange(c, w);
    forall p | 0 <= p < 729 ensures w.cells[p] == Occupied <==> c.cells[p] == Occupied {
      assert w.cells[p] == w.State(CellAt(p)) && c.cells[p] == c.State(CellAt(p));
    }
    assert OccupiedSet(w) == OccupiedSet(c);
    forall a: AreaIndex | a !in sn.pool ensures w.Potential(a) == 0 {
      WeakKeepsZero(c, list, a);
    }
  }

  /** The weak downgrade turns no area of potential 0 into one of positive potential. */
  lemma WeakKeepsZero(c: Cube, list: seq<CellIndex>, a: AreaIndex)
    requires c.Valid() && Consistent(c) && c.Potential(a) == 0
    ensures MarkAllWeak(c, list).Potential(a) == 0
  {
    var w := MarkAllWeak(c, list);
    PotentialMeaning(c, a);
    CountInZero(c.cells, a, Free, 9);
    CountInZero(c.cells, a, WeakUnobtainable, 9);
    forall i: Coord ensures w.cells[IndexOfCell(a, i).Address()] != Free &&
                            w.cells[IndexOfCell(a, i).Address()] != WeakUnobtainable {
      assert w.State(IndexOfCell(a, i)) == w.cells[IndexOfCell(a, i).Address()];
      assert c.State(IndexOfCell(a, i)) == c.cells[IndexOfCell(a, i).Address()];
    }
    CountInZero(w.cells, a, Free, 9);
    CountInZero(w.cells, a, WeakUnobtainable, 9);
    TrackedConsistency(c, w);
    PotentialMeaning(w, a);
  }

  /** takeSnapshot keeps the engine invariant when the current pool has a front area. */
  lemma TakeKeepsInv(s: Solver, t: Table.Grid)
    requires Inv(s, t) && |s.current.pool| > 0
    ensures Inv(TakeSnapshot(s), t)
  {
  }

  /** restoreLastSnapshot keeps the engine invariant as long as the saved snapshots keep it:
      the state of the snapshot being discarded plays no part beyond its history. */
  lemma RestoreKeepsInv(s: Solver, t: Table.Grid)
    requires |s.stack| > 0
    requires forall i :: 0 <= i < |s.stack| ==> SnapshotInv(s.stack[i], t) && |s.stack[i].pool| > 0
    ensures s.stack[|s.stack| - 1].cube.Valid()
    ensures Inv(RestoreLastSnapshot(s), t) && |RestoreLastSnapshot(s).current.pool| > 0
  {
    WeakKeepsInv(s.stack[|s.stack| - 1], s.current.history, t);
  }

  // ---------------------------------------------------------------------------------
  // deterministicMove

  /** markOccupied as each build runs it: with the debug checks or without. */
  function Occupy(c: Cube, ci: CellIndex, debug: bool): (r: Checked<Cube>)
    requires c.Valid()
    ensures r.Ok? ==> r.value == MarkOccupied(c, ci)
    ensures !debug ==> r.Ok?
    ensures debug && Consistent(c) ==> (r.Ok? <==> c.State(ci) == Free || c.State(ci) == WeakUnobtainable)
  {
    if debug then
      assert Consistent(c) ==>
               (MarkOccupiedChecked(c, ci).Ok? <==> c.State(ci) == Free || c.State(ci) == WeakUnobtainable) by {
        if Consistent(c) {
          CheckedMarkOccupiedOnConsistentCube(c, ci);
        }
      }
      MarkOccupiedChecked(c, ci)
    else Ok(MarkOccupied(c, ci))
  }

  /** How deterministicMove ends: the pool ran empty (true), the least potential is 0 or is
      neither 10 nor 1 (false), the forced area had no candidate left (NoPossibleCell in the
      release build, InconsistencyError in the debug build). */
  datatype MoveOutcome = Complete | Stuck | NoCell | MoveFailed(error: InconsistencyError)

  /** rest is pool with 4 areas of least potential under pot brought to the front and
      erased: what partial_sort over 4 followed by erase leaves. */
  ghost predicate ErasesLeastFour(pot: seq<int>, pool: seq<AreaIndex>, rest: seq<AreaIndex>)
    requires |pot| == 324
  {
    exists sorted :: PartialSorted(pot, pool, sorted, 4) && rest == sorted[4..]
  }

  /** Erasing 4 least areas depends on the pool only through its entries. */
  lemma ErasesFromReordered(pot: seq<int>, pool: seq<AreaIndex>, reordered: seq<AreaIndex>, rest: seq<AreaIndex>)
    requires |pot| == 324 && |reordered| == |pool| && multiset(reordered) == multiset(pool)
    requires ErasesLeastFour(pot, reordered, rest)
    ensures ErasesLeastFour(pot, pool, rest)
  {
    var sorted :| PartialSorted(pot, reordered, sorted, 4) && rest == sorted[4..];
    assert PartialSorted(pot, pool, sorted, 4);
  }

  /** The commit step on the current snapshot: occupy ci, bring 4 least areas to the front
      and erase them. */
  method Commit(sn: Snapshot, ci: CellIndex, debug: bool, ghost t: Table.Grid) returns (r: Snapshot)
    requires SnapshotInv(sn, t)
    requires sn.cube.State(ci) == Free || sn.cube.State(ci) == WeakUnobtainable
    ensures SnapshotInv(r, t) && r.history == sn.history
    ensures r.cube == MarkOccupied(sn.cube, ci)
    ensures |r.pool| == |sn.pool| - 4
    ensures r.cube.Valid() && ErasesLeastFour(r.cube.potentials, sn.pool, r.pool)
    ensures OccupiedSet(r.cube) == OccupiedSet(sn.cube) + {ci.Address()}
  {
    var occ := Occupy(sn.cube, ci, debug);
    var m := occ.value;
    ContainingAreasInPool(sn, ci);
    var sorted := PartialSort(m.potentials, sn.pool, 4);
    OccupyKeepsInv(sn, ci, sorted, t);
    OccupyAddsOne(sn.cube, ci);
    r := Snapshot(m, sorted[4..], sn.history);
    assert PartialSorted(r.cube.potentials, sn.pool, sorted, 4);
  }

  /** The least potential among the areas of a non-empty pool. */
  function LeastPotential(c: Cube, pool: seq<AreaIndex>): int
    requires c.Valid() && |pool| > 0
  {
    c.Potential(pool[LeastAt(c.potentials, pool)])
  }

  /** The pool is not empty and its least potential forces nothing: it is 0, or it is
      neither 10 (one FREE member) nor 1 (one WEAK member and no FREE one). */
  predicate StopsAtOnce(sn: Snapshot)
    requires sn.cube.Valid()
  {
    && |sn.pool| > 0
    && var p := LeastPotential(sn.cube, sn.pool);
       p == 0 || (p != 10 && p != 1)
  }

  /** The front of a partial sort with k >= 1 has the least potential of the pool. */
  lemma FrontHasLeastPotential(c: Cube, pool: seq<AreaIndex>, sorted: seq<AreaIndex>)
    requires c.Valid() && |pool| > 0 && PartialSorted(c.potentials, pool, sorted, 1)
    ensures c.Potential(sorted[0]) == LeastPotential(c, pool)
  {
    var m := LeastAt(c.potentials, pool);
    FrontIsLeast(c.potentials, pool, sorted, 1);
    assert pool[m] in pool;
    SameEntries(c.potentials, pool, sorted, 1);
    assert sorted[0] in pool;
    var j :| 0 <= j < |pool| && pool[j] == sorted[0];
  }

  /** One forced commit of deterministicMove: front is an area of a's pool of least
      potential, that potential is 10 or 1, b's cube is a's cube with the next possible
      cell of front occupied (its cursor advanced), and b's pool is a's pool with 4 areas of
      least potential in b's cube erased. */
  ghost predicate ForcedStep(a: Snapshot, front: AreaIndex, b: Snapshot)
  {
    && a.cube.Valid() && CursorsInRange(a.cube) && |a.pool| > 0 && front in a.pool
    && a.cube.Potential(front) == LeastPotential(a.cube, a.pool)
    && (a.cube.Potential(front) == 10 || a.cube.Potential(front) == 1)
    && NextPossibleCell(a.cube, front).Found?
    && b.cube == MarkOccupied(NextPossibleCell(a.cube, front).cube, NextPossibleCell(a.cube, front).cell)
    && b.cube.Valid() && ErasesLeastFour(b.cube.potentials, a.pool, b.pool)
  }

  /** A forced step keeps 4 areas fewer, every one of them taken from the pool it started
      from. */
  lemma ForcedStepShrinksPool(a: Snapshot, front: AreaIndex, b: Snapshot)
    requires ForcedStep(a, front, b)
    ensures |b.pool| == |a.pool| - 4
    ensures forall x :: x in b.pool ==> x in a.pool
  {
    var sorted :| PartialSorted(b.cube.potentials, a.pool, sorted, 4) && b.pool == sorted[4..];
    SameEntries(b.cube.potentials, a.pool, sorted, 4);
  }

  /** A run of forced commits: trace[i + 1] follows from trace[i] by a forced step on
      fronts[i]. */
  ghost predicate ForcedChain(trace: seq<Snapshot>, fronts: seq<AreaIndex>)
  {
    && |trace| == |fronts| + 1
    && forall i {:trigger ForcedStep(trace[i], fronts[i], trace[i + 1])} :: 0 <= i < |fronts| ==>
         ForcedStep(trace[i], fronts[i], trace[i + 1])
  }

  /** Occupying the next possible cell of the front of a partial sort whose potential is 10
      or 1 is a forced step. */
  lemma CommitIsForced(pre: Snapshot, sorted: seq<AreaIndex>, next: Snapshot)
    requires pre.cube.Valid() && CursorsInRange(pre.cube) && |pre.pool| > 0
    requires PartialSorted(pre.cube.potentials, pre.pool, sorted, 1)
    requires pre.cube.Potential(sorted[0]) == 10 || pre.cube.Potential(sorted[0]) == 1
    requires NextPossibleCell(pre.cube, sorted[0]).Found?
    requires next.cube == MarkOccupied(NextPossibleCell(pre.cube, sorted[0]).cube, NextPossibleCell(pre.cube, sorted[0]).cell)
    requires next.cube.Valid() && ErasesLeastFour(next.cube.potentials, sorted, next.pool)
    ensures ForcedStep(pre, sorted[0], next)
  {
    ErasesFromReordered(next.cube.potentials, pre.pool, sorted, next.pool);
    FrontHasLeastPotential(pre.cube, pre.pool, sorted);
    SameEntries(pre.cube.potentials, pre.pool, sorted, 1);
    assert sorted[0] in sorted;
  }

  /** A forced step from the last snapshot of a forced chain extends it. */
  lemma ExtendChain(trace: seq<Snapshot>, fronts: seq<AreaIndex>, front: AreaIndex, b: Snapshot)
    requires ForcedChain(trace, fronts) && ForcedStep(trace[|trace| - 1], front, b)
    ensures ForcedChain(trace + [b], fronts + [front]) && (trace + [b])[0] == trace[0]
  {
    var u, f := trace + [b], fronts + [front];
    forall i | 0 <= i < |f| ensures ForcedStep(u[i], f[i], u[i + 1]) {
      if i < |fronts| {
        assert u[i] == trace[i] && f[i] == fronts[i] && u[i + 1] == trace[i + 1];
      } else {
        assert u[i] == trace[|trace| - 1] && f[i] == front && u[i + 1] == b;
      }
    }
  }

  /** How one round of deterministicMove's loop ends: a forced commit, a front of least
      potential that forces nothing, or a forced front without a possible cell. */
  datatype Round = Committed | Unforced | Exhausted

  /** One round of deterministicMove's loop: bring an area of least potential to the front;
      Unforced unless its potential is 10 or 1; otherwise take its next possible cell,
      Exhausted when there is none, else occupy it and erase 4 areas of least potential. */
  method ForcedRound(cur: Snapshot, debug: bool, ghost t: Table.Grid)
    returns (k: Round, front: AreaIndex, next: Snapshot)
    requires SnapshotInv(cur, t) && |cur.pool| > 0
    ensures next.history == cur.history && next.cube.Valid()
    ensures k.Unforced? <==> StopsAtOnce(cur)
    ensures k.Committed? ==>
              && SnapshotInv(next, t) && ForcedStep(cur, front, next)
              && OccupiedSet(cur.cube) < OccupiedSet(next.cube) && |next.pool| == |cur.pool| - 4
    ensures !k.Committed? ==>
              && |next.pool| == |cur.pool| && front == next.pool[0] && front in cur.pool
              && OccupiedSet(next.cube) == OccupiedSet(cur.cube)
              && next.cube.Potential(next.pool[0]) == LeastPotential(cur.cube, cur.pool)
              && (forall a :: a in next.pool ==> next.cube.Potential(next.pool[0]) <= next.cube.Potential(a))
    ensures k.Unforced? ==> SnapshotInv(next, t) && next.cube == cur.cube
    ensures k.Exhausted? ==> NextPossibleCell(cur.cube, next.pool[0]) == NoPossibleCell(next.cube)
  {
    var sorted := PartialSort(cur.cube.potentials, cur.pool, 1);
    ReorderKeepsInv(cur, sorted, 1, t);
    FrontIsLeast(cur.cube.potentials, cur.pool, sorted, 1);
    SameEntries(cur.cube.potentials, cur.pool, sorted, 1);
    FrontHasLeastPotential(cur.cube, cur.pool, sorted);
    assert sorted[0] in sorted;
    front := sorted[0];
    var p := cur.cube.Potential(front);
    if p == 0 || (p != 10 && p != 1) {
      return Unforced, front, cur.(pool := sorted);
    }
    var scan := NextPossibleCell(cur.cube, front);
    if scan.NoPossibleCell? {
      assert OccupiedSet(scan.cube) == OccupiedSet(cur.cube);
      return Exhausted, front, Snapshot(scan.cube, sorted, cur.history);
    }
    ScanKeepsInv(cur.(pool := sorted), front, t);
    next := Commit(Snapshot(scan.cube, sorted, cur.history), scan.cell, debug, t);
    CommitIsForced(cur, sorted, next);
    k := Committed;
  }

  /** deterministicMove: while the pool is not empty, bring an area of least potential to the
      front; stop unless its potential is 10 or 1 (one FREE, or one WEAK and no FREE member);
      otherwise occupy its next possible candidate and erase 4 areas of least potential. */
  method DeterministicMove(s: Solver, debug: bool, ghost t: Table.Grid) returns (o: MoveOutcome, r: Solver)
    requires Inv(s, t)
    ensures r.stack == s.stack && r.decisions == s.decisions && r.backsteps == s.backsteps
    ensures r.current.history == s.current.history
    ensures r.current.cube.Valid() && OccupiedSet(s.current.cube) <= OccupiedSet(r.current.cube)
    ensures |s.current.pool| - |r.current.pool| ==
            4 * (|OccupiedSet(r.current.cube)| - |OccupiedSet(s.current.cube)|)
    ensures o.Complete? || o.Stuck? ==> Inv(r, t)
    ensures o.Complete? <==> r.current.pool == [] && Inv(r, t)
    ensures o.Stuck? ==>
              && |r.current.pool| > 0
              && (forall a :: a in r.current.pool ==>
                    r.current.cube.Potential(r.current.pool[0]) <= r.current.cube.Potential(a))
              && var p := r.current.cube.Potential(r.current.pool[0]);
                 p == 0 || (p != 10 && p != 1)
    // the loop stops at once, leaving the cube as it was, exactly when the least potential
    // forces nothing
    ensures StopsAtOnce(s.current) <==>
              o.Stuck? && OccupiedSet(r.current.cube) == OccupiedSet(s.current.cube)
    ensures StopsAtOnce(s.current) ==> r.current.cube == s.current.cube
    // the forced area at the front had no possible cell left
    ensures o.NoCell? || o.MoveFailed? ==>
              && |r.current.pool| > 0
              && (forall a :: a in r.current.pool ==>
                    r.current.cube.Potential(r.current.pool[0]) <= r.current.cube.Potential(a))
              && (var p := r.current.cube.Potential(r.current.pool[0]); p == 10 || p == 1)
              && r.current.cube.Cursor(r.current.pool[0]) == 9
              && r.current.cube.UsingWeak(r.current.pool[0])
    ensures o.NoCell? ==> !debug
    ensures o.MoveFailed? ==> debug && o.error.NoPossibleCellInForcedArea?
    // every commit was forced: the cube reached ends a chain of forced steps from the start,
    // and a move without a cell failed on the front area of the chain's last snapshot
    ensures exists trace: seq<Snapshot>, fronts: seq<AreaIndex> ::
              && ForcedChain(trace, fronts) && trace[0] == s.current
              && (o.Complete? || o.Stuck? ==> trace[|trace| - 1].cube == r.current.cube)
              && (o.NoCell? || o.MoveFailed? ==>
                    && trace[|trace| - 1].cube.Valid() && CursorsInRange(trace[|trace| - 1].cube)
                    && |r.current.pool| > 0 && r.current.pool[0] in trace[|trace| - 1].pool
                    && NextPossibleCell(trace[|trace| - 1].cube, r.current.pool[0]) == NoPossibleCell(r.current.cube))
  {
    var cur := s.current;
    ghost var first := true;
    ghost var trace, fronts := [s.current], [];
    while |cur.pool| > 0
      invariant SnapshotInv(cur, t) && cur.history == s.current.history
      invariant OccupiedSet(s.current.cube) <= OccupiedSet(cur.cube)
      invariant first ==> cur == s.current
      invariant !first ==> !StopsAtOnce(s.current) && OccupiedSet(s.current.cube) < OccupiedSet(cur.cube)
      invariant ForcedChain(trace, fronts) && trace[0] == s.current && trace[|trace| - 1] == cur
      decreases |cur.pool|
    {
      var k, front, next := ForcedRound(cur, debug, t);
      if k.Unforced? {
        return Stuck, s.(current := next);
      } else if k.Exhausted? {
        if debug {
          return MoveFailed(NoPossibleCellInForcedArea(front)), s.(current := next);
        }
        return NoCell, s.(current := next);
      }
      ExtendChain(trace, fronts, front, next);
      trace, fronts := trace + [next], fronts + [front];
      cur := next;
      first := false;
    }
    return Complete, s.(current := cur);
  }

  // ---------------------------------------------------------------------------------
  // An empty pool is a solution

  /** 81 OCCUPIED candidates, no two in a common area. */
  ghost predicate SolvedCube(c: Cube)
  {
    c.Valid() && NoClash(c) && |OccupiedSet(c)| == 81
  }

  /** deterministicMove's `true`: with the invariant, an empty pool means 81 OCCUPIED
      candidates that do not clash. */
  lemma EmptyPoolIsSolved(sn: Snapshot, t: Table.Grid)
    requires SnapshotInv(sn, t) && sn.pool == []
    ensures SolvedCube(sn.cube)
  {
  }

  /** Two OCCUPIED candidates of a clash-free cube at one board cell are the same. */
  lemma OneDigitPerCell(c: Cube, d: CellIndex, e: CellIndex)
    requires c.Valid() && NoClash(c)
    requires c.State(d) == Occupied && c.State(e) == Occupied && d.x == e.x && d.y == e.y
    ensures d == e
  {
    assert ContainingArea(V, d) == ContainingArea(V, e);
  }

  /** In a solved cube every board cell has an OCCUPIED candidate. */
  lemma EveryCellOccupied(c: Cube, x: Coord, y: Coord)
    requires SolvedCube(c)
    ensures exists v: Coord :: c.State(CellIndex(x, y, v)) == Occupied
  {
    var occ := OccupiedSet(c);
    var f := (p: int) => p / 9;
    forall p, q | p in occ && q in occ && f(p) == f(q) ensures p == q {
      var d := CellAt(p);
      var e := CellAt(q);
      assert d.x == e.x && d.y == e.y;
      OneDigitPerCell(c, d, e);
    }
    InjectiveImageCard(occ, f);
    forall q | q in Image(occ, f) ensures 0 <= q < 81 {
      var p :| p in occ && q == f(p);
    }
    FullSubsetOfRange(Image(occ, f), 81);
    assert x * 9 + y in Image(occ, f);
    var p :| p in occ && f(p) == x * 9 + y;
    var d := CellAt(p);
    assert d.x == x && d.y == y;
  }

  /** Two distinct cells of group g of the board, holding the same digit, are candidates
      that share an area. */
  lemma GroupCellsShare(g: int, k1: int, k2: int, v: Coord)
    requires 0 <= g < 27 && 0 <= k1 < 9 && 0 <= k2 < 9 && k1 != k2
    ensures var (x1, y1) := Table.GroupCell(g, k1);
            var (x2, y2) := Table.GroupCell(g, k2);
            CellIndex(x1, y1, v) != CellIndex(x2, y2, v) && SharesArea(CellIndex(x1, y1, v), CellIndex(x2, y2, v))
  {
    var (x1, y1) := Table.GroupCell(g, k1);
    var (x2, y2) := Table.GroupCell(g, k2);
    if g >= 18 {
      var b := g - 18;
      assert y1 / 3 == b / 3 && x1 / 3 == b % 3;
      assert y2 / 3 == b / 3 && x2 / 3 == b % 3;
      assert k1 == (y1 % 3) * 3 + x1 % 3;
      assert k2 == (y2 % 3) * 3 + x2 % 3;
    }
  }

  /** The board read off a solved cube is solved: every row, column and box holds the
      digits 1..9 once each. */
  lemma SolvedCubeBoard(c: Cube, b: Table.Grid)
    requires SolvedCube(c) && ReadOff(c, b)
    ensures Table.Solved(b)
  {
    forall x: Coord, y: Coord ensures 1 <= Table.Cell(b, x, y) <= 9 {
      EveryCellOccupied(c, x, y);
    }
    forall g | 0 <= g < 27 ensures Table.IsDigitPermutation(Table.GroupValues(b, g)) {
      SolvedGroup(c, b, g);
    }
  }

  /** Each group of the board read off a solved cube holds the digits 1..9 once each. */
  lemma SolvedGroup(c: Cube, b: Table.Grid, g: int)
    requires SolvedCube(c) && ReadOff(c, b) && 0 <= g < 27
    ensures Table.IsDigitPermutation(Table.GroupValues(b, g))
  {
    var s := Table.GroupValues(b, g);
    forall k1, k2 | 0 <= k1 < k2 < 9 ensures s[k1] != s[k2] {
      SolvedGroupDistinct(c, b, g, k1, k2);
    }
    forall k | 0 <= k < 9 ensures 1 <= s[k] <= 9 {
      EveryCellOccupied(c, Table.GroupCell(g, k).0, Table.GroupCell(g, k).1);
    }
    Table.DistinctDigitsArePermutation(s);
  }

  /** Two cells of one group of the board read off a solved cube hold different digits:
      the OCCUPIED candidate of the first makes the same digit UNOBTAINABLE in the second. */
  lemma SolvedGroupDistinct(c: Cube, b: Table.Grid, g: int, k1: int, k2: int)
    requires SolvedCube(c) && ReadOff(c, b) && 0 <= g < 27 && 0 <= k1 < k2 < 9
    ensures Table.GroupValues(b, g)[k1] != Table.GroupValues(b, g)[k2]
  {
    var s := Table.GroupValues(b, g);
    var (x1, y1) := Table.GroupCell(g, k1);
    var (x2, y2) := Table.GroupCell(g, k2);
    EveryCellOccupied(c, x1, y1);
    EveryCellOccupied(c, x2, y2);
    var v1: Coord := s[k1] - 1;
    GroupCellsShare(g, k1, k2, v1);
    assert c.State(CellIndex(x1, y1, v1)) == Occupied;
    assert c.State(CellIndex(x2, y2, v1)) == Unobtainable;
    assert c.State(CellIndex(x2, y2, s[k2] - 1)) == Occupied;
  }

  /** The board read off a clash-free cube that keeps the givens agrees with every given. */
  lemma BoardKeepsGivens(c: Cube, b: Table.Grid, t: Table.Grid)
    requires c.Valid() && NoClash(c) && KeepsGivens(c, t) && ReadOff(c, b)
    ensures forall x: Coord, y: Coord :: 1 <= Table.Cell(t, x, y) <= 9 ==> Table.Cell(b, x, y) == Table.Cell(t, x, y)
  {
    forall x: Coord, y: Coord | 1 <= Table.Cell(t, x, y) <= 9 ensures Table.Cell(b, x, y) == Table.Cell(t, x, y) {
      var d := CellIndex(x, y, Table.Cell(t, x, y) - 1);
      assert c.State(d) == Occupied;
      OneDigitPerCell(c, d, CellIndex(x, y, Table.Cell(b, x, y) - 1));
    }
  }

  /** extractTable: the board of the current cube. A solved cube gives a solved board. */
  method ExtractTable(s: Solver, board: Table.Grid) returns (b: Table.Grid)
    requires s.current.cube.Valid()
    ensures ReadOff(s.current.cube, b)
    ensures SolvedCube(s.current.cube) ==> Table.Solved(b)
  {
    b := ConvertToTable(s.current.cube, board);
    if SolvedCube(s.current.cube) {
      SolvedCubeBoard(s.current.cube, b);
    }
  }

  // ---------------------------------------------------------------------------------
  // run

  /** How run ends: true (Solved), false (Unsolvable: NoPossibleCell with no snapshot left
      to return to), a NoPossibleCell of the first deterministicMove that leaves run
      uncaught (release build), an InconsistencyError (debug build), or the fuel ran out. */
  datatype RunOutcome = Solved | Unsolvable | NoPossibleCellEscaped | Failed(error: InconsistencyError) | OutOfFuel

  /** The catch block of run: count the back-step, give up when no snapshot is left, else
      restore the last one. */
  function BackStep(s: Solver): (r: Solver)
    requires |s.stack| > 0 ==> s.stack[|s.stack| - 1].cube.Valid()
    ensures r.backsteps == s.backsteps + 1 && r.decisions == s.decisions
    ensures |s.stack| == 0 ==> r.stack == [] && r.current == s.current
    ensures |s.stack| > 0 ==> r == RestoreLastSnapshot(s).(backsteps := s.backsteps + 1)
  {
    var s1 := s.(backsteps := s.backsteps + 1);
    if |s1.stack| == 0 then s1 else RestoreLastSnapshot(s1)
  }

  /** One decision of run: count it, take the next possible candidate of the front area
      (advancing its cursor in the current cube), push a snapshot, occupy the candidate in
      the copy and erase 4 areas of least potential. None when the front area has no
      candidate left; the current cube then carries the exhausted cursor. */
  method Decide(s: Solver, debug: bool, ghost t: Table.Grid) returns (found: bool, r: Solver)
    requires Inv(s, t) && |s.current.pool| > 0
    ensures r.decisions == s.decisions + 1 && r.backsteps == s.backsteps
    ensures found ==> Inv(r, t) && |r.stack| == |s.stack| + 1 && r.stack[..|s.stack|] == s.stack
    ensures found ==> |OccupiedSet(r.current.cube)| == |OccupiedSet(s.current.cube)| + 1
    ensures found ==> r.current.cube.Valid() && ErasesLeastFour(r.current.cube.potentials, s.current.pool, r.current.pool)
    ensures !found ==> r.stack == s.stack && r.current.cube.Valid() && r.current.history == s.current.history
    // the decision is the front area's next possible cell; the snapshot pushed is the parent
    // with that area's cursor already advanced, so a later back-step resumes after it
    ensures var sc := NextPossibleCell(s.current.cube, s.current.pool[0]);
            && (found <==> sc.Found?)
            && (found ==> && r.stack[|s.stack|] == s.current.(cube := sc.cube)
                          && r.current.cube == MarkOccupied(sc.cube, sc.cell)
                          && r.current.history == [])
            && (!found ==> r.current == s.current.(cube := sc.cube))
    ensures NoHistory(s) ==> NoHistory(r)
  {
    var s1 := s.(decisions := s.decisions + 1);
    var front := s1.current.pool[0];
    var scan := NextPossibleCell(s1.current.cube, front);
    if scan.NoPossibleCell? {
      return false, s1.(current := s1.current.(cube := scan.cube));
    }
    ScanKeepsInv(s1.current, front, t);
    var s2 := TakeSnapshot(s1.(current := s1.current.(cube := scan.cube)));
    var next := Commit(s2.current, scan.cell, debug, t);
    OccupyAddsOne(s2.current.cube, scan.cell);
    r := s2.(current := next);
    found := true;
  }

  /** Whether run's loop goes on after a turn, or how run ends. */
  datatype Turn = Again | Stop(outcome: RunOutcome)

  /** One turn of run's loop: a decision and, when it found a candidate, a deterministicMove;
      a NoPossibleCell from either becomes a back-step. */
  method RunTurn(s: Solver, debug: bool, ghost t: Table.Grid) returns (o: Turn, r: Solver)
    requires Inv(s, t) && |s.current.pool| > 0
    ensures o.Again? ==> Inv(r, t) && |r.current.pool| > 0
    ensures o.Stop? ==> o.outcome.Solved? || o.outcome.Unsolvable? || o.outcome.Failed?
    ensures o == Stop(Solved) ==> Inv(r, t) && r.current.pool == [] && SolvedCube(r.current.cube) &&
                                  KeepsGivens(r.current.cube, t)
    ensures o == Stop(Unsolvable) ==> r.stack == [] && r.backsteps > s.backsteps
    // the search gives up exactly when the decision area is exhausted and no snapshot is left
    ensures o == Stop(Unsolvable) <==>
              s.stack == [] && NextPossibleCell(s.current.cube, s.current.pool[0]).NoPossibleCell?
    // an exhausted decision area with a snapshot left is one back-step to it
    ensures NextPossibleCell(s.current.cube, s.current.pool[0]).NoPossibleCell? && s.stack != [] ==>
              && o.Again? && r.stack == s.stack[..|s.stack| - 1] && r.backsteps == s.backsteps + 1
              && r.current.pool == s.stack[|s.stack| - 1].pool
    ensures o.Stop? && o.outcome.Failed? ==> debug && o.outcome.error.NoPossibleCellInForcedArea?
    ensures r.decisions == s.decisions + 1 && s.backsteps <= r.backsteps <= s.backsteps + 1
    ensures r.current.cube.Valid()
    ensures NoHistory(s) ==> NoHistory(r)
    // a decision found is followed by a deterministicMove from the decided snapshot: every
    // commit it makes is forced, and a turn that goes on without a back-step keeps the
    // parent on the stack and stops where nothing is forced
    ensures var sc := NextPossibleCell(s.current.cube, s.current.pool[0]);
            sc.Found? && (o == Stop(Solved) || (o.Again? && r.backsteps == s.backsteps)) ==>
              exists trace: seq<Snapshot>, fronts: seq<AreaIndex> ::
                && ForcedChain(trace, fronts) && trace[0].cube == MarkOccupied(sc.cube, sc.cell)
                && trace[0].cube.Valid() && ErasesLeastFour(trace[0].cube.potentials, s.current.pool, trace[0].pool)
                && trace[|trace| - 1].cube == r.current.cube
    ensures var sc := NextPossibleCell(s.current.cube, s.current.pool[0]);
            sc.Found? && o.Again? && r.backsteps == s.backsteps ==>
              && |r.stack| == |s.stack| + 1 && r.stack[|s.stack|] == s.current.(cube := sc.cube)
              && |r.current.pool| > 0
              && (forall a :: a in r.current.pool ==>
                    r.current.cube.Potential(r.current.pool[0]) <= r.current.cube.Potential(a))
              && var p := r.current.cube.Potential(r.current.pool[0]);
                 p == 0 || (p != 10 && p != 1)
    // a release-build NoPossibleCell in that deterministicMove is caught: one back-step to
    // the parent, whose cursor stays past the decided cell
    ensures var sc := NextPossibleCell(s.current.cube, s.current.pool[0]);
            sc.Found? && r.backsteps == s.backsteps + 1 ==>
              !debug && o.Again? && r.stack == s.stack && r.current == s.current.(cube := sc.cube)
  {
    var found;
    found, r := Decide(s, debug, t);
    if found {
      ghost var child := r.current;
      var mo;
      mo, r := DeterministicMove(r, debug, t);
      ghost var trace: seq<Snapshot>, fronts: seq<AreaIndex> :|
        && ForcedChain(trace, fronts) && trace[0] == child
        && (mo.Complete? || mo.Stuck? ==> trace[|trace| - 1].cube == r.current.cube);
      if mo.Complete? {
        EmptyPoolIsSolved(r.current, t);
        return Stop(Solved), r;
      } else if mo.MoveFailed? {
        return Stop(Failed(mo.error)), r;
      } else if mo.Stuck? {
        return Again, r;
      }
    }
    // NoPossibleCell, from the decision or from deterministicMove: step back.
    if |r.stack| == 0 {
      return Stop(Unsolvable), BackStep(r);
    }
    RestoreKeepsInv(r, t);
    return Again, BackStep(r);
  }

  /** run: a deterministicMove, then decisions until a deterministicMove empties the pool
      or a back-step finds no snapshot left. Every NoPossibleCell after the first
      deterministicMove is caught and becomes a back-step. The loop is bounded by fuel. */
  method Run(s: Solver, debug: bool, ghost t: Table.Grid, fuel: nat) returns (o: RunOutcome, r: Solver)
    requires Inv(s, t)
    ensures o.Solved? ==> Inv(r, t) && r.current.pool == [] && SolvedCube(r.current.cube) &&
                          KeepsGivens(r.current.cube, t)
    ensures o.Unsolvable? ==> r.stack == [] && r.backsteps > s.backsteps
    ensures o.NoPossibleCellEscaped? ==>
              && !debug && r.stack == s.stack && r.decisions == s.decisions && r.backsteps == s.backsteps
              && r.current.cube.Valid() && |r.current.pool| > 0
              && (var p := r.current.cube.Potential(r.current.pool[0]); p == 10 || p == 1)
              && r.current.cube.Cursor(r.current.pool[0]) == 9
    ensures o.Failed? ==> debug && o.error.NoPossibleCellInForcedArea?
    ensures o.OutOfFuel? ==> Inv(r, t)
    ensures s.decisions <= r.decisions && s.backsteps <= r.backsteps
    ensures r.backsteps - s.backsteps <= r.decisions - s.decisions
    ensures r.current.cube.Valid()
    ensures NoHistory(s) ==> NoHistory(r)
  {
    var mo;
    mo, r := DeterministicMove(s, debug, t);
    if mo.Complete? {
      EmptyPoolIsSolved(r.current, t);
      return Solved, r;
    } else if mo.NoCell? {
      return NoPossibleCellEscaped, r;
    } else if mo.MoveFailed? {
      return Failed(mo.error), r;
    }
    var n := 0;
    while n < fuel
      invariant Inv(r, t) && |r.current.pool| > 0
      invariant s.decisions <= r.decisions && s.backsteps <= r.backsteps
      invariant r.backsteps - s.backsteps <= r.decisions - s.decisions
      invariant NoHistory(s) ==> NoHistory(r)
    {
      n := n + 1;
      var turn;
      turn, r := RunTurn(r, debug, t);
      if turn.Stop? {
        return turn.outcome, r;
      }
    }
    return OutOfFuel, r;
  }

  // ---------------------------------------------------------------------------------
  // init

  /** The number of givens among the first n cells in init's visiting order: row y by row,
      and within a row by x; cell n is (n % 9, n / 9). */
  function GivenCount(t: Table.Grid, n: int): (k: int)
    requires 0 <= n <= 81
    ensures 0 <= k <= n
  {
    if n == 0 then 0
    else GivenCount(t, n - 1) + (if Table.Cell(t, (n - 1) % 9, (n - 1) / 9) != Table.Empty then 1 else 0)
  }

  /** The pool as init fills it: every area, in address order. */
  method AllAreas() returns (pool: seq<AreaIndex>)
    ensures |pool| == 324
    ensures forall a: AreaIndex :: a in pool
  {
    pool := [];
    for i := 0 to 4
      invariant |pool| == i * 81
      invariant forall j :: 0 <= j < |pool| ==> pool[j] == AreaAt(j)
    {
      for x := 0 to 9
        invariant |pool| == i * 81 + x * 9
        invariant forall j :: 0 <= j < |pool| ==> pool[j] == AreaAt(j)
      {
        for y := 0 to 9
          invariant |pool| == i * 81 + x * 9 + y
          invariant forall j :: 0 <= j < |pool| ==> pool[j] == AreaAt(j)
        {
          var a := AreaIndex(TypeOf(i), x, y);
          assert TypeOf(i).Ordinal() == i;
          AreaAddressBijection(a, a);
          pool := pool + [a];
        }
      }
    }
    forall a: AreaIndex ensures a in pool {
      AreaAddressBijection(a, a);
      assert pool[a.Address()] == a;
    }
  }

  /** Every area of a pool holding all areas is in the partially sorted pool at a position
      below k or in the part kept after erasing the first k. */
  lemma ErasedOrKept(pot: seq<int>, pool: seq<AreaIndex>, sorted: seq<AreaIndex>, k: int, a: AreaIndex)
    requires |pot| == 324 && PartialSorted(pot, pool, sorted, k) && a in pool
    ensures a in sorted[k..] || exists j :: 0 <= j < k && sorted[j] == a
  {
    SameEntries(pot, pool, sorted, k);
    var p := PositionOf(sorted, a);
    if p >= k {
      assert sorted[k..][p - k] == a;
    }
  }

  /** What occupying a given does to the cube, in either build. */
  lemma GivenStep(c: Cube, ci: CellIndex, debug: bool)
    requires c.Valid() && Consistent(c) && Occupy(c, ci, debug).Ok?
    ensures var m := Occupy(c, ci, debug).value;
            && m.Valid() && Consistent(m) && SameCursors(c, m) && m.State(ci) == Occupied
            && (forall d: CellIndex :: c.State(d) == Occupied ==> m.State(d) == Occupied)
            && (debug && NoClash(c) ==> NoClash(m) && |OccupiedSet(m)| == |OccupiedSet(c)| + 1)
  {
    MarkOccupiedClearsContainingAreas(c, ci, Column);
    if debug && NoClash(c) {
      OccupyKeepsNoClash(c, ci);
      OccupyAddsOne(c, ci);
    }
  }

  /** No row, column or box of t holds the same digit twice. */
  ghost predicate ConflictFreeGivens(t: Table.Grid)
  {
    forall g, k1, k2 :: 0 <= g < 27 && 0 <= k1 < 9 && 0 <= k2 < 9 && k1 != k2 ==>
      (Table.GroupValues(t, g)[k1] != Table.Empty ==> Table.GroupValues(t, g)[k1] != Table.GroupValues(t, g)[k2])
  }

  /** Candidate of the given at (x, y). */
  function GivenAt(t: Table.Grid, x: Coord, y: Coord): CellIndex
    requires 1 <= Table.Cell(t, x, y) <= 9
  {
    CellIndex(x, y, Table.Cell(t, x, y) - 1)
  }

  /** d shares no area with the candidate of any given among the first n cells. */
  ghost predicate FarFromGivens(t: Table.Grid, n: int, d: CellIndex)
  {
    forall x: Coord, y: Coord :: y * 9 + x < n && 1 <= Table.Cell(t, x, y) <= 9 ==> !SharesArea(d, GivenAt(t, x, y))
  }

  /** Two cells of one group of a conflict-free table do not hold the same given. */
  lemma GroupApart(t: Table.Grid, g: int, k1: int, k2: int)
    requires ConflictFreeGivens(t) && 0 <= g < 27 && 0 <= k1 < 9 && 0 <= k2 < 9 && k1 != k2
    ensures var (x1, y1) := Table.GroupCell(g, k1);
            var (x2, y2) := Table.GroupCell(g, k2);
            Table.Cell(t, x1, y1) != Table.Empty ==> Table.Cell(t, x1, y1) != Table.Cell(t, x2, y2)
  {
    var s := Table.GroupValues(t, g);
    assert s[k1] != Table.Empty ==> s[k1] != s[k2];
  }

  /** Givens that do not repeat a digit in a row, column or box have candidates sharing no
      area. */
  lemma GivensApart(t: Table.Grid, x1: Coord, y1: Coord, x2: Coord, y2: Coord)
    requires ConflictFreeGivens(t)
    requires 1 <= Table.Cell(t, x1, y1) <= 9 && 1 <= Table.Cell(t, x2, y2) <= 9 && (x1, y1) != (x2, y2)
    ensures !SharesArea(GivenAt(t, x1, y1), GivenAt(t, x2, y2))
  {
    if y1 == y2 {
      GroupApart(t, y1, x1, x2);
    }
    if x1 == x2 {
      GroupApart(t, 9 + x1, y1, y2);
    }
    if y1 / 3 == y2 / 3 && x1 / 3 == x2 / 3 {
      BoxApart(t, x1, y1, x2, y2);
    }
    assert (y1 / 3) * 3 + x1 / 3 == (y2 / 3) * 3 + x2 / 3 ==> y1 / 3 == y2 / 3 && x1 / 3 == x2 / 3;
  }

  /** Two cells of one box of a conflict-free table do not hold the same given. */
  lemma BoxApart(t: Table.Grid, x1: Coord, y1: Coord, x2: Coord, y2: Coord)
    requires ConflictFreeGivens(t)
    requires y1 / 3 == y2 / 3 && x1 / 3 == x2 / 3 && (x1, y1) != (x2, y2)
    ensures Table.Cell(t, x1, y1) != Table.Empty ==> Table.Cell(t, x1, y1) != Table.Cell(t, x2, y2)
  {
    Table.BoxCell(x1 / 3, y1 / 3, x1 % 3, y1 % 3);
    Table.BoxCell(x2 / 3, y2 / 3, x2 % 3, y2 % 3);
    var g := 18 + (y1 / 3) * 3 + x1 / 3;
    var k1 := (y1 % 3) * 3 + x1 % 3;
    var k2 := (y2 % 3) * 3 + x2 % 3;
    assert Table.GroupCell(g, k1) == (x1, y1);
    assert Table.GroupCell(g, k2) == (x2, y2);
    GroupApart(t, g, k1, k2);
  }

  /** Candidates that do not clash and keep the givens show the givens repeat no digit. */
  lemma NoClashMeansConflictFree(c: Cube, t: Table.Grid)
    requires c.Valid() && NoClash(c) && KeepsGivens(c, t)
    requires forall x: Coord, y: Coord :: 0 <= Table.Cell(t, x, y) <= 9
    ensures ConflictFreeGivens(t)
  {
    forall g, k1, k2 | 0 <= g < 27 && 0 <= k1 < 9 && 0 <= k2 < 9 && k1 != k2 &&
                       Table.GroupValues(t, g)[k1] != Table.Empty
      ensures Table.GroupValues(t, g)[k1] != Table.GroupValues(t, g)[k2]
    {
      GroupGivensDiffer(c, t, g, k1, k2);
    }
  }

  lemma GroupGivensDiffer(c: Cube, t: Table.Grid, g: int, k1: int, k2: int)
    requires c.Valid() && NoClash(c) && KeepsGivens(c, t)
    requires forall x: Coord, y: Coord :: 0 <= Table.Cell(t, x, y) <= 9
    requires 0 <= g < 27 && 0 <= k1 < 9 && 0 <= k2 < 9 && k1 != k2
    requires Table.GroupValues(t, g)[k1] != Table.Empty
    ensures Table.GroupValues(t, g)[k1] != Table.GroupValues(t, g)[k2]
  {
    var p1, p2 := Table.GroupCell(g, k1), Table.GroupCell(g, k2);
    var v: Coord := Table.Cell(t, p1.0, p1.1) - 1;
    GroupCellsShare(g, k1, k2, v);
    GivensDiffer(c, t, p1.0, p1.1, p2.0, p2.1, v);
  }

  /** Two givens whose candidates for one digit clash in a cube without clashes hold
      different digits. */
  lemma GivensDiffer(c: Cube, t: Table.Grid, x1: Coord, y1: Coord, x2: Coord, y2: Coord, v: Coord)
    requires c.Valid() && NoClash(c) && KeepsGivens(c, t)
    requires Table.Cell(t, x1, y1) == v + 1 && 0 <= Table.Cell(t, x2, y2) <= 9
    requires CellIndex(x1, y1, v) != CellIndex(x2, y2, v) && SharesArea(CellIndex(x1, y1, v), CellIndex(x2, y2, v))
    ensures Table.Cell(t, x2, y2) != v + 1
  {
    assert c.State(CellIndex(x1, y1, v)) == Occupied;
    assert c.State(CellIndex(x2, y2, v)) == Unobtainable;
  }

  /** The givens among the first n cells are OCCUPIED. */
  ghost predicate GivensOccupied(c: Cube, t: Table.Grid, n: int)
    requires c.Valid()
  {
    forall x: Coord, y: Coord :: y * 9 + x < n && 1 <= Table.Cell(t, x, y) <= 9 ==> c.State(GivenAt(t, x, y)) == Occupied
  }

  /** Candidates sharing no area with the givens among the first n cells are still FREE. */
  ghost predicate FreeWhenFar(c: Cube, t: Table.Grid, n: int)
    requires c.Valid()
  {
    forall d: CellIndex :: FarFromGivens(t, n, d) ==> c.State(d) == Free
  }

  /** count OCCUPIED candidates that do not clash, and 4 areas of potential 0 for each. */
  ghost predicate CleanlyPlaced(c: Cube, count: int, zeros: set<AreaIndex>)
    requires c.Valid()
  {
    && NoClash(c) && |OccupiedSet(c)| == count
    && |zeros| == 4 * count && forall a :: a in zeros ==> c.Potential(a) == 0
  }

  /** The facts the loop of init keeps after the first n cells in visiting order. When the
      givens repeat no digit, or in the debug build (whose checks passed), the OCCUPIED
      candidates do not clash and `zeros` collects 4 areas of potential 0 per given. */
  ghost predicate Placed(c: Cube, t: Table.Grid, n: int, count: int, zeros: set<AreaIndex>, debug: bool)
    requires 0 <= n <= 81
  {
    && c.Valid() && Consistent(c) && CursorsInRange(c)
    && count == GivenCount(t, n)
    && GivensOccupied(c, t, n)
    && FreeWhenFar(c, t, n)
    && ((debug || ConflictFreeGivens(t)) ==> CleanlyPlaced(c, count, zeros))
  }

  /** Occupying a FREE or WEAK candidate adds its 4 areas to the areas of potential 0. */
  lemma CleanStep(c: Cube, ci: CellIndex, count: int, zeros: set<AreaIndex>)
    requires c.Valid() && Consistent(c) && CleanlyPlaced(c, count, zeros)
    requires c.State(ci) == Free || c.State(ci) == WeakUnobtainable
    ensures CleanlyPlaced(MarkOccupied(c, ci), count + 1, zeros + ContainingAreas(ci))
  {
    OccupyKeepsNoClash(c, ci);
    OccupyAddsOne(c, ci);
    forall a | a in ContainingAreas(ci) ensures a !in zeros {
      ContainingAreasPositive(c, ci, a);
    }
    assert zeros * ContainingAreas(ci) == {};
    ContainingAreasZero(c, ci);
    forall a | a in zeros ensures MarkOccupied(c, ci).Potential(a) == 0 {
      OccupyKeepsZeros(c, ci, a);
    }
  }

  /** Occupying the given at position n keeps every candidate far from the givens so far
      FREE. */
  lemma FarStep(c: Cube, t: Table.Grid, n: int, x: Coord, y: Coord)
    requires c.Valid() && n == y * 9 + x && 1 <= Table.Cell(t, x, y) <= 9
    requires FreeWhenFar(c, t, n)
    ensures FreeWhenFar(MarkOccupied(c, GivenAt(t, x, y)), t, n + 1)
  {
    forall d: CellIndex | FarFromGivens(t, n + 1, d) ensures MarkOccupied(c, GivenAt(t, x, y)).State(d) == Free {
      assert !SharesArea(d, GivenAt(t, x, y));
      assert SharesArea(d, d);
      assert FarFromGivens(t, n, d);
    }
  }

  /** Skipping an empty cell changes none of the loop's facts. */
  lemma EmptyStep(c: Cube, t: Table.Grid, n: int, x: Coord, y: Coord)
    requires c.Valid() && n == y * 9 + x && Table.Cell(t, x, y) == Table.Empty
    requires GivensOccupied(c, t, n) && FreeWhenFar(c, t, n)
    ensures GivensOccupied(c, t, n + 1) && FreeWhenFar(c, t, n + 1)
  {
    forall x': Coord, y': Coord | y' * 9 + x' < n + 1 && 1 <= Table.Cell(t, x', y') <= 9
      ensures y' * 9 + x' < n
    {
      if y' * 9 + x' == n {
        SamePosition(x, y, x', y');
      }
    }
  }

  /** The cell at position y * 9 + x is the one GivenCount visits next. */
  lemma GivenCountStep(t: Table.Grid, x: Coord, y: Coord)
    ensures GivenCount(t, y * 9 + x + 1) == GivenCount(t, y * 9 + x) + (if Table.Cell(t, x, y) != Table.Empty then 1 else 0)
  {
    var n := y * 9 + x;
    RowMajor(n, x, y);
    GivenCountUnfold(t, n);
  }

  lemma GivenCountUnfold(t: Table.Grid, n: int)
    requires 0 <= n < 81
    ensures GivenCount(t, n + 1) == GivenCount(t, n) + (if Table.Cell(t, n % 9, n / 9) != Table.Empty then 1 else 0)
  {
  }

  /** Distinct cells have distinct positions in row-by-row order. */
  lemma SamePosition(x: Coord, y: Coord, x': Coord, y': Coord)
    requires y * 9 + x == y' * 9 + x'
    ensures x == x' && y == y'
  {
  }

  /** Occupying the given at position n leaves it and the earlier givens OCCUPIED. */
  lemma GivenOccupiedStep(c: Cube, t: Table.Grid, n: int, x: Coord, y: Coord)
    requires c.Valid() && n == y * 9 + x && 1 <= Table.Cell(t, x, y) <= 9
    requires GivensOccupied(c, t, n)
    ensures GivensOccupied(MarkOccupied(c, GivenAt(t, x, y)), t, n + 1)
  {
    var m := MarkOccupied(c, GivenAt(t, x, y));
    forall x': Coord, y': Coord | y' * 9 + x' < n + 1 && 1 <= Table.Cell(t, x', y') <= 9
      ensures m.State(GivenAt(t, x', y')) == Occupied
    {
      if y' * 9 + x' < n {
        assert c.State(GivenAt(t, x', y')) == Occupied;
      } else {
        assert y' == y && x' == x;
      }
    }
  }

  /** The given at position n of a conflict-free table is still FREE when init reaches it. */
  lemma ConflictFreeGivenIsFree(c: Cube, t: Table.Grid, n: int, x: Coord, y: Coord)
    requires c.Valid() && ConflictFreeGivens(t) && n == y * 9 + x && 1 <= Table.Cell(t, x, y) <= 9
    requires FreeWhenFar(c, t, n)
    ensures c.State(GivenAt(t, x, y)) == Free
  {
    forall x': Coord, y': Coord | y' * 9 + x' < n && 1 <= Table.Cell(t, x', y') <= 9
      ensures !SharesArea(GivenAt(t, x, y), GivenAt(t, x', y'))
    {
      GivensApart(t, x, y, x', y');
    }
    assert FarFromGivens(t, n, GivenAt(t, x, y));
  }

  /** Occupying the given at position n keeps the loop's facts, one position further on. */
  lemma PlacedAfterGiven(c: Cube, t: Table.Grid, x: Coord, y: Coord, count: int, zeros: set<AreaIndex>, debug: bool, m: Cube)
    requires Placed(c, t, y * 9 + x, count, zeros, debug)
    requires 1 <= Table.Cell(t, x, y) <= 9 && m == MarkOccupied(c, GivenAt(t, x, y)) && Consistent(m)
    requires debug || ConflictFreeGivens(t) ==> c.State(GivenAt(t, x, y)) == Free || c.State(GivenAt(t, x, y)) == WeakUnobtainable
    ensures Placed(m, t, y * 9 + x + 1, count + 1,
                   if debug || ConflictFreeGivens(t) then zeros + ContainingAreas(GivenAt(t, x, y)) else zeros, debug)
  {
    var n := y * 9 + x;
    var ci := GivenAt(t, x, y);
    GivenCountStep(t, x, y);
    MarkOccupiedClearsContainingAreas(c, ci, Column);
    SameCursorsKeepRange(c, m);
    FarStep(c, t, n, x, y);
    GivenOccupiedStep(c, t, n, x, y);
    if debug || ConflictFreeGivens(t) {
      CleanStep(c, ci, count, zeros);
    }
  }

  /** One iteration of init's loop: occupy the given in cell n (column n % 9 of row n / 9), if
      any. */
  method PlaceGiven(t: Table.Grid, n: int, c: Cube, count: int, ghost zeros: set<AreaIndex>, debug: bool)
    returns (r: Checked<Cube>, count': int, ghost zeros': set<AreaIndex>)
    requires forall x: Coord, y: Coord :: 0 <= Table.Cell(t, x, y) <= 9
    requires 0 <= n < 81 && Placed(c, t, n, count, zeros, debug)
    ensures !debug ==> r.Ok?
    ensures ConflictFreeGivens(t) ==> r.Ok?
    ensures r.Inconsistent? ==> debug && r.error.CellNotFree?
    ensures r.Ok? ==> Placed(r.value, t, n + 1, count', zeros', debug)
  {
    var x, y := n % 9, n / 9;
    assert n == y * 9 + x;
    if Table.Cell(t, x, y) == Table.Empty {
      GivenCountStep(t, x, y);
      EmptyStep(c, t, n, x, y);
      return Ok(c), count, zeros;
    }
    var ci := GivenAt(t, x, y);
    if ConflictFreeGivens(t) {
      ConflictFreeGivenIsFree(c, t, n, x, y);
    }
    var occ := Occupy(c, ci, debug);
    if occ.Inconsistent? {
      return Inconsistent(occ.error), count, zeros;
    }
    assert Consistent(occ.value);
    PlacedAfterGiven(c, t, x, y, count, zeros, debug, occ.value);
    zeros' := if debug || ConflictFreeGivens(t) then zeros + ContainingAreas(ci) else zeros;
    r, count' := occ, count + 1;
  }

  /** Before the loop of init, the fresh cube holds no given and every candidate is FREE. */
  lemma PlacedAtStart(t: Table.Grid, debug: bool)
    ensures Placed(NewCube(), t, 0, 0, {}, debug)
  {
    var c := NewCube();
    assert OccupiedSet(c) == {};
    forall a: AreaIndex ensures -1 <= c.Cursor(a) < 9 {
    }
  }

  /** The loop of init over the givens, row by row (cell n is at column n % 9 of row n / 9). */
  method PlaceGivens(t: Table.Grid, debug: bool) returns (r: Checked<Cube>, count: int, ghost zeros: set<AreaIndex>)
    requires forall x: Coord, y: Coord :: 0 <= Table.Cell(t, x, y) <= 9
    ensures !debug ==> r.Ok?
    ensures ConflictFreeGivens(t) ==> r.Ok?
    ensures r.Inconsistent? ==> debug && r.error.CellNotFree?
    ensures r.Ok? ==> Placed(r.value, t, 81, count, zeros, debug)
  {
    var c := NewCube();
    count := 0;
    zeros := {};
    PlacedAtStart(t, debug);
    for n := 0 to 81
      invariant Placed(c, t, n, count, zeros, debug)
    {
      var placed;
      placed, count, zeros := PlaceGiven(t, n, c, count, zeros, debug);
      if placed.Inconsistent? {
        return placed, count, zeros;
      }
      c := placed.value;
    }
    r := Ok(c);
  }

  /** After all 81 cells, the givens are OCCUPIED. */
  lemma PlacedKeepsGivens(c: Cube, t: Table.Grid)
    requires c.Valid() && GivensOccupied(c, t, 81)
    ensures KeepsGivens(c, t)
  {
    forall x: Coord, y: Coord | 1 <= Table.Cell(t, x, y) <= 9
      ensures c.State(CellIndex(x, y, Table.Cell(t, x, y) - 1)) == Occupied
    {
      assert y * 9 + x < 81;
      assert c.State(GivenAt(t, x, y)) == Occupied;
    }
  }

  /** The debug check of init: the first k areas of the sorted pool have potential 0. */
  method CheckErased(c: Cube, sorted: seq<AreaIndex>, k: int) returns (r: Checked<()>)
    requires c.Valid() && 0 <= k <= |sorted|
    ensures r.Ok? <==> forall j :: 0 <= j < k ==> c.Potential(sorted[j]) == 0
    ensures r.Inconsistent? ==> r.error.ErasedAreaNotZero? && r.error.area in sorted[..k] &&
                                c.Potential(r.error.area) != 0
  {
    for j := 0 to k
      invariant forall j' :: 0 <= j' < j ==> c.Potential(sorted[j']) == 0
    {
      if c.Potential(sorted[j]) != 0 {
        assert sorted[..k][j] == sorted[j];
        return Inconsistent(ErasedAreaNotZero(sorted[j]));
      }
    }
    return Ok(());
  }

  /** init: an empty stack, a fresh cube and a pool of all 324 areas; every given (row by
      row) is occupied; 4 areas of least potential per given are brought to the front and
      erased; both counters start at 0. The debug build checks each markOccupied and that
      the erased areas have potential 0; the second check never fails, and the first fails
      exactly when the givens repeat a digit in a row, column or box. */
  method Init(t: Table.Grid, debug: bool) returns (r: Checked<Solver>)
    requires forall x: Coord, y: Coord :: 0 <= Table.Cell(t, x, y) <= 9
    ensures !debug ==> r.Ok?
    ensures debug ==> (r.Ok? <==> ConflictFreeGivens(t))
    ensures r.Inconsistent? ==> debug && r.error.CellNotFree?
    ensures r.Ok? ==>
              && r.value.stack == [] && r.value.decisions == 0 && r.value.backsteps == 0 && NoHistory(r.value)
              && r.value.current.cube.Valid() && KeepsGivens(r.value.current.cube, t)
              && |r.value.current.pool| == 324 - 4 * GivenCount(t, 81)
    ensures r.Ok? && (debug || ConflictFreeGivens(t)) ==> Inv(r.value, t)
  {
    var pool := AllAreas();
    var placed, count, zeros := PlaceGivens(t, debug);
    if placed.Inconsistent? {
      return Inconsistent(placed.error);
    }
    var c := placed.value;
    PlacedKeepsGivens(c, t);
    var k := 4 * count;
    var sorted := PartialSort(c.potentials, pool, k);
    if debug || ConflictFreeGivens(t) {
      EraseOfZeros(c, pool, sorted, k, zeros);
      forall a: AreaIndex | a !in sorted[k..] ensures c.Potential(a) == 0 {
        ErasedOrKept(c.potentials, pool, sorted, k, a);
      }
    }
    if debug {
      var checked := CheckErased(c, sorted, k);
      assert checked.Ok?;
      NoClashMeansConflictFree(c, t);
    }
    r := Ok(Solver(Snapshot(c, sorted[k..], []), [], 0, 0));
  }
}
