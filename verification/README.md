# A Dafny model of the sudoku solver engine

This project models the core of the `sudoku` library, which covers three parts.

- **The solving engine (`sudoku::Solver`).** It holds a candidate cube of 729 states, one
  per (x, y, v) triple. It keeps 324 area potentials, cursors and weak-pass flags. It also
  holds a stack of snapshots and a pool of remaining areas. It propagates forced moves and
  backtracks over decisions.
- **The board (`sudoku::Table`).** A 9×9 `FixMatrix<short int, 9>`. It has a sum/product
  checker and two text printers.
- **The generic fixed-size matrix (`FixMatrix`).** The board is built on it.

The model is split into modules that follow the source:

| module | file | models |
|---|---|---|
| `Indices` | indices.dfy | `Cube::Cell::Index`, `Cube::Area::Index` and their addresses, `Area::Index::IndexOfCell`, `Cube::IndexOfContainingArea` |
| `Matrix` | matrix.dfy | `FixMatrix`: the row-major accessor, `reset`, and the fill, copy and range constructors and assignment |
| `Table` | table.dfy | `Table`: `empty`, the default and range constructors, `State`, `check` |
| `Printer` | printer.dfy | the plain and formatted `operator<<` of `Table` |
| `Cube` | cube.dfy | `Cube` and its `Cell`/`Area` views: the mark operations, `potential`, `value`, `IndexOfNextPossibileCell`, the constructor and `convertToTable` |
| `Pool` | pool.dfy | the `AreaPool` ordering (`AreaRef::operator<`) and what `std::partial_sort` promises |
| `Engine` | engine.dfy | `Snapshot`, `Solver`: `takeSnapshot`, `restoreLastSnapshot`, `deterministicMove`, `init`, `run`, `extractTable`, the counters |
| `Counting` | counting.dfy | cardinality facts about finite sets of integers, used by the engine invariant |

Modelling choices:

- **The cube is an immutable record.** It holds four sequences: 729 cell states, 324
  potentials, 324 cursors (`_possible_value`) and 324 weak flags (`_using_weak_value`).
  Each `Cell`/`Area` operation is a pure function from cube to cube.
- **The engine is a `Solver` value.** It holds the current snapshot, the stack (top last)
  and the `decisions`/`backsteps` counters. Its operations are methods that return the new
  solver.
- **The build is a parameter.** A `debug: bool` parameter selects between the `DEBUG`
  build and the release build. Only the `DEBUG` build carries the `#ifdef DEBUG`
  consistency checks. An `InconsistencyError` becomes the `Inconsistent` case of
  `Cube.Checked<T>`. `Area::NoPossibleCell` becomes the `NoPossibleCell` case of
  `Cube.Scan`.
- **Partial sorting is a relation.** `std::partial_sort(begin, begin + k, end)` leaves the
  tie order, and the order of the unsorted part, unspecified. `Pool.PartialSorted` states
  exactly what it promises. The model lets the engine take any reordering that keeps that
  promise. Every property proved about the engine therefore holds for every tie order.
- **`run` takes fuel.** The search loop has no bound in the source, so `Engine.Run` takes
  a `fuel` argument and reports `OutOfFuel` when the fuel runs out.
- **The engine keeps an invariant.** `Engine.Inv` holds for every snapshot, the current
  one and the saved ones. It says:
  - the cube is consistent: every potential equals 10·#FREE + #WEAK_UNOBTAINABLE over the
    area's members;
  - the cursors lie in -1..8;
  - no OCCUPIED candidate shares an area with a candidate that is still FREE or
    WEAK_UNOBTAINABLE;
  - every area that has left the pool has potential 0;
  - `|pool| + 4·#OCCUPIED == 324`;
  - every given of the table is OCCUPIED.

  `init` establishes the invariant whenever the givens do not conflict, and in the `DEBUG`
  build it establishes it always. `deterministicMove`, the decision step and the back-step
  of `run` preserve it. An empty pool then means the board read off the cube is a solved
  sudoku that keeps the givens.

## Model

| member | source | states |
|---|---|---|
| Indices.CellIndex.Address | sudoku/solver.h:73-75 | the cell address x·81 + y·9 + v of any in-range triple lies in 0..728 |
| Indices.CellAt | sudoku/solver.h:73-75 | every address in 0..728 is the address of some cell index (onto) |
| Indices.CellAddressBijection | sudoku/solver.h:73-75 | decoding an address gives back the cell; two cells with one address are equal (one-to-one) |
| Indices.AreaIndex.Address | sudoku/solver.h:119-121 | the area address type·81 + first·9 + second lies in 0..323 |
| Indices.AreaAt | sudoku/solver.h:119-121 | every address in 0..323 is the address of some area index (onto) |
| Indices.AreaAddressBijection | sudoku/solver.h:119-121 | decoding gives back the area; two areas with one address are equal |
| Indices.AreaType.Ordinal | sudoku/solver.h:99-104 | the area types COLUMN, ROW, V, SUBTABLE take the ordinals 0..3 |
| Indices.MemberRoundTrip | sudoku/solver.cc:8-25 | the containing area of the i-th member of an area, of that area's type, is the area itself, and the member sits at position i |
| Indices.ContainingRoundTrip | sudoku/solver.cc:91-107 | every cell is the member of its containing area of each type, at the cell's position in it |
| Indices.ContainsIffMember | sudoku/solver.cc:91-107 | an area contains a cell exactly when the cell is one of the area's nine members |
| Indices.MembersDistinct | sudoku/solver.cc:8-25 | the nine members of an area are pairwise distinct |
| Matrix.FixMatrix.Slot | sudoku/bits/matrix.h:43-51 | `operator()(x, y)` addresses a slot inside the SIZE² storage |
| Matrix.SlotInjective | sudoku/bits/matrix.h:43-51 | distinct in-range (x, y) map to distinct slots y·SIZE + x |
| Matrix.FixMatrix.Set | sudoku/bits/matrix.h:48-51 | after writing v at (x, y), reading (x, y) gives v and every other cell is unchanged |
| Matrix.Fill | sudoku/bits/matrix.h:22-26 | the fill constructor sets all SIZE² entries to v |
| Matrix.Reset | sudoku/bits/matrix.h:53-57 | `reset(v)` sets every entry to v |
| Matrix.Copy | sudoku/bits/matrix.h:17-20 | the copy is element-wise equal to the donor |
| Matrix.Assign | sudoku/bits/matrix.h:36-40 | after assignment, the target is element-wise equal to the donor |
| Matrix.FromRange | sudoku/bits/matrix.h:28-34 | the i-th element of the range is stored at slot i; slots past the range keep their indeterminate contents |
| Table.NewTable | sudoku/table.h:30-33 | a default-constructed table has every cell `empty` (0) |
| Table.FromRange | sudoku/table.h:35-37 | cell (x, y) of a range-built table is range[y·9 + x]; cells past the range are indeterminate |
| Table.Check | sudoku/table.cc:6-50 | the nested-loop scan returns the verdict of the 27 groups, scanned as rows, then columns, then boxes |
| Table.RowSumProduct | sudoku/table.cc:13-15 | the inner loop over a row accumulates the sum and the product of that row's nine values |
| Table.ColumnSumProduct | sudoku/table.cc:25-27 | the inner loop over a column accumulates its sum and product |
| Table.BoxSumProduct | sudoku/table.cc:38-41 | the two inner loops over a 3×3 box accumulate its sum and product |
| Table.ScanStopsAtFirstFailing | sudoku/table.cc:11-47 | the verdict is decided by the first group that fails: INCOMPLETE when its product is 0, INVALID otherwise, and CORRECT when no group fails |
| Table.VerdictCorrectMeaning | sudoku/table.cc:8-9 | CORRECT holds exactly when all 27 groups have sum 45 and product 362880 |
| Table.ProductZero | sudoku/table.cc:17-18 | a group's product is 0 exactly when one of its cells is 0 |
| Table.FirstRowEmptyIsIncomplete | sudoku/table.cc:13-18 | a grid with an empty cell in its first row is INCOMPLETE |
| Table.SumProductOfMultiset | sudoku/table.cc:13-15 | the sum and the product of a group depend only on the multiset of its values |
| Table.SolvedIsCorrect | sudoku/table.cc:6-50 | a grid whose rows, columns and boxes are all permutations of 1..9 is CORRECT |
| Table.RelabelledSolvedGridIsCorrect | sudoku/table.cc:8-9 | relabelling 3→4, 6→4, 8→9 in a solved grid leaves every group with sum 45 and product 362880, so the grid is still CORRECT |
| Table.RelabelledSolvedGridIsUnsolved | sudoku/table.cc:19-20 | the relabelled grid is not a solved sudoku |
| Table.LookalikeIsCorrectButUnsolved | sudoku/table.cc:6-50 | `check` returns CORRECT for the relabelled pattern grid, which is not solved |
| Table.StrictVerdictMeaning | sudoku/table.cc:6-50 | the corrected check returns CORRECT exactly when the grid is solved, and then the original check is CORRECT too |
| Table.StrictNeverIncompleteFor | sudoku/table.cc:17-18 | on a grid the original check passes, the corrected check never answers INCOMPLETE |
| Table.StrictRejectsRelabelled | sudoku/table.cc:19-20 | for every relabelled solved grid, the original check answers CORRECT and the corrected one answers INVALID |
| Table.StrictRejectsLookalike | sudoku/table.cc:19-20 | the corrected check answers INVALID on the relabelled pattern grid |
| Printer.TokenRoundTrip | sudoku/table.cc:70-71 | a cell prints as "." exactly when its value is ≤ 0; reading the token back gives the value, or 0 for "." |
| Printer.DecimalRoundTrip | sudoku/table.cc:70 | the decimal digits of a positive value read back to that value |
| Printer.PlainRowTokens | sudoku/table.cc:66-72 | splitting a plain row at single spaces gives exactly the nine cell tokens, in column order |
| Printer.PlainLines | sudoku/table.cc:64-75 | the plain output is nine newline-terminated lines, one per row |
| Printer.PlainReadBack | sudoku/table.cc:62-78 | token x of line y of the plain output reads back as cell (x, y), or 0 when that cell is ≤ 0 |
| Printer.FormattedRowTokens | sudoku/table.cc:85-93 | a formatted row has single spaces between tokens and three spaces before columns 3 and 6 |
| Printer.FormattedLines | sudoku/table.cc:95-96 | the formatted output adds a blank line after rows 2 and 5 and none after row 8 |
| Pool.PartialSort | sudoku/solver.cc:196 | the result rearranges the pool, with its first k entries ascending by potential and no greater than any later entry |
| Pool.SelectLeastIsPartialSorted | sudoku/solver.cc:223 | for every pool and every k up to its length, some reordering keeps the promise of `partial_sort` |
| Pool.FrontIsLeast | sudoku/solver.h:212-214 | after the sort, the front area's potential is no greater than that of any area of the pool |
| Pool.ErasedAreZero | sudoku/solver.cc:223-224 | when at least n areas of the pool have potential 0, the n erased areas all have potential 0, and every other area survives the erase |
| Cube.NewCube | sudoku/solver.cc:145-160 | a new cube has every candidate FREE, every potential 90, every cursor -1, no weak flag, and is consistent |
| Cube.MarkUnobtainable | sudoku/solver.cc:65-76 | FREE→UNOBTAINABLE takes 10 from each containing area; WEAK→UNOBTAINABLE takes 1; any other state leaves the cube as it was; no other candidate changes |
| Cube.MarkUnobtainableTracksWeights | sudoku/solver.cc:65-76 | the change to each potential equals the change to 10·#FREE + #WEAK, so consistency is preserved |
| Cube.MarkWeakUnobtainable | sudoku/solver.cc:78-88 | FREE→WEAK takes 9 from each containing area; any other state leaves the cube as it was; no other candidate changes |
| Cube.MarkWeakTracksWeights | sudoku/solver.cc:78-88 | the weak downgrade preserves potential = 10·#FREE + #WEAK |
| Cube.PotentialMeaning | sudoku/solver.cc:109-112 | on a consistent cube, a potential is non-negative, and it is 0 exactly when the area has no FREE and no WEAK member |
| Cube.NeighboursAreSharers | sudoku/solver.cc:40-47 | the 36 cells visited by the loop (V, column, row, subtable members) are exactly the cells sharing an area with the occupied cell |
| Cube.MarkOccupied | sudoku/solver.cc:40-49 | the cell becomes OCCUPIED; every other cell sharing an area is strengthened (FREE/WEAK→UNOBTAINABLE); cells sharing none are unchanged; weights are tracked |
| Cube.MarkOccupiedClearsContainingAreas | sudoku/solver.cc:51-62 | on a consistent cube, after `markOccupied` the cube is consistent and all 4 containing areas have potential 0 |
| Cube.MarkOccupiedClearsMembers | sudoku/solver.cc:40-49 | afterwards no member of a containing area is FREE or WEAK |
| Cube.MarkOccupiedChecked | sudoku/solver.cc:27-63 | the `DEBUG` version succeeds exactly when the cell is FREE or WEAK and the four containing areas end at potential 0, and then yields the release result |
| Cube.CheckedMarkOccupiedOnConsistentCube | sudoku/solver.cc:29-38 | on a consistent cube the `DEBUG` check fails exactly when the cell is neither FREE nor WEAK |
| Cube.NextPossibleCell | sudoku/solver.cc:123-142 | returns a member at the new cursor; the first pass yields FREE members at a strictly increasing cursor, skipping none; the weak flag never resets, and once set only WEAK members come back, each the first WEAK member after the weak-pass cursor; NoPossibleCell leaves the cursor at 9 with both passes exhausted |
| Cube.ZeroPotentialHasNoPossibleCell | sudoku/solver.cc:123-142 | on a consistent cube, an area of potential 0 yields NoPossibleCell |
| Cube.Value | sudoku/solver.cc:114-121 | the position of the first OCCUPIED member, or -1 exactly when none is OCCUPIED |
| Cube.ConvertToTable | sudoku/solver.cc:162-170 | board (x, y) is v+1 for the last OCCUPIED candidate (x, y, v), and `empty` when there is none |
| Cube.MarkAllWeak | sudoku/solver.cc:184-185 | each listed FREE candidate becomes WEAK; nothing else changes state; weights are tracked |
| Engine.TakeSnapshot | sudoku/solver.cc:174-178 | the stack grows by one with the old current snapshot on top; the new current has the same cube and pool and an empty history; the counters are unchanged |
| Engine.RestoreLastSnapshot | sudoku/solver.cc:180-190 | the stack shrinks by one; the popped snapshot becomes current, with every history candidate of the discarded snapshot downgraded by `markWeakUnobtainable`, and every potential of the restored cube moved by exactly its area's weight change |
| Engine.RestoreUndoesTake | sudoku/solver.h:229 | restoring right after taking a snapshot gives back the solver, because the copy starts with an empty history |
| Engine.TakeKeepsInv | sudoku/solver.cc:174-178 | taking a snapshot preserves the engine invariant |
| Engine.RestoreKeepsInv | sudoku/solver.cc:180-190 | restoring preserves the engine invariant and leaves a non-empty pool |
| Engine.Occupy | sudoku/solver.cc:27-63 | the release build always occupies; the `DEBUG` build on a consistent cube succeeds exactly when the cell is FREE or WEAK |
| Engine.Commit | sudoku/solver.cc:220-224 | occupying a FREE/WEAK cell and erasing the 4 least areas preserves the invariant and adds exactly that candidate to the OCCUPIED set; the pool kept is the old pool partially sorted over 4 by the new potentials with its first 4 entries erased |
| Engine.OccupyKeepsInv | sudoku/solver.cc:220-224 | the erased areas are exactly areas of potential 0, so the invariant holds after the commit |
| Engine.ForcedStepShrinksPool | sudoku/solver.cc:223-224 | a forced step leaves a pool 4 areas shorter, all of whose areas come from the pool before it |
| Engine.ForcedRound | sudoku/solver.cc:196-224 | one pass of the loop body: Unforced exactly when the least potential of the pool forces nothing, leaving the cube as it was with a least area in front; Committed only as a forced step (least potential 10 or 1, the next possible cell of that area occupied, the pool kept being the old one with 4 areas of least new potential erased, the invariant kept); Exhausted when that area's scan finds no cell |
| Engine.DeterministicMove | sudoku/solver.cc:192-228 | returns Complete exactly when the pool is empty; Stuck leaves a front of least potential that is 0 or neither 10 nor 1; it stops at once, with the cube unchanged, exactly when the least potential of the pool it is given forces nothing; the cube it ends with is reached from the start by a chain of forced steps, each occupying the next possible cell of an area whose potential, 10 or 1, is the least of the pool the step starts from, and leaving that pool less 4 areas of least potential; each commit occupies one cell and removes 4 areas; NoCell (release) and MoveFailed (`DEBUG`) happen only when the front has least potential 10 or 1 and its scan ended at cursor 9 in the weak pass; stack, counters and history are unchanged |
| Engine.EmptyPoolIsSolved | sudoku/solver.cc:194 | under the invariant, an empty pool means 81 OCCUPIED candidates, one per cell, no two sharing an area |
| Engine.SolvedCubeBoard | sudoku/solver.cc:162-170 | the board read off such a cube has every row, column and box a permutation of 1..9 |
| Engine.BoardKeepsGivens | sudoku/solver.cc:247-254 | the board read off a cube that keeps the givens repeats every given value |
| Engine.ExtractTable | sudoku/solver.cc:327-330 | the board is read off the current cube, and it is solved whenever that cube is |
| Engine.BackStep | sudoku/solver.cc:305-323 | a caught NoPossibleCell adds one back-step and, when the stack is non-empty, restores the last snapshot |
| Engine.Decide | sudoku/solver.cc:291-303 | a decision adds one to `decisions`; it finds a cell exactly when the scan of the front area does; then the parent, with the front's cursor already advanced, is pushed, the new current cube is the parent's with that cell occupied, its pool is the parent's with 4 areas of least new potential erased, its history is empty and the invariant holds; otherwise the current snapshot keeps everything but the advanced cursor, and the stack is unchanged |
| Engine.RunTurn | sudoku/solver.cc:283-323 | one pass of the loop either continues with the invariant, or stops Solved with a solved cube keeping the givens, or stops Failed in the `DEBUG` build; it stops Unsolvable exactly when the stack is empty and the front area has no possible cell left; with a snapshot left, an exhausted front area is one back-step to the top snapshot; after a found decision, deterministicMove runs on the child: a turn that goes on without a back-step keeps the parent on the stack and ends at a front that forces nothing, reached by forced steps from the decided snapshot (the decided cube with the parent's pool less 4 areas of least potential), and a release-build NoPossibleCell from that move is one back-step to the parent |
| Engine.Run | sudoku/solver.cc:276-325 | Solved leaves a solved cube that keeps the givens; Unsolvable happens only with an empty stack and after a back-step; back-steps never outnumber decisions; a release-build NoPossibleCell escapes only from the first move, with stack and counters unchanged and a forced front area whose cursor reached 9 |
| Engine.AllAreas | sudoku/solver.cc:241-244 | the initial pool holds all 324 areas |
| Engine.NoClashMeansConflictFree | sudoku/solver.cc:247-254 | if the givens are occupied in a cube where no two occupied candidates clash, no two givens conflict |
| Engine.PlaceGivens | sudoku/solver.cc:247-254 | the release build always places every given; the `DEBUG` build fails only on a cell that is not FREE or WEAK, and never when the givens are conflict-free |
| Engine.CheckErased | sudoku/solver.cc:259-269 | the `DEBUG` check passes exactly when every erased area has potential 0, and otherwise names such an area |
| Engine.Init | sudoku/solver.cc:230-274 | the release build always succeeds; the `DEBUG` build succeeds exactly when the givens are conflict-free; on success the stack is empty, the counters are 0, each given d at (x, y) is OCCUPIED at (x, y, d−1), the pool has 324 − 4·#givens areas, and the invariant holds when the givens are conflict-free |

## Left out

- `operator>>` (sudoku/table.cc:53-60) is stream parsing with no validation to state, so it is not modelled.
- The printers produce strings. The flush of `std::endl` and stream state are not modelled.
- The `DEBUG` traces are not modelled. These are the `std::cout` lines and the `stringstream` messages. An `InconsistencyError` carries only the kind of failure and the cell or area involved.
- Heap management is not modelled: the `new`/`delete` of snapshots and the internals of `std::stack`, `std::deque` and `std::list`. Sequences stand in for them.
- The default `FixMatrix` constructor leaves memory indeterminate. `Matrix.FromRange`, `Table.NewTable` and `Table.FromRange` take that memory as a parameter.
- The table given to `init` is passed to the engine's operations as a ghost parameter. It is needed only to state that the givens are kept; the source does not keep it.
- `check` is `const` in the source, and the model's `Table.Check` takes the grid by value. `State` has exactly the three cases INCOMPLETE, INVALID and CORRECT.
- Table.Check: values are unbounded integers. The source sums and multiplies `short` cell values in `int`, which cannot overflow for values in 0..9. Values outside 0..9 can reach `check` through `operator>>` (sudoku/table.cc:53-60) or the range constructor. For such values the `int` sum or product can overflow in the source, which is undefined behaviour, while `Table.Check` still returns a defined verdict.
- Engine.Run: `decisions` and `backsteps` are unbounded rather than 32-bit, and the search loop runs on fuel. Termination and completeness of the search are not claimed.
- Engine.Run: needs the invariant on entry. The release `init` with conflicting givens does not establish the invariant, so nothing is claimed about `run` after it.
- Engine.DeterministicMove: needs the invariant on entry, so nothing is claimed when it runs after a release `init` with conflicting givens.
- Engine.Decide: needs the invariant on entry, for the same reason as `Engine.DeterministicMove`.
- Engine.Init: requires every cell to be in 0..9. The source indexes the cube with t(x, y) − 1 without a check, so a value outside 1..9 addresses memory outside the cube.
- Cube.NextPossibleCell: requires the cursor to be in -1..8. Calling it after it has reported NoPossibleCell, with the cursor at 9, reads past the area. The engine's invariant keeps every cursor it scans in range.
- Matrix.FromRange: requires a range of at most SIZE² elements. A longer range writes past the storage.
- `decisions()` and `backsteps()` are the `decisions` and `backsteps` fields of `Engine.Solver`. Reading a field changes nothing, so they have no members of their own.
- No code path in sudoku/solver.cc appends to a snapshot's history. `restoreLastSnapshot` reads whatever history holds, and `Engine.Run` keeps every history empty (`NoHistory`). The weak downgrade is modelled and proved for an arbitrary history.

## Findings

| source | as written | input that shows it | evidently intended | confidence | as-written member | corrected member |
|---|---|---|---|---|---|---|
| sudoku/table.cc:6-50 | `check` answers CORRECT when every row, column and box has sum 45 and product 362880 | the solved pattern grid with 3, 6 and 8 relabelled to 4, 4 and 9: every group holds {1, 2, 4, 4, 4, 5, 7, 9, 9}, and its first row is 1 2 4 4 5 4 7 9 9 | CORRECT only when every row, column and box is a permutation of 1..9 | not executed | Table.LookalikeIsCorrectButUnsolved | Table.StrictVerdictMeaning |

The sum/product test cannot tell the multiset {1, …, 9} from {1, 2, 4, 4, 4, 5, 7, 9, 9}.
The two have the same sum and the same product. `Table.RelabelledSolvedGridIsCorrect`
and `Table.RelabelledSolvedGridIsUnsolved` show that every solved grid has such a
lookalike. `Table.StrictVerdict` is the check with each group tested for being a
permutation of 1..9. `Table.StrictVerdictMeaning` proves that it answers CORRECT exactly
for solved grids. `Table.StrictRejectsLookalike` proves that it answers INVALID on the
lookalike. The engine's own result does not depend on `check`: `Engine.ExtractTable`
proves the extracted board solved directly.
