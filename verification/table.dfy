/**
 sudoku::Table: a 9 x 9 FixMatrix of short values, 0 standing for an empty cell, with the
 board checker Table::check.

 check scans 27 groups of nine cells -- the nine rows top to bottom, then the nine columns
 left to right, then the nine 3 x 3 boxes (box rows outer, box columns inner, each box
 read row by row). For each group it forms the sum and the product of the nine values. The
 first group with product 0 gives INCOMPLETE; otherwise the first group whose sum is not
 1 + ... + 9 = 45 or whose product is not 9! = 362880 gives INVALID; if no group fails the
 grid is CORRECT.
 */
module Table {
  import opened Matrix

  /** Table::empty. */
  const Empty: int := 0

  /** 1 + 2 + ... + 9 and 1 * 2 * ... * 9, the check's two reference values. */
  const CheckSum: int := 45
  const CheckProduct: int := 362880

  /** A Table: FixMatrix<short, 9>. Cell values are kept as unbounded ints. */
  type Grid = t: FixMatrix<int> | t.size == 9 && |t.m| == 81 witness FixMatrix(9, seq(81, _ => 0))

  /** Table::State. */
  datatype State = Incomplete | Invalid | Correct

  /** t(x, y) for an in-range column x and row y. */
  function Cell(t: Grid, x: int, y: int): int
    requires 0 <= x < 9 && 0 <= y < 9
  {
    t.Get(x, y)
  }

  // ---------------------------------------------------------------------------------
  // Construction

  /** The default constructor: reset() with Value() = 0 overwrites whatever the storage
      held, so every cell is empty. */
  method NewTable(storage: Grid) returns (t: Grid)
    ensures forall x, y :: 0 <= x < 9 && 0 <= y < 9 ==> Cell(t, x, y) == Empty
  {
    var r := Reset(storage, 0);
    t := r;
  }

  /** The range constructor: cell (x, y) receives range[y * 9 + x]. Cells past the end of a
      shorter range keep the uninitialised storage. */
  method FromRange(range: seq<int>, storage: Grid) returns (t: Grid)
    requires |range| <= 81
    ensures forall x, y :: 0 <= x < 9 && 0 <= y < 9 && y * 9 + x < |range| ==>
              Cell(t, x, y) == range[y * 9 + x]
    ensures forall x, y :: 0 <= x < 9 && 0 <= y < 9 && |range| <= y * 9 + x ==>
              Cell(t, x, y) == Cell(storage, x, y)
  {
    var r := Matrix.FromRange(9, range, storage.m);
    t := r;
  }

  // ---------------------------------------------------------------------------------
  // Groups

  /** Position (x, y) of the k-th cell of group g, in the order the check visits them. */
  function GroupCell(g: int, k: int): (p: (int, int))
    requires 0 <= g < 27 && 0 <= k < 9
    ensures 0 <= p.0 < 9 && 0 <= p.1 < 9
  {
    if g < 9 then (k, g)
    else if g < 18 then (g - 9, k)
    else
      var b := g - 18;
      ((b % 3) * 3 + k % 3, (b / 3) * 3 + k / 3)
  }

  /** The nine values of group g, in visiting order. */
  function GroupValues(t: Grid, g: int): (s: seq<int>)
    requires 0 <= g < 27
    ensures |s| == 9
    ensures forall k :: 0 <= k < 9 ==> s[k] == Cell(t, GroupCell(g, k).0, GroupCell(g, k).1)
  {
    seq(9, k requires 0 <= k < 9 => Cell(t, GroupCell(g, k).0, GroupCell(g, k).1))
  }

  /** Sum and product accumulated left to right, as the check's inner loops do. */
  function Sum(s: seq<int>): int
  {
    if |s| == 0 then 0 else Sum(s[..|s| - 1]) + s[|s| - 1]
  }

  function Product(s: seq<int>): int
  {
    if |s| == 0 then 1 else Product(s[..|s| - 1]) * s[|s| - 1]
  }

  /** The group test of the check: no zero product, sum 45, product 9!. */
  predicate GroupPasses(s: seq<int>)
  {
    Product(s) != 0 && Sum(s) == CheckSum && Product(s) == CheckProduct
  }

  /** The nine values of each of the 27 groups, in the check's order. */
  function Groups(t: Grid): (gs: seq<seq<int>>)
    ensures |gs| == 27
    ensures forall g :: 0 <= g < 27 ==> gs[g] == GroupValues(t, g)
  {
    seq(27, g requires 0 <= g < 27 => GroupValues(t, g))
  }

  /** The verdict of the groups from g on, scanned in order: the first group with product
      0 is INCOMPLETE, the first other failing group INVALID. */
  function ScanFrom(gs: seq<seq<int>>, g: int): State
    requires 0 <= g <= |gs|
    decreases |gs| - g
  {
    if g == |gs| then Correct
    else if Product(gs[g]) == 0 then Incomplete
    else if !GroupPasses(gs[g]) then Invalid
    else ScanFrom(gs, g + 1)
  }

  /** The verdict the check's scan arrives at. */
  function Verdict(t: Grid): State
  {
    ScanFrom(Groups(t), 0)
  }

  // ---------------------------------------------------------------------------------
  // Table::check, with the source's loops

  /** One step of the check's accumulation. */
  lemma PrefixStep(s: seq<int>, k: int)
    requires 0 <= k < |s|
    ensures Sum(s[..k + 1]) == Sum(s[..k]) + s[k]
    ensures Product(s[..k + 1]) == Product(s[..k]) * s[k]
  {
    assert s[..k + 1][..k] == s[..k];
  }

  /** The cell of box (i, j) at offset (a, b) is the (b * 3 + a)-th cell of its group. */
  lemma BoxCell(i: int, j: int, a: int, b: int)
    requires 0 <= i < 3 && 0 <= j < 3 && 0 <= a < 3 && 0 <= b < 3
    ensures GroupCell(18 + j * 3 + i, b * 3 + a) == (i * 3 + a, j * 3 + b)
  {
    assert (j * 3 + i) % 3 == i && (j * 3 + i) / 3 == j;
    assert (b * 3 + a) % 3 == a && (b * 3 + a) / 3 == b;
  }

  /** One step of the scan, on the sum s and product p of group g. */
  lemma ScanStep(t: Grid, g: int, s: int, p: int)
    requires 0 <= g < 27 && s == Sum(GroupValues(t, g)) && p == Product(GroupValues(t, g))
    ensures p == 0 ==> ScanFrom(Groups(t), g) == Incomplete
    ensures p != 0 && (s != CheckSum || p != CheckProduct) ==> ScanFrom(Groups(t), g) == Invalid
    ensures p != 0 && s == CheckSum && p == CheckProduct ==> ScanFrom(Groups(t), g) == ScanFrom(Groups(t), g + 1)
  {
    assert Groups(t)[g] == GroupValues(t, g);
  }

  /** Table::check: rows, then columns, then boxes, each group summed and multiplied in
      visiting order; returns the verdict of the first failing group, or CORRECT. */
  method Check(t: Grid) returns (r: State)
    ensures r == Verdict(t)
  {
    var y := 0;
    while y != 9
      invariant 0 <= y <= 9
      invariant Verdict(t) == ScanFrom(Groups(t), y)
    {
      var s, p := RowSumProduct(t, y);
      ScanStep(t, y, s, p);
      if p == 0 {
        return Incomplete;
      }
      if s != CheckSum || p != CheckProduct {
        return Invalid;
      }
      y := y + 1;
    }

    var x := 0;
    while x != 9
      invariant 0 <= x <= 9
      invariant Verdict(t) == ScanFrom(Groups(t), 9 + x)
    {
      var s, p := ColumnSumProduct(t, x);
      ScanStep(t, 9 + x, s, p);
      if p == 0 {
        return Incomplete;
      }
      if s != CheckSum || p != CheckProduct {
        return Invalid;
      }
      x := x + 1;
    }

    var j := 0;
    while j != 3
      invariant 0 <= j <= 3
      invariant Verdict(t) == ScanFrom(Groups(t), 18 + j * 3)
    {
      var i := 0;
      while i != 3
        invariant 0 <= i <= 3
        invariant Verdict(t) == ScanFrom(Groups(t), 18 + j * 3 + i)
      {
        var s, p := BoxSumProduct(t, i, j);
        ScanStep(t, 18 + j * 3 + i, s, p);
        if p == 0 {
          return Incomplete;
        }
        if s != CheckSum || p != CheckProduct {
          return Invalid;
        }
        i := i + 1;
      }
      j := j + 1;
    }
    return Correct;
  }

  /** The body of the check's row loop: sum and product of row y, left to right. */
  method RowSumProduct(t: Grid, y: int) returns (s: int, p: int)
    requires 0 <= y < 9
    ensures s == Sum(GroupValues(t, y)) && p == Product(GroupValues(t, y))
  {
    ghost var vs := GroupValues(t, y);
    s, p := 0, 1;
    var x := 0;
    while x != 9
      invariant 0 <= x <= 9
      invariant s == Sum(vs[..x]) && p == Product(vs[..x])
    {
      PrefixStep(vs, x);
      s, p := s + Cell(t, x, y), p * Cell(t, x, y);
      x := x + 1;
    }
    assert vs[..9] == vs;
  }

  /** The body of the check's column loop: sum and product of column x, top to bottom. */
  method ColumnSumProduct(t: Grid, x: int) returns (s: int, p: int)
    requires 0 <= x < 9
    ensures s == Sum(GroupValues(t, 9 + x)) && p == Product(GroupValues(t, 9 + x))
  {
    ghost var vs := GroupValues(t, 9 + x);
    s, p := 0, 1;
    var y := 0;
    while y != 9
      invariant 0 <= y <= 9
      invariant s == Sum(vs[..y]) && p == Product(vs[..y])
    {
      PrefixStep(vs, y);
      s, p := s + Cell(t, x, y), p * Cell(t, x, y);
      y := y + 1;
    }
    assert vs[..9] == vs;
  }

  /** The body of the check's box loop: sum and product of box (i, j), rows outer and
      columns inner. */
  method BoxSumProduct(t: Grid, i: int, j: int) returns (s: int, p: int)
    requires 0 <= i < 3 && 0 <= j < 3
    ensures s == Sum(GroupValues(t, 18 + j * 3 + i)) && p == Product(GroupValues(t, 18 + j * 3 + i))
  {
    ghost var vs := GroupValues(t, 18 + j * 3 + i);
    s, p := 0, 1;
    var y := j * 3;
    while y != (j + 1) * 3
      invariant j * 3 <= y <= (j + 1) * 3
      invariant s == Sum(vs[..(y - j * 3) * 3]) && p == Product(vs[..(y - j * 3) * 3])
    {
      s, p := BoxRowSumProduct(t, i, j, y - j * 3, s, p);
      y := y + 1;
    }
    assert vs[..9] == vs;
  }

  /** The inner loop of the box scan: folds row b of box (i, j) into the accumulators. */
  method BoxRowSumProduct(t: Grid, i: int, j: int, b: int, s0: int, p0: int) returns (s: int, p: int)
    requires 0 <= i < 3 && 0 <= j < 3 && 0 <= b < 3
    requires s0 == Sum(GroupValues(t, 18 + j * 3 + i)[..b * 3])
    requires p0 == Product(GroupValues(t, 18 + j * 3 + i)[..b * 3])
    ensures s == Sum(GroupValues(t, 18 + j * 3 + i)[..b * 3 + 3])
    ensures p == Product(GroupValues(t, 18 + j * 3 + i)[..b * 3 + 3])
  {
    ghost var vs := GroupValues(t, 18 + j * 3 + i);
    s, p := s0, p0;
    for a := 0 to 3
      invariant s == Sum(vs[..b * 3 + a]) && p == Product(vs[..b * 3 + a])
    {
      var c := Cell(t, i * 3 + a, j * 3 + b);
      BoxPrefixStep(vs, t, i, j, a, b);
      s, p := s + c, p * c;
    }
  }

  /** Folding the cell of box (i, j) at offset (a, b) extends the group's prefix by one. */
  lemma BoxPrefixStep(vs: seq<int>, t: Grid, i: int, j: int, a: int, b: int)
    requires 0 <= i < 3 && 0 <= j < 3 && 0 <= a < 3 && 0 <= b < 3
    requires vs == GroupValues(t, 18 + j * 3 + i)
    ensures Sum(vs[..b * 3 + a + 1]) == Sum(vs[..b * 3 + a]) + Cell(t, i * 3 + a, j * 3 + b)
    ensures Product(vs[..b * 3 + a + 1]) == Product(vs[..b * 3 + a]) * Cell(t, i * 3 + a, j * 3 + b)
  {
    BoxCell(i, j, a, b);
    assert vs[b * 3 + a] == Cell(t, i * 3 + a, j * 3 + b);
    PrefixStep(vs, b * 3 + a);
  }

  // ---------------------------------------------------------------------------------
  // What the verdict means

  /** The first group from g0 on that fails the group test, or |gs| when none does. */
  function FirstFailing(gs: seq<seq<int>>, g0: int): (g: int)
    requires 0 <= g0 <= |gs|
    ensures g0 <= g <= |gs|
    ensures forall h :: g0 <= h < g ==> GroupPasses(gs[h])
    ensures g < |gs| ==> !GroupPasses(gs[g])
    decreases |gs| - g0
  {
    if g0 == |gs| then |gs|
    else if !GroupPasses(gs[g0]) then g0
    else FirstFailing(gs, g0 + 1)
  }

  /** The scan from g0 stops at the first failing group and names its kind: INCOMPLETE when
      that group's product is 0, INVALID otherwise, CORRECT when there is none. */
  lemma {:induction false} ScanStopsAtFirstFailing(gs: seq<seq<int>>, g0: int)
    requires 0 <= g0 <= |gs|
    ensures var g := FirstFailing(gs, g0);
            ScanFrom(gs, g0) == (if g == |gs| then Correct
                                 else if Product(gs[g]) == 0 then Incomplete
                                 else Invalid)
    decreases |gs| - g0
  {
    if g0 < |gs| && GroupPasses(gs[g0]) {
      ScanStopsAtFirstFailing(gs, g0 + 1);
    }
  }

  /** Table::check answers CORRECT exactly when all 27 groups have sum 45 and product 9!. */
  lemma VerdictCorrectMeaning(t: Grid)
    ensures Verdict(t) == Correct <==> forall g :: 0 <= g < 27 ==> GroupPasses(GroupValues(t, g))
  {
    var gs := Groups(t);
    ScanStopsAtFirstFailing(gs, 0);
    var f := FirstFailing(gs, 0);
    if f < 27 {
      assert !GroupPasses(GroupValues(t, f));
    }
  }

  /** A product is zero exactly when some factor is zero. */
  lemma {:induction false} ProductZero(s: seq<int>)
    ensures Product(s) == 0 <==> exists k :: 0 <= k < |s| && s[k] == 0
  {
    if |s| > 0 {
      ProductZero(s[..|s| - 1]);
      if Product(s[..|s| - 1]) == 0 {
        var k :| 0 <= k < |s| - 1 && s[..|s| - 1][k] == 0;
        assert s[k] == 0;
      }
      if exists k :: 0 <= k < |s| && s[k] == 0 {
        var k :| 0 <= k < |s| && s[k] == 0;
        if k < |s| - 1 {
          assert s[..|s| - 1][k] == 0;
        }
      }
    }
  }

  /** A grid whose first row has an empty cell is INCOMPLETE: row 0 is scanned first. */
  lemma FirstRowEmptyIsIncomplete(t: Grid, x: int)
    requires 0 <= x < 9 && Cell(t, x, 0) == Empty
    ensures Verdict(t) == Incomplete
  {
    var s := GroupValues(t, 0);
    assert s[x] == 0;
    ProductZero(s);
    assert Groups(t)[0] == s;
  }

  // ---------------------------------------------------------------------------------
  // Solved grids

  const Digits: seq<int> := [1, 2, 3, 4, 5, 6, 7, 8, 9]

  /** s holds each of the digits 1..9 exactly once. */
  predicate IsDigitPermutation(s: seq<int>)
  {
    multiset(s) == multiset(Digits)
  }

  /** Every row, column and box of the grid holds the digits 1..9 once each. */
  predicate Solved(t: Grid)
  {
    forall g :: 0 <= g < 27 ==> IsDigitPermutation(GroupValues(t, g))
  }

  lemma {:induction false} SumConcat(a: seq<int>, b: seq<int>)
    ensures Sum(a + b) == Sum(a) + Sum(b)
    decreases |b|
  {
    if |b| > 0 {
      assert (a + b)[..|a + b| - 1] == a + b[..|b| - 1];
      SumConcat(a, b[..|b| - 1]);
    } else {
      assert a + b == a;
    }
  }

  lemma {:induction false} ProductConcat(a: seq<int>, b: seq<int>)
    ensures Product(a + b) == Product(a) * Product(b)
    decreases |b|
  {
    if |b| > 0 {
      var b' := b[..|b| - 1];
      var l := b[|b| - 1];
      assert (a + b)[..|a + b| - 1] == a + b';
      ProductConcat(a, b');
      assert Product(a + b) == (Product(a) * Product(b')) * l;
      assert Product(b) == Product(b') * l;
      MulAssoc(Product(a), Product(b'), l);
    } else {
      assert a + b == a;
    }
  }

  lemma MulAssoc(p: int, q: int, r: int)
    ensures (p * q) * r == p * (q * r)
  {
  }

  /** Taking out the k-th element takes its value off the sum and its factor off the product. */
  lemma SumProductRemove(u: seq<int>, k: int)
    requires 0 <= k < |u|
    ensures Sum(u) == Sum(u[..k] + u[k + 1..]) + u[k]
    ensures Product(u) == Product(u[..k] + u[k + 1..]) * u[k]
  {
    var a, x, b := u[..k], u[k], u[k + 1..];
    assert u == (a + [x]) + b;
    SumConcat(a + [x], b);
    SumConcat(a, [x]);
    SumConcat(a, b);
    ProductConcat(a + [x], b);
    ProductConcat(a, [x]);
    ProductConcat(a, b);
    assert [x][..0] == [];
    var p, q := Product(a), Product(b);
    assert Product(u) == (p * x) * q;
    assert Product(a + b) * x == (p * q) * x;
    MulAssoc(p, x, q);
    MulAssoc(p, q, x);
  }

  /** Taking the last element off s and a matching element off u keeps the multisets equal. */
  lemma RemoveMatching(s: seq<int>, u: seq<int>, k: int)
    requires multiset(s) == multiset(u) && |s| > 0
    requires 0 <= k < |u| && u[k] == s[|s| - 1]
    ensures multiset(s[..|s| - 1]) == multiset(u[..k] + u[k + 1..])
  {
    var x := s[|s| - 1];
    assert s == s[..|s| - 1] + [x];
    assert u == u[..k] + [x] + u[k + 1..];
    assert multiset(u) == multiset(u[..k]) + multiset{x} + multiset(u[k + 1..]);
    assert multiset(u[..k] + u[k + 1..]) == multiset(u[..k]) + multiset(u[k + 1..]);
    assert multiset(s) == multiset(s[..|s| - 1]) + multiset{x};
    var a, b := multiset(s[..|s| - 1]), multiset(u[..k] + u[k + 1..]);
    assert a + multiset{x} == b + multiset{x};
    assert a == (a + multiset{x}) - multiset{x};
    assert b == (b + multiset{x}) - multiset{x};
  }

  /** Sum and product depend only on the multiset of the values. */
  lemma {:induction false} SumProductOfMultiset(s: seq<int>, u: seq<int>)
    requires multiset(s) == multiset(u)
    ensures Sum(s) == Sum(u) && Product(s) == Product(u)
    decreases |s|
  {
    if |s| > 0 {
      var x := s[|s| - 1];
      assert s == s[..|s| - 1] + [x];
      assert x in multiset(u);
      var k :| 0 <= k < |u| && u[k] == x;
      assert u == u[..k] + [x] + u[k + 1..];
      RemoveMatching(s, u, k);
      SumProductOfMultiset(s[..|s| - 1], u[..k] + u[k + 1..]);
      SumProductRemove(u, k);
    } else {
      assert |u| == 0;
    }
  }

  /** A permutation of 1..9 passes the check's group test. */
  lemma DigitPermutationPasses(s: seq<int>)
    requires IsDigitPermutation(s)
    ensures GroupPasses(s)
  {
    SumProductOfMultiset(s, Digits);
    DigitsPass();
  }

  /** 1..9 has sum 45 and product 9!. */
  lemma DigitsPass()
    ensures GroupPasses(Digits)
  {
    var m := Digits;
    assert m[..0] == [];
    PrefixStep(m, 0); PrefixStep(m, 1); PrefixStep(m, 2);
    PrefixStep(m, 3); PrefixStep(m, 4); PrefixStep(m, 5);
    PrefixStep(m, 6); PrefixStep(m, 7); PrefixStep(m, 8);
    assert m[..9] == m;
  }

  /** A solved grid is CORRECT. */
  lemma SolvedIsCorrect(t: Grid)
    requires Solved(t)
    ensures Verdict(t) == Correct
  {
    forall g | 0 <= g < 27 ensures GroupPasses(GroupValues(t, g)) {
      DigitPermutationPasses(GroupValues(t, g));
    }
    VerdictCorrectMeaning(t);
  }

  // ---------------------------------------------------------------------------------
  // CORRECT does not mean solved

  /** The digits 3 and 6 become 4 and 8 becomes 9; the others stay. The nine digits turn
      into {1,2,4,4,4,5,7,9,9}, which has the sum and the product of 1..9. */
  function Relabel(d: int): int
  {
    if d == 3 || d == 6 then 4 else if d == 8 then 9 else d
  }

  function MapSeq(f: int -> int, s: seq<int>): (r: seq<int>)
    ensures |r| == |s| && forall k :: 0 <= k < |s| ==> r[k] == f(s[k])
  {
    seq(|s|, k requires 0 <= k < |s| => f(s[k]))
  }

  /** A grid with every cell relabelled. */
  function Relabelled(t: Grid): (r: Grid)
    ensures forall x, y :: 0 <= x < 9 && 0 <= y < 9 ==> Cell(r, x, y) == Relabel(Cell(t, x, y))
  {
    FixMatrix(9, MapSeq(Relabel, t.m))
  }

  /** Mapping distributes over concatenation. */
  lemma MapConcat(f: int -> int, a: seq<int>, b: seq<int>)
    ensures MapSeq(f, a + b) == MapSeq(f, a) + MapSeq(f, b)
  {
  }

  /** Mapping preserves equality of multisets. */
  lemma {:induction false} MultisetOfMap(f: int -> int, s: seq<int>, u: seq<int>)
    requires multiset(s) == multiset(u)
    ensures multiset(MapSeq(f, s)) == multiset(MapSeq(f, u))
    decreases |s|
  {
    if |s| > 0 {
      var x := s[|s| - 1];
      var s' := s[..|s| - 1];
      assert x in multiset(u);
      var k :| 0 <= k < |u| && u[k] == x;
      var u' := u[..k] + u[k + 1..];
      RemoveMatching(s, u, k);
      MultisetOfMap(f, s', u');
      MapTakeOut(f, s, u, k);
    } else {
      assert |u| == 0;
    }
  }

  /** Mapping after taking out the last entry of s and a matching entry k of u. */
  lemma MapTakeOut(f: int -> int, s: seq<int>, u: seq<int>, k: int)
    requires |s| > 0 && 0 <= k < |u| && u[k] == s[|s| - 1]
    requires multiset(MapSeq(f, s[..|s| - 1])) == multiset(MapSeq(f, u[..k] + u[k + 1..]))
    ensures multiset(MapSeq(f, s)) == multiset(MapSeq(f, u))
  {
    var x := s[|s| - 1];
    assert s == s[..|s| - 1] + [x];
    assert u == u[..k] + [x] + u[k + 1..];
    MapConcat(f, s[..|s| - 1], [x]);
    MapConcat(f, u[..k] + [x], u[k + 1..]);
    MapConcat(f, u[..k], [x]);
    MapConcat(f, u[..k], u[k + 1..]);
  }

  /** The relabelled digits. */
  lemma RelabelledDigits()
    ensures MapSeq(Relabel, Digits) == [1, 2, 4, 4, 5, 4, 7, 9, 9]
  {
    var m := MapSeq(Relabel, Digits);
    assert m[0] == 1 && m[1] == 2 && m[2] == 4 && m[3] == 4 && m[4] == 5;
    assert m[5] == 4 && m[6] == 7 && m[7] == 9 && m[8] == 9;
  }

  /** Relabelling a permutation of 1..9 gives {1,2,4,4,4,5,7,9,9}. */
  lemma RelabelledPermutation(s: seq<int>)
    requires IsDigitPermutation(s)
    ensures multiset(MapSeq(Relabel, s)) == multiset([1, 2, 4, 4, 5, 4, 7, 9, 9])
  {
    MultisetOfMap(Relabel, s, Digits);
    RelabelledDigits();
  }

  /** The groups of a relabelled grid are the relabelled groups. */
  lemma RelabelledGroup(t: Grid, g: int)
    requires 0 <= g < 27
    ensures GroupValues(Relabelled(t), g) == MapSeq(Relabel, GroupValues(t, g))
  {
  }

  /** Every group of a relabelled solved grid holds {1,2,4,4,4,5,7,9,9}, so it passes the
      group test: the check calls the relabelled grid CORRECT. */
  lemma RelabelledSolvedGridIsCorrect(t: Grid)
    requires Solved(t)
    ensures Verdict(Relabelled(t)) == Correct
  {
    var r := Relabelled(t);
    RelabelledDigitsPass();
    forall g | 0 <= g < 27 ensures GroupPasses(GroupValues(r, g)) {
      RelabelledGroup(t, g);
      RelabelledPermutation(GroupValues(t, g));
      SumProductOfMultiset(GroupValues(r, g), [1, 2, 4, 4, 5, 4, 7, 9, 9]);
    }
    VerdictCorrectMeaning(r);
  }

  /** ... yet its first row holds 4 three times, so it is not solved. */
  lemma RelabelledSolvedGridIsUnsolved(t: Grid)
    requires Solved(t)
    ensures !Solved(Relabelled(t))
  {
    var r := Relabelled(t);
    RelabelledGroup(t, 0);
    RelabelledPermutation(GroupValues(t, 0));
    FoursDiffer();
    assert !IsDigitPermutation(GroupValues(r, 0));
  }

  /** {1,2,4,4,4,5,7,9,9} lacks the digit 3. */
  lemma FoursDiffer()
    ensures multiset([1, 2, 4, 4, 5, 4, 7, 9, 9]) != multiset(Digits)
  {
    var m := [1, 2, 4, 4, 5, 4, 7, 9, 9];
    assert Digits[2] == 3;
    assert 3 in multiset(Digits);
    assert 3 !in m;
    assert 3 !in multiset(m);
  }

  /** {1,2,4,4,4,5,7,9,9} has sum 45 and product 9!. */
  lemma RelabelledDigitsPass()
    ensures GroupPasses([1, 2, 4, 4, 5, 4, 7, 9, 9])
  {
    var m := [1, 2, 4, 4, 5, 4, 7, 9, 9];
    assert m[..0] == [];
    PrefixStep(m, 0); PrefixStep(m, 1); PrefixStep(m, 2);
    PrefixStep(m, 3); PrefixStep(m, 4); PrefixStep(m, 5);
    PrefixStep(m, 6); PrefixStep(m, 7); PrefixStep(m, 8);
    assert m[..9] == m;
  }

  // ---------------------------------------------------------------------------------
  // Distinct digits

  const DigitSet: set<int> := {1, 2, 3, 4, 5, 6, 7, 8, 9}

  /** Pairwise distinct elements. */
  predicate Distinct(s: seq<int>)
  {
    forall i, j :: 0 <= i < j < |s| ==> s[i] != s[j]
  }

  /** A duplicate-free sequence drawn from a finite set, as long as the set is large, holds
      every element of the set exactly once. */
  lemma {:induction false} DistinctFillsSet(s: seq<int>, d: set<int>)
    requires Distinct(s) && |s| == |d|
    requires forall i :: 0 <= i < |s| ==> s[i] in d
    ensures multiset(s) == multiset(d)
    decreases |s|
  {
    if |s| == 0 {
      assert d == {};
    } else {
      var x := s[|s| - 1];
      var s' := s[..|s| - 1];
      assert s == s' + [x];
      assert forall i :: 0 <= i < |s'| ==> s'[i] in d - {x} by {
        forall i | 0 <= i < |s'| ensures s'[i] in d - {x} {
          assert s'[i] == s[i] && i < |s| - 1;
        }
      }
      DistinctFillsSet(s', d - {x});
      assert multiset(d) == multiset(d - {x}) + multiset{x};
    }
  }

  /** Nine distinct values between 1 and 9 are a permutation of 1..9. */
  lemma DistinctDigitsArePermutation(s: seq<int>)
    requires |s| == 9 && Distinct(s)
    requires forall i :: 0 <= i < 9 ==> 1 <= s[i] <= 9
    ensures IsDigitPermutation(s)
  {
    assert |DigitSet| == 9;
    DistinctFillsSet(s, DigitSet);
    DistinctFillsSet(Digits, DigitSet);
  }

  // ---------------------------------------------------------------------------------
  // A solved grid

  /** The classic shifted-rows solution: row y is 1..9 rotated left by (y % 3) * 3 + y / 3. */
  function PatternValue(x: int, y: int): (d: int)
    requires 0 <= x < 9 && 0 <= y < 9
    ensures 1 <= d <= 9
  {
    ((y % 3) * 3 + y / 3 + x) % 9 + 1
  }

  function PatternGrid(): (t: Grid)
    ensures forall x, y :: 0 <= x < 9 && 0 <= y < 9 ==> Cell(t, x, y) == PatternValue(x, y)
  {
    var t := FixMatrix(9, seq(81, k requires 0 <= k < 81 => PatternValue(k % 9, k / 9)));
    forall x, y | 0 <= x < 9 && 0 <= y < 9 ensures Cell(t, x, y) == PatternValue(x, y) {
      assert (y * 9 + x) % 9 == x && (y * 9 + x) / 9 == y;
    }
    t
  }

  /** Shifting two distinct residues by the same amount keeps them distinct modulo 9. */
  lemma ShiftDistinct(a: int, b: int, c: int)
    requires 0 <= a < 9 && 0 <= b < 9 && a != b && 0 <= c
    ensures (a + c) % 9 != (b + c) % 9
  {
  }

  /** The row offset (y % 3) * 3 + y / 3 is a bijection of 0..8. */
  lemma OffsetDistinct(i: int, j: int)
    requires 0 <= i < j < 9
    ensures 0 <= (i % 3) * 3 + i / 3 < 9 && 0 <= (j % 3) * 3 + j / 3 < 9
    ensures (i % 3) * 3 + i / 3 != (j % 3) * 3 + j / 3
  {
  }

  /** In box b the pattern value at position k is (k + 3 * (b % 3) + b / 3) % 9 + 1. */
  lemma BoxShift(b: int, k: int)
    requires 0 <= b < 9 && 0 <= k < 9
    ensures PatternValue((b % 3) * 3 + k % 3, (b / 3) * 3 + k / 3) == (k + 3 * (b % 3) + b / 3) % 9 + 1
  {
    var y := (b / 3) * 3 + k / 3;
    assert y % 3 == k / 3 && y / 3 == b / 3;
    assert (k / 3) * 3 + k % 3 == k;
  }

  /** Each group of the pattern grid has nine distinct values. */
  lemma PatternGroupDistinct(g: int, i: int, j: int)
    requires 0 <= g < 27 && 0 <= i < j < 9
    ensures PatternValue(GroupCell(g, i).0, GroupCell(g, i).1) != PatternValue(GroupCell(g, j).0, GroupCell(g, j).1)
  {
    if g < 9 {
      assert GroupCell(g, i) == (i, g) && GroupCell(g, j) == (j, g);
      PatternRowDistinct(g, i, j);
    } else if g < 18 {
      var x := g - 9;
      assert GroupCell(g, i) == (x, i) && GroupCell(g, j) == (x, j);
      PatternColumnDistinct(x, i, j);
    } else {
      var b := g - 18;
      assert GroupCell(g, i) == ((b % 3) * 3 + i % 3, (b / 3) * 3 + i / 3);
      assert GroupCell(g, j) == ((b % 3) * 3 + j % 3, (b / 3) * 3 + j / 3);
      PatternBoxDistinct(b, i, j);
    }
  }

  lemma PatternRowDistinct(y: int, i: int, j: int)
    requires 0 <= y < 9 && 0 <= i < j < 9
    ensures PatternValue(i, y) != PatternValue(j, y)
  {
    ShiftDistinct(i, j, (y % 3) * 3 + y / 3);
  }

  lemma PatternColumnDistinct(x: int, i: int, j: int)
    requires 0 <= x < 9 && 0 <= i < j < 9
    ensures PatternValue(x, i) != PatternValue(x, j)
  {
    OffsetDistinct(i, j);
    ShiftDistinct((i % 3) * 3 + i / 3, (j % 3) * 3 + j / 3, x);
  }

  lemma PatternBoxDistinct(b: int, i: int, j: int)
    requires 0 <= b < 9 && 0 <= i < j < 9
    ensures PatternValue((b % 3) * 3 + i % 3, (b / 3) * 3 + i / 3) != PatternValue((b % 3) * 3 + j % 3, (b / 3) * 3 + j / 3)
  {
    BoxShift(b, i);
    BoxShift(b, j);
    ShiftDistinct(i, j, 3 * (b % 3) + b / 3);
  }

  /** The pattern grid is solved. */
  lemma PatternGridSolved()
    ensures Solved(PatternGrid())
  {
    var t := PatternGrid();
    forall g | 0 <= g < 27 ensures IsDigitPermutation(GroupValues(t, g)) {
      var s := GroupValues(t, g);
      forall i, j | 0 <= i < j < 9 ensures s[i] != s[j] {
        PatternGroupDistinct(g, i, j);
      }
      DistinctDigitsArePermutation(s);
    }
  }

  /** The concrete look-alike: the pattern grid relabelled. The check calls it CORRECT, yet
      its first row reads 1 2 4 4 5 4 7 9 9. */
  lemma LookalikeIsCorrectButUnsolved()
    ensures Verdict(Relabelled(PatternGrid())) == Correct
    ensures !Solved(Relabelled(PatternGrid()))
  {
    PatternGridSolved();
    RelabelledSolvedGridIsCorrect(PatternGrid());
    RelabelledSolvedGridIsUnsolved(PatternGrid());
  }

  // ---------------------------------------------------------------------------------
  // A check whose CORRECT means solved

  /** The scan of Table::check with the group test replaced by "is a permutation of 1..9". */
  function StrictScanFrom(gs: seq<seq<int>>, g: int): State
    requires 0 <= g <= |gs|
    decreases |gs| - g
  {
    if g == |gs| then Correct
    else if Product(gs[g]) == 0 then Incomplete
    else if !IsDigitPermutation(gs[g]) then Invalid
    else StrictScanFrom(gs, g + 1)
  }

  function StrictVerdict(t: Grid): State
  {
    StrictScanFrom(Groups(t), 0)
  }

  /** The corrected scan ends in CORRECT exactly when every group from g0 on is a
      permutation of 1..9, and then the original scan does too. */
  lemma {:induction false} StrictScanMeaning(gs: seq<seq<int>>, g0: int)
    requires 0 <= g0 <= |gs|
    ensures StrictScanFrom(gs, g0) == Correct <==> forall g :: g0 <= g < |gs| ==> IsDigitPermutation(gs[g])
    decreases |gs| - g0
  {
    if g0 < |gs| {
      StrictScanMeaning(gs, g0 + 1);
      StrictScanStep(gs, g0);
      PermutationsFrom(gs, g0);
    }
  }

  /** Every group from g0 on is a permutation exactly when group g0 is and every group
      from g0 + 1 on is. */
  lemma PermutationsFrom(gs: seq<seq<int>>, g0: int)
    requires 0 <= g0 < |gs|
    ensures (forall g :: g0 <= g < |gs| ==> IsDigitPermutation(gs[g])) <==>
            IsDigitPermutation(gs[g0]) && forall g :: g0 + 1 <= g < |gs| ==> IsDigitPermutation(gs[g])
  {
  }

  /** One step of the corrected scan: CORRECT from g0 on means group g0 is a permutation
      and the rest of the scan is CORRECT. */
  lemma StrictScanStep(gs: seq<seq<int>>, g0: int)
    requires 0 <= g0 < |gs|
    ensures StrictScanFrom(gs, g0) == Correct <==>
              IsDigitPermutation(gs[g0]) && StrictScanFrom(gs, g0 + 1) == Correct
  {
    if IsDigitPermutation(gs[g0]) {
      DigitPermutationPasses(gs[g0]);
      assert Product(gs[g0]) != 0;
    }
  }

  /** When every group passes the sum/product test no product is 0, so the corrected scan
      can only end in CORRECT or INVALID. */
  lemma {:induction false} StrictNeverIncompleteWhenScanPasses(gs: seq<seq<int>>, g0: int)
    requires 0 <= g0 <= |gs|
    requires forall g :: g0 <= g < |gs| ==> GroupPasses(gs[g])
    ensures StrictScanFrom(gs, g0) != Incomplete
    decreases |gs| - g0
  {
    if g0 < |gs| {
      StrictNeverIncompleteWhenScanPasses(gs, g0 + 1);
    }
  }

  /** The corrected check answers CORRECT exactly for solved grids, and then so does
      Table::check. */
  lemma StrictVerdictMeaning(t: Grid)
    ensures StrictVerdict(t) == Correct <==> Solved(t)
    ensures StrictVerdict(t) == Correct ==> Verdict(t) == Correct
  {
    StrictVerdictSolved(t);
    if Solved(t) {
      SolvedIsCorrect(t);
    }
  }

  /** The corrected check answers CORRECT exactly when every group is a permutation of 1..9. */
  lemma StrictVerdictSolved(t: Grid)
    ensures StrictVerdict(t) == Correct <==> Solved(t)
  {
    var gs := Groups(t);
    StrictScanMeaning(gs, 0);
    assert (forall g :: 0 <= g < |gs| ==> IsDigitPermutation(gs[g])) <==> Solved(t);
  }

  /** The corrected check rejects every relabelled solved grid, all of which Table::check
      accepts. */
  lemma StrictRejectsRelabelled(t: Grid)
    requires Solved(t)
    ensures Verdict(Relabelled(t)) == Correct
    ensures StrictVerdict(Relabelled(t)) == Invalid
  {
    var r := Relabelled(t);
    RelabelledSolvedGridIsCorrect(t);
    RelabelledSolvedGridIsUnsolved(t);
    StrictVerdictMeaning(r);
    StrictNeverIncompleteFor(r);
  }

  /** A grid Table::check accepts is never INCOMPLETE for the corrected check. */
  lemma StrictNeverIncompleteFor(t: Grid)
    requires Verdict(t) == Correct
    ensures StrictVerdict(t) != Incomplete
  {
    VerdictCorrectMeaning(t);
    StrictNeverIncompleteWhenScanPasses(Groups(t), 0);
  }

  /** The look-alike grid in particular. */
  lemma StrictRejectsLookalike()
    ensures StrictVerdict(Relabelled(PatternGrid())) == Invalid
  {
    PatternGridSolved();
    StrictRejectsRelabelled(PatternGrid());
  }
}
