/**
 Index arithmetic of the candidate cube.

 A candidate ("cell" in the solver) is a triple (x, y, v): digit v + 1 placed at column x,
 row y. An area is one of the four constraint families; it is named by its type and two
 fixed coordinates, and its nine members are enumerated by a varying index i.
 */
module Indices {

  /** A column, row, digit or in-area position: 0..8. The source keeps these as plain ints
      and leaves the range check as a TODO; an index outside 0..8 addresses outside the
      cube's arrays. */
  type Coord = i: int | 0 <= i < 9

  /** Candidate (x, y, v) of the 9x9x9 cube. */
  datatype CellIndex = CellIndex(x: Coord, y: Coord, v: Coord) {

    /** Row-major address in the 729-entry state array: x * 81 + y * 9 + v. */
    function Address(): (p: int)
      ensures 0 <= p < 729
    {
      x * 81 + y * 9 + v
    }
  }

  /** The four area types, numbered as in the source's enum. */
  datatype AreaType = Column | Row | V | Subtable {
    function Ordinal(): (n: int)
      ensures 0 <= n < 4
    {
      match this
      case Column => 0
      case Row => 1
      case V => 2
      case Subtable => 3
    }
  }

  /** The area types in the order of their ordinals. */
  function TypeOf(n: int): AreaType
    requires 0 <= n < 4
  {
    if n == 0 then Column else if n == 1 then Row else if n == 2 then V else Subtable
  }

  /** Area (type, first, second):
      - Column: x = first, v = second, members vary y;
      - Row: y = first, v = second, members vary x;
      - V: x = first, y = second, members vary v;
      - Subtable: v = first, box number = second, members vary the position in the box. */
  datatype AreaIndex = AreaIndex(kind: AreaType, first: Coord, second: Coord) {

    /** Address in the 324-entry per-area arrays: type * 81 + first * 9 + second. */
    function Address(): (p: int)
      ensures 0 <= p < 324
    {
      kind.Ordinal() * 81 + first * 9 + second
    }
  }

  /** The i-th member of area a. */
  function IndexOfCell(a: AreaIndex, i: Coord): CellIndex
  {
    match a.kind
    case Column => CellIndex(a.first, i, a.second)
    case Row => CellIndex(i, a.first, a.second)
    case V => CellIndex(a.first, a.second, i)
    case Subtable => CellIndex((a.second % 3) * 3 + i % 3, (a.second / 3) * 3 + i / 3, a.first)
  }

  /** The area of type t that contains candidate c. */
  function ContainingArea(t: AreaType, c: CellIndex): AreaIndex
  {
    match t
    case Column => AreaIndex(t, c.x, c.v)
    case Row => AreaIndex(t, c.y, c.v)
    case V => AreaIndex(t, c.x, c.y)
    case Subtable => AreaIndex(t, c.v, (c.y / 3) * 3 + c.x / 3)
  }

  /** The varying index under which c appears in its area of type t. */
  function PositionIn(t: AreaType, c: CellIndex): Coord
  {
    match t
    case Column => c.y
    case Row => c.x
    case V => c.v
    case Subtable => (c.y % 3) * 3 + c.x % 3
  }

  /** Area a contains candidate c. */
  predicate Contains(a: AreaIndex, c: CellIndex)
  {
    ContainingArea(a.kind, c) == a
  }

  /** Two candidates lie in a common area (of the same type). */
  predicate SharesArea(c: CellIndex, d: CellIndex)
  {
    || ContainingArea(Column, c) == ContainingArea(Column, d)
    || ContainingArea(Row, c) == ContainingArea(Row, d)
    || ContainingArea(V, c) == ContainingArea(V, d)
    || ContainingArea(Subtable, c) == ContainingArea(Subtable, d)
  }

  /** The three base-9 digits of an address below 729 determine it, and are recovered by
      division and remainder. */
  lemma BaseNineDigits(p: int, hi: int, mid: int, lo: int)
    requires 0 <= mid < 9 && 0 <= lo < 9 && p == hi * 81 + mid * 9 + lo
    ensures p / 81 == hi && (p / 9) % 9 == mid && p % 9 == lo
  {
    assert p == (hi * 9 + mid) * 9 + lo;
    assert p / 9 == hi * 9 + mid;
    assert p == hi * 81 + (mid * 9 + lo) && 0 <= mid * 9 + lo < 81;
  }

  /** Position n = y * 9 + x of a cell in row-by-row order gives back its coordinates. */
  lemma RowMajor(n: int, x: int, y: int)
    requires 0 <= x < 9 && n == y * 9 + x
    ensures n % 9 == x && n / 9 == y
  {
  }

  /** Every non-negative address splits into its base-9 digits. */
  lemma Split(p: int)
    requires 0 <= p
    ensures p == (p / 81) * 81 + ((p / 9) % 9) * 9 + p % 9
  {
    var q := p / 9;
    assert p == q * 9 + p % 9;
    assert q == (q / 9) * 9 + q % 9;
    BaseNineDigits(p, q / 9, q % 9, p % 9);
  }

  lemma OrdinalOfType(n: int)
    requires 0 <= n < 4
    ensures TypeOf(n).Ordinal() == n
  {
  }

  /** Candidate at a cell address: the inverse of CellIndex.Address. */
  function CellAt(p: int): (c: CellIndex)
    requires 0 <= p < 729
    ensures c.Address() == p
  {
    Split(p);
    CellIndex(p / 81, (p / 9) % 9, p % 9)
  }

  /** Area at an area address: the inverse of AreaIndex.Address. */
  function AreaAt(p: int): (a: AreaIndex)
    requires 0 <= p < 324
    ensures a.Address() == p
  {
    Split(p);
    OrdinalOfType(p / 81);
    AreaIndex(TypeOf(p / 81), (p / 9) % 9, p % 9)
  }

  /** The cell address is a bijection from [0,9)^3 onto [0,729). */
  lemma CellAddressBijection(c: CellIndex, d: CellIndex)
    ensures CellAt(c.Address()) == c
    ensures c.Address() == d.Address() ==> c == d
  {
    BaseNineDigits(c.Address(), c.x, c.y, c.v);
    BaseNineDigits(d.Address(), d.x, d.y, d.v);
  }

  /** The area address is a bijection from {0..3} x [0,9)^2 onto [0,324). */
  lemma AreaAddressBijection(a: AreaIndex, b: AreaIndex)
    ensures AreaAt(a.Address()) == a
    ensures a.Address() == b.Address() ==> a == b
  {
    BaseNineDigits(a.Address(), a.kind.Ordinal(), a.first, a.second);
    BaseNineDigits(b.Address(), b.kind.Ordinal(), b.first, b.second);
    assert TypeOf(a.kind.Ordinal()) == a.kind;
    if a.Address() == b.Address() {
      assert a.kind.Ordinal() == b.kind.Ordinal();
    }
  }

  /** Distinct candidates have distinct addresses. */
  lemma CellAddressInjective(c: CellIndex)
    ensures forall d: CellIndex :: d != c ==> d.Address() != c.Address()
  {
    forall d: CellIndex ensures d != c ==> d.Address() != c.Address() {
      CellAddressBijection(d, c);
    }
  }

  /** Distinct areas have distinct addresses. */
  lemma AreaAddressInjective(a: AreaIndex)
    ensures forall b: AreaIndex :: b != a ==> b.Address() != a.Address()
  {
    forall b: AreaIndex ensures b != a ==> b.Address() != a.Address() {
      AreaAddressBijection(b, a);
    }
  }

  /** Every member of an area is contained in that area, at the position it was asked for. */
  lemma MemberRoundTrip(a: AreaIndex, i: Coord)
    ensures ContainingArea(a.kind, IndexOfCell(a, i)) == a
    ensures PositionIn(a.kind, IndexOfCell(a, i)) == i
  {
    if a.kind == Subtable {
      var s := a.second;
      var c := IndexOfCell(a, i);
      assert c.x / 3 == s % 3;
      assert c.y / 3 == s / 3;
      assert c.x % 3 == i % 3;
      assert c.y % 3 == i / 3;
    }
  }

  /** A candidate is the member of its containing area at its own position. */
  lemma ContainingRoundTrip(t: AreaType, c: CellIndex)
    ensures IndexOfCell(ContainingArea(t, c), PositionIn(t, c)) == c
  {
    if t == Subtable {
      var s := (c.y / 3) * 3 + c.x / 3;
      var i := (c.y % 3) * 3 + c.x % 3;
      assert s % 3 == c.x / 3 && s / 3 == c.y / 3;
      assert i % 3 == c.x % 3 && i / 3 == c.y % 3;
    }
  }

  /** Membership both ways: c is some member of a exactly when a is c's area of a's type. */
  lemma ContainsIffMember(a: AreaIndex, c: CellIndex)
    ensures Contains(a, c) <==> exists i: Coord :: IndexOfCell(a, i) == c
  {
    if Contains(a, c) {
      ContainingRoundTrip(a.kind, c);
    }
    if exists i: Coord :: IndexOfCell(a, i) == c {
      var i: Coord :| IndexOfCell(a, i) == c;
      MemberRoundTrip(a, i);
    }
  }

  /** The members of an area are pairwise distinct. */
  lemma MembersDistinct(a: AreaIndex, i: Coord, j: Coord)
    ensures IndexOfCell(a, i) == IndexOfCell(a, j) ==> i == j
  {
    MemberRoundTrip(a, i);
    MemberRoundTrip(a, j);
  }
}
