/**
 FixMatrix<VALUE, SIZE>: a SIZE x SIZE matrix stored row-major in one array of SIZE * SIZE
 values; entry (x, y) lives at slot y * SIZE + x.

 The matrix is a value here: every operation returns a new matrix. The loops of the
 source (fill, range copy, reset, element-wise copy) are methods that build the storage
 entry by entry.
 */
module Matrix {

  datatype FixMatrix<V> = FixMatrix(size: nat, m: seq<V>) {

    /** The storage holds exactly size * size values. */
    predicate Valid()
    {
      |m| == size * size
    }

    /** operator()(x, y): the slot of entry (x, y). */
    function Slot(x: int, y: int): (i: int)
      requires 0 <= x < size && 0 <= y < size
      ensures 0 <= i < size * size
    {
      SlotBounds(size, x, y);
      y * size + x
    }

    function Get(x: int, y: int): V
      requires Valid() && 0 <= x < size && 0 <= y < size
    {
      m[Slot(x, y)]
    }

    /** Writing through operator()(x, y): entry (x, y) becomes v, every other entry stays. */
    function Set(x: int, y: int, v: V): (r: FixMatrix<V>)
      requires Valid() && 0 <= x < size && 0 <= y < size
      ensures r.Valid() && r.size == size
      ensures r.Get(x, y) == v
      ensures forall x', y' :: 0 <= x' < size && 0 <= y' < size && (x', y') != (x, y) ==>
                r.Get(x', y') == Get(x', y')
    {
      SlotInjective(size, x, y);
      FixMatrix(size, m[Slot(x, y) := v])
    }
  }

  lemma MulMonotone(a: int, b: int, k: nat)
    requires a <= b
    ensures a * k <= b * k
  {
    assert b * k - a * k == (b - a) * k;
  }

  /** Row y occupies the slots [y * size, y * size + size). */
  lemma SlotBounds(size: nat, x: int, y: int)
    requires 0 <= x < size && 0 <= y < size
    ensures y * size <= y * size + x < (y + 1) * size <= size * size
  {
    MulMonotone(y + 1, size, size);
    assert (y + 1) * size == y * size + size;
  }

  /** Distinct in-range positions have distinct slots. */
  lemma SlotInjective(size: nat, x: int, y: int)
    requires 0 <= x < size && 0 <= y < size
    ensures forall x', y' :: 0 <= x' < size && 0 <= y' < size && (x', y') != (x, y) ==>
              y' * size + x' != y * size + x
  {
    forall x', y' | 0 <= x' < size && 0 <= y' < size && (x', y') != (x, y)
      ensures y' * size + x' != y * size + x
    {
      SlotBounds(size, x, y);
      SlotBounds(size, x', y');
      if y' < y {
        MulMonotone(y' + 1, y, size);
      } else if y < y' {
        MulMonotone(y + 1, y', size);
      }
    }
  }

  /** Every entry of a valid matrix holds v. */
  ghost predicate AllEqual<V>(a: FixMatrix<V>, v: V)
    requires a.Valid()
  {
    forall x, y :: 0 <= x < a.size && 0 <= y < a.size ==> a.Get(x, y) == v
  }

  /** Storage-level statement of AllEqual. */
  lemma AllSlotsEqual<V>(a: FixMatrix<V>, v: V)
    requires a.Valid()
    requires forall i :: 0 <= i < |a.m| ==> a.m[i] == v
    ensures AllEqual(a, v)
  {
  }

  /** A run of n copies of v, built one slot at a time as the source's loops do. */
  method FillSlots<V>(n: nat, v: V) returns (s: seq<V>)
    ensures |s| == n
    ensures forall i :: 0 <= i < n ==> s[i] == v
  {
    s := [];
    var i := 0;
    while i != n
      invariant 0 <= i <= n
      invariant |s| == i
      invariant forall k :: 0 <= k < i ==> s[k] == v
    {
      s := s + [v];
      i := i + 1;
    }
  }

  /** The fill constructor FixMatrix(v): all size * size entries are v. */
  method Fill<V>(size: nat, v: V) returns (r: FixMatrix<V>)
    ensures r.Valid() && r.size == size
    ensures AllEqual(r, v)
  {
    var s := FillSlots(size * size, v);
    r := FixMatrix(size, s);
    AllSlotsEqual(r, v);
  }

  /** reset(v): every entry becomes v; the size is kept. */
  method Reset<V>(a: FixMatrix<V>, v: V) returns (r: FixMatrix<V>)
    requires a.Valid()
    ensures r.Valid() && r.size == a.size
    ensures AllEqual(r, v)
  {
    var s := FillSlots(a.size * a.size, v);
    r := FixMatrix(a.size, s);
    AllSlotsEqual(r, v);
  }

  /** The copy constructor and operator=: a slot-by-slot copy of the donor (memcpy of all
      size * size values). The previous contents of the target play no part. */
  method Copy<V>(donor: FixMatrix<V>) returns (r: FixMatrix<V>)
    requires donor.Valid()
    ensures r.Valid() && r.size == donor.size
    ensures forall x, y :: 0 <= x < r.size && 0 <= y < r.size ==> r.Get(x, y) == donor.Get(x, y)
  {
    var s: seq<V> := [];
    var i := 0;
    while i != |donor.m|
      invariant 0 <= i <= |donor.m|
      invariant s == donor.m[..i]
    {
      s := s + [donor.m[i]];
      i := i + 1;
    }
    r := FixMatrix(donor.size, s);
  }

  /** operator=(donor): the assigned-to matrix ends up element-wise equal to the donor. */
  method Assign<V>(target: FixMatrix<V>, donor: FixMatrix<V>) returns (r: FixMatrix<V>)
    requires target.Valid() && donor.Valid() && target.size == donor.size
    ensures r.Valid() && r.size == target.size
    ensures forall x, y :: 0 <= x < r.size && 0 <= y < r.size ==> r.Get(x, y) == donor.Get(x, y)
  {
    r := Copy(donor);
  }

  /** The range constructor: the i-th element of the range goes to slot i. Storage past the
      end of a shorter range is left uninitialised by the source; `indeterminate` stands for
      whatever it held. A range longer than size * size writes past the array, so it is
      excluded. */
  method FromRange<V>(size: nat, range: seq<V>, indeterminate: seq<V>) returns (r: FixMatrix<V>)
    requires |range| <= size * size
    requires |indeterminate| == size * size
    ensures r.Valid() && r.size == size
    ensures forall i :: 0 <= i < |range| ==> r.m[i] == range[i]
    ensures forall i :: |range| <= i < size * size ==> r.m[i] == indeterminate[i]
  {
    var s := indeterminate;
    var i := 0;
    while i != |range|
      invariant 0 <= i <= |range|
      invariant |s| == size * size
      invariant forall k :: 0 <= k < i ==> s[k] == range[k]
      invariant forall k :: i <= k < size * size ==> s[k] == indeterminate[k]
    {
      s := s[i := range[i]];
      i := i + 1;
    }
    r := FixMatrix(size, s);
  }
}
