/**
 The pool of remaining areas (Snapshot::AreaPool) and the reordering the solver applies
 to it.

 Entries are area indices; AreaRef::operator< compares the potentials the two areas have
 in the cube of the current snapshot. The solver brings the k least entries to the front
 with std::partial_sort, which promises only this: the first k entries are k entries of
 least potential, in ascending order, and the whole is a rearrangement of the input. The
 order among equal potentials and the order of the rest are unspecified, so the model
 states that promise as a relation and lets the solver take any reordering satisfying it.
 */
module Pool {
  import opened Indices
  import opened Counting

  /** The key AreaRef::operator< compares: the area's potential. */
  function Key(pot: seq<int>, a: AreaIndex): int
    requires |pot| == 324
  {
    pot[a.Address()]
  }

  /** std::partial_sort(begin, begin + k, end): r rearranges s, and its first k entries are
      k entries of least key, in ascending order. */
  predicate PartialSorted(pot: seq<int>, s: seq<AreaIndex>, r: seq<AreaIndex>, k: int)
    requires |pot| == 324
  {
    && 0 <= k <= |s|
    && |r| == |s|
    && multiset(r) == multiset(s)
    && (forall i, j :: 0 <= i < j < k ==> Key(pot, r[i]) <= Key(pot, r[j]))
    && (forall i, j :: 0 <= i < k <= j < |r| ==> Key(pot, r[i]) <= Key(pot, r[j]))
  }

  /** Position of an entry of least key. */
  function LeastAt(pot: seq<int>, s: seq<AreaIndex>): (m: int)
    requires |pot| == 324 && |s| > 0
    ensures 0 <= m < |s|
    ensures forall j :: 0 <= j < |s| ==> Key(pot, s[m]) <= Key(pot, s[j])
  {
    if |s| == 1 then 0
    else
      var m := LeastAt(pot, s[1..]);
      assert forall j :: 1 <= j < |s| ==> s[j] == s[1..][j - 1];
      if Key(pot, s[0]) <= Key(pot, s[1..][m]) then 0 else m + 1
  }

  /** Selection of the k least entries one at a time: one reordering partial_sort may
      produce. */
  function SelectLeast(pot: seq<int>, s: seq<AreaIndex>, k: int): (r: seq<AreaIndex>)
    requires |pot| == 324 && 0 <= k <= |s|
    decreases k
  {
    if k == 0 then s
    else
      var m := LeastAt(pot, s);
      [s[m]] + SelectLeast(pot, s[..m] + s[m + 1..], k - 1)
  }

  /** Taking out position m leaves the multiset minus that entry. */
  lemma TakeOut(s: seq<AreaIndex>, m: int)
    requires 0 <= m < |s|
    ensures multiset([s[m]]) + multiset(s[..m] + s[m + 1..]) == multiset(s)
  {
    assert s == s[..m] + [s[m]] + s[m + 1..];
  }

  /** Every entry of a rearrangement is an entry of the original. */
  lemma EntriesOf(s: seq<AreaIndex>, r: seq<AreaIndex>, j: int)
    requires multiset(r) == multiset(s) && 0 <= j < |r|
    ensures r[j] in s
  {
    assert r[j] in multiset(r);
  }

  /** The selection satisfies the promise of partial_sort, so such a reordering exists. */
  lemma {:induction false} SelectLeastIsPartialSorted(pot: seq<int>, s: seq<AreaIndex>, k: int)
    requires |pot| == 324 && 0 <= k <= |s|
    ensures PartialSorted(pot, s, SelectLeast(pot, s, k), k)
    decreases k
  {
    if k > 0 {
      var m := LeastAt(pot, s);
      var rest := s[..m] + s[m + 1..];
      SelectLeastIsPartialSorted(pot, rest, k - 1);
      ConsLeast(pot, s, m, SelectLeast(pot, rest, k - 1), k);
    }
  }

  /** Putting an entry of least key in front of a partial sort of the other entries gives
      a partial sort one longer. */
  lemma ConsLeast(pot: seq<int>, s: seq<AreaIndex>, m: int, tail: seq<AreaIndex>, k: int)
    requires |pot| == 324 && 0 <= m < |s| && 1 <= k <= |s|
    requires forall j :: 0 <= j < |s| ==> Key(pot, s[m]) <= Key(pot, s[j])
    requires PartialSorted(pot, s[..m] + s[m + 1..], tail, k - 1)
    ensures PartialSorted(pot, s, [s[m]] + tail, k)
  {
    var rest := s[..m] + s[m + 1..];
    var r := [s[m]] + tail;
    TakeOut(s, m);
    assert multiset(r) == multiset([s[m]]) + multiset(tail);
    LeastStaysLeast(pot, s, m, tail);
    forall i, j | 1 <= i < j < |r| && i < k ensures Key(pot, r[i]) <= Key(pot, r[j]) {
      assert r[i] == tail[i - 1] && r[j] == tail[j - 1];
    }
  }

  /** An entry of least key of s is no greater than any entry of a rearrangement of the
      rest. */
  lemma LeastStaysLeast(pot: seq<int>, s: seq<AreaIndex>, m: int, tail: seq<AreaIndex>)
    requires |pot| == 324 && 0 <= m < |s|
    requires forall j :: 0 <= j < |s| ==> Key(pot, s[m]) <= Key(pot, s[j])
    requires multiset(tail) == multiset(s[..m] + s[m + 1..])
    ensures forall j :: 0 <= j < |tail| ==> Key(pot, s[m]) <= Key(pot, tail[j])
  {
    forall j | 0 <= j < |tail| ensures Key(pot, s[m]) <= Key(pot, tail[j]) {
      EntriesOf(s[..m] + s[m + 1..], tail, j);
      TakeOut(s, m);
      assert tail[j] in multiset(s);
    }
  }

  /** partial_sort(begin, begin + k, end): any reordering keeping its promise. */
  method PartialSort(pot: seq<int>, s: seq<AreaIndex>, k: int) returns (r: seq<AreaIndex>)
    requires |pot| == 324 && 0 <= k <= |s|
    ensures PartialSorted(pot, s, r, k)
  {
    SelectLeastIsPartialSorted(pot, s, k);
    r :| PartialSorted(pot, s, r, k);
  }

  /** After partial_sort with k >= 1 the front entry has the least key of all. */
  lemma FrontIsLeast(pot: seq<int>, s: seq<AreaIndex>, r: seq<AreaIndex>, k: int)
    requires |pot| == 324 && PartialSorted(pot, s, r, k) && k >= 1
    ensures forall a :: a in s ==> Key(pot, r[0]) <= Key(pot, a)
  {
    forall a | a in s ensures Key(pot, r[0]) <= Key(pot, a) {
      assert a in multiset(r);
      var j :| 0 <= j < |r| && r[j] == a;
    }
  }

  /** A rearrangement has the same entries. */
  lemma SameEntries(pot: seq<int>, s: seq<AreaIndex>, r: seq<AreaIndex>, k: int)
    requires |pot| == 324 && PartialSorted(pot, s, r, k)
    ensures forall a :: a in r <==> a in s
  {
    forall a ensures a in r <==> a in s {
      assert a in r <==> a in multiset(r);
      assert a in s <==> a in multiset(s);
    }
  }

  /** The erase that follows partial_sort(begin, begin + n, end) removes only areas of key
      0 when s holds at least n distinct areas of key 0 and no key is negative. */
  lemma ErasedAreZero(pot: seq<int>, s: seq<AreaIndex>, r: seq<AreaIndex>, n: int, zeros: set<AreaIndex>)
    requires |pot| == 324 && PartialSorted(pot, s, r, n)
    requires forall a :: a in s ==> Key(pot, a) >= 0
    requires forall a :: a in zeros ==> a in s && Key(pot, a) == 0
    requires |zeros| >= n
    ensures forall i :: 0 <= i < n ==> Key(pot, r[i]) == 0
    ensures forall a :: a in s ==> a in r[n..] || Key(pot, a) == 0
  {
    SameEntries(pot, s, r, n);
    forall i | 0 <= i < n ensures Key(pot, r[i]) == 0 {
      assert r[i] in s;
      if Key(pot, r[i]) != 0 {
        ZerosBeforeFirstPositive(pot, s, r, n, zeros, i);
      }
    }
    forall a | a in s ensures a in r[n..] || Key(pot, a) == 0 {
      var p := PositionOf(r, a);
      if p >= n {
        assert r[n..][p - n] == a;
      }
    }
  }

  /** Every area of key 0 sits before a front position of positive key, so there are
      no more of them than that position. */
  lemma ZerosBeforeFirstPositive(pot: seq<int>, s: seq<AreaIndex>, r: seq<AreaIndex>, n: int,
                                 zeros: set<AreaIndex>, i: int)
    requires |pot| == 324 && PartialSorted(pot, s, r, n)
    requires forall a :: a in zeros ==> a in r && Key(pot, a) == 0
    requires 0 <= i < n && Key(pot, r[i]) > 0
    ensures |zeros| <= i
  {
    var f := a => PositionOf(r, a);
    var positions := Image(zeros, f);
    forall p | p in positions ensures 0 <= p < i {
      var a :| a in zeros && p == f(a);
    }
    PositionsInjective(r, zeros);
    assert forall x, y :: x in zeros && y in zeros && f(x) == f(y) ==> x == y;
    InjectiveImageCard(zeros, f);
    SubsetOfRangeCard(positions, i);
  }

  /** Position of an entry. */
  function PositionOf(r: seq<AreaIndex>, a: AreaIndex): (p: int)
    ensures a in r ==> 0 <= p < |r| && r[p] == a
  {
    if |r| == 0 then 0
    else if r[0] == a then 0
    else
      assert a in r ==> a in r[1..] by {
        if a in r {
          var j :| 0 <= j < |r| && r[j] == a;
          assert r[1..][j - 1] == a;
        }
      }
      PositionOf(r[1..], a) + 1
  }

  lemma PositionsInjective(r: seq<AreaIndex>, zeros: set<AreaIndex>)
    requires forall a :: a in zeros ==> a in r
    ensures forall a, b :: a in zeros && b in zeros && PositionOf(r, a) == PositionOf(r, b) ==> a == b
  {
  }
}
