/** The in-place sort of the solver's vectors: Hoare partitioning above a small selection sort. */
module Sorting {

  /** The orders a caller may pass as `lt`. */
  ghost predicate StrictWeakOrder<T(!new)>(lt: (T, T) -> bool) {
    && (forall x :: !lt(x, x))
    && (forall x, y, z :: lt(x, y) && lt(y, z) ==> lt(x, z))
    && (forall x, y, z :: lt(x, z) ==> lt(x, y) || lt(y, z))
  }

  ghost predicate SortedRange<T>(s: seq<T>, lo: int, hi: int, lt: (T, T) -> bool)
    requires 0 <= lo <= hi <= |s|
  {
    forall i, j :: lo <= i < j < hi ==> !lt(s[j], s[i])
  }

  /** `t` is `s` with the elements of positions `lo..hi` rearranged. */
  ghost predicate Rearranged<T>(s: seq<T>, t: seq<T>, lo: int, hi: int) {
    && 0 <= lo <= hi <= |s| == |t|
    && s[..lo] == t[..lo] && s[hi..] == t[hi..]
    && multiset(s[lo..hi]) == multiset(t[lo..hi])
  }

  function Swapped<T>(s: seq<T>, i: nat, j: nat): seq<T>
    requires i < |s| && j < |s|
  {
    s[i := s[j]][j := s[i]]
  }

  lemma RearrangedSelf<T>(s: seq<T>, lo: int, hi: int)
    requires 0 <= lo <= hi <= |s|
    ensures Rearranged(s, s, lo, hi)
  {
  }

  lemma RearrangedTrans<T>(s: seq<T>, t: seq<T>, u: seq<T>, lo: int, hi: int)
    requires Rearranged(s, t, lo, hi) && Rearranged(t, u, lo, hi)
    ensures Rearranged(s, u, lo, hi)
  {
  }

  lemma SwapRearranges<T>(s: seq<T>, i: int, j: int, lo: int, hi: int)
    requires 0 <= lo <= i < hi <= |s| && lo <= j < hi
    ensures Rearranged(s, Swapped(s, i, j), lo, hi)
  {
    var t := Swapped(s, i, j);
    var a, b := i - lo, j - lo;
    assert t[lo..hi] == Swapped(s[lo..hi], a, b);
    SwapMultiset(s[lo..hi], a, b);
    assert t[..lo] == s[..lo] && t[hi..] == s[hi..];
  }

  lemma SwapMultiset<T>(s: seq<T>, i: nat, j: nat)
    requires i < |s| && j < |s|
    ensures multiset(Swapped(s, i, j)) == multiset(s)
  {
  }

  /** Rearranging part of a range rearranges the range. */
  lemma RearrangedWiden<T>(s: seq<T>, t: seq<T>, lo: int, hi: int, lo': int, hi': int)
    requires Rearranged(s, t, lo, hi) && 0 <= lo' <= lo && hi <= hi' <= |s|
    ensures Rearranged(s, t, lo', hi')
  {
    assert s[lo'..hi'] == s[lo'..lo] + s[lo..hi] + s[hi..hi'];
    assert t[lo'..hi'] == t[lo'..lo] + t[lo..hi] + t[hi..hi'];
    assert s[lo'..lo] == s[..lo][lo'..] == t[..lo][lo'..] == t[lo'..lo];
    assert s[hi..hi'] == s[hi..][..hi' - hi] == t[hi..][..hi' - hi] == t[hi..hi'];
    assert s[..lo'] == s[..lo][..lo'] == t[..lo][..lo'] == t[..lo'];
    assert s[hi'..] == s[hi..][hi' - hi..] == t[hi..][hi' - hi..] == t[hi'..];
  }

  /** Every element of the range was there before, and nothing else changed. */
  lemma RearrangedFrom<T>(s: seq<T>, t: seq<T>, lo: int, hi: int, k: int) returns (m: int)
    requires Rearranged(s, t, lo, hi) && 0 <= k < |s|
    ensures 0 <= m < |s| && t[k] == s[m]
    ensures if lo <= k < hi then lo <= m < hi else m == k
  {
    if lo <= k < hi {
      assert t[lo..hi][k - lo] == t[k];
      assert t[k] in multiset(t[lo..hi]);
      assert t[k] in s[lo..hi];
      var a :| 0 <= a < hi - lo && s[lo..hi][a] == t[k];
      m := a + lo;
    } else {
      m := k;
      if k < lo {
        assert s[..lo][k] == t[..lo][k];
      } else {
        assert s[hi..][k - hi] == t[hi..][k - hi];
      }
    }
  }

  method Swap<T>(a: array<T>, i: nat, j: nat)
    requires i < a.Length && j < a.Length
    modifies a
    ensures a[..] == Swapped(old(a[..]), i, j)
  {
    a[i], a[j] := a[j], a[i];
  }

  method SelectionSort<T(!new)>(a: array<T>, lo: nat, hi: nat, lt: (T, T) -> bool)
    requires lo <= hi <= a.Length && StrictWeakOrder(lt)
    modifies a
    ensures Rearranged(old(a[..]), a[..], lo, hi) && SortedRange(a[..], lo, hi, lt)
  {
    var i := lo;
    RearrangedSelf(a[..], lo, hi);
    while i + 1 < hi
      invariant lo <= i && (i <= hi || lo == hi) && Rearranged(old(a[..]), a[..], lo, hi)
      invariant Leading(a[..], lo, if i <= hi then i else hi, hi, lt)
    {
      var best := LeastIndex(a, i, hi, lt);
      ghost var s := a[..];
      Swap(a, i, best);
      SwapRearranges(s, i, best, lo, hi);
      RearrangedTrans(old(a[..]), s, a[..], lo, hi);
      LeadingStep(s, lo, i, hi, best, lt);
      i := i + 1;
    }
  }

  method LeastIndex<T(!new)>(a: array<T>, i: nat, hi: nat, lt: (T, T) -> bool) returns (best: nat)
    requires i < hi <= a.Length && StrictWeakOrder(lt)
    ensures i <= best < hi && forall k :: i <= k < hi ==> !lt(a[k], a[best])
  {
    best := i;
    for j := i + 1 to hi
      invariant i <= best < j
      invariant forall k :: i <= k < j ==> !lt(a[k], a[best])
    {
      if lt(a[j], a[best]) {
        best := j;
      }
    }
  }

  /** The first positions hold the least elements in order. */
  ghost predicate Leading<T>(s: seq<T>, lo: int, i: int, hi: int, lt: (T, T) -> bool)
    requires 0 <= lo <= i <= hi <= |s|
  {
    forall j, k :: lo <= j < i && j < k < hi ==> !lt(s[k], s[j])
  }

  lemma LeadingStep<T(!new)>(s: seq<T>, lo: int, i: int, hi: int, best: int, lt: (T, T) -> bool)
    requires 0 <= lo <= i < hi <= |s| && i <= best < hi && StrictWeakOrder(lt) && Leading(s, lo, i, hi, lt)
    requires forall k :: i <= k < hi ==> !lt(s[k], s[best])
    ensures Leading(Swapped(s, i, best), lo, i + 1, hi, lt)
  {
    var t := Swapped(s, i, best);
    forall j, k | lo <= j < i + 1 && j < k < hi ensures !lt(t[k], t[j]) {
      var k' := if k == i then best else if k == best then i else k;
      assert t[k] == s[k'];
      if j == i {
        assert t[j] == s[best];
      } else {
        assert t[j] == s[j];
      }
    }
  }

  /** What the two scans know: everything up to `i` is at most the pivot, everything from `j` on at
      least, and each scan has a sentinel ahead of it. */
  ghost predicate Partitioning<T>(s: seq<T>, lo: int, hi: int, i: int, j: int, pivot: T, lt: (T, T) -> bool) {
    && 0 <= lo < hi <= |s| && lo - 1 <= i < j <= hi
    && (forall k :: lo <= k <= i ==> !lt(pivot, s[k]))
    && (forall k :: j <= k < hi ==> !lt(s[k], pivot))
    && ((i == lo - 1 && j == hi && s[lo + (hi - lo) / 2] == pivot) || (lo <= i && j < hi))
  }

  method ScanUp<T(!new)>(a: array<T>, lo: nat, hi: nat, i0: int, ghost j: int, pivot: T, lt: (T, T) -> bool) returns (i: int)
    requires hi <= a.Length && hi - lo >= 2 && StrictWeakOrder(lt) && Partitioning(a[..], lo, hi, i0, j, pivot, lt)
    ensures i0 < i < hi && !lt(a[i], pivot) && forall k :: i0 < k < i ==> lt(a[k], pivot)
  {
    i := i0 + 1;
    while lt(a[i], pivot)
      invariant i0 < i < hi && forall k :: i0 < k < i ==> lt(a[k], pivot)
      invariant i <= (if j == hi then lo + (hi - lo) / 2 else j)
      decreases hi - i
    {
      i := i + 1;
    }
  }

  method ScanDown<T(!new)>(a: array<T>, lo: nat, hi: nat, ghost i: int, j0: int, pivot: T, lt: (T, T) -> bool) returns (j: int)
    requires hi <= a.Length && hi - lo >= 2 && StrictWeakOrder(lt) && Partitioning(a[..], lo, hi, i, j0, pivot, lt)
    ensures lo <= j < j0 && !lt(pivot, a[j]) && forall k :: j < k < j0 ==> lt(pivot, a[k])
    ensures i == lo - 1 ==> lo + 1 <= j
  {
    j := j0 - 1;
    while lt(pivot, a[j])
      invariant lo <= j < j0 && forall k :: j < k < j0 ==> lt(pivot, a[k])
      invariant j >= (if i == lo - 1 then lo + (hi - lo) / 2 else i)
      decreases j
    {
      j := j - 1;
    }
  }

  /** Splits the range at an index strictly inside it. */
  method Partition<T(!new)>(a: array<T>, lo: nat, hi: nat, lt: (T, T) -> bool) returns (i: int, ghost pivot: T)
    requires hi <= a.Length && hi - lo >= 2 && StrictWeakOrder(lt)
    modifies a
    ensures lo < i < hi && Rearranged(old(a[..]), a[..], lo, hi)
    ensures forall k :: lo <= k < i ==> !lt(pivot, a[k])
    ensures forall k :: i <= k < hi ==> !lt(a[k], pivot)
  {
    var p := a[lo + (hi - lo) / 2];
    pivot := p;
    i := lo - 1;
    var j: int := hi;
    RearrangedSelf(a[..], lo, hi);
    while true
      invariant Partitioning(a[..], lo, hi, i, j, pivot, lt) && Rearranged(old(a[..]), a[..], lo, hi)
      decreases j - i
    {
      var i0, j0 := i, j;
      i := ScanUp(a, lo, hi, i0, j0, p, lt);
      j := ScanDown(a, lo, hi, i0, j0, p, lt);
      if i >= j {
        return;
      }
      ghost var s := a[..];
      Swap(a, i, j);
      SwapRearranges(s, i, j, lo, hi);
      RearrangedTrans(old(a[..]), s, a[..], lo, hi);
      PartitionStep(s, lo, hi, i0, j0, i, j, pivot, lt);
    }
  }

  lemma PartitionStep<T(!new)>(s: seq<T>, lo: int, hi: int, i0: int, j0: int, i: int, j: int, pivot: T, lt: (T, T) -> bool)
    requires StrictWeakOrder(lt) && Partitioning(s, lo, hi, i0, j0, pivot, lt)
    requires i0 < i < j < j0 && lo <= i && j < hi && !lt(s[i], pivot) && !lt(pivot, s[j])
    requires forall k :: i0 < k < i ==> lt(s[k], pivot)
    requires forall k :: j < k < j0 ==> lt(pivot, s[k])
    ensures Partitioning(Swapped(s, i, j), lo, hi, i, j, pivot, lt)
  {
    var t := Swapped(s, i, j);
    assert t[i] == s[j] && t[j] == s[i];
    assert forall k :: 0 <= k < |s| && k != i && k != j ==> t[k] == s[k];
  }

  /** Sorts `a[lo..hi]`. */
  method Sort<T(!new)>(a: array<T>, lo: nat, hi: nat, lt: (T, T) -> bool)
    requires lo <= hi <= a.Length && StrictWeakOrder(lt)
    modifies a
    ensures Rearranged(old(a[..]), a[..], lo, hi) && SortedRange(a[..], lo, hi, lt)
    decreases hi - lo
  {
    if hi - lo <= 15 {
      SelectionSort(a, lo, hi, lt);
    } else {
      var i, pivot := Partition(a, lo, hi, lt);
      ghost var s := a[..];
      Sort(a, lo, i, lt);
      ghost var t := a[..];
      Sort(a, i, hi, lt);
      RearrangedWiden(s, t, lo, i, lo, hi);
      RearrangedWiden(t, a[..], i, hi, lo, hi);
      RearrangedTrans(old(a[..]), s, t, lo, hi);
      RearrangedTrans(old(a[..]), t, a[..], lo, hi);
      JoinSorted(s, t, a[..], lo, i, hi, pivot, lt);
    }
  }

  lemma JoinSorted<T(!new)>(s: seq<T>, t: seq<T>, u: seq<T>, lo: int, i: int, hi: int, pivot: T, lt: (T, T) -> bool)
    requires StrictWeakOrder(lt) && Rearranged(s, t, lo, i) && Rearranged(t, u, i, hi)
    requires SortedRange(t, lo, i, lt) && SortedRange(u, i, hi, lt)
    requires forall k :: lo <= k < i ==> !lt(pivot, s[k])
    requires forall k :: i <= k < hi ==> !lt(s[k], pivot)
    ensures SortedRange(u, lo, hi, lt)
  {
    forall k | lo <= k < i ensures u[k] == t[k] && !lt(pivot, u[k]) {
      var m := RearrangedFrom(t, u, i, hi, k);
      var m' := RearrangedFrom(s, t, lo, i, k);
    }
    forall k | i <= k < hi ensures !lt(u[k], pivot) {
      var m := RearrangedFrom(t, u, i, hi, k);
      var m' := RearrangedFrom(s, t, lo, i, m);
    }
    forall j, k | lo <= j < k < hi ensures !lt(u[k], u[j]) {
      if j < i <= k {
        var x, y := u[k], u[j];
        assert lt(x, y) ==> lt(x, pivot) || lt(pivot, y);
      }
    }
  }

  lemma TailMultiset<T>(s: seq<T>)
    requires s != []
    ensures multiset(s[1..]) == multiset(s) - multiset{s[0]}
  {
    assert s == [s[0]] + s[1..];
  }

  lemma SameFirst<T(!new)>(s: seq<T>, t: seq<T>, lt: (T, T) -> bool)
    requires StrictWeakOrder(lt) && multiset(s) == multiset(t) && s != [] && t != []
    requires SortedRange(s, 0, |s|, lt) && SortedRange(t, 0, |t|, lt)
    requires forall x, y :: !lt(x, y) && !lt(y, x) ==> x == y
    ensures s[0] == t[0]
  {
    assert s[0] in multiset(t) && t[0] in multiset(s);
    var i :| 0 <= i < |t| && t[i] == s[0];
    var j :| 0 <= j < |s| && s[j] == t[0];
  }

  /** The result is determined up to equivalent elements: a sorted rearrangement is the only one. */
  lemma {:induction false} SortedUnique<T(!new)>(s: seq<T>, t: seq<T>, lt: (T, T) -> bool)
    requires StrictWeakOrder(lt) && multiset(s) == multiset(t)
    requires SortedRange(s, 0, |s|, lt) && SortedRange(t, 0, |t|, lt)
    requires forall x, y :: !lt(x, y) && !lt(y, x) ==> x == y
    ensures s == t
  {
    assert |s| == |multiset(s)| == |t|;
    if |s| > 0 {
      SameFirst(s, t, lt);
      assert s == [s[0]] + s[1..] && t == [t[0]] + t[1..];
      TailMultiset(s);
      TailMultiset(t);
      SortedUnique(s[1..], t[1..], lt);
    }
  }
}
