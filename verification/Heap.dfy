/** The binary heap with an inverse index that orders the decision variables. */
module IndexedHeap {
  import Sorting

  function Left(i: nat): nat { 2 * i + 1 }

  function Right(i: nat): nat { 2 * (i + 1) }

  function Parent(i: nat): nat
    requires i > 0
  {
    (i - 1) / 2
  }

  const ABSENT: int := -1

  type Order = (nat, nat) -> bool

  /** `indices` is the exact inverse of `heap`, with -1 for the keys that are not in it. */
  ghost predicate Inverse(heap: seq<nat>, indices: seq<int>) {
    && (forall i :: 0 <= i < |heap| ==> heap[i] < |indices| && indices[heap[i]] == i)
    && (forall x :: 0 <= x < |indices| && indices[x] != ABSENT ==> 0 <= indices[x] < |heap| && heap[indices[x]] == x)
  }

  /** Below the positions from `from` on no key is smaller than its parent, except perhaps the key at
      `up` and the children of `down`. */
  ghost predicate Ordered(heap: seq<nat>, lt: Order, from: int, up: int, down: int) {
    forall i :: 0 < i < |heap| && Parent(i) >= from && i != up && Parent(i) != down ==> !lt(heap[i], heap[Parent(i)])
  }

  /** The children of the hole are not smaller than its parent. */
  ghost predicate Bridged(heap: seq<nat>, lt: Order, from: int, hole: nat) {
    hole > 0 && Parent(hole) >= from ==>
      forall i :: 0 < i < |heap| && Parent(i) == hole ==> Parent(hole) < |heap| && !lt(heap[i], heap[Parent(hole)])
  }

  ghost predicate HeapOrder(heap: seq<nat>, lt: Order) {
    Ordered(heap, lt, 0, -1, -1)
  }

  /** The keys are ordered but for `n`, whose own key may have changed either way. */
  ghost predicate OrderedExcept(heap: seq<nat>, lt: Order, i: nat) {
    Ordered(heap, lt, 0, i, i) && Bridged(heap, lt, 0, i)
  }

  /** The root is a least key. */
  lemma {:induction false} RootLeast(heap: seq<nat>, lt: Order, i: nat)
    requires Sorting.StrictWeakOrder(lt) && HeapOrder(heap, lt) && i < |heap|
    ensures !lt(heap[i], heap[0])
    decreases i
  {
    if i > 0 {
      RootLeast(heap, lt, Parent(i));
      assert !lt(heap[i], heap[Parent(i)]);
      NotLess(lt, heap[i], heap[Parent(i)], heap[0]);
    }
  }

  lemma NotLess(lt: Order, x: nat, y: nat, z: nat)
    requires Sorting.StrictWeakOrder(lt) && !lt(x, y) && !lt(y, z)
    ensures !lt(x, z)
  {
    assert lt(x, z) ==> lt(x, y) || lt(y, z);
  }

  lemma StillNotLess(lt: Order, z: nat, y: nat, x: nat)
    requires Sorting.StrictWeakOrder(lt) && lt(x, y) && !lt(z, y)
    ensures !lt(z, x)
  {
    assert lt(z, x) && lt(x, y) ==> lt(z, y);
  }

  /** When only one key's weight changes, the heap is ordered but for that key. */
  lemma KeyChanged(heap: seq<nat>, was: Order, lt: Order, i: nat)
    requires Sorting.StrictWeakOrder(was) && HeapOrder(heap, was) && i < |heap|
    requires forall j, k :: 0 <= j < |heap| && 0 <= k < |heap| && j != i && k != i ==> lt(heap[j], heap[k]) == was(heap[j], heap[k])
    ensures OrderedExcept(heap, lt, i)
  {
    if i > 0 {
      forall k | 0 < k < |heap| && Parent(k) == i ensures !lt(heap[k], heap[Parent(i)]) {
        NotLess(was, heap[k], heap[i], heap[Parent(i)]);
      }
    }
  }

  // ---------------------------------------------------------------- one exchange

  /** The key at `i` is smaller than its parent: after the exchange only the next parent is in doubt. */
  lemma UpStep(heap: seq<nat>, lt: Order, i: nat, down: int)
    requires Sorting.StrictWeakOrder(lt) && 0 < i < |heap| && lt(heap[i], heap[Parent(i)])
    requires Ordered(heap, lt, 0, i, down) && Bridged(heap, lt, 0, i) && (down == -1 || down == i)
    ensures var p := Parent(i); Ordered(Sorting.Swapped(heap, i, p), lt, 0, p, -1) && Bridged(Sorting.Swapped(heap, i, p), lt, 0, p)
  {
    var p := Parent(i);
    var h := Sorting.Swapped(heap, i, p);
    var x, y := heap[i], heap[p];
    forall k | 0 < k < |h| && k != p ensures !lt(h[k], h[Parent(k)]) {
      if k != i && Parent(k) == p {
        StillNotLess(lt, heap[k], y, x);
      } else if Parent(k) == i {
        assert !lt(heap[k], heap[p]);
      }
    }
    if p > 0 {
      forall k | 0 < k < |h| && Parent(k) == p ensures !lt(h[k], h[Parent(p)]) {
        if k != i { NotLess(lt, heap[k], y, heap[Parent(p)]); }
      }
    }
  }

  /** The smaller child goes up; then only the children of its old place are in doubt. */
  lemma DownStep(heap: seq<nat>, lt: Order, from: nat, i: nat, child: nat)
    requires Sorting.StrictWeakOrder(lt) && from <= i < child < |heap| && Parent(child) == i && lt(heap[child], heap[i])
    requires forall k :: 0 < k < |heap| && Parent(k) == i ==> !lt(heap[k], heap[child])
    requires Ordered(heap, lt, from, -1, i) && Bridged(heap, lt, from, i)
    ensures Ordered(Sorting.Swapped(heap, i, child), lt, from, -1, child) && Bridged(Sorting.Swapped(heap, i, child), lt, from, child)
  {
    var h := Sorting.Swapped(heap, i, child);
    forall k | 0 < k < |h| && Parent(k) >= from && Parent(k) != child ensures !lt(h[k], h[Parent(k)]) {
      if k == child {
        StillNotLess(lt, heap[i], heap[i], heap[child]);
      }
    }
  }

  lemma SwapInverse(heap: seq<nat>, indices: seq<int>, i: nat, j: nat)
    requires Inverse(heap, indices) && i < |heap| && j < |heap|
    ensures Inverse(Sorting.Swapped(heap, i, j), indices[heap[j] := i][heap[i] := j])
    ensures multiset(Sorting.Swapped(heap, i, j)) == multiset(heap)
  {
  }

  lemma KeyPlace(heap: seq<nat>, indices: seq<int>, i: nat)
    requires Inverse(heap, indices) && i < |heap|
    ensures heap[i] < |indices| && indices[heap[i]] == i
  {
  }

  lemma SettledUp(heap: seq<nat>, lt: Order, i: nat, down: int)
    requires i < |heap| && Ordered(heap, lt, 0, i, down) && (i > 0 ==> !lt(heap[i], heap[Parent(i)]))
    ensures Ordered(heap, lt, 0, -1, down)
  {
  }

  lemma LeastChild(heap: seq<nat>, lt: Order, i: nat, child: nat)
    requires Sorting.StrictWeakOrder(lt) && Left(i) < |heap|
    requires child == if Right(i) < |heap| && lt(heap[Right(i)], heap[Left(i)]) then Right(i) else Left(i)
    ensures i < child < |heap| && Parent(child) == i
    ensures forall k :: 0 < k < |heap| && Parent(k) == i ==> !lt(heap[k], heap[child])
  {
    var l, r := heap[Left(i)], heap[child];
    assert lt(r, l) && lt(l, r) ==> lt(l, l);
    forall k | 0 < k < |heap| && Parent(k) == i ensures k == Left(i) || k == Right(i) {
    }
  }

  lemma SettledDown(heap: seq<nat>, lt: Order, from: nat, i: nat, child: nat)
    requires Sorting.StrictWeakOrder(lt) && i < |heap| && Ordered(heap, lt, from, -1, i)
    requires 0 < child < |heap| && !lt(heap[child], heap[i])
    requires forall k :: 0 < k < |heap| && Parent(k) == i ==> !lt(heap[k], heap[child])
    ensures Ordered(heap, lt, from, -1, -1)
  {
    forall k | 0 < k < |heap| && Parent(k) == i ensures !lt(heap[k], heap[i]) {
      NotLess(lt, heap[k], heap[child], heap[i]);
    }
  }

  lemma SettledLeaf(heap: seq<nat>, lt: Order, from: nat, i: nat)
    requires i < |heap| <= Left(i) && Ordered(heap, lt, from, -1, i)
    ensures Ordered(heap, lt, from, -1, -1)
  {
  }

  /** Writing one key and its index is exchanging it with the hole. */
  lemma SwapHole(heap: seq<nat>, indices: seq<int>, h: seq<nat>, ix: seq<int>, i: nat, j: nat, x: nat)
    requires i < |heap| && j < |heap| && i != j && h == heap[i := x] && x < |indices| && ix == indices[x := i] && Inverse(h, ix)
    ensures h[j] == heap[j] < |indices| && heap[j] != x
    ensures Sorting.Swapped(h, i, j) == heap[i := heap[j]][j := x]
    ensures ix[h[j] := i][x := j] == indices[heap[j] := i][x := j]
  {
    assert h[i] == x;
  }

  /** With another key at the root and the last key gone, only the children of the root are in doubt. */
  lemma RootInDoubt(heap: seq<nat>, lt: Order, x: nat)
    requires HeapOrder(heap, lt) && heap != []
    ensures var h := heap[0 := x][..|heap| - 1];
            Ordered(h, lt, 0, -1, 0) && Bridged(h, lt, 0, 0) && (|h| <= 1 ==> HeapOrder(h, lt))
  {
  }

  /** The last key replaces the root. */
  lemma RemoveRoot(heap: seq<nat>, indices: seq<int>)
    requires Inverse(heap, indices) && heap != []
    ensures heap[0] < |indices| && heap[|heap| - 1] < |indices|
    ensures var last := heap[|heap| - 1]; var h := heap[0 := last][..|heap| - 1];
            && Inverse(h, indices[last := 0][heap[0] := ABSENT])
            && multiset(h) == multiset(heap) - multiset{heap[0]} && heap[0] !in h
  {
    var last := heap[|heap| - 1];
    var h := heap[0 := last][..|heap| - 1];
    var ix := indices[last := 0][heap[0] := ABSENT];
    if |heap| > 1 {
      RootMultiset(heap);
      assert indices[heap[0]] == 0 && indices[last] == |heap| - 1;
      forall i | 0 <= i < |h| ensures h[i] < |ix| && ix[h[i]] == i && h[i] != heap[0] {
        assert h[i] == if i == 0 then last else heap[i];
        assert indices[h[i]] == if i == 0 then |heap| - 1 else i;
      }
    } else {
      assert heap == [heap[0]];
    }
  }

  lemma RootMultiset(heap: seq<nat>)
    requires |heap| > 1
    ensures multiset(heap[0 := heap[|heap| - 1]][..|heap| - 1]) == multiset(heap) - multiset{heap[0]}
  {
    var last := heap[|heap| - 1];
    assert heap == [heap[0]] + heap[1..|heap| - 1] + [last];
    assert heap[0 := last][..|heap| - 1] == [last] + heap[1..|heap| - 1];
  }

  class Heap {
    var lt: Order
    var heap: seq<nat>
    var indices: seq<int>

    ghost predicate Valid()
      reads this
    {
      Sorting.StrictWeakOrder(lt) && Inverse(heap, indices) && HeapOrder(heap, lt)
    }

    constructor (lt: Order)
      requires Sorting.StrictWeakOrder(lt)
      ensures Valid() && heap == [] && this.lt == lt
    {
      this.lt := lt;
      heap, indices := [], [];
    }

    predicate InHeap(n: nat)
      reads this
    {
      n < |indices| && indices[n] >= 0
    }

    lemma InHeapKey(n: nat)
      requires Inverse(heap, indices)
      ensures InHeap(n) <==> n in heap
    {
      if n in heap {
        var i :| 0 <= i < |heap| && heap[i] == n;
      }
    }

    /** Moves the key at `start` up to its place. */
    method PercolateUp(start: nat)
      requires Sorting.StrictWeakOrder(lt) && Inverse(heap, indices) && start < |heap| && OrderedExcept(heap, lt, start)
      modifies `heap, `indices
      ensures Inverse(heap, indices) && multiset(heap) == multiset(old(heap)) && |indices| == |old(indices)|
      ensures var i := indices[old(heap[start])];
              0 <= i <= start && (i == start ==> heap == old(heap)) && Ordered(heap, lt, 0, -1, if i == start then i else -1)
      ensures Bridged(heap, lt, 0, start) || HeapOrder(heap, lt)
    {
      hide Inverse, Ordered, Bridged;
      var i := start;
      KeyPlace(heap, indices, i);
      var x := heap[i];
      ghost var h := heap;                   // the heap with `x` in the hole
      ghost var ix := indices;
      while i != 0 && lt(x, heap[Parent(i)])
        invariant i <= start < |heap| && h == heap[i := x] && |ix| == |indices| && x < |indices| && ix == indices[x := i]
        invariant Inverse(h, ix) && multiset(h) == multiset(old(heap)) && (i == start ==> h == old(heap)) && |ix| == |old(indices)|
        invariant Ordered(h, lt, 0, i, if i == start then i else -1) && Bridged(h, lt, 0, i)
        decreases i
      {
        var p := Parent(i);
        KeyPlace(h, ix, p);
        KeyPlace(h, ix, i);
        UpStep(h, lt, i, if i == start then i else -1);
        SwapInverse(h, ix, i, p);
        h, ix := Sorting.Swapped(h, i, p), ix[h[p] := i][x := p];
        heap := heap[i := heap[p]];
        indices := indices[heap[i] := i];
        i := p;
      }
      heap := heap[i := x];
      indices := indices[x := i];
      assert heap == h && indices == ix;
      SettledUp(heap, lt, i, if i == start then i else -1);
    }

    /** Moves the key at `start` down to its place; keys above `from` may still be out of order. */
    method PercolateDown(start: nat, ghost from: nat)
      requires Sorting.StrictWeakOrder(lt) && Inverse(heap, indices) && from <= start < |heap|
      requires Ordered(heap, lt, from, -1, start) && Bridged(heap, lt, from, start)
      modifies `heap, `indices
      ensures Inverse(heap, indices) && multiset(heap) == multiset(old(heap)) && |indices| == |old(indices)|
      ensures Ordered(heap, lt, from, -1, -1) && |heap| == |old(heap)|
    {
      hide Inverse, Ordered, Bridged, Sorting.Swapped, Sorting.StrictWeakOrder;
      var i := start;
      KeyPlace(heap, indices, i);
      var x := heap[i];
      ghost var h := heap;
      ghost var ix := indices;
      ghost var settled := false;
      while Left(i) < |heap|
        invariant !settled && from <= i < |heap| && h == heap[i := x] && |ix| == |indices| && x < |indices| && ix == indices[x := i]
        invariant Inverse(h, ix) && multiset(h) == multiset(old(heap)) && |h| == |old(heap)| && |ix| == |old(indices)|
        invariant Ordered(h, lt, from, -1, i) && Bridged(h, lt, from, i)
        decreases |heap| - i
      {
        var child := if Right(i) < |heap| && lt(heap[Right(i)], heap[Left(i)]) then Right(i) else Left(i);
        LeastChild(h, lt, i, child);
        if !lt(heap[child], x) {
          SettledDown(h, lt, from, i, child);
          settled := true;
          break;
        }
        DownStep(h, lt, from, i, child);
        SwapInverse(h, ix, i, child);
        SwapHole(heap, indices, h, ix, i, child, x);
        h, ix := Sorting.Swapped(h, i, child), ix[h[child] := i][x := child];
        heap := heap[i := heap[child]];
        indices := indices[heap[i] := i];
        i := child;
      }
      if !settled { SettledLeaf(h, lt, from, i); }
      heap := heap[i := x];
      indices := indices[x := i];
      assert heap == h && indices == ix;
    }

    /** Adds a key. */
    method Insert(n: nat)
      requires Valid() && !InHeap(n)
      modifies `heap, `indices
      ensures Valid() && multiset(heap) == multiset(old(heap)) + multiset{n} && InHeap(n)
    {
      if |indices| <= n {
        indices := indices + seq(n + 1 - |indices|, _ => ABSENT);
      }
      indices := indices[n := |heap|];
      heap := heap + [n];
      PercolateUp(|heap| - 1);
      assert HeapOrder(heap, lt);
      InHeapKey(n);
      assert n in multiset(heap);
    }

    /** Puts a key into its place, whatever happened to its weight. */
    method Update(n: nat)
      requires Sorting.StrictWeakOrder(lt) && Inverse(heap, indices)
      requires if InHeap(n) then OrderedExcept(heap, lt, indices[n]) else HeapOrder(heap, lt)
      modifies `heap, `indices
      ensures Valid()
      ensures multiset(heap) == if old(InHeap(n)) then multiset(old(heap)) else multiset(old(heap)) + multiset{n}
    {
      if !InHeap(n) {
        Insert(n);
      } else {
        PercolateUp(indices[n]);
        PercolateDown(indices[n], 0);
      }
    }

    /** Takes out a least key. */
    method RemoveMin() returns (x: nat)
      requires Valid() && heap != []
      modifies `heap, `indices
      ensures Valid() && x == old(heap[0]) && multiset(heap) == multiset(old(heap)) - multiset{x} && !InHeap(x)
      ensures forall i :: 0 <= i < |old(heap)| ==> !lt(old(heap)[i], x)
    {
      forall i | 0 <= i < |heap| ensures !lt(heap[i], heap[0]) {
        RootLeast(heap, lt, i);
      }
      hide Inverse, Ordered, Bridged, Sorting.StrictWeakOrder;
      x := heap[0];
      RemoveRoot(heap, indices);
      RootInDoubt(heap, lt, heap[|heap| - 1]);
      indices := indices[heap[|heap| - 1] := 0];
      indices := indices[x := ABSENT];
      heap := heap[0 := heap[|heap| - 1]][..|heap| - 1];
      if |heap| > 1 {
        PercolateDown(0, 0);
      }
      InHeapKey(x);
      assert x !in multiset(heap);
    }

    /** Makes a heap of the given keys. */
    method Build(ns: seq<nat>)
      requires Sorting.StrictWeakOrder(lt) && Inverse(heap, indices)
      requires forall i :: 0 <= i < |ns| ==> ns[i] < |indices|
      requires forall i, j :: 0 <= i < j < |ns| ==> ns[i] != ns[j]
      modifies `heap, `indices
      ensures Valid() && multiset(heap) == multiset(ns)
    {
      Refill(ns);
      var i: int := |heap| / 2 - 1;
      assert ns[..] == ns;
      while i >= 0
        invariant -1 <= i <= |heap| / 2 - 1 && |heap| == |ns| && Inverse(heap, indices) && multiset(heap) == multiset(ns)
        invariant Ordered(heap, lt, i + 1, -1, -1)
      {
        PercolateDown(i, i);
        i := i - 1;
      }
    }

    /** Replaces the keys, without order. */
    method Refill(ns: seq<nat>)
      requires Inverse(heap, indices)
      requires forall i :: 0 <= i < |ns| ==> ns[i] < |indices|
      requires forall i, j :: 0 <= i < j < |ns| ==> ns[i] != ns[j]
      modifies `heap, `indices
      ensures Inverse(heap, indices) && heap == ns
    {
      for i := 0 to |heap|
        invariant heap == old(heap) && |indices| == |old(indices)|
        invariant forall x :: 0 <= x < |indices| && indices[x] != ABSENT ==> i <= indices[x] < |heap| && heap[indices[x]] == x
      {
        indices := indices[heap[i] := ABSENT];
      }
      heap := [];
      for i := 0 to |ns|
        invariant heap == ns[..i] && |indices| == |old(indices)| && Inverse(heap, indices)
      {
        indices := indices[ns[i] := i];
        heap := heap + [ns[i]];
      }
    }
  }
}
