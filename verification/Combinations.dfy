/** Combinations in colexicographic order, index tuples and the number of combinations. */
module Combinations {

  // ---------------------------------------------------------------- binomial coefficients

  function Binom(n: nat, k: nat): nat {
    if k == 0 then 1 else if n == 0 then 0 else Binom(n - 1, k - 1) + Binom(n - 1, k)
  }

  lemma {:induction false} BinomZero(n: nat, k: nat)
    requires n < k
    ensures Binom(n, k) == 0
    decreases n
  {
    if n > 0 {
      BinomZero(n - 1, k - 1);
      BinomZero(n - 1, k);
    }
  }

  lemma {:induction false} BinomGrows(n: nat, m: nat, k: nat)
    requires n <= m
    ensures Binom(n, k) <= Binom(m, k)
    decreases m - n
  {
    if n < m { BinomGrows(n, m - 1, k); }
  }

  // ---------------------------------------------------------------- combinations

  /** A set of |c| numbers below `n`, in increasing order. */
  ghost predicate Combination(c: seq<nat>, n: nat) {
    && (forall i, j :: 0 <= i < j < |c| ==> c[i] < c[j])
    && (forall i :: 0 <= i < |c| ==> c[i] < n)
  }

  /** The place of a combination in colexicographic order. */
  ghost function Rank(c: seq<nat>): nat {
    if c == [] then 0 else Rank(c[..|c| - 1]) + Binom(c[|c| - 1], |c|)
  }

  lemma CombinationFront(c: seq<nat>, n: nat)
    requires Combination(c, n) && c != []
    ensures Combination(c[..|c| - 1], c[|c| - 1])
  {
  }

  lemma {:induction false} RankBound(c: seq<nat>, n: nat)
    requires Combination(c, n)
    ensures Rank(c) < Binom(n, |c|)
  {
    if c != [] {
      var x := c[|c| - 1];
      CombinationFront(c, n);
      RankBound(c[..|c| - 1], x);
      BinomGrows(x + 1, n, |c|);
    }
  }

  /** The largest number decides first. */
  lemma RankLast(c: seq<nat>, n: nat)
    requires Combination(c, n) && c != []
    ensures Binom(c[|c| - 1], |c|) <= Rank(c) < Binom(c[|c| - 1] + 1, |c|)
  {
    CombinationFront(c, n);
    RankBound(c[..|c| - 1], c[|c| - 1]);
  }

  /** Different combinations have different places. */
  lemma {:induction false} RankInjective(c: seq<nat>, d: seq<nat>, n: nat)
    requires Combination(c, n) && Combination(d, n) && |c| == |d| && Rank(c) == Rank(d)
    ensures c == d
  {
    hide Binom;
    if c != [] {
      var k := |c|;
      RankLast(c, n);
      RankLast(d, n);
      SameLast(c[k - 1], d[k - 1], k, Rank(c));
      RankInjective(c[..k - 1], d[..k - 1], n);
      assert c == c[..k - 1] + [c[k - 1]] && d == d[..k - 1] + [d[k - 1]];
    }
  }

  lemma SameLast(x: nat, y: nat, k: nat, r: nat)
    requires Binom(x, k) <= r < Binom(x + 1, k) && Binom(y, k) <= r < Binom(y + 1, k)
    ensures x == y
  {
    hide Binom;
    if x < y {
      BinomGrows(x + 1, y, k);
    } else if y < x {
      BinomGrows(y + 1, x, k);
    }
  }

  /** The smallest combination: 0, 1, 2, ... */
  ghost function First(k: nat): (c: seq<nat>)
    ensures |c| == k && forall i :: 0 <= i < k ==> c[i] == i
  {
    seq(k, i => i)
  }

  lemma {:induction false} RankFirst(k: nat)
    ensures Rank(First(k)) == 0
  {
    if k > 0 {
      RankFirst(k - 1);
      assert First(k)[..k - 1] == First(k - 1);
      BinomZero(k - 1, k);
    }
  }

  /** A run of consecutive numbers that ends just below `a` is the last combination below `a`. */
  ghost predicate FullBelow(c: seq<nat>, i: nat, a: nat) {
    i <= |c| && i <= a && forall j :: 0 <= j < i ==> c[j] == a - i + j
  }

  lemma {:induction false} RankFull(c: seq<nat>, i: nat, a: nat)
    requires FullBelow(c, i, a)
    ensures Rank(c[..i]) == Binom(a, i) - 1
  {
    if i > 0 {
      RankFull(c, i - 1, a - 1);
      assert c[..i][..i - 1] == c[..i - 1];
    }
  }

  /** The combination after one whose first `i` numbers are a full run. */
  ghost function Succ(c: seq<nat>, i: nat): seq<nat>
    requires i < |c|
  {
    First(i) + [c[i] + 1] + c[i + 1..]
  }

  lemma {:induction false} RankSucc(c: seq<nat>, i: nat, k: nat)
    requires i < k <= |c| && FullBelow(c, i, c[i])
    ensures Rank(Succ(c, i)[..k]) == Rank(c[..k]) + 1
  {
    var s := Succ(c, i);
    assert s[..k][..k - 1] == s[..k - 1] && c[..k][..k - 1] == c[..k - 1];
    if k == i + 1 {
      RankFirst(i);
      RankFull(c, i, c[i]);
      assert s[..i] == First(i);
    } else {
      RankSucc(c, i, k - 1);
    }
  }

  lemma SuccNext(c: seq<nat>, n: nat, i: nat, next: seq<nat>)
    requires Combination(c, n) && i < |c| == |next| && FullBelow(c, i, c[i])
    requires forall j :: 0 <= j < |c| ==> next[j] == if j < i then j else if j == i then c[i] + 1 else c[j]
    requires if i == |c| - 1 then c[i] + 1 != n else c[i] + 1 != c[i + 1]
    ensures Combination(next, n) && Rank(next) == Rank(c) + 1
  {
    hide Rank, Binom;
    assert next == Succ(c, i);
    RankSucc(c, i, |c|);
    assert next[..|next|] == next && c[..|c|] == c;
  }

  /** Moves to the next combination; after the last one it starts again and says false. */
  method NextCombination(combination: seq<nat>, n: nat) returns (next: seq<nat>, more: bool)
    requires Combination(combination, n)
    ensures |next| == |combination|
    ensures more ==> Combination(next, n) && Rank(next) == Rank(combination) + 1
    ensures !more ==> next == First(|combination|) && Rank(combination) == Binom(n, |combination|) - 1
  {
    hide Rank, Binom;
    next := combination;
    for i := 0 to |combination|
      invariant |next| == |combination|
      invariant forall j :: 0 <= j < i ==> next[j] == j
      invariant forall j :: i <= j < |next| ==> next[j] == combination[j]
      invariant FullBelow(combination, i, if i == |combination| then n else combination[i])
    {
      var upper := if i == |combination| - 1 then n else next[i + 1];
      next := next[i := next[i] + 1];
      if next[i] == upper {
        next := next[i := i];
      } else {
        SuccNext(combination, n, i, next);
        return next, true;
      }
    }
    RankFull(combination, |combination|, n);
    assert combination[..|combination|] == combination;
    return next, false;
  }

  // ---------------------------------------------------------------- combinations that meet a set

  ghost predicate Increasing(s: seq<nat>) {
    forall i, j :: 0 <= i < j < |s| ==> s[i] < s[j]
  }

  ghost predicate Meets(c: seq<nat>, including: seq<nat>) {
    exists i :: 0 <= i < |c| && c[i] in including
  }

  /** Whether the two sorted lists have a common element. */
  method Contains(combination: seq<nat>, including: seq<nat>) returns (found: bool)
    requires Increasing(combination) && Increasing(including)
    ensures found <==> Meets(combination, including)
  {
    var i: nat := 0;
    for e := 0 to |combination|
      invariant i <= |including| && forall j :: 0 <= j < i ==> e > 0 && including[j] < combination[e - 1]
      invariant forall m :: 0 <= m < e ==> combination[m] !in including
    {
      while i < |including| && including[i] < combination[e]
        invariant i <= |including| && forall j :: 0 <= j < i ==> including[j] < combination[e]
      {
        i := i + 1;
      }
      if i < |including| && combination[e] == including[i] {
        return true;
      }
    }
    return false;
  }

  /** Moves to the next combination that meets `including`. */
  method NextCombinationIncluding(combination: seq<nat>, n: nat, including: seq<nat>) returns (next: seq<nat>, more: bool)
    requires Combination(combination, n) && Increasing(including)
    ensures |next| == |combination|
    ensures more ==> Combination(next, n) && Meets(next, including) && Rank(next) > Rank(combination)
    ensures more ==> forall d :: Combination(d, n) && |d| == |combination| && Rank(combination) < Rank(d) < Rank(next) ==>
                       !Meets(d, including)
    ensures !more ==> forall d :: Combination(d, n) && |d| == |combination| && Rank(combination) < Rank(d) ==> !Meets(d, including)
  {
    next := combination;
    var found := false;
    while !found
      invariant |next| == |combination| && Combination(next, n) && Rank(next) >= Rank(combination)
      invariant found ==> Meets(next, including) && Rank(next) > Rank(combination)
      invariant forall d :: Combination(d, n) && |d| == |combination| && Rank(combination) < Rank(d) < Rank(next) ==> !Meets(d, including)
      invariant !found && Rank(next) > Rank(combination) ==> !Meets(next, including)
      decreases Binom(n, |combination|) - Rank(next), !found
    {
      ghost var last := next;
      RankBound(last, n);
      var b;
      next, b := NextCombination(next, n);
      forall d | Combination(d, n) && |d| == |combination| && Rank(combination) < Rank(d) <= Rank(last) ensures !Meets(d, including) {
        if Rank(d) == Rank(last) { RankInjective(d, last, n); }
      }
      if !b {
        forall d | Combination(d, n) && |d| == |combination| ensures Rank(d) <= Rank(last) {
          RankBound(d, n);
        }
        return next, false;
      }
      RankBound(next, n);
      found := Contains(next, including);
    }
    return next, true;
  }

  /** All bags of `k` of the `n` variables that meet `vars` and are acceptable, each once. */
  method AllBags(n: nat, k: nat, vars: seq<nat>, accept: seq<nat> -> bool) returns (bags: seq<seq<nat>>)
    requires 0 < k <= n && vars != [] && Increasing(vars) && vars[0] < n
    ensures forall i, j :: 0 <= i < j < |bags| ==> Rank(bags[i]) < Rank(bags[j])
    ensures forall d :: d in bags <==> Bag(d, n, k, vars, accept)
  {
    hide Rank, Binom, Combination, Meets;
    var bag: seq<nat> := seq(k - 1, i requires 0 <= i => i as nat) + [if vars[0] > k - 1 then vars[0] else k - 1];
    BagStart(n, k, vars, bag);
    bags := [];
    var more := true;
    ghost var bound := Rank(bag);
    while more
      invariant more ==> Combination(bag, n) && |bag| == k && Meets(bag, vars) && bound == Rank(bag)
      invariant !more ==> bound == Binom(n, k)
      invariant BagsBelow(bags, n, k, vars, accept, bound)
      decreases if more then 1 + Binom(n, k) - Rank(bag) else 0
    {
      ghost var was, before := bag, bags;
      RankBound(was, n);
      if accept(bag) {
        bags := bags + [bag];
      }
      bag, more := NextCombinationIncluding(bag, n, vars);
      if more { RankBound(bag, n); }
      bound := if more then Rank(bag) else Binom(n, k);
      BagsStep(before, n, k, vars, accept, was, bound);
    }
    forall d | Combination(d, n) && |d| == k ensures Rank(d) < Binom(n, k) {
      RankBound(d, n);
    }
  }

  /** The acceptable bags with a place before `bound`, in order. */
  ghost predicate BagsBelow(bags: seq<seq<nat>>, n: nat, k: nat, vars: seq<nat>, accept: seq<nat> -> bool, bound: nat) {
    && (forall i, j :: 0 <= i < j < |bags| ==> Rank(bags[i]) < Rank(bags[j]))
    && (forall d :: d in bags ==> Bag(d, n, k, vars, accept) && Rank(d) < bound)
    && (forall d :: Bag(d, n, k, vars, accept) && Rank(d) < bound ==> d in bags)
  }

  ghost predicate Bag(d: seq<nat>, n: nat, k: nat, vars: seq<nat>, accept: seq<nat> -> bool) {
    Combination(d, n) && |d| == k && Meets(d, vars) && accept(d)
  }

  lemma BagsStep(bags: seq<seq<nat>>, n: nat, k: nat, vars: seq<nat>, accept: seq<nat> -> bool, bag: seq<nat>, bound: nat)
    requires Combination(bag, n) && |bag| == k && Meets(bag, vars) && Rank(bag) < bound
    requires BagsBelow(bags, n, k, vars, accept, Rank(bag))
    requires forall d :: Combination(d, n) && |d| == k && Rank(bag) < Rank(d) < bound ==> !Meets(d, vars)
    ensures BagsBelow(if accept(bag) then bags + [bag] else bags, n, k, vars, accept, bound)
  {
    hide Rank, Binom, Combination, Meets;
    var bags' := if accept(bag) then bags + [bag] else bags;
    forall i, j | 0 <= i < j < |bags'| ensures Rank(bags'[i]) < Rank(bags'[j]) {
      assert bags[i] in bags && Rank(bags[i]) < Rank(bag);
    }
    forall d | d in bags' ensures Bag(d, n, k, vars, accept) && Rank(d) < bound {
      assert d in bags || d == bag;
    }
    forall d | Bag(d, n, k, vars, accept) && Rank(d) < bound ensures d in bags' {
      if Rank(d) == Rank(bag) {
        RankInjective(d, bag, n);
      } else if Rank(d) < Rank(bag) {
        assert d in bags;
      }
    }
  }

  /** The chosen start meets `vars`, and no combination before it does. */
  lemma BagStart(n: nat, k: nat, vars: seq<nat>, bag: seq<nat>)
    requires 0 < k <= n && vars != [] && Increasing(vars) && vars[0] < n
    requires bag == First(k - 1) + [if vars[0] > k - 1 then vars[0] else k - 1]
    ensures Combination(bag, n) && |bag| == k && Meets(bag, vars)
    ensures forall d :: Combination(d, n) && |d| == k && Rank(d) < Rank(bag) ==> !Meets(d, vars)
  {
    var v := vars[0];
    var x := bag[k - 1];
    assert v in vars;
    assert bag[if v > k - 1 then k - 1 else v] == v;
    assert bag[..k - 1] == First(k - 1);
    RankFirst(k - 1);
    forall d | Combination(d, n) && |d| == k && Rank(d) < Rank(bag) ensures !Meets(d, vars) {
      BinomZero(k - 1, k);
      if d[k - 1] >= x { BinomGrows(x, d[k - 1], k); }
    }
  }

  // ---------------------------------------------------------------- index tuples

  ghost predicate Tuple(a: seq<nat>, sizes: seq<nat>) {
    |a| == |sizes| && forall i :: 0 <= i < |a| ==> a[i] < sizes[i]
  }

  /** A tuple read as a number in mixed base, least significant digit first. */
  ghost function Number(a: seq<nat>, sizes: seq<nat>): nat
    requires |a| == |sizes|
  {
    if a == [] then 0 else a[0] + sizes[0] * Number(a[1..], sizes[1..])
  }

  ghost function Product(sizes: seq<nat>): nat {
    if sizes == [] then 1 else sizes[0] * Product(sizes[1..])
  }

  lemma {:induction false} NumberBound(a: seq<nat>, sizes: seq<nat>)
    requires Tuple(a, sizes)
    ensures Number(a, sizes) < Product(sizes)
  {
    if a != [] {
      NumberBound(a[1..], sizes[1..]);
      MulStep(sizes[0], Number(a[1..], sizes[1..]) + 1, Product(sizes[1..]));
    }
  }

  lemma MulStep(x: nat, y: nat, z: nat)
    requires y <= z
    ensures x * y <= x * z && x * (y - 1) == x * y - x
  {
  }

  lemma {:induction false} NumberInjective(a: seq<nat>, b: seq<nat>, sizes: seq<nat>)
    requires Tuple(a, sizes) && Tuple(b, sizes) && Number(a, sizes) == Number(b, sizes)
    ensures a == b
  {
    if a != [] {
      var n, x, y := sizes[0], Number(a[1..], sizes[1..]), Number(b[1..], sizes[1..]);
      SameQuotient(n, a[0], b[0], x, y);
      NumberInjective(a[1..], b[1..], sizes[1..]);
      assert a == [a[0]] + a[1..] && b == [b[0]] + b[1..];
    }
  }

  lemma SameQuotient(n: nat, a: nat, b: nat, x: nat, y: nat)
    requires a < n && b < n && a + n * x == b + n * y
    ensures a == b && x == y
  {
    if x < y {
      MulStep(n, x + 1, y);
    } else if y < x {
      MulStep(n, y + 1, x);
    }
  }

  /** The tuple after one whose first `i` digits are full. */
  ghost function Carried(a: seq<nat>, i: nat): seq<nat>
    requires i < |a|
  {
    seq(i, _ => 0) + [a[i] + 1] + a[i + 1..]
  }

  lemma {:induction false} NumberCarried(a: seq<nat>, sizes: seq<nat>, i: nat)
    requires Tuple(a, sizes) && i < |a| && forall j :: 0 <= j < i ==> a[j] + 1 == sizes[j]
    ensures Number(Carried(a, i), sizes) == Number(a, sizes) + 1
  {
    if i > 0 {
      NumberCarried(a[1..], sizes[1..], i - 1);
      assert Carried(a, i)[1..] == Carried(a[1..], i - 1);
      MulStep(sizes[0], Number(a[1..], sizes[1..]) + 1, Number(a[1..], sizes[1..]) + 1);
    } else {
      assert Carried(a, 0)[1..] == a[1..];
    }
  }

  lemma {:induction false} NumberFull(a: seq<nat>, sizes: seq<nat>)
    requires |a| == |sizes| && forall j :: 0 <= j < |a| ==> a[j] + 1 == sizes[j]
    ensures Number(a, sizes) == Product(sizes) - 1
  {
    if a != [] {
      NumberFull(a[1..], sizes[1..]);
      MulStep(sizes[0], Product(sizes[1..]), Product(sizes[1..]));
    }
  }

  lemma {:induction false} NumberZero(k: nat, sizes: seq<nat>)
    requires |sizes| == k
    ensures Number(seq(k, _ => 0), sizes) == 0
  {
    if k > 0 {
      NumberZero(k - 1, sizes[1..]);
      assert seq(k, _ => 0 as nat)[1..] == seq(k - 1, _ => 0);
    }
  }

  /** Moves to the next tuple; after the last one it starts again and says false. */
  method NextArray(array0: seq<nat>, sizes: seq<nat>) returns (next: seq<nat>, more: bool)
    requires Tuple(array0, sizes)
    ensures Tuple(next, sizes)
    ensures more ==> Number(next, sizes) == Number(array0, sizes) + 1
    ensures !more ==> next == seq(|sizes|, _ => 0) && Number(array0, sizes) == Product(sizes) - 1
  {
    hide Number, Product;
    next := array0;
    for i := 0 to |array0|
      invariant |next| == |array0|
      invariant forall j :: 0 <= j < |next| ==> next[j] == if j < i then 0 else array0[j]
      invariant forall j :: 0 <= j < i ==> array0[j] + 1 == sizes[j]
    {
      next := next[i := next[i] + 1];
      if next[i] == sizes[i] {
        next := next[i := 0];
      } else {
        assert next == Carried(array0, i);
        NumberCarried(array0, sizes, i);
        return next, true;
      }
    }
    NumberFull(array0, sizes);
    return next, false;
  }

  /** All index tuples from the zero tuple on, each once. */
  method AllTuples(sizes: seq<nat>) returns (tuples: seq<seq<nat>>)
    requires forall i :: 0 <= i < |sizes| ==> sizes[i] > 0
    ensures |tuples| == Product(sizes)
    ensures forall i :: 0 <= i < |tuples| ==> Tuple(tuples[i], sizes) && Number(tuples[i], sizes) == i
    ensures forall a :: Tuple(a, sizes) ==> a in tuples
  {
    hide Number, Product;
    var a: seq<nat> := seq(|sizes|, _ => 0);
    NumberZero(|sizes|, sizes);
    NumberBound(a, sizes);
    tuples := [];
    var more := true;
    while more
      invariant Tuple(a, sizes)
      invariant if more then |tuples| == Number(a, sizes) < Product(sizes) else |tuples| == Product(sizes)
      invariant forall i :: 0 <= i < |tuples| ==> Tuple(tuples[i], sizes) && Number(tuples[i], sizes) == i
      decreases if more then 1 + Product(sizes) - Number(a, sizes) else 0
    {
      tuples := tuples + [a];
      a, more := NextArray(a, sizes);
      NumberBound(a, sizes);
    }
    forall b | Tuple(b, sizes) ensures b in tuples {
      NumberBound(b, sizes);
      NumberInjective(b, tuples[Number(b, sizes)], sizes);
    }
  }

  // ---------------------------------------------------------------- the number of combinations

  const UINT64_MAX: nat := 0xFFFF_FFFF_FFFF_FFFF

  /** 64-bit multiplication. */
  function Mul64(a: nat, b: nat): nat {
    a * b % (UINT64_MAX + 1)
  }

  /** n * (n - 1) * ... with `i` factors. */
  ghost function Falling(n: nat, i: nat): nat
    requires i <= n
  {
    if i == 0 then 1 else Falling(n, i - 1) * (n - i + 1)
  }

  /** (i + 1) * ... * k */
  ghost function Factors(i: nat, k: nat): nat
    requires i <= k
    decreases k - i
  {
    if i == k then 1 else (i + 1) * Factors(i + 1, k)
  }

  /** The product of the first factors shows a guard that fails. */
  ghost predicate Saturates(n: nat, k: nat)
    requires k <= n
  {
    exists i :: 0 <= i < k && Overflows(n, i)
  }

  ghost predicate Overflows(n: nat, i: nat)
    requires i < n
  {
    Falling(n, i + 1) * (n - i) > UINT64_MAX
  }

  lemma {:induction false} BinomSymmetricStep(n: nat, k: nat)
    requires 0 < k <= n
    ensures Binom(n, k) * k == Binom(n - 1, k - 1) * n
    decreases n
  {
    assert n > 1 && 1 < k < n ==> Binom(n - 1, k - 1) == Binom(n - 2, k - 2) + Binom(n - 2, k - 1);
    if k == n {
      BinomZero(n - 1, n);
      if n > 1 { BinomSymmetricStep(n - 1, n - 1); }
      BinomSame(n);
      BinomSame(n - 1);
    } else if k == 1 {
      BinomOne(n);
    } else {
      BinomSymmetricStep(n - 1, k);
      BinomSymmetricStep(n - 1, k - 1);
      var a, b, c := Binom(n - 2, k - 2), Binom(n - 2, k - 1), Binom(n - 1, k - 1);
      Distribute(c, Binom(n - 1, k), k);
      Distribute(a, b, n - 1);
      Distribute(k - 1, 1, c);
      Distribute(n - 1, 1, c);
      Commute(c, k);
      Commute(c, k - 1);
      Commute(c, n);
      Commute(c, n - 1);
    }
  }

  lemma Distribute(x: int, y: int, z: int)
    ensures (x + y) * z == x * z + y * z
  {
  }

  lemma Commute(x: int, y: int)
    ensures x * y == y * x
  {
  }

  lemma Associate(x: int, y: int, z: int)
    ensures x * (y * z) == x * y * z
  {
  }

  lemma {:induction false} BinomSame(n: nat)
    ensures Binom(n, n) == 1
  {
    if n > 0 {
      BinomZero(n - 1, n);
      BinomSame(n - 1);
    }
  }

  lemma {:induction false} BinomOne(n: nat)
    ensures Binom(n, 1) == n
  {
    if n > 0 { BinomOne(n - 1); }
  }

  /** The falling product is the binomial coefficient times k!. */
  lemma {:induction false} FallingBinom(n: nat, k: nat)
    requires k <= n
    ensures Falling(n, k) == Binom(n, k) * Factors(0, k)
  {
    if k > 0 {
      FallingHead(n, k);
      FallingBinom(n - 1, k - 1);
      FactorsLast(0, k);
      BinomSymmetricStep(n, k);
      hide Binom, Factors, Falling;
      var b, f := Binom(n - 1, k - 1), Factors(0, k - 1);
      Associate(n, b, f);
      Commute(n, b);
      Associate(Binom(n, k), k, f);
      Commute(f, k);
    }
  }

  lemma {:induction false} FallingHead(n: nat, k: nat)
    requires 0 < k <= n
    ensures Falling(n, k) == n * Falling(n - 1, k - 1)
  {
    if k > 1 {
      FallingHead(n, k - 1);
      Associate(n, Falling(n - 1, k - 2), n - k + 1);
    }
  }

  lemma {:induction false} FactorsLast(i: nat, k: nat)
    requires i < k
    ensures Factors(i, k) == Factors(i, k - 1) * k
    decreases k - i
  {
    if i < k - 1 {
      FactorsLast(i + 1, k);
      Associate(i + 1, Factors(i + 1, k - 1), k);
    }
  }

  /** The number of combinations, or the largest 64-bit number once a guard fails; nothing wraps. */
  method GetNumberOfCombinations(n: nat, k: nat) returns (result: nat)
    requires k <= n <= 0xFFFF_FFFF
    ensures result == if Saturates(n, k) then UINT64_MAX else Binom(n, k)
    ensures result <= UINT64_MAX
  {
    hide Falling, Binom, Factors;
    result := 1;
    FallingNothing(n);
    for i := 0 to k
      invariant result == Falling(n, i)
      invariant i < k ==> result * (n - i) <= UINT64_MAX
      invariant forall j :: 0 <= j < i ==> !Overflows(n, j)
      invariant i > 0 ==> result <= UINT64_MAX
    {
      FallingStep(n, i);
      result := Mul64(result, n - i);
      GuardMeaning(result, n - i);
      if UINT64_MAX / (n - i) < result {
        assert Overflows(n, i);
        return UINT64_MAX;
      }
      if i + 1 < k { MulStep(result, n - i - 1, n - i); }
    }
    FallingBinom(n, k);
    ghost var b := Binom(n, k);
    if k >= 2 {
      FactorsOne(k);
      for i := 2 to k + 1
        invariant result == b * Factors(i - 1, k)
        invariant result <= UINT64_MAX
      {
        DivideStep(b, i, k);
        result := result / i;
      }
    }
    FactorsNone(k);
  }

  lemma FallingNothing(n: nat)
    ensures Falling(n, 0) == 1
  {
  }

  lemma FallingStep(n: nat, i: nat)
    requires i < n
    ensures Falling(n, i + 1) == Falling(n, i) * (n - i)
  {
  }

  /** The guard compares products without forming them. */
  lemma GuardMeaning(result: nat, m: nat)
    requires m > 0
    ensures UINT64_MAX / m < result <==> result * m > UINT64_MAX
  {
    var q := UINT64_MAX / m;
    assert q * m <= UINT64_MAX < (q + 1) * m;
    if q < result { MulStep(m, q + 1, result); } else { MulStep(m, result, q); }
  }

  lemma FactorsOne(k: nat)
    requires k >= 1
    ensures Factors(0, k) == Factors(1, k)
  {
  }

  lemma FactorsNone(k: nat)
    ensures Factors(k, k) == 1
    ensures k <= 1 ==> Factors(0, k) == 1
  {
    if k == 1 { assert Factors(1, 1) == 1; }
  }

  lemma Exact(x: nat, i: nat)
    requires i > 0
    ensures x * i / i == x
  {
    var p := x * i;
    QuotientOf(p, i);
    Commute(x, i);
    Commute(p / i, i);
    SameQuotient(i, 0, p % i, x, p / i);
  }

  lemma QuotientOf(p: nat, i: nat)
    requires i > 0
    ensures p == (p / i) * i + p % i && p % i < i
  {
  }

  /** Each division is exact. */
  lemma DivideStep(b: nat, i: nat, k: nat)
    requires 0 < i <= k
    ensures b * Factors(i - 1, k) / i == b * Factors(i, k) <= b * Factors(i - 1, k)
  {
    var f := Factors(i, k);
    Associate(b, i, f);
    Commute(b, i);
    Associate(i, b, f);
    Exact(b * f, i);
    Commute(b * f, i);
    MulStep(b * f, 1, i);
  }
}
