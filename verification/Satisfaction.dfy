/** What the local search keeps about the clauses, and what it should be. */
module Satisfaction {
  import opened Circuit

  type Lits = seq<Literal>

  // ---------------------------------------------------------------- one clause

  function UnitOf(value: bool): nat {
    if value then 1 else 0
  }

  /** Whether the literal is true; an undefined unit makes no literal true. */
  predicate IsTrue(l: Literal, units: seq<nat>) {
    l.number < |units| && units[l.number] == UnitOf(l.value)
  }

  ghost function TrueCount(lits: Lits, units: seq<nat>): (n: nat)
    ensures n > 0 <==> exists k :: 0 <= k < |lits| && IsTrue(lits[k], units)
    ensures n <= |lits|
  {
    if lits == [] then 0
    else TrueCount(lits[..|lits| - 1], units) + if IsTrue(lits[|lits| - 1], units) then 1 else 0
  }

  /** How often a literal occurs. */
  ghost function Occurs(lits: Lits, l: Literal): nat {
    if lits == [] then 0
    else Occurs(lits[..|lits| - 1], l) + if lits[|lits| - 1] == l then 1 else 0
  }

  /** How often a variable occurs. */
  ghost function Mentions(lits: Lits, v: nat): nat {
    Occurs(lits, Literal(true, v)) + Occurs(lits, Literal(false, v))
  }

  ghost function Toggled(units: seq<nat>, v: nat): seq<nat>
    requires v < |units|
  {
    units[v := if units[v] == 0 then 1 else 0]
  }

  /** Flipping one variable moves its literals between the true and the false ones. */
  lemma {:induction false} ToggledCount(lits: Lits, units: seq<nat>, v: nat)
    requires v < |units| && units[v] <= 1
    ensures TrueCount(lits, Toggled(units, v)) + Occurs(lits, Literal(units[v] == 1, v))
         == TrueCount(lits, units) + Occurs(lits, Literal(units[v] == 0, v))
    ensures Occurs(lits, Literal(units[v] == 1, v)) <= TrueCount(lits, units)
  {
    if lits != [] {
      ToggledCount(lits[..|lits| - 1], units, v);
    }
  }

  /** A clause that mentions no changed variable keeps its count. */
  lemma {:induction false} SameCount(lits: Lits, a: seq<nat>, b: seq<nat>)
    requires |a| == |b| && forall k :: 0 <= k < |lits| ==> lits[k].number < |a| ==> a[lits[k].number] == b[lits[k].number]
    ensures TrueCount(lits, a) == TrueCount(lits, b)
  {
    if lits != [] {
      SameCount(lits[..|lits| - 1], a, b);
    }
  }

  lemma {:induction false} MentionsLiteral(lits: Lits, k: nat)
    requires k < |lits|
    ensures Occurs(lits, lits[k]) > 0 && Mentions(lits, lits[k].number) > 0
  {
    if k < |lits| - 1 {
      MentionsLiteral(lits[..|lits| - 1], k);
    }
  }

  // ---------------------------------------------------------------- all clauses

  /** A clause that is not tracked always counts as satisfied. */
  predicate Good(tracked: set<nat>, c: seq<int>, i: nat)
    requires i < |c|
  {
    i !in tracked || c[i] > 0
  }

  ghost function GoodOnes(tracked: set<nat>, c: seq<int>): (g: seq<bool>)
    ensures |g| == |c|
  {
    seq(|c|, i requires 0 <= i < |c| => Good(tracked, c, i))
  }

  ghost function WeightOf(weights: seq<nat>, good: seq<bool>, n: nat): nat
    requires n <= |weights| == |good|
  {
    if n == 0 then 0 else WeightOf(weights, good, n - 1) + if good[n - 1] then weights[n - 1] else 0
  }

  ghost function GoodCount(good: seq<bool>, n: nat): nat
    requires n <= |good|
  {
    if n == 0 then 0 else GoodCount(good, n - 1) + if good[n - 1] then 1 else 0
  }

  /** How often a variable occurs in the unsatisfied clauses. */
  ghost function UnsatOf(clauses: seq<Lits>, good: seq<bool>, v: nat, n: nat): nat
    requires n <= |clauses| == |good|
  {
    if n == 0 then 0 else UnsatOf(clauses, good, v, n - 1) + if good[n - 1] then 0 else Mentions(clauses[n - 1], v)
  }

  lemma {:induction false} WeightChange(weights: seq<nat>, good: seq<bool>, i: nat, b: bool, n: nat)
    requires n <= |weights| == |good| && i < |good| && good[i] != b
    ensures WeightOf(weights, good[i := b], n) == WeightOf(weights, good, n)
              + var w: int := weights[i]; if i >= n then 0 else if b then w else -w
  {
    if n > 0 { WeightChange(weights, good, i, b, n - 1); }
  }

  lemma {:induction false} CountChange(good: seq<bool>, i: nat, b: bool, n: nat)
    requires n <= |good| && i < |good| && good[i] != b
    ensures GoodCount(good[i := b], n) == GoodCount(good, n) + if i >= n then 0 else if b then 1 else -1
  {
    if n > 0 { CountChange(good, i, b, n - 1); }
  }

  lemma {:induction false} UnsatChange(clauses: seq<Lits>, good: seq<bool>, i: nat, b: bool, v: nat, n: nat)
    requires n <= |clauses| == |good| && i < |good| && good[i] != b
    ensures UnsatOf(clauses, good[i := b], v, n) == UnsatOf(clauses, good, v, n)
              + if i >= n then 0 else if b then 0 - Mentions(clauses[i], v) else Mentions(clauses[i], v)
  {
    if n > 0 { UnsatChange(clauses, good, i, b, v, n - 1); }
  }

  /** The sums over the clauses that count as satisfied, and the literal counts over the others. */
  ghost predicate Tally(clauses: seq<Lits>, weights: seq<nat>, good: seq<bool>, unsat: seq<nat>, sum: nat, count: nat) {
    && |clauses| == |weights| == |good|
    && sum == WeightOf(weights, good, |good|) && count == GoodCount(good, |good|)
    && forall v :: 0 <= v < |unsat| ==> unsat[v] == UnsatOf(clauses, good, v, |good|)
  }

  // ---------------------------------------------------------------- the mirror

  /** The true counts of the clauses, the tracked ones that is. */
  ghost predicate Counts(clauses: seq<Lits>, tracked: set<nat>, units: seq<nat>, c: seq<int>) {
    && |c| == |clauses|
    && forall i :: 0 <= i < |clauses| && i in tracked ==> c[i] == TrueCount(clauses[i], units)
  }

  /** `lists[v]` holds a clause once for every occurrence of the literal, tracked clauses only. */
  ghost predicate Lists(clauses: seq<Lits>, tracked: set<nat>, lists: seq<seq<nat>>, value: bool) {
    && (forall v, m :: 0 <= v < |lists| && 0 <= m < |lists[v]| ==> lists[v][m] < |clauses| && lists[v][m] in tracked)
    && (forall v, i :: 0 <= v < |lists| && 0 <= i < |clauses| && i in tracked ==>
          multiset(lists[v])[i] == Occurs(clauses[i], Literal(value, v)))
  }

  ghost predicate InRange(clauses: seq<Lits>, tracked: set<nat>, n: nat) {
    forall i, k :: 0 <= i < |clauses| && i in tracked && 0 <= k < |clauses[i]| ==> clauses[i][k].number < n
  }

  /** The truth of each literal of a clause. */
  function TruthOf(lits: Lits, units: seq<nat>): (r: seq<bool>)
    ensures |r| == |lits|
  {
    seq(|lits|, k requires 0 <= k < |lits| => IsTrue(lits[k], units))
  }

  // ---------------------------------------------------------------- 32-bit counters

  const MODULUS: nat := 0x1_0000_0000

  function Inc(d: nat): (r: nat)
    requires d < MODULUS
    ensures r < MODULUS
  {
    if d == MODULUS - 1 then 0 else d + 1
  }

  function Dec(d: nat): (r: nat)
    requires d < MODULUS
    ensures r < MODULUS
  {
    if d == 0 then MODULUS - 1 else d - 1
  }

  /** 32-bit addition. */
  function Add(a: nat, b: nat): (r: nat)
    requires a < MODULUS && b < MODULUS
    ensures r < MODULUS
  {
    if a + b >= MODULUS then a + b - MODULUS else a + b
  }

  /** A count that 32 bits tell apart from 0 and 1 unless it is that. */
  predicate InWord(c: int) {
    1 - MODULUS < c < MODULUS
  }

  /** The word that stands for a count, which may have dropped below zero. */
  function Wrap(c: int): nat
    requires InWord(c)
  {
    if c < 0 then c + MODULUS else c
  }

  /** The words stand for the counts `c`. */
  ghost predicate Words(words: seq<nat>, c: seq<int>) {
    |words| == |c| && forall i :: 0 <= i < |c| ==> InWord(c[i]) && words[i] == Wrap(c[i])
  }

  /** The differences, wrapped, that take the old words to those of `c`. */
  ghost predicate Differences(words: seq<nat>, delta: seq<nat>, c: seq<int>) {
    && |words| == |delta| == |c|
    && forall i :: 0 <= i < |c| ==>
         words[i] < MODULUS && delta[i] < MODULUS && InWord(c[i]) && Add(words[i], delta[i]) == Wrap(c[i])
  }

  ghost predicate Odd(list: seq<nat>, i: nat) {
    multiset(list)[i] % 2 == 1
  }

  lemma OddPush(list: seq<nat>, x: nat, i: nat)
    ensures Odd(list + [x], i) == (Odd(list, i) != (i == x))
  {
  }

  /** Toggling the listed clauses turns `satisfied` into `good`. */
  ghost predicate Toggles(satisfied: seq<bool>, list: seq<nat>, good: seq<bool>) {
    && |satisfied| == |good|
    && (forall k :: 0 <= k < |list| ==> list[k] < |satisfied|)
    && forall i :: 0 <= i < |good| ==> good[i] == (satisfied[i] != Odd(list, i))
  }

  // ---------------------------------------------------------------- whole lists

  /** The counts after losing, or gaining, one for each entry of a list. */
  ghost function Minus(c: seq<int>, list: seq<nat>): (r: seq<int>)
    ensures |r| == |c|
  {
    seq(|c|, i requires 0 <= i < |c| => c[i] - multiset(list)[i])
  }

  ghost function Plus(c: seq<int>, list: seq<nat>): (r: seq<int>)
    ensures |r| == |c|
  {
    seq(|c|, i requires 0 <= i < |c| => c[i] + multiset(list)[i])
  }

  lemma PrefixCount(list: seq<nat>, p: nat, i: nat)
    requires p <= |list|
    ensures multiset(list[..p])[i] <= multiset(list)[i]
    ensures p < |list| ==> multiset(list[..p + 1])[i] == multiset(list[..p])[i] + if list[p] == i then 1 else 0
  {
    assert list == list[..p] + list[p..];
    if p < |list| { assert list[..p + 1] == list[..p] + [list[p]]; }
  }

  lemma MinusStep(c: seq<int>, list: seq<nat>, p: nat)
    requires p < |list| && list[p] < |c|
    ensures Minus(c, list[..p + 1]) == Minus(c, list[..p])[list[p] := Minus(c, list[..p])[list[p]] - 1]
    ensures Minus(c, list)[list[p]] < Minus(c, list[..p])[list[p]] <= c[list[p]]
  {
    forall i: nat | i < |c|
      ensures multiset(list[..p + 1])[i] == multiset(list[..p])[i] + if list[p] == i then 1 else 0
      ensures multiset(list[..p + 1])[i] <= multiset(list)[i]
    {
      PrefixCount(list, p, i);
      PrefixCount(list, p + 1, i);
    }
  }

  lemma PlusStep(c: seq<int>, list: seq<nat>, p: nat)
    requires p < |list| && list[p] < |c|
    ensures Plus(c, list[..p + 1]) == Plus(c, list[..p])[list[p] := Plus(c, list[..p])[list[p]] + 1]
    ensures c[list[p]] <= Plus(c, list[..p])[list[p]] < Plus(c, list)[list[p]]
  {
    forall i: nat | i < |c|
      ensures multiset(list[..p + 1])[i] == multiset(list[..p])[i] + if list[p] == i then 1 else 0
      ensures multiset(list[..p + 1])[i] <= multiset(list)[i]
    {
      PrefixCount(list, p, i);
      PrefixCount(list, p + 1, i);
    }
  }

  // ---------------------------------------------------------------- what a list of variables does to a count

  /** Going through both lists of a variable whose unit is now the given one. */
  ghost function Effect(lits: Lits, v: nat, units: seq<nat>): int
    requires v < |units|
  {
    Occurs(lits, Literal(units[v] != 0, v)) - Occurs(lits, Literal(units[v] == 0, v))
  }

  /** The same for all variables of a list, as often as they are in it. */
  ghost function Shift(lits: Lits, list: multiset<nat>, units: seq<nat>): int {
    if lits == [] then 0
    else
      var l := lits[|lits| - 1];
      var n: int := list[l.number];
      Shift(lits[..|lits| - 1], list, units) + if IsTrue(l, units) then n else -n
  }

  /** How often the literals of the clause are counted up or down. */
  ghost function Load(lits: Lits, list: multiset<nat>): nat {
    if lits == [] then 0 else Load(lits[..|lits| - 1], list) + list[lits[|lits| - 1].number]
  }

  lemma {:induction false} ShiftPush(lits: Lits, list: multiset<nat>, v: nat, units: seq<nat>)
    requires v < |units| && units[v] <= 1
    ensures Shift(lits, list + multiset{v}, units) == Shift(lits, list, units) + Effect(lits, v, units)
    ensures Load(lits, list + multiset{v}) == Load(lits, list) + Mentions(lits, v)
  {
    if lits != [] {
      ShiftPush(lits[..|lits| - 1], list, v, units);
    }
  }

  lemma {:induction false} ShiftNothing(lits: Lits, units: seq<nat>)
    ensures Shift(lits, multiset{}, units) == 0
  {
    if lits != [] {
      ShiftNothing(lits[..|lits| - 1], units);
    }
  }

  lemma {:induction false} ShiftUnion(lits: Lits, a: multiset<nat>, b: multiset<nat>, units: seq<nat>)
    ensures Shift(lits, a + b, units) == Shift(lits, a, units) + Shift(lits, b, units)
  {
    if lits != [] {
      ShiftUnion(lits[..|lits| - 1], a, b, units);
    }
  }

  /** Only the units of the listed variables matter. */
  lemma {:induction false} ShiftSame(lits: Lits, list: multiset<nat>, a: seq<nat>, b: seq<nat>)
    requires |a| == |b| && forall v :: v in list && v < |a| ==> a[v] == b[v]
    ensures Shift(lits, list, a) == Shift(lits, list, b)
  {
    if lits != [] {
      ShiftSame(lits[..|lits| - 1], list, a, b);
    }
  }

  lemma {:induction false} ShiftBound(lits: Lits, list: multiset<nat>, units: seq<nat>)
    ensures 0 - Load(lits, list) <= Shift(lits, list, units) <= Load(lits, list)
  {
    if lits != [] {
      ShiftBound(lits[..|lits| - 1], list, units);
    }
  }

  lemma {:induction false} LoadMono(lits: Lits, a: multiset<nat>, b: multiset<nat>)
    requires a <= b
    ensures Load(lits, a) <= Load(lits, b)
  {
    if lits != [] {
      LoadMono(lits[..|lits| - 1], a, b);
    }
  }

  lemma {:induction false} LoadBound(lits: Lits, list: multiset<nat>, n: nat)
    requires forall v :: list[v] <= n
    ensures Load(lits, list) <= n * |lits|
  {
    if lits != [] {
      LoadBound(lits[..|lits| - 1], list, n);
      assert n * |lits| == n * (|lits| - 1) + n;
    }
  }

  /** When each listed variable has been flipped once, the shift is the change of the true count. */
  lemma {:induction false} ShiftFlipped(lits: Lits, flipped: seq<nat>, units: seq<nat>)
    requires Defined(units, flipped) && forall v :: multiset(flipped)[v] <= 1
    ensures TrueCount(lits, Flipped(units, flipped)) == TrueCount(lits, units) + Shift(lits, multiset(flipped), Flipped(units, flipped))
  {
    if lits != [] {
      ShiftFlipped(lits[..|lits| - 1], flipped, units);
      var v := lits[|lits| - 1].number;
      assert v in flipped <==> v in multiset(flipped);
    }
  }

  /** The counts after going through the lists of the listed variables. */
  ghost function After(clauses: seq<Lits>, tracked: set<nat>, c: seq<int>, list: multiset<nat>, units: seq<nat>): (r: seq<int>)
    requires |c| == |clauses|
    ensures |r| == |c|
  {
    seq(|c|, i requires 0 <= i < |c| => if i in tracked then c[i] + Shift(clauses[i], list, units) else c[i])
  }

  /** Going through both lists of a variable has the effect that it should have. */
  lemma ListsEffect(clauses: seq<Lits>, tracked: set<nat>, lose: seq<seq<nat>>, gain: seq<seq<nat>>, units: seq<nat>, c: seq<int>,
                    list: multiset<nat>, v: nat)
    requires |c| == |clauses| && v < |units| == |lose| == |gain| && units[v] <= 1
    requires Lists(clauses, tracked, lose, units[v] == 0) && Lists(clauses, tracked, gain, units[v] != 0)
    ensures After(clauses, tracked, c, list + multiset{v}, units)
         == Plus(Minus(After(clauses, tracked, c, list, units), lose[v]), gain[v])
  {
    hide Lists, Shift;
    forall i | 0 <= i < |c|
      ensures (if i in tracked then Shift(clauses[i], list + multiset{v}, units) else 0)
           == (if i in tracked then Shift(clauses[i], list, units) else 0) - multiset(lose[v])[i] + multiset(gain[v])[i]
    {
      ListsShift(clauses, tracked, lose, gain, units, list, v, i);
    }
  }

  lemma ListsShift(clauses: seq<Lits>, tracked: set<nat>, lose: seq<seq<nat>>, gain: seq<seq<nat>>, units: seq<nat>,
                   list: multiset<nat>, v: nat, i: nat)
    requires i < |clauses| && v < |units| == |lose| == |gain| && units[v] <= 1
    requires Lists(clauses, tracked, lose, units[v] == 0) && Lists(clauses, tracked, gain, units[v] != 0)
    ensures (if i in tracked then Shift(clauses[i], list + multiset{v}, units) else 0)
         == (if i in tracked then Shift(clauses[i], list, units) else 0) - multiset(lose[v])[i] + multiset(gain[v])[i]
  {
    if i in tracked {
      ShiftPush(clauses[i], list, v, units);
    } else {
      assert i !in lose[v] && i !in gain[v];
    }
  }

  /** Going through both lists of a variable brings right counts up to date with its flip. */
  lemma ListsCount(clauses: seq<Lits>, tracked: set<nat>, lose: seq<seq<nat>>, gain: seq<seq<nat>>, units: seq<nat>, c: seq<int>, v: nat)
    requires Counts(clauses, tracked, units, c) && v < |units| == |lose| == |gain| && units[v] <= 1
    requires Lists(clauses, tracked, lose, units[v] == 1) && Lists(clauses, tracked, gain, units[v] == 0)
    ensures forall i :: 0 <= i < |c| && i in tracked ==> multiset(lose[v])[i] <= c[i]
    ensures Counts(clauses, tracked, Toggled(units, v), Plus(Minus(c, lose[v]), gain[v]))
  {
    forall i | 0 <= i < |clauses| && i in tracked
      ensures multiset(lose[v])[i] <= c[i]
      ensures c[i] - multiset(lose[v])[i] + multiset(gain[v])[i] == TrueCount(clauses[i], Toggled(units, v))
    {
      ToggledCount(clauses[i], units, v);
    }
  }
}
