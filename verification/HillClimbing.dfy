/** The bookkeeping of the local search: applying flips and judging them beforehand. */
module LocalSearch {
  import opened Circuit
  import opened CircuitNet
  import opened Closing
  import opened Satisfaction

  /** The counters that one call of `ApplyFlipped` works on. */
  datatype Pending = Pending(delta: seq<nat>, toggled: seq<nat>, sum: nat, count: nat)

  /** Between two updates: all that is kept belongs to the counts `c`. */
  ghost predicate Midway(clauses: seq<Lits>, weights: seq<nat>, tracked: set<nat>, counts: seq<nat>, satisfied: seq<bool>,
                         unsat: seq<nat>, c: seq<int>, p: Pending)
  {
    && |clauses| == |weights| == |counts| == |c|
    && Differences(counts, p.delta, c) && Toggles(satisfied, p.toggled, GoodOnes(tracked, c))
    && Tally(clauses, weights, GoodOnes(tracked, c), unsat, p.sum, p.count)
  }

  /** One clause loses or gains a true literal. */
  function Moved(p: Pending, index: nat, gain: bool): Pending
    requires index < |p.delta| && p.delta[index] < MODULUS
  {
    p.(delta := p.delta[index := if gain then Inc(p.delta[index]) else Dec(p.delta[index])])
  }

  lemma MovedQuietly(clauses: seq<Lits>, weights: seq<nat>, tracked: set<nat>, counts: seq<nat>, satisfied: seq<bool>,
                     unsat: seq<nat>, c: seq<int>, p: Pending, index: nat, n: int)
    requires Midway(clauses, weights, tracked, counts, satisfied, unsat, c, p) && index < |c|
    requires InWord(n) && (n == c[index] + 1 || n + 1 == c[index])
    ensures |p.delta| == |c| && p.delta[index] < MODULUS && counts[index] < MODULUS
    ensures Add(counts[index], Moved(p, index, n > c[index]).delta[index]) == Wrap(n)
    ensures Differences(counts, Moved(p, index, n > c[index]).delta, c[index := n])
    ensures (n > 0) == (c[index] > 0) ==>
              Midway(clauses, weights, tracked, counts, satisfied, unsat, c[index := n], Moved(p, index, n > c[index]))
  {
    if (n > 0) == (c[index] > 0) {
      assert GoodOnes(tracked, c[index := n]) == GoodOnes(tracked, c);
    }
  }

  /** When a tracked clause becomes satisfied or unsatisfied, all the sums follow. */
  lemma MovedAcross(clauses: seq<Lits>, weights: seq<nat>, tracked: set<nat>, counts: seq<nat>, satisfied: seq<bool>,
                    unsat: seq<nat>, c: seq<int>, p: Pending, index: nat, n: int, unsat': seq<nat>, p': Pending)
    requires Midway(clauses, weights, tracked, counts, satisfied, unsat, c, p) && index < |c| && index in tracked
    requires (n == 0 && c[index] == 1) || (n == 1 && c[index] == 0)
    requires |unsat'| == |unsat| && forall v :: 0 <= v < |unsat| ==>
               unsat'[v] == unsat[v] + if n == 0 then Mentions(clauses[index], v) else 0 - Mentions(clauses[index], v)
    requires p'.toggled == p.toggled + [index] && p'.delta == p.delta[index := if n == 1 then Inc(p.delta[index]) else Dec(p.delta[index])]
    requires p'.sum == p.sum + (var w: int := weights[index]; if n == 1 then w else -w)
    requires p'.count == p.count + if n == 1 then 1 else -1
    ensures Midway(clauses, weights, tracked, counts, satisfied, unsat', c[index := n], p')
  {
    hide Add, Inc, Dec, UnsatOf, WeightOf, GoodCount, Mentions, Odd;
    var good, good' := GoodOnes(tracked, c), GoodOnes(tracked, c[index := n]);
    assert good' == good[index := n == 1];
    MovedQuietly(clauses, weights, tracked, counts, satisfied, unsat, c, p, index, n);
    WeightChange(weights, good, index, n == 1, |good|);
    CountChange(good, index, n == 1, |good|);
    forall v | 0 <= v < |unsat'| ensures unsat'[v] == UnsatOf(clauses, good', v, |good'|) {
      UnsatChange(clauses, good, index, n == 1, v, |good|);
    }
    forall i | 0 <= i < |good'| ensures good'[i] == (satisfied[i] != Odd(p'.toggled, i)) {
      OddPush(p.toggled, index, i);
    }
  }

  /** What can be taken away from the sums when a clause changes. */
  lemma Removable(clauses: seq<Lits>, weights: seq<nat>, good: seq<bool>, unsat: seq<nat>, sum: nat, count: nat, i: nat)
    requires Tally(clauses, weights, good, unsat, sum, count) && i < |good|
    ensures good[i] ==> weights[i] <= sum && count > 0
    ensures !good[i] ==> forall v :: 0 <= v < |unsat| ==> Mentions(clauses[i], v) <= unsat[v]
  {
    hide Mentions;
    if good[i] {
      WeightChange(weights, good, i, false, |good|);
      CountChange(good, i, false, |good|);
    } else {
      forall v | 0 <= v < |unsat| ensures Mentions(clauses[i], v) <= unsat[v] {
        UnsatChange(clauses, good, i, true, v, |good|);
      }
    }
  }

  /** The lists have gained `i` once for every occurrence of the literal. */
  ghost predicate Grown(lists: seq<seq<nat>>, lists': seq<seq<nat>>, lits: Lits, i: nat, value: bool) {
    && |lists'| == |lists|
    && forall v, j :: 0 <= v < |lists| ==>
         multiset(lists'[v])[j] == multiset(lists[v])[j] + if j == i then Occurs(lits, Literal(value, v)) else 0
  }

  lemma GrownStep(lists: seq<seq<nat>>, lists': seq<seq<nat>>, lits: Lits, k: nat, i: nat, value: bool)
    requires k < |lits| && Grown(lists, lists', lits[..k], i, value) && lits[k].number < |lists|
    ensures var v := lits[k].number;
            Grown(lists, if lits[k].value == value then lists'[v := lists'[v] + [i]] else lists', lits[..k + 1], i, value)
  {
    assert lits[..k + 1][..k] == lits[..k];
  }

  /** Adds the literals of clause `i` to the lists of their variables. */
  method ListClause(lits: Lits, i: nat, positive: seq<seq<nat>>, negative: seq<seq<nat>>)
    returns (p: seq<seq<nat>>, n: seq<seq<nat>>)
    requires |positive| == |negative| && forall k :: 0 <= k < |lits| ==> lits[k].number < |positive|
    ensures Grown(positive, p, lits, i, true) && Grown(negative, n, lits, i, false)
  {
    hide Grown;
    p, n := positive, negative;
    GrownNothing(p, i, true);
    GrownNothing(n, i, false);
    assert lits[..0] == [];
    for k := 0 to |lits|
      invariant |p| == |n| == |positive|
      invariant Grown(positive, p, lits[..k], i, true) && Grown(negative, n, lits[..k], i, false)
    {
      GrownStep(positive, p, lits, k, i, true);
      GrownStep(negative, n, lits, k, i, false);
      var v := lits[k].number;
      if lits[k].value {
        p := p[v := p[v] + [i]];
      } else {
        n := n[v := n[v] + [i]];
      }
    }
    assert lits[..|lits|] == lits;
  }

  lemma GrownNothing(lists: seq<seq<nat>>, i: nat, value: bool)
    ensures Grown(lists, lists, [], i, value)
  {
    forall v ensures Occurs([], Literal(value, v)) == 0 {
    }
  }

  /** Lists the tracked clauses under their literals. */
  method ListClauses(clauses: seq<Lits>, toCompute: set<nat>, size: nat) returns (positive: seq<seq<nat>>, negative: seq<seq<nat>>)
    requires InRange(clauses, toCompute, size)
    ensures |positive| == |negative| == size
    ensures Lists(clauses, toCompute, positive, true) && Lists(clauses, toCompute, negative, false)
  {
    positive, negative := seq(size, _ => []), seq(size, _ => []);
    for i := 0 to |clauses|
      invariant |positive| == |negative| == size
      invariant Lists(clauses[..i], toCompute, positive, true) && Lists(clauses[..i], toCompute, negative, false)
    {
      ghost var p, n := positive, negative;
      if i in toCompute {
        positive, negative := ListClause(clauses[i], i, positive, negative);
      }
      ListsStep(clauses, toCompute, p, positive, true, i);
      ListsStep(clauses, toCompute, n, negative, false, i);
    }
    assert clauses[..|clauses|] == clauses;
  }

  lemma ListsStep(clauses: seq<Lits>, tracked: set<nat>, lists: seq<seq<nat>>, lists': seq<seq<nat>>, value: bool, i: nat)
    requires i < |clauses| && Lists(clauses[..i], tracked, lists, value) && |lists'| == |lists|
    requires if i in tracked then Grown(lists, lists', clauses[i], i, value) else lists' == lists
    ensures Lists(clauses[..i + 1], tracked, lists', value)
  {
    forall v, m | 0 <= v < |lists'| && 0 <= m < |lists'[v]| ensures lists'[v][m] < i + 1 && lists'[v][m] in tracked {
      var k := lists'[v][m];
      assert multiset(lists'[v])[k] > 0;
      if k != i || i !in tracked {
        assert multiset(lists[v])[k] > 0;
        var q :| 0 <= q < |lists[v]| && lists[v][q] == k;
      }
    }
    forall v, j | 0 <= v < |lists'| && 0 <= j < i + 1 && j in tracked
      ensures multiset(lists'[v])[j] == Occurs(clauses[..i + 1][j], Literal(value, v))
    {
      if j < i {
        assert multiset(lists[v])[j] == Occurs(clauses[..i][j], Literal(value, v));
      } else {
        assert i !in lists[v];
      }
    }
  }

  /** The unit of a variable, flipped or not. */
  function XorUnit(unit: nat, isFlipped: bool): nat {
    if !isFlipped then unit else if unit % 2 == 0 then unit + 1 else unit - 1
  }

  /** Whether the clause is true once the flips are made, found from the units. */
  method PropagateFlips(lits: Lits, units: seq<nat>, flipped: seq<nat>) returns (value: bool)
    requires SortedArgs(lits) && StrictlySorted(flipped) && Defined(units, flipped)
    requires forall k :: 0 <= k < |lits| ==> lits[k].number < |units|
    ensures value <==> TrueCount(lits, Flipped(units, flipped)) > 0
  {
    var i: nat := 0;
    for k := 0 to |lits|
      invariant i <= |flipped| && forall j :: 0 <= j < i ==> k > 0 && flipped[j] < lits[k - 1].number
      invariant forall m :: 0 <= m < k ==> !IsTrue(lits[m], Flipped(units, flipped))
    {
      var isFlipped;
      i, isFlipped := Seek(flipped, i, lits[k].number);
      if XorUnit(units[lits[k].number], isFlipped) == UnitOf(lits[k].value) {
        assert IsTrue(lits[k], Flipped(units, flipped));
        return true;
      }
    }
    return false;
  }

  /** The same from the noted truth of the literals. */
  method PropagateNoted(lits: Lits, satisfied: seq<bool>, flipped: seq<nat>, ghost units: seq<nat>) returns (value: bool)
    requires SortedArgs(lits) && StrictlySorted(flipped) && Defined(units, flipped) && satisfied == TruthOf(lits, units)
    requires forall k :: 0 <= k < |lits| ==> lits[k].number < |units|
    ensures value <==> TrueCount(lits, Flipped(units, flipped)) > 0
  {
    var i: nat := 0;
    for k := 0 to |lits|
      invariant i <= |flipped| && forall j :: 0 <= j < i ==> k > 0 && flipped[j] < lits[k - 1].number
      invariant forall m :: 0 <= m < k ==> !IsTrue(lits[m], Flipped(units, flipped))
    {
      var isFlipped;
      i, isFlipped := Seek(flipped, i, lits[k].number);
      if !isFlipped == satisfied[k] {
        assert IsTrue(lits[k], Flipped(units, flipped));
        return true;
      }
    }
    return false;
  }

  /** The counts and the satisfied clauses recomputed from the units. */
  ghost function TrueCounts(clauses: seq<Lits>, units: seq<nat>): (c: seq<nat>)
    ensures |c| == |clauses|
  {
    seq(|clauses|, i requires 0 <= i < |clauses| => TrueCount(clauses[i], units))
  }

  ghost function Score(clauses: seq<Lits>, weights: seq<nat>, tracked: set<nat>, units: seq<nat>): nat
    requires |clauses| == |weights|
  {
    WeightOf(weights, GoodOnes(tracked, TrueCounts(clauses, units)), |clauses|)
  }

  /** The sums over the first clauses. */
  ghost predicate Counted(clauses: seq<Lits>, weights: seq<nat>, good: seq<bool>, unsat: seq<nat>, sum: nat, count: nat, n: nat) {
    && n <= |clauses| == |weights| == |good|
    && sum == WeightOf(weights, good, n) && count == GoodCount(good, n)
    && forall v :: 0 <= v < |unsat| ==> unsat[v] == UnsatOf(clauses, good, v, n)
  }

  lemma NothingCounted(clauses: seq<Lits>, weights: seq<nat>, good: seq<bool>, unsat: seq<nat>)
    requires |clauses| == |weights| == |good| && forall v :: 0 <= v < |unsat| ==> unsat[v] == 0
    ensures Counted(clauses, weights, good, unsat, 0, 0, 0)
  {
  }

  lemma AllCounted(clauses: seq<Lits>, weights: seq<nat>, good: seq<bool>, unsat: seq<nat>, sum: nat, count: nat)
    requires |clauses| == |good| && Counted(clauses, weights, good, unsat, sum, count, |good|)
    ensures Tally(clauses, weights, good, unsat, sum, count)
  {
  }

  /** `closed` adds to the flips of core variables exactly the node variables that must follow. */
  ghost predicate Closes(nodes: seq<Node>, units: seq<nat>, flipped: seq<nat>, closed: seq<nat>) {
    && StrictlySorted(closed) && Consistent(nodes, units, closed)
    && (forall v :: v in closed && v !in flipped ==> !IsCore(nodes, v))
    && (forall v :: v in flipped ==> v in closed)
  }

  lemma ClosesMeans(nodes: seq<Node>, units: seq<nat>, flipped: seq<nat>, closed: seq<nat>)
    requires StrictlySorted(closed) && Consistent(nodes, units, closed)
    requires (forall v :: v in closed && v !in flipped ==> !IsCore(nodes, v)) && (forall v :: v in flipped ==> v in closed)
    ensures Closes(nodes, units, flipped, closed)
  {
  }

  /** All ways to close the same flips lead to the same units. */
  lemma OneClosure(nodes: seq<Node>, units: seq<nat>, flipped: seq<nat>, a: seq<nat>, b: seq<nat>)
    requires Ordered(nodes) && Evaluated(nodes, units) && Defined(units, flipped)
    requires forall k :: 0 <= k < |flipped| ==> IsCore(nodes, flipped[k])
    requires Closes(nodes, units, flipped, a) && Closes(nodes, units, flipped, b)
    ensures Flipped(units, a) == Flipped(units, b)
  {
    ClosedDefined(nodes, units, flipped, a);
    ClosedDefined(nodes, units, flipped, b);
    ClosedIsFull(nodes, units, flipped, a);
    ClosedIsFull(nodes, units, flipped, b);
  }

  /** The sums while the visited clauses are judged after the flips and the others before. */
  ghost predicate Mixed(weights: seq<nat>, was: seq<bool>, good: seq<bool>, visited: seq<bool>, sum: nat, count: nat) {
    && |weights| == |was| == |good| == |visited|
    && var mixed := Mix(was, good, visited);
       sum == WeightOf(weights, mixed, |mixed|) && count == GoodCount(mixed, |mixed|)
  }

  ghost function Mix(was: seq<bool>, good: seq<bool>, visited: seq<bool>): (m: seq<bool>)
    requires |was| == |good| == |visited|
    ensures |m| == |good|
  {
    seq(|good|, i requires 0 <= i < |good| => if visited[i] then good[i] else was[i])
  }

  lemma MixedStart(clauses: seq<Lits>, weights: seq<nat>, satisfied: seq<bool>, good: seq<bool>, unsat: seq<nat>, sum: nat, count: nat)
    requires Tally(clauses, weights, satisfied, unsat, sum, count) && |good| == |satisfied|
    ensures Mixed(weights, satisfied, good, seq(|clauses|, _ => false), sum, count)
  {
    assert Mix(satisfied, good, seq(|clauses|, _ => false)) == satisfied;
  }

  lemma MixedStep(weights: seq<nat>, was: seq<bool>, good: seq<bool>, visited: seq<bool>, sum: nat, count: nat, i: nat)
    requires Mixed(weights, was, good, visited, sum, count) && i < |good| && !visited[i]
    ensures good[i] == was[i] ==> Mixed(weights, was, good, visited[i := true], sum, count)
    ensures good[i] && !was[i] ==> Mixed(weights, was, good, visited[i := true], sum + weights[i], count + 1)
    ensures !good[i] && was[i] ==>
              weights[i] <= sum && count > 0 && Mixed(weights, was, good, visited[i := true], sum - weights[i], count - 1)
  {
    var mixed := Mix(was, good, visited);
    assert Mix(was, good, visited[i := true]) == mixed[i := good[i]];
    if good[i] == was[i] {
      assert mixed[i := good[i]] == mixed;
    } else {
      WeightChange(weights, mixed, i, good[i], |mixed|);
      CountChange(mixed, i, good[i], |mixed|);
    }
  }

  lemma MixedSum(weights: seq<nat>, was: seq<bool>, good: seq<bool>, visited: seq<bool>, sum: nat, count: nat)
    requires Mixed(weights, was, good, visited, sum, count)
    ensures |was| == |good| == |visited| == |weights| && sum == WeightOf(weights, Mix(was, good, visited), |weights|)
  {
  }

  lemma MixedEnd(weights: seq<nat>, was: seq<bool>, good: seq<bool>, visited: seq<bool>, sum: nat, count: nat)
    requires Mixed(weights, was, good, visited, sum, count)
    requires forall i :: 0 <= i < |good| && !visited[i] ==> good[i] == was[i]
    ensures sum == WeightOf(weights, good, |good|) && count == GoodCount(good, |good|)
  {
    assert Mix(was, good, visited) == good;
  }

  lemma ClosedDefined(nodes: seq<Node>, units: seq<nat>, flipped: seq<nat>, closed: seq<nat>)
    requires Closes(nodes, units, flipped, closed) && Defined(units, flipped) && Evaluated(nodes, units)
    ensures Defined(units, closed)
  {
    forall v | v in closed ensures v < |units| && units[v] <= 1 {
      if v !in flipped {
        var i :| 0 <= i < |nodes| && nodes[i].variable == v;
        assert Agrees(nodes[i], units, closed);
      }
    }
  }

  lemma StillConsistent(nodes: seq<Node>, units: seq<nat>, closed: seq<nat>)
    requires Consistent(nodes, units, closed) && Defined(units, closed) && Evaluated(nodes, units)
    ensures Consistent(nodes, Flipped(units, closed), []) && Evaluated(nodes, Flipped(units, closed))
  {
    forall i | 0 <= i < |nodes| ensures Agrees(nodes[i], Flipped(units, closed), []) {
      FlippedMeaning(nodes[i], units, closed);
      assert Agrees(nodes[i], units, closed);
    }
  }

  /** Flipping each listed variable as often as it is listed. */
  ghost function Tossed(units: seq<nat>, list: multiset<nat>): (r: seq<nat>)
    ensures |r| == |units|
  {
    seq(|units|, v requires 0 <= v < |units| => if list[v] % 2 == 0 then units[v] else if units[v] == 0 then 1 else 0)
  }

  /** A list without repetitions flips its members. */
  lemma TossedOnce(units: seq<nat>, closed: seq<nat>)
    requires StrictlySorted(closed)
    ensures Tossed(units, multiset(closed)) == Flipped(units, closed)
  {
    DistinctOnce(closed);
  }

  /** The units of listed variables are defined, before and after. */
  lemma ExtendedDefined(nodes: seq<Node>, units: seq<nat>, flipped: seq<nat>, closed: seq<nat>)
    requires Defined(units, flipped) && Evaluated(nodes, units) && forall i :: 0 <= i < |nodes| ==> nodes[i].variable < |units|
    requires multiset(closed) == multiset(Extended(nodes, units, flipped, |nodes|))
    ensures Defined(units, closed)
    ensures var r := Tossed(units, multiset(closed)); forall k :: 0 <= k < |closed| ==> closed[k] < |r| && r[closed[k]] <= 1
  {
    SameElements(closed, Extended(nodes, units, flipped, |nodes|));
    forall v | v in closed ensures v < |units| && units[v] <= 1 {
      if i :| 0 <= i < |nodes| && nodes[i].variable == v {
        assert nodes[i].variable < |units|;
      } else {
        UntouchedCount(nodes, units, flipped, v, |nodes|);
        assert multiset(closed)[v] > 0;
        assert v in flipped;
      }
    }
    forall k | 0 <= k < |closed| ensures closed[k] < |units| && units[closed[k]] <= 1 {
      assert closed[k] in closed;
    }
  }

  lemma StillEvaluated(nodes: seq<Node>, units: seq<nat>, list: multiset<nat>)
    requires Evaluated(nodes, units)
    ensures Evaluated(nodes, Tossed(units, list))
  {
  }

  lemma FlippedBits(units: seq<nat>, closed: seq<nat>)
    requires Defined(units, closed)
    ensures forall k :: 0 <= k < |closed| ==> closed[k] < |units| && Flipped(units, closed)[closed[k]] <= 1
  {
    forall k | 0 <= k < |closed| ensures closed[k] < |units| && Flipped(units, closed)[closed[k]] <= 1 {
      assert closed[k] in closed;
    }
  }

  lemma WordsFit(words: seq<nat>, c: seq<int>)
    requires Words(words, c)
    ensures |words| == |c| && forall i :: 0 <= i < |c| ==> InWord(c[i])
  {
  }

  lemma RoomySize(clauses: seq<Lits>, tracked: set<nat>, c: seq<int>, list: multiset<nat>)
    requires Roomy(clauses, tracked, c, list)
    ensures |c| == |clauses|
  {
  }

  lemma AfterNothing(clauses: seq<Lits>, tracked: set<nat>, c: seq<int>, units: seq<nat>)
    requires |c| == |clauses|
    ensures After(clauses, tracked, c, multiset([]), units) == c
  {
    forall i | 0 <= i < |c| ensures Shift(clauses[i], multiset([]), units) == 0 {
      ShiftNothing(clauses[i], units);
    }
  }

  // ---------------------------------------------------------------- lists that were closed before

  /** The nodes of a closed list. */
  ghost function Added(closed: seq<nat>, flipped: seq<nat>): multiset<nat> {
    multiset(closed) - multiset(flipped)
  }

  /** Closing a closed list doubles its nodes, so that toggling the result flips the core variables only. */
  lemma DoubledNodes(nodes: seq<Node>, units: seq<nat>, flipped: seq<nat>, closed: seq<nat>)
    requires Ordered(nodes) && Evaluated(nodes, units) && Plain(nodes, units, flipped)
    requires StrictlySorted(flipped) && Closes(nodes, units, flipped, closed)
    ensures var list := multiset(Extended(nodes, units, closed, |nodes|));
            && list == multiset(flipped) + Added(closed, flipped) + Added(closed, flipped)
            && Tossed(units, list) == Flipped(units, flipped) && forall v :: list[v] <= 2
  {
    ClosedTwice(nodes, [], units, closed);
    DistinctOnce(closed);
    DistinctOnce(flipped);
    hide *;
    AddedTwice(nodes, units, flipped, closed, multiset(Extended(nodes, units, closed, |nodes|)));
  }

  lemma AddedTwice(nodes: seq<Node>, units: seq<nat>, flipped: seq<nat>, closed: seq<nat>, list: multiset<nat>)
    requires Plain(nodes, units, flipped) && Closes(nodes, units, flipped, closed)
    requires forall v :: list[v] == if v !in closed then 0 else if IsCore(nodes, v) then 1 else 2
    requires forall v :: multiset(closed)[v] == if v in closed then 1 else 0
    requires forall v :: multiset(flipped)[v] == if v in flipped then 1 else 0
    ensures list == multiset(flipped) + Added(closed, flipped) + Added(closed, flipped)
    ensures Tossed(units, list) == Flipped(units, flipped) && forall v :: list[v] <= 2
  {
    hide Consistent, StrictlySorted;
    forall v
      ensures list[v] == multiset(flipped)[v] + Added(closed, flipped)[v] + Added(closed, flipped)[v]
      ensures list[v] % 2 == 1 <==> v in flipped
    {
      assert v in flipped ==> IsCore(nodes, v);
    }
  }

  lemma SameFlips(units: seq<nat>, a: seq<nat>, b: seq<nat>)
    requires Flipped(units, a) == Flipped(units, b) && Defined(units, a) && Defined(units, b)
    ensures forall v :: v in a <==> v in b
  {
    forall v: nat | v < |units| && units[v] <= 1 ensures v in a <==> v in b {
      assert Flipped(units, a)[v] == Flipped(units, b)[v];
    }
  }

  /** Flipping the core variables alone leaves the network consistent exactly if no node had to follow. */
  lemma FollowersMissed(nodes: seq<Node>, units: seq<nat>, flipped: seq<nat>, closed: seq<nat>)
    requires Ordered(nodes) && Evaluated(nodes, units) && Plain(nodes, units, flipped) && Defined(units, flipped)
    requires StrictlySorted(flipped) && Closes(nodes, units, flipped, closed)
    ensures Consistent(nodes, Flipped(units, flipped), []) <==> forall v :: v in closed ==> IsCore(nodes, v)
  {
    ClosedDefined(nodes, units, flipped, closed);
    if Consistent(nodes, Flipped(units, flipped), []) {
      forall i | 0 <= i < |nodes| ensures Agrees(nodes[i], units, flipped) {
        FlippedMeaning(nodes[i], units, flipped);
        assert Agrees(nodes[i], Flipped(units, flipped), []);
      }
      OneClosure(nodes, units, flipped, flipped, closed);
      SameFlips(units, flipped, closed);
      forall v | v in closed ensures IsCore(nodes, v) {
        assert v in flipped;
      }
    } else {
      if forall v :: v in closed ==> IsCore(nodes, v) {
        assert Flipped(units, closed) == Flipped(units, flipped);
        StillConsistent(nodes, units, closed);
      }
    }
  }

  /** Flips that were closed within the lists hold listed nodes only. */
  lemma OnlyListed(nodes: seq<Node>, lists: seq<seq<nat>>, units: seq<nat>, flipped: seq<nat>, closed: seq<nat>)
    requires Ordered(nodes) && Evaluated(nodes, units) && Plain(nodes, units, flipped) && Defined(units, flipped)
    requires Closes(nodes, units, flipped, closed) && InReach(nodes, lists, units, flipped)
    requires forall i :: 0 <= i < |nodes| ==> nodes[i].variable < |units|
    ensures forall i :: 0 <= i < |nodes| && nodes[i].variable >= |lists| ==> nodes[i].variable !in closed
  {
    ClosedDefined(nodes, units, flipped, closed);
    ClosedIsFull(nodes, units, flipped, closed);
    forall i | 0 <= i < |nodes| && nodes[i].variable >= |lists| ensures nodes[i].variable !in closed {
      assert Flipped(units, closed)[nodes[i].variable] == units[nodes[i].variable];
    }
  }

  /** The counts after the clauses of the nodes have been gone through twice. */
  lemma DriftedCounts(clauses: seq<Lits>, tracked: set<nat>, units: seq<nat>, c: seq<int>, flipped: seq<nat>, added: multiset<nat>)
    requires Counts(clauses, tracked, units, c) && StrictlySorted(flipped) && Defined(units, flipped)
    ensures forall i :: 0 <= i < |clauses| && i in tracked ==>
              After(clauses, tracked, c, multiset(flipped) + added + added, Flipped(units, flipped))[i]
                == TrueCount(clauses[i], Flipped(units, flipped)) + 2 * Shift(clauses[i], added, Flipped(units, flipped))
  {
    DistinctOnce(flipped);
    forall i | 0 <= i < |clauses| && i in tracked
      ensures After(clauses, tracked, c, multiset(flipped) + added + added, Flipped(units, flipped))[i]
           == TrueCount(clauses[i], Flipped(units, flipped)) + 2 * Shift(clauses[i], added, Flipped(units, flipped))
    {
      ShiftFlipped(clauses[i], flipped, units);
      ShiftUnion(clauses[i], multiset(flipped) + added, added, Flipped(units, flipped));
      ShiftUnion(clauses[i], multiset(flipped), added, Flipped(units, flipped));
    }
  }

  lemma RoomForTwice(clauses: seq<Lits>, tracked: set<nat>, units: seq<nat>, c: seq<int>, list: multiset<nat>)
    requires Counts(clauses, tracked, units, c) && forall v :: list[v] <= 2
    requires forall i :: 0 <= i < |clauses| && i in tracked ==> 3 * |clauses[i]| < MODULUS
    ensures Roomy(clauses, tracked, c, list)
  {
    forall i | 0 <= i < |c| && i in tracked
      ensures InWord(c[i] - Load(clauses[i], list)) && InWord(c[i] + Load(clauses[i], list))
    {
      LoadBound(clauses[i], list, 2);
    }
  }

  lemma NothingOdd(satisfied: seq<bool>)
    ensures forall i :: 0 <= i < |satisfied| ==> !Odd([], i)
  {
  }

  lemma StartMidway(clauses: seq<Lits>, weights: seq<nat>, tracked: set<nat>, words: seq<nat>, c: seq<int>, satisfied: seq<bool>,
                    unsat: seq<nat>, p: Pending)
    requires |clauses| == |weights| == |p.delta| && Words(words, c) && p.toggled == [] && satisfied == GoodOnes(tracked, c)
    requires forall i :: 0 <= i < |p.delta| ==> p.delta[i] == 0
    requires Tally(clauses, weights, satisfied, unsat, p.sum, p.count)
    ensures Midway(clauses, weights, tracked, words, satisfied, unsat, c, p)
  {
  }

  ghost predicate Unmentioned(lits: Lits, closed: seq<nat>) {
    forall k :: 0 <= k < |closed| ==> Mentions(lits, closed[k]) == 0
  }

  lemma UnmentionedPush(lits: Lits, closed: seq<nat>, k: nat)
    requires k < |closed|
    ensures Unmentioned(lits, closed[..k + 1]) <==> Unmentioned(lits, closed[..k]) && Mentions(lits, closed[k]) == 0
  {
    if Unmentioned(lits, closed[..k + 1]) {
      assert forall j :: 0 <= j < k + 1 ==> closed[..k + 1][j] == closed[j];
      assert forall j :: 0 <= j < k ==> closed[..k][j] == closed[..k + 1][j];
      assert Mentions(lits, closed[..k + 1][k]) == 0;
    }
  }

  lemma NothingMentioned(clauses: seq<Lits>)
    ensures forall i :: 0 <= i < |clauses| ==> Unmentioned(clauses[i], [])
  {
  }

  lemma ListedMentions(clauses: seq<Lits>, tracked: set<nat>, positive: seq<seq<nat>>, negative: seq<seq<nat>>, i: nat, v: nat)
    requires Lists(clauses, tracked, positive, true) && Lists(clauses, tracked, negative, false)
    requires i < |clauses| && i in tracked && v < |positive| == |negative|
    ensures Mentions(clauses[i], v) == 0 <==> i !in positive[v] && i !in negative[v]
  {
    assert i in multiset(positive[v]) <==> i in positive[v];
    assert i in multiset(negative[v]) <==> i in negative[v];
  }

  /** A clause that mentions no listed variable is as true as before. */
  lemma UnmentionedTruth(lits: Lits, units: seq<nat>, units': seq<nat>, closed: seq<nat>)
    requires Unmentioned(lits, closed) && |units'| == |units| && forall v :: 0 <= v < |units| && v !in closed ==> units'[v] == units[v]
    ensures TruthOf(lits, units') == TruthOf(lits, units)
    ensures TrueCount(lits, units') == TrueCount(lits, units)
  {
    forall k | 0 <= k < |lits| ensures lits[k].number !in closed {
      MentionsLiteral(lits, k);
    }
    SameCount(lits, units', units);
  }

  lemma NothingYet(c: seq<int>)
    ensures Plus(c, []) == c && Minus(c, []) == c
  {
  }

  lemma CountsSize(clauses: seq<Lits>, tracked: set<nat>, units: seq<nat>, c: seq<int>)
    requires Counts(clauses, tracked, units, c)
    ensures |c| == |clauses|
  {
  }

  /** No word overflows on the way through the lists of a variable. */
  ghost predicate Bounded(c: seq<int>, lose: seq<nat>, gain: seq<nat>) {
    forall i :: 0 <= i < |c| ==> InWord(Minus(c, lose)[i]) && InWord(Plus(Minus(c, lose), gain)[i])
  }

  /** No word overflows if each literal is counted at most so often. */
  ghost predicate Roomy(clauses: seq<Lits>, tracked: set<nat>, c: seq<int>, list: multiset<nat>) {
    |c| == |clauses| && forall i :: 0 <= i < |c| && i in tracked ==>
      InWord(c[i] - Load(clauses[i], list)) && InWord(c[i] + Load(clauses[i], list))
  }

  lemma RoomyBounds(clauses: seq<Lits>, tracked: set<nat>, lose: seq<seq<nat>>, gain: seq<seq<nat>>, units: seq<nat>, c: seq<int>,
                    closed: seq<nat>, k: nat)
    requires Roomy(clauses, tracked, c, multiset(closed)) && k < |closed| && closed[k] < |units| == |lose| == |gain| && units[closed[k]] <= 1
    requires Lists(clauses, tracked, lose, units[closed[k]] == 0) && Lists(clauses, tracked, gain, units[closed[k]] != 0)
    requires forall i :: 0 <= i < |c| ==> InWord(c[i])
    ensures Bounded(After(clauses, tracked, c, multiset(closed[..k]), units), lose[closed[k]], gain[closed[k]])
  {
    var v, list := closed[k], multiset(closed[..k]);
    var now := After(clauses, tracked, c, list, units);
    assert closed == closed[..k] + [v] + closed[k + 1..];
    assert list + multiset{v} <= multiset(closed);
    ListsEffect(clauses, tracked, lose, gain, units, c, list, v);
    forall i | 0 <= i < |c| ensures InWord(Minus(now, lose[v])[i]) && InWord(Plus(Minus(now, lose[v]), gain[v])[i]) {
      if i in tracked {
        ShiftPush(clauses[i], list, v, units);
        ShiftBound(clauses[i], list, units);
        ShiftBound(clauses[i], list + multiset{v}, units);
        LoadMono(clauses[i], list + multiset{v}, multiset(closed));
      } else {
        assert i !in lose[v] && i !in gain[v];
      }
    }
  }

  /** With right counts and a list without repetitions they stay between zero and the sizes of the clauses. */
  lemma ExactBounds(clauses: seq<Lits>, tracked: set<nat>, lose: seq<seq<nat>>, gain: seq<seq<nat>>, units: seq<nat>, c: seq<int>,
                    closed: seq<nat>, k: nat)
    requires Counts(clauses, tracked, units, c) && StrictlySorted(closed) && Defined(units, closed) && k < |closed|
    requires |units| == |lose| == |gain| && forall i :: 0 <= i < |clauses| ==> |clauses[i]| < MODULUS
    requires forall i :: 0 <= i < |c| ==> InWord(c[i])
    requires closed[k] < |units| && var now := Flipped(units, closed);
             Lists(clauses, tracked, lose, now[closed[k]] == 0) && Lists(clauses, tracked, gain, now[closed[k]] != 0)
    ensures Bounded(After(clauses, tracked, c, multiset(closed[..k]), Flipped(units, closed)), lose[closed[k]], gain[closed[k]])
  {
    var v, front, now := closed[k], closed[..k], Flipped(units, closed);
    var c' := After(clauses, tracked, c, multiset(front), now);
    assert v in closed && v !in front;
    PrefixUpToDate(clauses, tracked, units, c, closed, k);
    ListsCount(clauses, tracked, lose, gain, Flipped(units, front), c', v);
    forall i | 0 <= i < |c| ensures InWord(Minus(c', lose[v])[i]) && InWord(Plus(Minus(c', lose[v]), gain[v])[i]) {
      if i in tracked {
        assert Plus(Minus(c', lose[v]), gain[v])[i] == TrueCount(clauses[i], Toggled(Flipped(units, front), v));
      } else {
        assert i !in lose[v] && i !in gain[v];
      }
    }
  }

  /** After some of the listed variables the counts belong to the units with these flipped. */
  lemma PrefixUpToDate(clauses: seq<Lits>, tracked: set<nat>, units: seq<nat>, c: seq<int>, closed: seq<nat>, k: nat)
    requires Counts(clauses, tracked, units, c) && StrictlySorted(closed) && Defined(units, closed) && k <= |closed|
    ensures Counts(clauses, tracked, Flipped(units, closed[..k]),
                   After(clauses, tracked, c, multiset(closed[..k]), Flipped(units, closed)))
  {
    var front := closed[..k];
    DistinctOnce(front);
    assert forall v :: v in front ==> v in closed;
    forall i | 0 <= i < |clauses| && i in tracked
      ensures c[i] + Shift(clauses[i], multiset(front), Flipped(units, closed)) == TrueCount(clauses[i], Flipped(units, front))
    {
      ShiftSame(clauses[i], multiset(front), Flipped(units, closed), Flipped(units, front));
      ShiftFlipped(clauses[i], front, units);
    }
  }

  lemma CountsSmall(clauses: seq<Lits>, units: seq<nat>, c: seq<nat>)
    requires |c| == |clauses| && forall i :: 0 <= i < |clauses| ==> c[i] == TrueCount(clauses[i], units) && |clauses[i]| < MODULUS
    ensures forall i :: 0 <= i < |c| ==> c[i] < MODULUS
  {
  }

  lemma {:induction false} MentionsPrefix(lits: Lits, k: nat, v: nat)
    requires k <= |lits|
    ensures Mentions(lits[..k], v) <= Mentions(lits, v)
  {
    if k < |lits| {
      var front := lits[..|lits| - 1];
      MentionsPrefix(front, k, v);
      assert front[..k] == lits[..k];
    } else {
      assert lits[..k] == lits;
    }
  }

  class HillClimbingSolver {
    const clauses: seq<Lits>
    const weights: seq<nat>
    const net: Net
    const positive: seq<seq<nat>>        // the tracked clauses with the positive literal of a variable
    const negative: seq<seq<nat>>
    ghost const tracked: set<nat>
    var propagated: seq<nat>
    var satisfied: seq<bool>
    var clausesCountSatisfied: seq<nat>
    var literalToUnsat: seq<nat>
    var satisfiedSum: nat
    var satisfiedCount: nat
    var clauseSatisfied: seq<seq<bool>>  // the truth of the literals of each clause
    ghost var counts: seq<int>           // what the words of `clausesCountSatisfied` stand for

    /** All tracked clauses are listed and counted after the network has filled in the units. Units that
        nodes have before are kept; the result is consistent exactly if these are right. */
    constructor (clauses: seq<Lits>, weights: seq<nat>, toCompute: set<nat>, net: Net, units: seq<nat>)
      requires net.Ready() && net.Covers(|units|)
      requires InRange(clauses, toCompute, |units|) && |weights| == |clauses|
      requires forall i :: 0 <= i < |clauses| ==> SortedArgs(clauses[i]) && |clauses[i]| < MODULUS
      ensures Counts(clauses, tracked, propagated, counts)
      ensures Tracking() && (Valid() <==> PresetRight(net.finalized, units))
      ensures this.clauses == clauses && this.weights == weights && this.net == net && tracked == toCompute
      ensures |propagated| == |units|
      ensures forall v :: 0 <= v < |units| && IsCore(net.finalized, v) ==> propagated[v] == units[v]
    {
      this.clauses, this.weights, this.net, this.tracked := clauses, weights, net, toCompute;
      var p, n := ListClauses(clauses, toCompute, |units|);
      positive, negative := p, n;
      var r := net.Compute(units);
      propagated := r;
      satisfied := seq(|clauses|, _ => false);
      clausesCountSatisfied := seq(|clauses|, _ => 0);
      literalToUnsat := seq(|units|, _ => 0);
      clauseSatisfied := seq(|clauses|, _ => []);
      satisfiedSum, satisfiedCount := 0, 0;
      counts := TrueCounts(clauses, r);
      new;
      CountClauses(TrueCounts(clauses, r), toCompute);
      CountsSmall(clauses, r, TrueCounts(clauses, r));
    }

    /** Counts the true literals of every clause. */
    method CountClauses(ghost c: seq<nat>, toCompute: set<nat>)
      requires toCompute == tracked && |c| == |clauses| == |weights| == |satisfied| == |clausesCountSatisfied| == |clauseSatisfied|
      requires forall i :: 0 <= i < |clauses| ==> c[i] == TrueCount(clauses[i], propagated)
      requires (forall i :: 0 <= i < |satisfied| ==> !satisfied[i]) && satisfiedSum == 0 && satisfiedCount == 0 && InRange(clauses, tracked, |literalToUnsat|)
      requires forall v :: 0 <= v < |literalToUnsat| ==> literalToUnsat[v] == 0
      modifies `satisfied, `clausesCountSatisfied, `literalToUnsat, `clauseSatisfied, `satisfiedSum, `satisfiedCount
      ensures clausesCountSatisfied == c && satisfied == GoodOnes(tracked, c) && |literalToUnsat| == |old(literalToUnsat)|
      ensures Tally(clauses, weights, satisfied, literalToUnsat, satisfiedSum, satisfiedCount)
      ensures |clauseSatisfied| == |clauses| && forall i :: 0 <= i < |clauses| ==> clauseSatisfied[i] == TruthOf(clauses[i], propagated)
    {
      hide TrueCount, TruthOf, Mentions, Tally;
      ghost var good := GoodOnes(tracked, c);
      NothingCounted(clauses, weights, good, literalToUnsat);
      for i := 0 to |clauses|
        invariant |c| == |satisfied| == |clausesCountSatisfied| == |clauseSatisfied| && |literalToUnsat| == |old(literalToUnsat)|
        invariant forall j :: 0 <= j < i ==> clausesCountSatisfied[j] == c[j] && satisfied[j] == good[j]
        invariant forall j :: i <= j < |clauses| ==> !satisfied[j]
        invariant forall j :: 0 <= j < i ==> clauseSatisfied[j] == TruthOf(clauses[j], propagated)
        invariant Counted(clauses, weights, good, literalToUnsat, satisfiedSum, satisfiedCount, i)
      {
        CountClause(i, good, toCompute);
      }
      AllCounted(clauses, weights, good, literalToUnsat, satisfiedSum, satisfiedCount);
    }

    method CountClause(i: nat, ghost good: seq<bool>, toCompute: set<nat>)
      requires i < |clauses| == |weights| == |satisfied| == |clausesCountSatisfied| == |clauseSatisfied| == |good|
      requires good[i] == (i !in toCompute || TrueCount(clauses[i], propagated) > 0) && !satisfied[i]
      requires toCompute == tracked && InRange(clauses, tracked, |literalToUnsat|)
      requires Counted(clauses, weights, good, literalToUnsat, satisfiedSum, satisfiedCount, i)
      modifies `satisfied, `clausesCountSatisfied, `literalToUnsat, `clauseSatisfied, `satisfiedSum, `satisfiedCount
      ensures Counted(clauses, weights, good, literalToUnsat, satisfiedSum, satisfiedCount, i + 1)
      ensures clausesCountSatisfied == old(clausesCountSatisfied)[i := TrueCount(clauses[i], propagated)]
      ensures satisfied == old(satisfied)[i := good[i]] && |literalToUnsat| == |old(literalToUnsat)|
      ensures clauseSatisfied == old(clauseSatisfied)[i := TruthOf(clauses[i], propagated)]
    {
      hide TrueCount, TruthOf, Mentions;
      var count := PropagateSat(i);
      clausesCountSatisfied := clausesCountSatisfied[i := count];
      if count > 0 || i !in toCompute {
        satisfied := satisfied[i := true];
        satisfiedSum := satisfiedSum + weights[i];
        satisfiedCount := satisfiedCount + 1;
      } else {
        CountUnsat(clauses[i], true);
      }
    }

    ghost predicate Shape()
      reads this, net
    {
      && net.Ready() && net.Covers(|propagated|)
      && |positive| == |negative| == |propagated| == |literalToUnsat|
      && Lists(clauses, tracked, positive, true) && Lists(clauses, tracked, negative, false)
      && InRange(clauses, tracked, |propagated|) && |clauseSatisfied| == |clauses| == |weights|
      && (forall i :: 0 <= i < |clauses| ==> SortedArgs(clauses[i]) && |clauses[i]| < MODULUS)
    }

    /** What is kept about clauses belongs to `counts`. */
    ghost predicate Tracking()
      reads this, net
    {
      && Shape()
      && |counts| == |clauses| && Words(clausesCountSatisfied, counts)
      && satisfied == GoodOnes(tracked, counts)
      && Tally(clauses, weights, satisfied, literalToUnsat, satisfiedSum, satisfiedCount)
      && (forall i :: 0 <= i < |clauses| && i in tracked ==> clauseSatisfied[i] == TruthOf(clauses[i], propagated))
    }

    /** Everything kept equals what recomputing it from the units would give, and the units of the nodes
        are right. */
    ghost predicate Valid()
      reads this, net
    {
      && Tracking() && Counts(clauses, tracked, propagated, counts)
      && Evaluated(net.finalized, propagated) && Consistent(net.finalized, propagated, [])
    }

    ghost predicate Core(flipped: seq<nat>)
      reads net
    {
      forall k :: 0 <= k < |flipped| ==> IsCore(net.finalized, flipped[k])
    }

    ghost predicate Between(c: seq<int>, p: Pending)
      reads this
    {
      Midway(clauses, weights, tracked, clausesCountSatisfied, satisfied, literalToUnsat, c, p)
    }

    /** Notes which literals of a clause are true, and counts them. */
    method PropagateSat(index: nat) returns (satisfiedCount: nat)
      requires index < |clauses| == |clauseSatisfied|
      modifies `clauseSatisfied
      ensures clauseSatisfied == old(clauseSatisfied)[index := TruthOf(clauses[index], propagated)]
      ensures satisfiedCount == TrueCount(clauses[index], propagated)
    {
      var lits := clauses[index];
      var truth: seq<bool> := [];
      satisfiedCount := 0;
      for k := 0 to |lits|
        invariant truth == TruthOf(lits[..k], propagated) && satisfiedCount == TrueCount(lits[..k], propagated)
      {
        assert lits[..k + 1][..k] == lits[..k];
        var t := IsTrue(lits[k], propagated);
        truth := truth + [t];
        if t { satisfiedCount := satisfiedCount + 1; }
      }
      assert lits[..|lits|] == lits;
      clauseSatisfied := clauseSatisfied[index := truth];
    }

    /** Adds one, or takes one away, for each literal of a clause. */
    method CountUnsat(lits: Lits, up: bool)
      requires forall k :: 0 <= k < |lits| ==> lits[k].number < |literalToUnsat|
      requires !up ==> forall v :: 0 <= v < |literalToUnsat| ==> Mentions(lits, v) <= literalToUnsat[v]
      modifies `literalToUnsat
      ensures |literalToUnsat| == |old(literalToUnsat)|
      ensures forall v :: 0 <= v < |literalToUnsat| ==>
                literalToUnsat[v] == old(literalToUnsat[v]) + if up then Mentions(lits, v) else 0 - Mentions(lits, v)
    {
      for k := 0 to |lits|
        invariant |literalToUnsat| == |old(literalToUnsat)|
        invariant forall v :: 0 <= v < |literalToUnsat| ==>
          literalToUnsat[v] == old(literalToUnsat[v]) + if up then Mentions(lits[..k], v) else 0 - Mentions(lits[..k], v)
      {
        assert lits[..k + 1][..k] == lits[..k];
        var v := lits[k].number;
        MentionsPrefix(lits, k + 1, v);
        literalToUnsat := literalToUnsat[v := if up then literalToUnsat[v] + 1 else literalToUnsat[v] - 1];
      }
      assert lits[..|lits|] == lits;
    }

    /** A literal of the clause has become false. */
    method Lose(index: nat, p: Pending, ghost c: seq<int>) returns (p': Pending)
      requires Shape() && Between(c, p) && index < |c| && index in tracked && InWord(c[index] - 1)
      modifies `clauseSatisfied, `literalToUnsat
      ensures Between(c[index := c[index] - 1], p') && |literalToUnsat| == |old(literalToUnsat)|
      ensures clauseSatisfied == old(clauseSatisfied)[index := TruthOf(clauses[index], propagated)]
    {
      hide TrueCount, TruthOf, Mentions, Tally, Differences, Toggles, GoodOnes, Lists;
      var _ := PropagateSat(index);
      MovedQuietly(clauses, weights, tracked, clausesCountSatisfied, satisfied, literalToUnsat, c, p, index, c[index] - 1);
      p' := Moved(p, index, false);
      if Add(clausesCountSatisfied[index], p'.delta[index]) == 0 {
        ghost var unsat := literalToUnsat;
        RemovableNow(c, p, index);
        CountUnsat(clauses[index], true);
        p' := p'.(toggled := p.toggled + [index], sum := p.sum - weights[index], count := p.count - 1);
        MovedAcross(clauses, weights, tracked, clausesCountSatisfied, satisfied, unsat, c, p, index, 0, literalToUnsat, p');
      }
    }

    /** A literal of the clause has become true. */
    method Gain(index: nat, p: Pending, ghost c: seq<int>) returns (p': Pending)
      requires Shape() && Between(c, p) && index < |c| && index in tracked && InWord(c[index] + 1)
      modifies `clauseSatisfied, `literalToUnsat
      ensures Between(c[index := c[index] + 1], p') && |literalToUnsat| == |old(literalToUnsat)|
      ensures clauseSatisfied == old(clauseSatisfied)[index := TruthOf(clauses[index], propagated)]
    {
      hide TrueCount, TruthOf, Mentions, Tally, Differences, Toggles, GoodOnes, Lists;
      var _ := PropagateSat(index);
      MovedQuietly(clauses, weights, tracked, clausesCountSatisfied, satisfied, literalToUnsat, c, p, index, c[index] + 1);
      p' := Moved(p, index, true);
      if Add(clausesCountSatisfied[index], p'.delta[index]) == 1 {
        ghost var unsat := literalToUnsat;
        RemovableNow(c, p, index);
        CountUnsat(clauses[index], false);
        p' := p'.(toggled := p.toggled + [index], sum := p.sum + weights[index], count := p.count + 1);
        MovedAcross(clauses, weights, tracked, clausesCountSatisfied, satisfied, unsat, c, p, index, 1, literalToUnsat, p');
      }
    }

    lemma RemovableNow(c: seq<int>, p: Pending, index: nat)
      requires Between(c, p) && index < |c| && index in tracked
      ensures |weights| == |clauses| == |c|
      ensures c[index] > 0 ==> weights[index] <= p.sum && p.count > 0
      ensures c[index] == 0 ==> forall v :: 0 <= v < |literalToUnsat| ==> Mentions(clauses[index], v) <= literalToUnsat[v]
    {
      Removable(clauses, weights, GoodOnes(tracked, c), literalToUnsat, p.sum, p.count, index);
    }

    /** The clauses of a list have had their literals evaluated again. */
    ghost predicate Refreshed(before: seq<seq<bool>>, after: seq<seq<bool>>, list: seq<nat>)
      reads this
    {
      && |before| == |after| == |clauses|
      && forall i :: 0 <= i < |clauses| ==> after[i] == if i in list then TruthOf(clauses[i], propagated) else before[i]
    }

    method LoseAll(list: seq<nat>, p: Pending, ghost c: seq<int>) returns (p': Pending)
      requires Shape() && Between(c, p) && |c| == |clauses|
      requires forall m :: 0 <= m < |list| ==> list[m] < |c| && list[m] in tracked
      requires forall i :: 0 <= i < |c| ==> InWord(c[i]) && InWord(Minus(c, list)[i])
      modifies `clauseSatisfied, `literalToUnsat
      ensures Shape() && Between(Minus(c, list), p') && Refreshed(old(clauseSatisfied), clauseSatisfied, list)
    {
      hide Midway, Minus, TruthOf, Lists, InRange, SortedArgs;
      p' := p;
      NothingYet(c);
      assert list[..0] == [] && list[..|list|] == list;
      for k := 0 to |list|
        invariant Shape() && Between(Minus(c, list[..k]), p') && Refreshed(old(clauseSatisfied), clauseSatisfied, list[..k])
      {
        MinusStep(c, list, k);
        p' := Lose(list[k], p', Minus(c, list[..k]));
        assert list[..k + 1] == list[..k] + [list[k]];
      }
    }

    method GainAll(list: seq<nat>, p: Pending, ghost c: seq<int>) returns (p': Pending)
      requires Shape() && Between(c, p) && |c| == |clauses|
      requires forall m :: 0 <= m < |list| ==> list[m] < |c| && list[m] in tracked
      requires forall i :: 0 <= i < |c| ==> InWord(c[i]) && InWord(Plus(c, list)[i])
      modifies `clauseSatisfied, `literalToUnsat
      ensures Shape() && Between(Plus(c, list), p') && Refreshed(old(clauseSatisfied), clauseSatisfied, list)
    {
      hide Midway, Plus, TruthOf, Lists;
      p' := p;
      NothingYet(c);
      assert list[..0] == [] && list[..|list|] == list;
      for k := 0 to |list|
        invariant Shape() && Between(Plus(c, list[..k]), p') && Refreshed(old(clauseSatisfied), clauseSatisfied, list[..k])
      {
        PlusStep(c, list, k);
        p' := Gain(list[k], p', Plus(c, list[..k]));
        assert list[..k + 1] == list[..k] + [list[k]];
      }
    }

    /** The clauses in which the literal of `v` is false now, and those in which it is true. */
    function ToSub(v: nat): seq<nat>
      requires v < |propagated| && v < |positive| == |negative|
      reads this
    {
      if propagated[v] != 0 then negative[v] else positive[v]
    }

    function ToAdd(v: nat): seq<nat>
      requires v < |propagated| && v < |positive| == |negative|
      reads this
    {
      if propagated[v] != 0 then positive[v] else negative[v]
    }

    /** Updates the clauses that mention `v`, one of the listed variables. */
    method FlipClauses(v: nat, p: Pending, ghost c: seq<int>) returns (p': Pending)
      requires Shape() && Between(c, p) && |c| == |clauses| && v < |propagated|
      requires Bounded(c, ToSub(v), ToAdd(v))
      modifies `clauseSatisfied, `literalToUnsat
      ensures Shape() && Between(Plus(Minus(c, ToSub(v)), ToAdd(v)), p')
      ensures Refreshed(old(clauseSatisfied), clauseSatisfied, positive[v] + negative[v])
    {
      hide TruthOf, Minus, Plus, Tally, Toggles, GoodOnes;
      p' := LoseAll(ToSub(v), p, c);
      p' := GainAll(ToAdd(v), p', Minus(c, ToSub(v)));
    }

    /** Flips the listed units, each as often as it is listed. */
    method ToggleUnits(closed: seq<nat>)
      requires Defined(propagated, closed)
      modifies `propagated
      ensures propagated == Tossed(old(propagated), multiset(closed))
    {
      assert closed[..0] == [] && closed[..|closed|] == closed;
      for k := 0 to |closed|
        invariant propagated == Tossed(old(propagated), multiset(closed[..k]))
      {
        var v := closed[k];
        assert v in closed && closed[..k + 1] == closed[..k] + [v];
        propagated := propagated[v := if propagated[v] == 0 then 1 else 0];
      }
    }

    /** Writes back the counts, the sums and the toggled clauses. */
    method Commit(p: Pending, ghost c: seq<int>)
      requires Shape() && Between(c, p)
      modifies `clausesCountSatisfied, `satisfied, `satisfiedSum, `satisfiedCount, `counts
      ensures Shape() && counts == c && Words(clausesCountSatisfied, c) && satisfied == GoodOnes(tracked, c)
      ensures Tally(clauses, weights, satisfied, literalToUnsat, satisfiedSum, satisfiedCount)
    {
      hide Tally, Odd;
      for i := 0 to |clausesCountSatisfied|
        invariant |clausesCountSatisfied| == |c| && satisfied == old(satisfied)
        invariant forall j :: 0 <= j < |c| ==>
          clausesCountSatisfied[j] == if j < i then Wrap(c[j]) else old(clausesCountSatisfied[j])
      {
        clausesCountSatisfied := clausesCountSatisfied[i := Add(clausesCountSatisfied[i], p.delta[i])];
      }
      satisfiedCount, satisfiedSum, counts := p.count, p.sum, c;
      ghost var before, words := satisfied, clausesCountSatisfied;
      NothingOdd(before);
      assert p.toggled[..0] == [];
      for k := 0 to |p.toggled|
        invariant |satisfied| == |before| && clausesCountSatisfied == words && counts == c
        invariant satisfiedCount == p.count && satisfiedSum == p.sum
        invariant forall i :: 0 <= i < |before| ==> satisfied[i] == (before[i] != Odd(p.toggled[..k], i))
      {
        var index := p.toggled[k];
        assert p.toggled[..k + 1] == p.toggled[..k] + [index];
        forall i ensures Odd(p.toggled[..k + 1], i) == (Odd(p.toggled[..k], i) != (i == index)) {
          OddPush(p.toggled[..k], index, i);
        }
        satisfied := satisfied[index := !satisfied[index]];
      }
      assert p.toggled[..|p.toggled|] == p.toggled;
    }

    /** The literals of every clause are evaluated for the new units, except in clauses that mention none
        of the first flips. */
    ghost predicate Refreshing(before: seq<seq<bool>>, closed: seq<nat>)
      reads this
    {
      && |before| == |clauseSatisfied| == |clauses|
      && forall i :: 0 <= i < |clauses| && i in tracked ==>
           clauseSatisfied[i] == TruthOf(clauses[i], propagated) || (clauseSatisfied[i] == before[i] && Unmentioned(clauses[i], closed))
    }

    /** Applies a list of flips together with what the network appends to it, unless a look-up in the network
        leaves its lists. Each variable is toggled, and its clauses are counted up and down, as often as it is
        in the list. Flips of core variables keep everything right; other lists must leave the words room. */
    method ApplyFlipped(flipped: seq<nat>) returns (closed: seq<nat>, inRange: bool)
      requires Tracking() && Evaluated(net.finalized, propagated) && StrictlySorted(flipped) && Defined(propagated, flipped)
      requires (Valid() && Core(flipped))
            || Roomy(clauses, tracked, counts, multiset(Extended(net.finalized, propagated, flipped, |net.finalized|)))
      modifies this
      ensures Tracking() && Evaluated(net.finalized, propagated)
      ensures inRange <==> Reaches(net.finalized, net.literalToNodes, old(propagated), flipped, |net.finalized|)
      ensures inRange ==> Sorted(closed) && multiset(closed) == multiset(Extended(net.finalized, old(propagated), flipped, |net.finalized|))
      ensures propagated == if inRange then Tossed(old(propagated), multiset(closed)) else old(propagated)
      ensures counts == if inRange then After(clauses, tracked, old(counts), multiset(closed), propagated) else old(counts)
      ensures old(Valid()) && Core(flipped) ==>
                && Valid() && (inRange <==> InReach(net.finalized, net.literalToNodes, old(propagated), flipped))
                && propagated == (if inRange then Scratch(net.finalized, Flipped(old(propagated), flipped)) else old(propagated))
                && satisfiedSum == Score(clauses, weights, tracked, propagated)
                && (inRange ==> Closes(net.finalized, old(propagated), flipped, closed) && propagated == Flipped(old(propagated), closed))
      ensures AllListed(net.finalized, net.literalToNodes) ==> inRange
    {
      hide Tally, Counts, Lists, Midway, TruthOf, Consistent, Evaluated, Unmentioned, StrictlySorted, GoodOnes, Extended, Reaches, InReach, Words, After, Roomy, Tossed;
      ghost var units, exact := propagated, Valid() && Core(flipped);
      closed, inRange := net.ComputeFlipped(propagated, flipped);
      if !inRange {
        if exact {
          SumIsScore();
        }
        return;
      }
      ExtendedDefined(net.finalized, units, flipped, closed);
      ghost var c0 := counts;
      var p := Pending(seq(|clausesCountSatisfied|, _ => 0), [], satisfiedSum, satisfiedCount);
      WordsFit(clausesCountSatisfied, c0);
      StartMidway(clauses, weights, tracked, clausesCountSatisfied, c0, satisfied, literalToUnsat, p);
      ToggleUnits(closed);
      if exact {
        ExactSteps(units, closed, c0);
      } else {
        RoomySteps(closed, c0);
      }
      p := FlipAll(closed, p, c0);
      Commit(p, After(clauses, tracked, c0, multiset(closed), propagated));
      TossedElsewhere(units, closed);
      AllRefreshed(old(clauseSatisfied), units, closed);
      StillEvaluated(net.finalized, units, multiset(closed));
      if exact {
        ExactEnd(units, flipped, closed, c0);
        SumIsScore();
      }
    }

    /** Every step over the list leaves the words room. */
    ghost predicate AllBounded(closed: seq<nat>, c: seq<int>)
      reads this
    {
      && |positive| == |negative| == |propagated| && |c| == |clauses|
      && (forall k :: 0 <= k < |closed| ==> closed[k] < |propagated| && propagated[closed[k]] <= 1)
      && forall k :: 0 <= k < |closed| ==>
           Bounded(After(clauses, tracked, c, multiset(closed[..k]), propagated), ToSub(closed[k]), ToAdd(closed[k]))
    }

    lemma RoomySteps(closed: seq<nat>, c: seq<int>)
      requires Shape() && Roomy(clauses, tracked, c, multiset(closed)) && forall i :: 0 <= i < |c| ==> InWord(c[i])
      requires forall k :: 0 <= k < |closed| ==> closed[k] < |propagated| && propagated[closed[k]] <= 1
      ensures AllBounded(closed, c)
    {
      hide Bounded, Roomy, After, InRange, Lists;
      RoomySize(clauses, tracked, c, multiset(closed));
      forall k | 0 <= k < |closed|
        ensures Bounded(After(clauses, tracked, c, multiset(closed[..k]), propagated), ToSub(closed[k]), ToAdd(closed[k]))
      {
        var up := propagated[closed[k]] != 0;
        RoomyBounds(clauses, tracked, if up then negative else positive, if up then positive else negative, propagated, c, closed, k);
      }
    }

    lemma ExactSteps(units: seq<nat>, closed: seq<nat>, c: seq<int>)
      requires Shape() && Counts(clauses, tracked, units, c) && forall i :: 0 <= i < |c| ==> InWord(c[i])
      requires StrictlySorted(closed) && Defined(units, closed) && propagated == Tossed(units, multiset(closed))
      ensures AllBounded(closed, c)
    {
      hide Bounded, After, InRange, Lists, Counts, Tossed;
      TossedOnce(units, closed);
      CountsSize(clauses, tracked, units, c);
      FlippedBits(units, closed);
      forall k | 0 <= k < |closed|
        ensures Bounded(After(clauses, tracked, c, multiset(closed[..k]), propagated), ToSub(closed[k]), ToAdd(closed[k]))
      {
        var up := propagated[closed[k]] != 0;
        ExactBounds(clauses, tracked, if up then negative else positive, if up then positive else negative, units, c, closed, k);
      }
    }

    /** Goes through the clauses of all listed variables. */
    method FlipAll(closed: seq<nat>, p0: Pending, ghost c: seq<int>) returns (p: Pending)
      requires Shape() && Between(c, p0) && AllBounded(closed, c)
      modifies `clauseSatisfied, `literalToUnsat
      ensures Shape() && Between(After(clauses, tracked, c, multiset(closed), propagated), p)
      ensures Refreshing(old(clauseSatisfied), closed)
    {
      hide Midway, TruthOf, Unmentioned, After, Bounded, Lists, InRange;
      p := p0;
      ghost var before := clauseSatisfied;
      NothingMentioned(clauses);
      AfterNothing(clauses, tracked, c, propagated);
      assert closed[..0] == [] && closed[..|closed|] == closed;
      for k := 0 to |closed|
        invariant Shape() && AllBounded(closed, c)
        invariant Between(After(clauses, tracked, c, multiset(closed[..k]), propagated), p)
        invariant Refreshing(before, closed[..k])
      {
        ghost var now := clauseSatisfied;
        StepAfter(closed, k, c);
        p := FlipClauses(closed[k], p, After(clauses, tracked, c, multiset(closed[..k]), propagated));
        RefreshStep(before, now, closed, k);
      }
    }

    lemma StepAfter(closed: seq<nat>, k: nat, c: seq<int>)
      requires Shape() && AllBounded(closed, c) && k < |closed|
      ensures After(clauses, tracked, c, multiset(closed[..k + 1]), propagated)
           == Plus(Minus(After(clauses, tracked, c, multiset(closed[..k]), propagated), ToSub(closed[k])), ToAdd(closed[k]))
    {
      hide Bounded, After, InRange, Lists, Plus, Minus;
      var up := propagated[closed[k]] != 0;
      assert closed[..k + 1] == closed[..k] + [closed[k]];
      ListsEffect(clauses, tracked, if up then negative else positive, if up then positive else negative, propagated, c,
                  multiset(closed[..k]), closed[k]);
    }

    /** Afterwards everything is right again. */
    lemma ExactEnd(units: seq<nat>, flipped: seq<nat>, closed: seq<nat>, c: seq<int>)
      requires Counts(clauses, tracked, units, c) && StrictlySorted(closed) && Defined(units, closed)
      requires propagated == Tossed(units, multiset(closed)) && Evaluated(net.finalized, units) && Consistent(net.finalized, units, closed)
      requires counts == After(clauses, tracked, c, multiset(closed), propagated)
      requires (forall v :: v in closed && v !in flipped ==> !IsCore(net.finalized, v)) && (forall v :: v in flipped ==> v in closed)
      ensures Counts(clauses, tracked, propagated, counts) && Consistent(net.finalized, propagated, [])
      ensures propagated == Flipped(units, closed) && Closes(net.finalized, units, flipped, closed)
    {
      hide After, Tossed;
      TossedOnce(units, closed);
      assert closed[..|closed|] == closed;
      PrefixUpToDate(clauses, tracked, units, c, closed, |closed|);
      StillConsistent(net.finalized, units, closed);
    }

    lemma TossedElsewhere(units: seq<nat>, closed: seq<nat>)
      requires propagated == Tossed(units, multiset(closed))
      ensures forall v :: 0 <= v < |units| && v !in closed ==> propagated[v] == units[v]
    {
    }

    /** The kept sum is the score of the units. */
    lemma SumIsScore()
      requires Valid()
      ensures satisfiedSum == Score(clauses, weights, tracked, propagated)
    {
      assert satisfied == GoodOnes(tracked, TrueCounts(clauses, propagated));
    }

    /** The tracked clauses that mention a variable of the list. */
    ghost function Touched(closed: seq<nat>): (t: seq<bool>)
      reads this
      ensures |t| == |clauses|
    {
      seq(|clauses|, i requires 0 <= i < |clauses| => i in tracked && !Unmentioned(clauses[i], closed))
    }

    /** What the kept sum would be if the clauses touched by the list had their right values. */
    ghost function Judged(closed: seq<nat>): nat
      requires |satisfied| == |clauses| == |weights|
      reads this
    {
      WeightOf(weights, Mix(satisfied, GoodOnes(tracked, TrueCounts(clauses, Flipped(propagated, closed))), Touched(closed)), |clauses|)
    }

    /** Whether the flips of core variables would raise the sum; nothing is changed but the list, which is
        closed in place. If all that is kept is right, the sum after the flips is their score. */
    method CheckFlipped(flipped: seq<nat>) returns (better: bool, closed: seq<nat>, inRange: bool)
      requires Tracking() && Evaluated(net.finalized, propagated) && StrictlySorted(flipped) && Defined(propagated, flipped)
      requires Core(flipped)
      ensures inRange <==> Reaches(net.finalized, net.literalToNodes, propagated, flipped, |net.finalized|)
      ensures inRange ==>
                && StrictlySorted(closed) && |satisfied| == |clauses| == |weights|
                && multiset(closed) == multiset(Extended(net.finalized, propagated, flipped, |net.finalized|))
                && (better <==> Judged(closed) > satisfiedSum)
      ensures Valid() ==>
                && (inRange <==> InReach(net.finalized, net.literalToNodes, propagated, flipped))
                && (inRange ==> Closes(net.finalized, propagated, flipped, closed))
                && (inRange ==>
                      (better <==> Score(clauses, weights, tracked, Scratch(net.finalized, Flipped(propagated, flipped))) > satisfiedSum))
      ensures AllListed(net.finalized, net.literalToNodes) ==> inRange
    {
      hide Tally, Counts, Lists, Consistent, Evaluated, Unmentioned, StrictlySorted, Closes, Extended, Reaches, InReach, Words, Mixed, Touched;
      closed, inRange := net.ComputeFlipped(propagated, flipped);
      if !inRange {
        return false, closed, false;
      }
      ExtendedDefined(net.finalized, propagated, flipped, closed);
      ghost var good := GoodOnes(tracked, TrueCounts(clauses, Flipped(propagated, closed)));
      var visited := seq(|clauses|, _ => false);
      var sum: nat, count: nat := satisfiedSum, satisfiedCount;
      NothingMentioned(clauses);
      assert closed[..0] == [] && closed[..|closed|] == closed;
      MixedStart(clauses, weights, satisfied, good, literalToUnsat, sum, count);
      for k := 0 to |closed|
        invariant |visited| == |clauses| && Mixed(weights, satisfied, good, visited, sum, count)
        invariant forall i :: 0 <= i < |clauses| ==> (visited[i] <==> i in tracked && !Unmentioned(clauses[i], closed[..k]))
      {
        ghost var before := visited;
        ClosedInRange(closed, k);
        visited, sum, count := VisitAll(positive[closed[k]], closed, good, visited, sum, count);
        visited, sum, count := VisitAll(negative[closed[k]], closed, good, visited, sum, count);
        AllVisited(closed, k, before, visited);
      }
      better := sum > satisfiedSum;
      IsTouched(closed, visited);
      MixedSum(weights, satisfied, good, visited, sum, count);
      if Valid() {
        ClosesMeans(net.finalized, propagated, flipped, closed);
        NotVisited(closed, visited);
        MixedEnd(weights, satisfied, good, visited, sum, count);
      }
    }

    lemma IsTouched(closed: seq<nat>, visited: seq<bool>)
      requires |visited| == |clauses|
      requires forall i :: 0 <= i < |clauses| ==> (visited[i] <==> i in tracked && !Unmentioned(clauses[i], closed))
      ensures visited == Touched(closed)
    {
    }

    /** Judges each clause of a list once. */
    method VisitAll(list: seq<nat>, closed: seq<nat>, ghost good: seq<bool>, visited: seq<bool>, sum: nat, count: nat)
      returns (visited': seq<bool>, sum': nat, count': nat)
      requires Tracking() && StrictlySorted(closed) && Defined(propagated, closed) && |visited| == |clauses|
      requires good == GoodOnes(tracked, TrueCounts(clauses, Flipped(propagated, closed)))
      requires forall m :: 0 <= m < |list| ==> list[m] < |clauses| && list[m] in tracked
      requires Mixed(weights, satisfied, good, visited, sum, count)
      ensures |visited'| == |clauses| && Mixed(weights, satisfied, good, visited', sum', count')
      ensures forall i :: 0 <= i < |clauses| ==> (visited'[i] <==> visited[i] || i in list)
    {
      hide Tally, Counts, Lists, Mixed, StrictlySorted, Words;
      visited', sum', count' := visited, sum, count;
      for k := 0 to |list|
        invariant |visited'| == |clauses| && Mixed(weights, satisfied, good, visited', sum', count')
        invariant forall i :: 0 <= i < |clauses| ==> (visited'[i] <==> visited[i] || i in list[..k])
      {
        var index := list[k];
        assert list[..k + 1] == list[..k] + [index];
        if !visited'[index] {
          var newSatisfied := PropagateFlips(clauses[index], propagated, closed);
          MixedStep(weights, satisfied, good, visited', sum', count', index);
          visited' := visited'[index := true];
          if newSatisfied && !satisfied[index] {
            sum', count' := sum' + weights[index], count' + 1;
          } else if !newSatisfied && satisfied[index] {
            sum', count' := sum' - weights[index], count' - 1;
          }
        }
      }
      assert list[..|list|] == list;
    }

    lemma ClosedInRange(closed: seq<nat>, k: nat)
      requires Shape() && Defined(propagated, closed) && k < |closed|
      ensures closed[k] < |positive| == |negative|
      ensures forall m :: 0 <= m < |positive[closed[k]]| ==> positive[closed[k]][m] < |clauses| && positive[closed[k]][m] in tracked
      ensures forall m :: 0 <= m < |negative[closed[k]]| ==> negative[closed[k]][m] < |clauses| && negative[closed[k]][m] in tracked
    {
      assert closed[k] in closed;
    }

    lemma AllVisited(closed: seq<nat>, k: nat, before: seq<bool>, visited: seq<bool>)
      requires Lists(clauses, tracked, positive, true) && Lists(clauses, tracked, negative, false)
      requires k < |closed| && closed[k] < |positive| == |negative| && |before| == |visited| == |clauses|
      requires forall i :: 0 <= i < |clauses| ==> (before[i] <==> i in tracked && !Unmentioned(clauses[i], closed[..k]))
      requires forall i :: 0 <= i < |clauses| ==>
                 (visited[i] <==> before[i] || i in positive[closed[k]] || i in negative[closed[k]])
      ensures forall i :: 0 <= i < |clauses| ==> (visited[i] <==> i in tracked && !Unmentioned(clauses[i], closed[..k + 1]))
    {
      hide Mentions, Unmentioned;
      forall i | 0 <= i < |clauses| ensures visited[i] <==> i in tracked && !Unmentioned(clauses[i], closed[..k + 1]) {
        var v := closed[k];
        if i in tracked {
          ListedMentions(clauses, tracked, positive, negative, i, v);
          UnmentionedPush(clauses[i], closed, k);
        } else {
          assert i !in positive[v] && i !in negative[v];
        }
      }
    }

    /** A clause that was not visited is as satisfied as before. */
    lemma NotVisited(closed: seq<nat>, visited: seq<bool>)
      requires Valid() && |visited| == |clauses|
      requires forall i :: 0 <= i < |clauses| ==> (visited[i] <==> i in tracked && !Unmentioned(clauses[i], closed))
      ensures forall i :: 0 <= i < |clauses| && !visited[i] ==>
                GoodOnes(tracked, TrueCounts(clauses, Flipped(propagated, closed)))[i] == satisfied[i]
    {
      forall i | 0 <= i < |clauses| && i in tracked && !visited[i]
        ensures TrueCount(clauses[i], Flipped(propagated, closed)) == TrueCount(clauses[i], propagated)
      {
        UnmentionedTruth(clauses[i], propagated, Flipped(propagated, closed), closed);
      }
    }

    lemma RefreshStep(before: seq<seq<bool>>, now: seq<seq<bool>>, closed: seq<nat>, k: nat)
      requires Lists(clauses, tracked, positive, true) && Lists(clauses, tracked, negative, false)
      requires k < |closed| && closed[k] < |positive| == |negative|
      requires |now| == |before| == |clauses|
      requires forall i :: 0 <= i < |clauses| && i in tracked ==>
                 now[i] == TruthOf(clauses[i], propagated) || (now[i] == before[i] && Unmentioned(clauses[i], closed[..k]))
      requires Refreshed(now, clauseSatisfied, positive[closed[k]] + negative[closed[k]])
      ensures Refreshing(before, closed[..k + 1])
    {
      hide TruthOf, Mentions, Unmentioned, Lists;
      var v := closed[k];
      forall i | 0 <= i < |clauses| && i in tracked && i !in positive[v] + negative[v] && Unmentioned(clauses[i], closed[..k])
        ensures Unmentioned(clauses[i], closed[..k + 1])
      {
        ListedMentions(clauses, tracked, positive, negative, i, v);
        UnmentionedPush(clauses[i], closed, k);
      }
    }

    lemma AllRefreshed(before: seq<seq<bool>>, units: seq<nat>, closed: seq<nat>)
      requires Refreshing(before, closed) && |propagated| == |units|
      requires forall v :: 0 <= v < |units| && v !in closed ==> propagated[v] == units[v]
      requires forall i :: 0 <= i < |clauses| && i in tracked ==> before[i] == TruthOf(clauses[i], units)
      ensures forall i :: 0 <= i < |clauses| && i in tracked ==> clauseSatisfied[i] == TruthOf(clauses[i], propagated)
    {
      forall i | 0 <= i < |clauses| && i in tracked && Unmentioned(clauses[i], closed)
        ensures TruthOf(clauses[i], units) == TruthOf(clauses[i], propagated)
      {
        UnmentionedTruth(clauses[i], units, propagated, closed);
      }
    }

    /** What a round does with flips it likes: the check closes their list in place, and the closed list is
        applied. That flips the core variables and leaves all nodes as they were, while the clauses of the
        listed nodes are counted twice; so everything is right afterwards exactly if no node had to follow. */
    method CheckThenApply(flipped: seq<nat>) returns (better: bool, inRange: bool, ghost closed: seq<nat>)
      requires Valid() && StrictlySorted(flipped) && Defined(propagated, flipped) && Core(flipped)
      requires forall i :: 0 <= i < |clauses| && i in tracked ==> 3 * |clauses[i]| < MODULUS
      modifies this
      ensures inRange <==> InReach(net.finalized, net.literalToNodes, old(propagated), flipped)
      ensures inRange ==>
                && Closes(net.finalized, old(propagated), flipped, closed)
                && (better <==> Score(clauses, weights, tracked, Scratch(net.finalized, Flipped(old(propagated), flipped))) > old(satisfiedSum))
      ensures !(inRange && better) ==> Valid() && propagated == old(propagated)
      ensures inRange && better ==>
                && Tracking() && propagated == Flipped(old(propagated), flipped)
                && (forall i :: 0 <= i < |clauses| && i in tracked ==>
                      counts[i] == TrueCount(clauses[i], propagated) + 2 * Shift(clauses[i], Added(closed, flipped), propagated))
                && (Consistent(net.finalized, propagated, []) <==> forall v :: v in closed ==> IsCore(net.finalized, v))
                && (Valid() <==> forall v :: v in closed ==> IsCore(net.finalized, v))
    {
      hide Tally, Counts, Lists, TruthOf, Consistent, Evaluated, StrictlySorted, GoodOnes, Extended, Reaches, InReach, Words, After, Roomy, Tossed, Closes, Defined, Ordered;
      ghost var units, c := propagated, counts;
      var list;
      better, list, inRange := CheckFlipped(flipped);
      closed := list;
      if inRange && better {
        OnlyListed(net.finalized, net.literalToNodes, units, flipped, closed);
        ApplyClosed(flipped, list);
        DriftedCounts(clauses, tracked, units, c, flipped, Added(closed, flipped));
        FollowersMissed(net.finalized, units, flipped, closed);
        ValidAgain(units, flipped, closed);
      }
    }

    /** Applies a list that is closed already. */
    method ApplyClosed(ghost flipped: seq<nat>, closed: seq<nat>)
      requires Valid() && StrictlySorted(flipped) && Defined(propagated, flipped) && Core(flipped)
      requires Closes(net.finalized, propagated, flipped, closed)
      requires forall i :: 0 <= i < |net.finalized| && net.finalized[i].variable >= |net.literalToNodes| ==>
                 net.finalized[i].variable !in closed
      requires forall i :: 0 <= i < |clauses| && i in tracked ==> 3 * |clauses[i]| < MODULUS
      modifies this
      ensures Tracking() && Evaluated(net.finalized, propagated) && propagated == Flipped(old(propagated), flipped)
      ensures counts == After(clauses, tracked, old(counts), multiset(flipped) + Added(closed, flipped) + Added(closed, flipped), propagated)
    {
      hide Tally, Counts, Lists, TruthOf, Consistent, Evaluated, StrictlySorted, GoodOnes, Extended, Reaches, Words, After, Roomy, Tossed, Ordered, Added;
      ClosedDefined(net.finalized, propagated, flipped, closed);
      DoubledNodes(net.finalized, propagated, flipped, closed);
      ClosedTwice(net.finalized, net.literalToNodes, propagated, closed);
      RoomForTwice(clauses, tracked, propagated, counts, multiset(Extended(net.finalized, propagated, closed, |net.finalized|)));
      var _, inRange := ApplyFlipped(closed);
    }

    /** Without a node in the list nothing was counted twice. */
    lemma ValidAgain(units: seq<nat>, flipped: seq<nat>, closed: seq<nat>)
      requires Tracking() && Evaluated(net.finalized, propagated) && propagated == Flipped(units, flipped)
      requires StrictlySorted(flipped) && Closes(net.finalized, units, flipped, closed)
      requires forall i :: 0 <= i < |clauses| && i in tracked ==>
                 counts[i] == TrueCount(clauses[i], propagated) + 2 * Shift(clauses[i], Added(closed, flipped), propagated)
      requires Consistent(net.finalized, propagated, []) <==> forall v :: v in closed ==> IsCore(net.finalized, v)
      ensures Valid() <==> forall v :: v in closed ==> IsCore(net.finalized, v)
    {
      hide Tally, Lists, TruthOf, Consistent, GoodOnes, Words;
      if forall v :: v in closed ==> IsCore(net.finalized, v) {
        DistinctOnce(closed);
        DistinctOnce(flipped);
        forall v ensures Added(closed, flipped)[v] == 0 {
          assert v in closed ==> v in flipped;
        }
        assert Added(closed, flipped) == multiset{};
        forall i | 0 <= i < |clauses| && i in tracked ensures counts[i] == TrueCount(clauses[i], propagated) {
          ShiftNothing(clauses[i], propagated);
        }
      }
    }
  }

  // ---------------------------------------------------------------- a run after which the counts are wrong

  /** Node 2 repeats variable 1, and node 3 reads both. */
  ghost predicate Pair(nodes: seq<Node>) {
    && |nodes| == 2 && nodes[0].gate == AndIff == nodes[1].gate && nodes[0].variable == 2 && nodes[1].variable == 3
    && nodes[0].args == [Literal(true, 1)] && nodes[1].args == [Literal(true, 1), Literal(false, 2)]
  }

  lemma PairOrder(plan: seq<Node>, measured: seq<Node>, sorted: seq<Node>)
    requires Pair(plan) && SamePlan(measured, plan) && multiset(sorted) == multiset(measured) && Ordered(sorted)
    ensures Pair(sorted)
  {
    assert |sorted| == |multiset(sorted)| == |multiset(measured)| == 2;
    assert sorted[0] in multiset(sorted) && sorted[1] in multiset(sorted);
    assert measured[0].args == plan[0].args && measured[1].args == plan[1].args;
    assert sorted[0] in measured && sorted[1] in measured;
    assert sorted[0].variable != sorted[1].variable;
    assert measured[1].args[1].number == measured[0].variable;
  }

  /** What variable 1 says, node 2 repeats and node 3 denies. */
  lemma PairValues(nodes: seq<Node>, units: seq<nat>)
    requires Pair(nodes) && |units| == 4 && units[0] == 2 && units[1] <= 1 && Evaluated(nodes, units) && Consistent(nodes, units, [])
    ensures units == [2, units[1], units[1], 0]
  {
    assert Agrees(nodes[0], units, []) && Agrees(nodes[1], units, []);
    var l1, l2 := nodes[1].args[0], nodes[1].args[1];
    assert nodes[0].args[0] == l1 == Literal(true, 1) && l2 == Literal(false, 2);
    assert TrueLiteral(l1, units, []) <==> units[1] == 1;
    assert TrueLiteral(l2, units, []) <==> units[2] == 0;
    assert Evaluate(nodes[0], units, []) <==> TrueLiteral(l1, units, []);
    assert Evaluate(nodes[1], units, []) <==> TrueLiteral(l1, units, []) && TrueLiteral(l2, units, []);
  }

  lemma PairScratch(nodes: seq<Node>)
    requires Pair(nodes) && Ordered(nodes)
    ensures Flipped([2, 0, 0, 0], [1]) == [2, 1, 0, 0] && Scratch(nodes, [2, 1, 0, 0]) == [2, 1, 1, 0]
  {
    ScratchMeaning(nodes, [2, 1, 0, 0], 2);
    PairValues(nodes, Scratch(nodes, [2, 1, 0, 0]));
  }

  lemma PairCore(nodes: seq<Node>)
    requires Pair(nodes)
    ensures IsCore(nodes, 1)
  {
  }

  /** The lists end before node 3, which keeps its value. */
  lemma PairReach(nodes: seq<Node>, lists: seq<seq<nat>>)
    requires Pair(nodes) && Ordered(nodes) && ListsOf(nodes, lists) && Tight(nodes, lists)
    ensures InReach(nodes, lists, [2, 0, 0, 0], [1])
  {
    PairScratch(nodes);
    assert nodes[1].args[1].number < |lists|;
  }

  /** The closed list holds node 2. */
  lemma PairClosed(nodes: seq<Node>, closed: seq<nat>)
    requires Pair(nodes) && Ordered(nodes) && Closes(nodes, [2, 0, 0, 0], [1], closed) && Evaluated(nodes, [2, 0, 0, 0])
    ensures 2 in closed && !IsCore(nodes, 2)
    ensures Shift([Literal(true, 2)], Added(closed, [1]), [2, 1, 0, 0]) == -1
  {
    PairScratch(nodes);
    ClosedDefined(nodes, [2, 0, 0, 0], [1], closed);
    ClosedIsFull(nodes, [2, 0, 0, 0], [1], closed);
    assert Flipped([2, 0, 0, 0], closed)[2] == 1;
    DistinctOnce(closed);
    assert Added(closed, [1])[2] == 1;
    assert [Literal(true, 2)][..0] == [];
  }

  /** Before, no clause is true; with both variables flipped both would be. */
  lemma PairScores()
    ensures var clauses := [[Literal(true, 1)], [Literal(true, 2)]];
            && Score(clauses, [1, 1], {0, 1}, [2, 0, 0, 0]) == 0 && Score(clauses, [1, 1], {0, 1}, [2, 1, 1, 0]) == 2
            && TrueCount(clauses[1], [2, 1, 0, 0]) == 0
  {
    var clauses, a, b := [[Literal(true, 1)], [Literal(true, 2)]], [2, 0, 0, 0], [2, 1, 1, 0];
    assert !IsTrue(clauses[0][0], a) && !IsTrue(clauses[1][0], a) && IsTrue(clauses[0][0], b) && IsTrue(clauses[1][0], b);
    assert !IsTrue(clauses[1][0], [2, 1, 0, 0]);
    var good := GoodOnes({0, 1}, TrueCounts(clauses, a));
    var good' := GoodOnes({0, 1}, TrueCounts(clauses, b));
    assert good == [false, false] && good' == [true, true];
    assert WeightOf([1, 1], good, 1) == 0 && WeightOf([1, 1], good', 1) == 1;
  }

  method PairNet() returns (net: Net)
    ensures fresh(net) && net.Ready() && Pair(net.finalized) && Tight(net.finalized, net.literalToNodes)
  {
    hide Measured;
    var nodes := [Node(AndIff, 2, [Literal(true, 1)], -1), Node(AndIff, 3, [Literal(true, 1), Literal(false, 2)], -1)];
    var variableToNode := [NONE, NONE, 0, 1];
    net := new Net(nodes, variableToNode, [0, 1]);
    net.Finalize();
    ghost var measured :| Measured(measured, nodes, variableToNode, [0, 1]) && multiset(net.finalized) == multiset(measured);
    MeasuredPlan(measured, nodes, variableToNode, [0, 1]);
    PairOrder(nodes, measured, net.finalized);
  }

  lemma MeasuredPlan(measured: seq<Node>, plan: seq<Node>, variableToNode: seq<nat>, rank: seq<nat>)
    requires Measured(measured, plan, variableToNode, rank)
    ensures SamePlan(measured, plan)
  {
  }

  lemma PairUnset(nodes: seq<Node>)
    requires Pair(nodes)
    ensures PresetRight(nodes, [2, 0, 2, 2]) && IsCore(nodes, 0) && IsCore(nodes, 1)
  {
  }

  lemma PairCovered(net: Net)
    requires Pair(net.finalized)
    ensures net.Covers(4)
  {
  }

  lemma PairInput()
    ensures InRange([[Literal(true, 1)], [Literal(true, 2)]], {0, 1}, 4)
  {
  }

  method PairSolver(net: Net) returns (s: HillClimbingSolver)
    requires net.Ready() && Pair(net.finalized)
    ensures fresh(s) && s.Valid() && s.net == net && s.propagated == [2, 0, 0, 0]
    ensures s.clauses == [[Literal(true, 1)], [Literal(true, 2)]] && s.weights == [1, 1] && s.tracked == {0, 1}
  {
    hide ListsOf, Lists, Tally, GoodOnes, Words, TruthOf, Counts, Ordered, PresetRight, Scratch, Pair, Consistent, InRange;
    PairUnset(net.finalized);
    PairCovered(net);
    PairInput();
    s := new HillClimbingSolver([[Literal(true, 1)], [Literal(true, 2)]], [1, 1], {0, 1}, net, [2, 0, 2, 2]);
    PairValues(net.finalized, s.propagated);
  }

  /** Checking and applying the flip of variable 1 leaves node 2 as it was, and a clause that has no true
      literal with a count of minus two. */
  method WrongCounts() returns (s: HillClimbingSolver)
    ensures fresh(s) && s.Tracking() && !s.Valid() && s.propagated == [2, 1, 0, 0] && s.clauses == [[Literal(true, 1)], [Literal(true, 2)]]
    ensures TrueCount(s.clauses[1], s.propagated) == 0 && |s.clausesCountSatisfied| == 2 && s.clausesCountSatisfied[1] == MODULUS - 2
  {
    hide Ordered, ListsOf, Tight, Pair, Lists, Tally, GoodOnes, Consistent, Scratch, Shift, Closes, InReach, Score, Flipped, Evaluated, TruthOf, SortedArgs;
    var net := PairNet();
    s := PairSolver(net);
    PairCore(net.finalized);
    PairReach(net.finalized, net.literalToNodes);
    PairScratch(net.finalized);
    PairScores();
    s.SumIsScore();
    var better, inRange, closed := s.CheckThenApply([1]);
    PairClosed(net.finalized, closed);
  }
}
