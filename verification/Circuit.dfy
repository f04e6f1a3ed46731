/** The circuit that derives the values of auxiliary variables from those of the core variables. */
module Circuit {

  datatype Literal = Literal(value: bool, number: nat)

  datatype Gate = Value(value: bool) | AndIff | OrIff

  /** `depth` is -1 until the network is finalized; a value node has depth 0 from the start. */
  datatype Node = Node(gate: Gate, variable: nat, args: seq<Literal>, depth: int)

  // ---------------------------------------------------------------- values

  /** The truth value of a unit (0 false, 1 true, 2 undefined) that is perhaps flipped. */
  predicate Bit(unit: nat, isFlipped: bool) {
    if unit == 0 then isFlipped else unit != 1 || !isFlipped
  }

  ghost predicate TrueLiteral(l: Literal, units: seq<nat>, flipped: seq<nat>) {
    l.number < |units| && Bit(units[l.number], l.number in flipped) == l.value
  }

  /** The value a node should have. */
  ghost predicate Evaluate(n: Node, units: seq<nat>, flipped: seq<nat>) {
    match n.gate
    case Value(value) => value
    case AndIff => forall k :: 0 <= k < |n.args| ==> TrueLiteral(n.args[k], units, flipped)
    case OrIff => exists k :: 0 <= k < |n.args| && TrueLiteral(n.args[k], units, flipped)
  }

  ghost predicate Agrees(n: Node, units: seq<nat>, flipped: seq<nat>) {
    n.variable < |units| && Bit(units[n.variable], n.variable in flipped) == Evaluate(n, units, flipped)
  }

  /** Every node has the value of its gate. */
  ghost predicate Consistent(nodes: seq<Node>, units: seq<nat>, flipped: seq<nat>) {
    forall i :: 0 <= i < |nodes| ==> Agrees(nodes[i], units, flipped)
  }

  /** The nodes have been evaluated; other variables may be undefined. */
  ghost predicate Evaluated(nodes: seq<Node>, units: seq<nat>) {
    forall i :: 0 <= i < |nodes| && nodes[i].variable < |units| ==> units[nodes[i].variable] <= 1
  }

  ghost predicate Defined(units: seq<nat>, variables: seq<nat>) {
    forall v :: v in variables ==> v < |units| && units[v] <= 1
  }

  ghost predicate StrictlySorted(s: seq<nat>) {
    forall i, j :: 0 <= i < j < |s| ==> s[i] < s[j]
  }

  ghost predicate SortedArgs(args: seq<Literal>) {
    forall i, j :: 0 <= i < j < |args| ==> args[i].number <= args[j].number
  }

  /** The units after the flips. */
  ghost function Flipped(units: seq<nat>, flipped: seq<nat>): (r: seq<nat>)
    ensures |r| == |units|
  {
    seq(|units|, v requires 0 <= v < |units| => if v in flipped then (if units[v] == 0 then 1 else 0) else units[v])
  }

  ghost predicate ReadsNothingOf(n: Node, flipped: seq<nat>) {
    forall k :: 0 <= k < |n.args| ==> n.args[k].number !in flipped
  }

  lemma EvaluateFrame(n: Node, units: seq<nat>, flipped: seq<nat>, units': seq<nat>, flipped': seq<nat>)
    requires forall k :: 0 <= k < |n.args| ==> TrueLiteral(n.args[k], units, flipped) == TrueLiteral(n.args[k], units', flipped')
    ensures Evaluate(n, units, flipped) == Evaluate(n, units', flipped')
  {
  }

  /** Reading through the flips is reading the flipped units. */
  lemma FlippedMeaning(n: Node, units: seq<nat>, flipped: seq<nat>)
    requires Defined(units, flipped)
    ensures Evaluate(n, Flipped(units, flipped), []) == Evaluate(n, units, flipped)
    ensures Agrees(n, Flipped(units, flipped), []) == Agrees(n, units, flipped)
  {
    EvaluateFrame(n, Flipped(units, flipped), [], units, flipped);
  }

  // ---------------------------------------------------------------- order

  /** No node reads a variable that a later node, or the node itself, defines. */
  ghost predicate Ordered(nodes: seq<Node>) {
    && (forall i, j, k :: 0 <= i <= j < |nodes| && 0 <= k < |nodes[i].args| ==> nodes[i].args[k].number != nodes[j].variable)
    && (forall i, j :: 0 <= i < j < |nodes| ==> nodes[i].variable != nodes[j].variable)
  }

  ghost predicate IsCore(nodes: seq<Node>, v: nat) {
    forall i :: 0 <= i < |nodes| ==> nodes[i].variable != v
  }

  /** Two consistent assignments that agree on the core variables agree everywhere, so the values of a
      finalized network are a function of its inputs. */
  lemma {:induction false} UniqueValues(nodes: seq<Node>, a: seq<nat>, b: seq<nat>, n: nat)
    requires Ordered(nodes) && n <= |nodes| && |a| == |b| && Evaluated(nodes, a) && Evaluated(nodes, b)
    requires Consistent(nodes, a, []) && Consistent(nodes, b, [])
    requires forall v :: 0 <= v < |a| && IsCore(nodes, v) ==> a[v] == b[v]
    ensures forall i :: 0 <= i < n ==> nodes[i].variable < |a| && a[nodes[i].variable] == b[nodes[i].variable]
  {
    if n > 0 {
      UniqueValues(nodes, a, b, n - 1);
      var node := nodes[n - 1];
      forall k | 0 <= k < |node.args| ensures TrueLiteral(node.args[k], a, []) == TrueLiteral(node.args[k], b, []) {
        var v := node.args[k].number;
        if v < |a| && !IsCore(nodes, v) {
          var i :| 0 <= i < |nodes| && nodes[i].variable == v;
          assert i < n - 1;
        }
      }
      EvaluateFrame(node, a, [], b, []);
      assert Agrees(node, a, []) && Agrees(node, b, []);
    }
  }

  lemma SameEverywhere(nodes: seq<Node>, a: seq<nat>, b: seq<nat>)
    requires Ordered(nodes) && |a| == |b| && Evaluated(nodes, a) && Evaluated(nodes, b)
    requires Consistent(nodes, a, []) && Consistent(nodes, b, [])
    requires forall v :: 0 <= v < |a| && IsCore(nodes, v) ==> a[v] == b[v]
    ensures a == b
  {
    UniqueValues(nodes, a, b, |nodes|);
    forall v | 0 <= v < |a| ensures a[v] == b[v] {
      if !IsCore(nodes, v) {
        var i :| 0 <= i < |nodes| && nodes[i].variable == v;
      }
    }
  }

  // ---------------------------------------------------------------- evaluation from scratch

  /** The units after the first `n` nodes have been evaluated one after the other. */
  ghost function ScratchTo(nodes: seq<Node>, units: seq<nat>, n: nat): (r: seq<nat>)
    requires n <= |nodes|
    ensures |r| == |units|
  {
    if n == 0 then units
    else
      var r, node := ScratchTo(nodes, units, n - 1), nodes[n - 1];
      if node.variable < |r| then r[node.variable := if Evaluate(node, r, []) then 1 else 0] else r
  }

  ghost function Scratch(nodes: seq<Node>, units: seq<nat>): (r: seq<nat>)
    ensures |r| == |units|
  {
    ScratchTo(nodes, units, |nodes|)
  }

  /** Evaluating in order makes every node agree with its gate and touches no other variable. */
  lemma {:induction false} ScratchMeaning(nodes: seq<Node>, units: seq<nat>, n: nat)
    requires Ordered(nodes) && n <= |nodes| && forall i :: 0 <= i < |nodes| ==> nodes[i].variable < |units|
    ensures var r := ScratchTo(nodes, units, n);
            && (forall i :: 0 <= i < n ==> r[nodes[i].variable] <= 1 && Agrees(nodes[i], r, []))
            && (forall v :: 0 <= v < |units| && (forall i :: 0 <= i < n ==> nodes[i].variable != v) ==> r[v] == units[v])
  {
    if n > 0 {
      ScratchMeaning(nodes, units, n - 1);
      var r, r' := ScratchTo(nodes, units, n - 1), ScratchTo(nodes, units, n);
      forall i | 0 <= i < n ensures Evaluate(nodes[i], r', []) == Evaluate(nodes[i], r, []) {
        EvaluateFrame(nodes[i], r, [], r', []);
      }
    }
  }

  /** A node keeps the value it got. */
  lemma {:induction false} ScratchStays(nodes: seq<Node>, units: seq<nat>, i: nat, n: nat)
    requires Ordered(nodes) && i < n <= |nodes| && nodes[i].variable < |units|
    ensures ScratchTo(nodes, units, n)[nodes[i].variable] == ScratchTo(nodes, units, i + 1)[nodes[i].variable]
  {
    if i + 1 < n {
      ScratchStays(nodes, units, i, n - 1);
    }
  }

  /** Any consistent units are the ones found from scratch. */
  lemma ScratchUnique(nodes: seq<Node>, units: seq<nat>, full: seq<nat>)
    requires Ordered(nodes) && |full| == |units| && forall i :: 0 <= i < |nodes| ==> nodes[i].variable < |units|
    requires Evaluated(nodes, full) && Consistent(nodes, full, [])
    requires forall v :: 0 <= v < |units| && IsCore(nodes, v) ==> full[v] == units[v]
    ensures full == Scratch(nodes, units)
  {
    ScratchMeaning(nodes, units, |nodes|);
    SameEverywhere(nodes, full, Scratch(nodes, units));
  }

  // ---------------------------------------------------------------- depth

  const NONE: nat := 0xFFFF_FFFF

  /** The node table: at most one node per variable, found through `variableToNode`. */
  ghost predicate Table(nodes: seq<Node>, variableToNode: seq<nat>) {
    && |nodes| < NONE
    && (forall i :: 0 <= i < |nodes| ==>
          nodes[i].variable < |variableToNode| && variableToNode[nodes[i].variable] == i)
    && (forall v :: 0 <= v < |variableToNode| && variableToNode[v] != NONE ==>
          variableToNode[v] < |nodes| && nodes[variableToNode[v]].variable == v)
    && (forall i, k :: 0 <= i < |nodes| && 0 <= k < |nodes[i].args| ==> nodes[i].args[k].number < |variableToNode|)
    && (forall i :: 0 <= i < |nodes| && nodes[i].gate.Value? ==> nodes[i].args == [])
  }

  /** The network has no cycle: the nodes a node reads have a lower rank. */
  ghost predicate Acyclic(nodes: seq<Node>, variableToNode: seq<nat>, rank: seq<nat>) {
    && Table(nodes, variableToNode) && |rank| == |nodes|
    && forall i, k :: 0 <= i < |nodes| && 0 <= k < |nodes[i].args| ==>
         var j := variableToNode[nodes[i].args[k].number];
         j == NONE || rank[j] < rank[i]
  }

  /** The length of the longest path that ends in node `i`. */
  ghost function DepthOf(nodes: seq<Node>, variableToNode: seq<nat>, rank: seq<nat>, i: nat): (d: nat)
    requires Acyclic(nodes, variableToNode, rank) && i < |nodes|
    ensures !nodes[i].gate.Value? ==>
      forall k :: 0 <= k < |nodes[i].args| ==> d > ArgDepth(nodes, variableToNode, rank, i, k)
    decreases rank[i], 1, 0
  {
    if nodes[i].gate.Value? then 0 else 1 + MaxDepth(nodes, variableToNode, rank, i, |nodes[i].args|)
  }

  ghost function ArgDepth(nodes: seq<Node>, variableToNode: seq<nat>, rank: seq<nat>, i: nat, k: nat): nat
    requires Acyclic(nodes, variableToNode, rank) && i < |nodes| && k < |nodes[i].args|
    decreases rank[i], 0, 0
  {
    var j := variableToNode[nodes[i].args[k].number];
    if j == NONE then 0 else DepthOf(nodes, variableToNode, rank, j)
  }

  ghost function MaxDepth(nodes: seq<Node>, variableToNode: seq<nat>, rank: seq<nat>, i: nat, n: nat): (d: nat)
    requires Acyclic(nodes, variableToNode, rank) && i < |nodes| && n <= |nodes[i].args|
    ensures forall k :: 0 <= k < n ==> d >= ArgDepth(nodes, variableToNode, rank, i, k)
    decreases rank[i], 0, n + 1
  {
    if n == 0 then 0 else
      var d, e := MaxDepth(nodes, variableToNode, rank, i, n - 1), ArgDepth(nodes, variableToNode, rank, i, n - 1);
      if e > d then e else d
  }

  /** `a` is `b` but for the depths. */
  ghost predicate SamePlan(a: seq<Node>, b: seq<Node>) {
    |a| == |b| && forall i :: 0 <= i < |a| ==> a[i] == b[i].(depth := a[i].depth)
  }

  /** All depths are the true ones. */
  ghost predicate Measured(nodes: seq<Node>, plan: seq<Node>, variableToNode: seq<nat>, rank: seq<nat>) {
    && Acyclic(plan, variableToNode, rank) && SamePlan(nodes, plan)
    && forall i :: 0 <= i < |nodes| ==> nodes[i].depth == DepthOf(plan, variableToNode, rank, i)
  }

  /** Nodes rearranged in order of depth are in a topological order. */
  lemma DepthOrders(nodes: seq<Node>, plan: seq<Node>, variableToNode: seq<nat>, rank: seq<nat>, sorted: seq<Node>)
    requires Measured(nodes, plan, variableToNode, rank) && multiset(sorted) == multiset(nodes)
    requires forall i, j :: 0 <= i < j < |sorted| ==> sorted[i].depth <= sorted[j].depth
    ensures Ordered(sorted)
  {
    forall i, j, k | 0 <= i <= j < |sorted| && 0 <= k < |sorted[i].args| ensures sorted[i].args[k].number != sorted[j].variable {
      var p := IndexIn(nodes, sorted, i);
      var q := IndexIn(nodes, sorted, j);
      assert plan[p].args == sorted[i].args && !plan[p].gate.Value?;
      assert sorted[i].depth > ArgDepth(plan, variableToNode, rank, p, k);
    }
    forall i, j | 0 <= i < j < |sorted| ensures sorted[i].variable != sorted[j].variable {
      var p := IndexIn(nodes, sorted, i);
      var q := IndexIn(nodes, sorted, j);
      if sorted[i].variable == sorted[j].variable {
        assert p == q by { assert variableToNode[plan[p].variable] == p && variableToNode[plan[q].variable] == q; }
        Twice(sorted, i, j);
        OnlyOnce(nodes, p);
        assert false;
      }
    }
  }

  lemma IndexIn(nodes: seq<Node>, sorted: seq<Node>, i: nat) returns (p: nat)
    requires multiset(sorted) == multiset(nodes) && i < |sorted|
    ensures p < |nodes| && nodes[p] == sorted[i]
  {
    assert sorted[i] in multiset(sorted);
    assert sorted[i] in nodes;
    p :| 0 <= p < |nodes| && nodes[p] == sorted[i];
  }

  lemma Twice<T>(s: seq<T>, i: nat, j: nat)
    requires i < j < |s| && s[i] == s[j]
    ensures multiset(s)[s[i]] >= 2
  {
    assert s == s[..j] + s[j..];
    assert s[i] in s[..j] && s[j] in s[j..];
    assert multiset(s[..j])[s[i]] >= 1 && multiset(s[j..])[s[i]] >= 1;
  }

  lemma OnlyOnce(nodes: seq<Node>, p: nat)
    requires p < |nodes| && forall i :: 0 <= i < |nodes| && i != p ==> nodes[i] != nodes[p]
    ensures multiset(nodes)[nodes[p]] == 1
  {
    assert nodes == nodes[..p] + [nodes[p]] + nodes[p + 1..];
    assert nodes[p] !in nodes[..p] && nodes[p] !in nodes[p + 1..];
  }
}
