/** What closing a list of flips in the network should give: the nodes that are appended to it. */
module Closing {
  import opened Circuit

  ghost predicate Sorted(s: seq<nat>) {
    forall i, j :: 0 <= i < j < |s| ==> s[i] <= s[j]
  }

  /** The node reads one of the flips, and under them its value is not its unit. */
  ghost predicate Pushed(n: Node, units: seq<nat>, flips: seq<nat>) {
    n.variable < |units| && !ReadsNothingOf(n, flips) && Evaluate(n, units, flips) != Bit(units[n.variable], false)
  }

  /** The list after the first `n` nodes, in the order of arrival. */
  ghost function Extended(nodes: seq<Node>, units: seq<nat>, flipped: seq<nat>, n: nat): seq<nat>
    requires n <= |nodes|
  {
    if n == 0 then flipped
    else
      var e := Extended(nodes, units, flipped, n - 1);
      if Pushed(nodes[n - 1], units, e) then e + [nodes[n - 1].variable] else e
  }

  /** Only the members of a list matter to a node. */
  lemma SameMembers(n: Node, units: seq<nat>, a: seq<nat>, b: seq<nat>)
    requires forall k :: 0 <= k < |n.args| ==> (n.args[k].number in a <==> n.args[k].number in b)
    ensures ReadsNothingOf(n, a) == ReadsNothingOf(n, b) && Evaluate(n, units, a) == Evaluate(n, units, b)
    ensures Pushed(n, units, a) == Pushed(n, units, b)
  {
    EvaluateFrame(n, units, a, units, b);
  }

  lemma ExtendedStep(nodes: seq<Node>, units: seq<nat>, flipped: seq<nat>, n: nat)
    requires n < |nodes|
    ensures var e := Extended(nodes, units, flipped, n);
            Extended(nodes, units, flipped, n + 1) == if Pushed(nodes[n], units, e) then e + [nodes[n].variable] else e
  {
  }

  /** Judging a node by a later list gives the same. */
  lemma {:induction false} PushedStays(nodes: seq<Node>, units: seq<nat>, flipped: seq<nat>, i: nat, n: nat)
    requires Ordered(nodes) && i < n <= |nodes|
    ensures Pushed(nodes[i], units, Extended(nodes, units, flipped, n)) == Pushed(nodes[i], units, Extended(nodes, units, flipped, i))
  {
    hide Pushed, Extended;
    if i + 1 < n {
      PushedStays(nodes, units, flipped, i, n - 1);
    }
    ExtendedStep(nodes, units, flipped, n - 1);
    SameMembers(nodes[i], units, Extended(nodes, units, flipped, n), Extended(nodes, units, flipped, n - 1));
  }

  lemma {:induction false} UntouchedCount(nodes: seq<Node>, units: seq<nat>, flipped: seq<nat>, v: nat, n: nat)
    requires n <= |nodes| && forall i :: 0 <= i < n ==> nodes[i].variable != v
    ensures multiset(Extended(nodes, units, flipped, n))[v] == multiset(flipped)[v]
  {
    hide Pushed;
    if n > 0 {
      UntouchedCount(nodes, units, flipped, v, n - 1);
    }
  }

  /** Each node is appended at most once. */
  lemma {:induction false} ExtendedCount(nodes: seq<Node>, units: seq<nat>, flipped: seq<nat>, i: nat, n: nat)
    requires Ordered(nodes) && i < n <= |nodes|
    ensures multiset(Extended(nodes, units, flipped, n))[nodes[i].variable]
         == multiset(flipped)[nodes[i].variable] + if Pushed(nodes[i], units, Extended(nodes, units, flipped, i)) then 1 else 0
  {
    hide Pushed, Extended;
    ExtendedStep(nodes, units, flipped, n - 1);
    if i + 1 < n {
      ExtendedCount(nodes, units, flipped, i, n - 1);
    } else {
      UntouchedCount(nodes, units, flipped, nodes[i].variable, i);
    }
  }

  // ---------------------------------------------------------------- flips of core variables

  /** The units agree with the gates, and no node is in the list. */
  ghost predicate Plain(nodes: seq<Node>, units: seq<nat>, flipped: seq<nat>) {
    Consistent(nodes, units, []) && forall k :: 0 <= k < |flipped| ==> IsCore(nodes, flipped[k])
  }

  /** The nodes dealt with agree with their gates under the flips, and the others are not in the list. */
  lemma {:induction false} PlainAgrees(nodes: seq<Node>, units: seq<nat>, flipped: seq<nat>, n: nat)
    requires Ordered(nodes) && Evaluated(nodes, units) && Plain(nodes, units, flipped) && n <= |nodes|
    ensures var e := Extended(nodes, units, flipped, n);
            && (forall i :: 0 <= i < n ==> Agrees(nodes[i], units, e))
            && (forall i :: n <= i < |nodes| ==> nodes[i].variable !in e)
            && (forall v :: v in e ==> v in flipped || !IsCore(nodes, v))
            && (forall v :: v in flipped ==> v in e)
  {
    if n > 0 {
      PlainAgrees(nodes, units, flipped, n - 1);
      var before, e, node := Extended(nodes, units, flipped, n - 1), Extended(nodes, units, flipped, n), nodes[n - 1];
      forall i | 0 <= i < n ensures Agrees(nodes[i], units, e) {
        SameMembers(nodes[i], units, e, before);
        if i == n - 1 {
          assert Agrees(node, units, []);
          if ReadsNothingOf(node, before) {
            SameMembers(node, units, before, []);
          }
        }
      }
    }
  }

  /** The flips follow the evaluation from scratch node by node. */
  lemma {:induction false} PlainScratch(nodes: seq<Node>, units: seq<nat>, flipped: seq<nat>, n: nat)
    requires Ordered(nodes) && Evaluated(nodes, units) && Plain(nodes, units, flipped) && n <= |nodes| && Defined(units, flipped)
    ensures var e := Extended(nodes, units, flipped, n);
            Defined(units, e) && Flipped(units, e) == ScratchTo(nodes, Flipped(units, flipped), n)
  {
    if n > 0 {
      PlainScratch(nodes, units, flipped, n - 1);
      PlainAgrees(nodes, units, flipped, n - 1);
      PlainAgrees(nodes, units, flipped, n);
      var before, e, node := Extended(nodes, units, flipped, n - 1), Extended(nodes, units, flipped, n), nodes[n - 1];
      var start := Flipped(units, flipped);
      assert Agrees(node, units, e) && Agrees(node, units, []);
      SameMembers(node, units, before, e);
      FlippedMeaning(node, units, before);
      forall v | 0 <= v < |units| ensures Flipped(units, e)[v] == ScratchTo(nodes, start, n)[v] {
        if v != node.variable {
          assert v in e <==> v in before;
        }
      }
    }
  }

  /** A node is appended exactly if it has another value from scratch. */
  lemma PushedScratch(nodes: seq<Node>, units: seq<nat>, flipped: seq<nat>, i: nat)
    requires Ordered(nodes) && Evaluated(nodes, units) && Plain(nodes, units, flipped) && Defined(units, flipped) && i < |nodes|
    ensures nodes[i].variable < |units|
    ensures Pushed(nodes[i], units, Extended(nodes, units, flipped, i)) <==>
              Scratch(nodes, Flipped(units, flipped))[nodes[i].variable] != units[nodes[i].variable]
  {
    var v := nodes[i].variable;
    assert Agrees(nodes[i], units, []);
    PlainScratch(nodes, units, flipped, i + 1);
    PlainAgrees(nodes, units, flipped, i);
    ScratchStays(nodes, Flipped(units, flipped), i, |nodes|);
    assert v !in Extended(nodes, units, flipped, i);
  }

  lemma SortedDistinct(s: seq<nat>)
    requires Sorted(s) && forall v :: multiset(s)[v] <= 1
    ensures StrictlySorted(s)
  {
    forall i, j | 0 <= i < j < |s| ensures s[i] < s[j] {
      if s[i] == s[j] {
        Twice(s, i, j);
        assert false;
      }
    }
  }

  lemma DistinctOnce(s: seq<nat>)
    requires StrictlySorted(s)
    ensures forall v :: multiset(s)[v] == if v in s then 1 else 0
  {
    if s != [] {
      var front := s[..|s| - 1];
      DistinctOnce(front);
      assert s == front + [s[|s| - 1]];
    }
  }

  /** A list without nodes stays free of repetitions, whatever the units. */
  lemma CoreStrict(nodes: seq<Node>, units: seq<nat>, flipped: seq<nat>, closed: seq<nat>)
    requires Ordered(nodes) && StrictlySorted(flipped) && forall k :: 0 <= k < |flipped| ==> IsCore(nodes, flipped[k])
    requires Sorted(closed) && multiset(closed) == multiset(Extended(nodes, units, flipped, |nodes|))
    ensures StrictlySorted(closed)
  {
    DistinctOnce(flipped);
    var e := Extended(nodes, units, flipped, |nodes|);
    forall v ensures multiset(e)[v] <= 1 {
      if i :| 0 <= i < |nodes| && nodes[i].variable == v {
        ExtendedCount(nodes, units, flipped, i, |nodes|);
        assert v !in flipped;
      } else {
        UntouchedCount(nodes, units, flipped, v, |nodes|);
      }
    }
    SortedDistinct(closed);
  }

  lemma SameElements(a: seq<nat>, b: seq<nat>)
    requires multiset(a) == multiset(b)
    ensures forall v :: v in a <==> v in b
  {
    assert forall v :: v in a <==> v in multiset(a);
    assert forall v :: v in b <==> v in multiset(b);
  }

  // ---------------------------------------------------------------- lists that are closed already

  lemma ClosedPush(node: Node, units: seq<nat>, closed: seq<nat>)
    requires Agrees(node, units, []) && Agrees(node, units, closed) && units[node.variable] <= 1
    ensures Pushed(node, units, closed) <==> node.variable in closed
  {
    if ReadsNothingOf(node, closed) {
      SameMembers(node, units, closed, []);
    }
  }

  /** Closing a closed list appends exactly the nodes that it holds, once more. */
  lemma {:induction false} ClosedAgain(nodes: seq<Node>, units: seq<nat>, closed: seq<nat>, i: nat)
    requires Ordered(nodes) && Evaluated(nodes, units) && i < |nodes|
    requires Consistent(nodes, units, []) && Consistent(nodes, units, closed)
    ensures Pushed(nodes[i], units, Extended(nodes, units, closed, i)) <==> nodes[i].variable in closed
    decreases i, 1
  {
    SameAgain(nodes, units, closed, i);
    SameMembers(nodes[i], units, Extended(nodes, units, closed, i), closed);
    assert Agrees(nodes[i], units, []) && Agrees(nodes[i], units, closed);
    ClosedPush(nodes[i], units, closed);
  }

  lemma {:induction false} SameAgain(nodes: seq<Node>, units: seq<nat>, closed: seq<nat>, n: nat)
    requires Ordered(nodes) && Evaluated(nodes, units) && n <= |nodes|
    requires Consistent(nodes, units, []) && Consistent(nodes, units, closed)
    ensures forall v :: v in Extended(nodes, units, closed, n) <==> v in closed
    decreases n, 0
  {
    hide Pushed, Extended, Ordered, Agrees;
    if n > 0 {
      SameAgain(nodes, units, closed, n - 1);
      ClosedAgain(nodes, units, closed, n - 1);
      ExtendedStep(nodes, units, closed, n - 1);
    } else {
      ExtendedNothing(nodes, units, closed);
    }
  }

  lemma ExtendedNothing(nodes: seq<Node>, units: seq<nat>, flipped: seq<nat>)
    ensures Extended(nodes, units, flipped, 0) == flipped
  {
  }
}
