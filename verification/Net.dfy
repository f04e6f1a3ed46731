/** The network: put in order once, then evaluated from scratch or from a list of flips. */
module CircuitNet {
  import opened Circuit
  import opened Closing
  import Sorting

  // ---------------------------------------------------------------- one node

  /** Moves the cursor to the first flip that is not below `number`. */
  method Seek(flipped: seq<nat>, start: nat, number: nat) returns (i: nat, isFlipped: bool)
    requires Sorted(flipped) && start <= |flipped| && forall j :: 0 <= j < start ==> flipped[j] < number
    ensures i <= |flipped| && (forall j :: 0 <= j < i ==> flipped[j] < number)
    ensures isFlipped <==> number in flipped
  {
    i := start;
    while i < |flipped| && flipped[i] < number
      invariant start <= i <= |flipped| && forall j :: 0 <= j < i ==> flipped[j] < number
    {
      i := i + 1;
    }
    isFlipped := i != |flipped| && flipped[i] == number;
  }

  method PropagateAnd(args: seq<Literal>, units: seq<nat>, flipped: seq<nat>) returns (value: bool)
    requires SortedArgs(args) && Sorted(flipped) && forall k :: 0 <= k < |args| ==> args[k].number < |units|
    ensures value <==> forall k :: 0 <= k < |args| ==> TrueLiteral(args[k], units, flipped)
  {
    var i: nat := 0;
    for k := 0 to |args|
      invariant i <= |flipped| && forall j :: 0 <= j < i ==> k > 0 && flipped[j] < args[k - 1].number
      invariant forall m :: 0 <= m < k ==> TrueLiteral(args[m], units, flipped)
    {
      var isFlipped;
      i, isFlipped := Seek(flipped, i, args[k].number);
      if Bit(units[args[k].number], isFlipped) != args[k].value {
        assert !TrueLiteral(args[k], units, flipped);
        return false;
      }
    }
    return true;
  }

  method PropagateOr(args: seq<Literal>, units: seq<nat>, flipped: seq<nat>) returns (value: bool)
    requires SortedArgs(args) && Sorted(flipped) && forall k :: 0 <= k < |args| ==> args[k].number < |units|
    ensures value <==> exists k :: 0 <= k < |args| && TrueLiteral(args[k], units, flipped)
  {
    var i: nat := 0;
    for k := 0 to |args|
      invariant i <= |flipped| && forall j :: 0 <= j < i ==> k > 0 && flipped[j] < args[k - 1].number
      invariant forall m :: 0 <= m < k ==> !TrueLiteral(args[m], units, flipped)
    {
      var isFlipped;
      i, isFlipped := Seek(flipped, i, args[k].number);
      if Bit(units[args[k].number], isFlipped) == args[k].value {
        assert TrueLiteral(args[k], units, flipped);
        return true;
      }
    }
    return false;
  }

  method Propagate(node: Node, units: seq<nat>, flipped: seq<nat>) returns (value: bool)
    requires SortedArgs(node.args) && Sorted(flipped)
    requires forall k :: 0 <= k < |node.args| ==> node.args[k].number < |units|
    ensures value == Evaluate(node, units, flipped)
  {
    match node.gate {
      case Value(v) => value := v;
      case AndIff => value := PropagateAnd(node.args, units, flipped);
      case OrIff => value := PropagateOr(node.args, units, flipped);
    }
  }

  // ---------------------------------------------------------------- or of and

  ghost predicate GroupHolds(group: seq<Literal>, units: seq<nat>, flipped: seq<nat>) {
    forall k :: 0 <= k < |group| ==> TrueLiteral(group[k], units, flipped)
  }

  ghost predicate SomeGroupHolds(groups: seq<seq<Literal>>, units: seq<nat>, flipped: seq<nat>) {
    exists g :: 0 <= g < |groups| && GroupHolds(groups[g], units, flipped)
  }

  ghost predicate NoneRead(groups: seq<seq<Literal>>, flips: seq<nat>) {
    forall g, k :: 0 <= g < |groups| && 0 <= k < |groups[g]| ==> groups[g][k].number !in flips
  }

  ghost function First(flipped: seq<nat>): (f: seq<nat>) {
    if flipped == [] then [] else flipped[..1]
  }

  ghost function Rest(flipped: seq<nat>): (f: seq<nat>) {
    if flipped == [] then [] else flipped[1..]
  }

  /** The cursor is never moved, so of all flips only the first is seen. */
  method PropagateOrAnd(groups: seq<seq<Literal>>, units: seq<nat>, flipped: seq<nat>) returns (value: bool)
    requires forall g, k :: 0 <= g < |groups| && 0 <= k < |groups[g]| ==> groups[g][k].number < |units|
    ensures value <==> SomeGroupHolds(groups, units, First(flipped))
  {
    for g := 0 to |groups|
      invariant forall m :: 0 <= m < g ==> !GroupHolds(groups[m], units, First(flipped))
    {
      var flag := true;
      var i, k := 0, 0;
      while k < |groups[g]| && flag
        invariant k <= |groups[g]|
        invariant flag ==> forall m :: 0 <= m < k ==> TrueLiteral(groups[g][m], units, First(flipped))
        invariant !flag ==> !GroupHolds(groups[g], units, First(flipped))
      {
        var arg := groups[g][k];
        var isFlipped := i != |flipped| && flipped[i] == arg.number;
        if Bit(units[arg.number], isFlipped) != arg.value {
          assert !TrueLiteral(groups[g][k], units, First(flipped));
          flag := false;
        }
        k := k + 1;
      }
      if flag {
        assert GroupHolds(groups[g], units, First(flipped));
        return true;
      }
    }
    return false;
  }

  /** Seeing the first flip only does no harm when the node reads no other. */
  lemma OrAndFollows(groups: seq<seq<Literal>>, units: seq<nat>, flipped: seq<nat>)
    requires NoneRead(groups, Rest(flipped))
    ensures SomeGroupHolds(groups, units, First(flipped)) == SomeGroupHolds(groups, units, flipped)
  {
    if flipped != [] {
      assert flipped == flipped[..1] + flipped[1..];
    }
    forall g | 0 <= g < |groups|
      ensures GroupHolds(groups[g], units, First(flipped)) == GroupHolds(groups[g], units, flipped)
    {
      forall k | 0 <= k < |groups[g]|
        ensures TrueLiteral(groups[g][k], units, First(flipped)) == TrueLiteral(groups[g][k], units, flipped)
      {
      }
    }
  }

  /** No variable is read twice by the node. */
  ghost predicate ReadOnce(groups: seq<seq<Literal>>) {
    forall g, k, h, j :: 0 <= g < |groups| && 0 <= k < |groups[g]| && 0 <= h < |groups| && 0 <= j < |groups[h]| ==>
      groups[g][k].number == groups[h][j].number ==> g == h && k == j
  }

  ghost predicate ReadsBelow(groups: seq<seq<Literal>>, n: nat) {
    forall g, k :: 0 <= g < |groups| && 0 <= k < |groups[g]| ==> groups[g][k].number < n
  }

  /** Seeing the first flip only makes no difference on any units. */
  ghost predicate FollowsAlways(groups: seq<seq<Literal>>, flipped: seq<nat>, n: nat) {
    forall units: seq<nat> :: |units| == n && (forall v :: 0 <= v < n ==> units[v] <= 1) ==>
      SomeGroupHolds(groups, units, First(flipped)) == SomeGroupHolds(groups, units, flipped)
  }

  /** Units under which group `g` holds after the first flip, and no other group after all of them. */
  ghost function Separating(groups: seq<seq<Literal>>, g: nat, flipped: seq<nat>, n: nat): (units: seq<nat>)
    requires ReadOnce(groups) && ReadsBelow(groups, n) && g < |groups| && [] !in groups
    ensures |units| == n && (forall v :: 0 <= v < n ==> units[v] <= 1) && GroupHolds(groups[g], units, First(flipped))
    ensures forall h :: 0 <= h < |groups| && h != g ==> !GroupHolds(groups[h], units, flipped)
  {
    var units := seq(n, v requires 0 <= v < n =>
      if || (exists k :: 0 <= k < |groups[g]| && groups[g][k].number == v && groups[g][k].value != (v in First(flipped)))
         || (exists h :: 0 <= h < |groups| && h != g && groups[h] != [] && groups[h][0].number == v &&
               groups[h][0].value == (v in flipped))
      then 1 else 0);
    assert forall h :: 0 <= h < |groups| && h != g ==> groups[h] != [] && !TrueLiteral(groups[h][0], units, flipped);
    units
  }

  /** A node that reads no variable twice follows the flips on all units exactly if it reads none of them
      but the first, or has an empty group and so is always true. */
  lemma OrAndExact(groups: seq<seq<Literal>>, flipped: seq<nat>, n: nat)
    requires StrictlySorted(flipped) && ReadOnce(groups) && ReadsBelow(groups, n)
    ensures FollowsAlways(groups, flipped, n) <==> NoneRead(groups, Rest(flipped)) || [] in groups
  {
    if NoneRead(groups, Rest(flipped)) {
      forall units: seq<nat> ensures SomeGroupHolds(groups, units, First(flipped)) == SomeGroupHolds(groups, units, flipped) {
        OrAndFollows(groups, units, flipped);
      }
    } else if [] in groups {
      hide *;
      EmptyGroup(groups, flipped, n);
    } else {
      var g, k :| 0 <= g < |groups| && 0 <= k < |groups[g]| && groups[g][k].number in Rest(flipped);
      hide *;
      OrAndFails(groups, flipped, n, g, k);
    }
  }

  lemma EmptyGroup(groups: seq<seq<Literal>>, flipped: seq<nat>, n: nat)
    requires [] in groups
    ensures FollowsAlways(groups, flipped, n)
  {
    var g :| 0 <= g < |groups| && groups[g] == [];
    assert forall units: seq<nat>, flips: seq<nat> :: GroupHolds(groups[g], units, flips);
  }

  lemma OrAndFails(groups: seq<seq<Literal>>, flipped: seq<nat>, n: nat, g: nat, k: nat)
    requires StrictlySorted(flipped) && ReadOnce(groups) && ReadsBelow(groups, n) && [] !in groups
    requires g < |groups| && k < |groups[g]| && groups[g][k].number in Rest(flipped)
    ensures !FollowsAlways(groups, flipped, n)
  {
    hide TrueLiteral, ReadOnce;
    var units := Separating(groups, g, flipped, n);
    LaterFlip(groups[g], k, units, flipped);
    assert GroupHolds(groups[g], units, First(flipped));
  }

  /** A group that holds under the first flip does not hold under all flips if it reads a later one. */
  lemma LaterFlip(group: seq<Literal>, k: nat, units: seq<nat>, flipped: seq<nat>)
    requires StrictlySorted(flipped) && k < |group| && group[k].number in Rest(flipped)
    requires forall v :: 0 <= v < |units| ==> units[v] <= 1
    requires GroupHolds(group, units, First(flipped))
    ensures !GroupHolds(group, units, flipped)
  {
    assert TrueLiteral(group[k], units, First(flipped));
    assert !TrueLiteral(group[k], units, flipped);
  }

  /** An input for which the node misses a flip. */
  lemma OrAndMissesFlip()
    ensures var groups, units, flipped := [[Literal(false, 1), Literal(true, 2)], [Literal(true, 3)]], [0, 0, 0, 0], [1, 3];
            !SomeGroupHolds(groups, units, First(flipped)) && SomeGroupHolds(groups, units, flipped)
  {
    var groups, units, flipped := [[Literal(false, 1), Literal(true, 2)], [Literal(true, 3)]], [0, 0, 0, 0], [1, 3];
    assert GroupHolds(groups[1], units, flipped);
    assert First(flipped) == [1] && 1 in First(flipped);
    assert groups[0][0].number == 1 && groups[1][0].number == 3;
    assert !TrueLiteral(groups[0][0], units, First(flipped)) && !TrueLiteral(groups[1][0], units, First(flipped));
  }

  /** Appends a flip and moves it down to its place. */
  method InsertFlip(flipped: seq<nat>, v: nat) returns (r: seq<nat>)
    requires Sorted(flipped)
    ensures Sorted(r) && multiset(r) == multiset(flipped) + multiset{v}
  {
    r := flipped + [v];
    var last: nat := |r| - 1;
    while last > 0 && r[last] < r[last - 1]
      invariant last <= |flipped| && r == flipped[..last] + [v] + flipped[last..]
      invariant last < |flipped| ==> v < flipped[last]
    {
      r := r[last := r[last - 1]][last - 1 := r[last]];
      last := last - 1;
    }
    SortedInsert(flipped, v, last);
  }

  lemma SortedInsert(s: seq<nat>, v: nat, k: nat)
    requires Sorted(s) && k <= |s|
    requires k > 0 ==> s[k - 1] <= v
    requires k < |s| ==> v < s[k]
    ensures Sorted(s[..k] + [v] + s[k..])
    ensures multiset(s[..k] + [v] + s[k..]) == multiset(s) + multiset{v}
  {
    InsertedMultiset(s, v, k);
    var r := s[..k] + [v] + s[k..];
    forall i, j | 0 <= i < j < |r| ensures r[i] <= r[j] {
      InsertedAt(s, v, k, i);
      InsertedAt(s, v, k, j);
      assert i < k ==> s[i] <= s[k - 1];
      assert j > k ==> s[k] <= s[j - 1];
    }
  }

  lemma InsertedMultiset(s: seq<nat>, v: nat, k: nat)
    requires k <= |s|
    ensures multiset(s[..k] + [v] + s[k..]) == multiset(s) + multiset{v}
  {
    assert s == s[..k] + s[k..];
  }

  lemma InsertedAt(s: seq<nat>, v: nat, k: nat, i: nat)
    requires k <= |s| && i <= |s|
    ensures (s[..k] + [v] + s[k..])[i] == if i < k then s[i] else if i == k then v else s[i - 1]
  {
  }

  // ---------------------------------------------------------------- the network

  ghost predicate Reads(n: Node, v: nat) {
    exists k :: 0 <= k < |n.args| && n.args[k].number == v
  }

  /** `lists[v]` holds the positions of exactly the nodes that read `v`. */
  ghost predicate ListsOf(nodes: seq<Node>, lists: seq<seq<nat>>) {
    && (forall v, m :: 0 <= v < |lists| && 0 <= m < |lists[v]| ==> lists[v][m] < |nodes| && Reads(nodes[lists[v][m]], v))
    && (forall i, k :: 0 <= i < |nodes| && 0 <= k < |nodes[i].args| ==>
          nodes[i].args[k].number < |lists| && i in lists[nodes[i].args[k].number])
  }

  /** No list is longer than some node needs. */
  ghost predicate Tight(nodes: seq<Node>, lists: seq<seq<nat>>) {
    |lists| > 0 ==> exists i :: 0 <= i < |nodes| && Reads(nodes[i], |lists| - 1)
  }

  lemma NoReaders()
    ensures ListsOf([], [])
  {
  }

  lemma TightStart(nodes: seq<Node>, lists: seq<seq<nat>>)
    requires lists == []
    ensures Tight(nodes, lists)
  {
  }

  /** The lists grow to a variable that is read only. */
  lemma TightStep(nodes: seq<Node>, lists: seq<seq<nat>>, lists': seq<seq<nat>>, i: nat, k: nat)
    requires Tight(nodes, lists) && i < |nodes| && k < |nodes[i].args|
    requires |lists'| == |lists| || |lists'| == nodes[i].args[k].number + 1
    ensures Tight(nodes, lists')
  {
    if |lists'| == nodes[i].args[k].number + 1 {
      assert Reads(nodes[i], |lists'| - 1);
    }
  }

  /** Every node has a list of readers. */
  ghost predicate AllListed(nodes: seq<Node>, lists: seq<seq<nat>>) {
    forall i :: 0 <= i < |nodes| ==> nodes[i].variable < |lists|
  }

  /** After the flips no node beyond the lists has another value. */
  ghost predicate InReach(nodes: seq<Node>, lists: seq<seq<nat>>, units: seq<nat>, flipped: seq<nat>) {
    var full := Scratch(nodes, Flipped(units, flipped));
    forall i :: 0 <= i < |nodes| && |lists| <= nodes[i].variable < |units| ==> full[nodes[i].variable] == units[nodes[i].variable]
  }

  /** No node beyond the lists is appended to the flips. */
  ghost predicate Reaches(nodes: seq<Node>, lists: seq<seq<nat>>, units: seq<nat>, flipped: seq<nat>, n: nat) {
    n <= |nodes| && forall i :: 0 <= i < n && nodes[i].variable >= |lists| ==> !Pushed(nodes[i], units, Extended(nodes, units, flipped, i))
  }

  /** For flips of core variables these are the nodes that get another value from scratch. */
  lemma PlainReach(nodes: seq<Node>, lists: seq<seq<nat>>, units: seq<nat>, flipped: seq<nat>)
    requires Ordered(nodes) && Evaluated(nodes, units) && Plain(nodes, units, flipped) && Defined(units, flipped)
    ensures Reaches(nodes, lists, units, flipped, |nodes|) <==> InReach(nodes, lists, units, flipped)
  {
    hide Pushed, Extended, Plain, Ordered, Evaluated;
    forall i | 0 <= i < |nodes|
      ensures nodes[i].variable < |units|
      ensures Pushed(nodes[i], units, Extended(nodes, units, flipped, i)) <==>
                Scratch(nodes, Flipped(units, flipped))[nodes[i].variable] != units[nodes[i].variable]
    {
      PushedScratch(nodes, units, flipped, i);
    }
  }

  /** Closing flips of core variables gives the units of an evaluation from scratch. */
  lemma PlainCloses(nodes: seq<Node>, units: seq<nat>, flipped: seq<nat>, closed: seq<nat>)
    requires Ordered(nodes) && Evaluated(nodes, units) && Plain(nodes, units, flipped)
    requires multiset(closed) == multiset(Extended(nodes, units, flipped, |nodes|))
    ensures Consistent(nodes, units, closed)
    ensures forall v :: v in closed && v !in flipped ==> !IsCore(nodes, v)
    ensures forall v :: v in flipped ==> v in closed
    ensures Defined(units, flipped) ==> Flipped(units, closed) == Scratch(nodes, Flipped(units, flipped))
  {
    var e := Extended(nodes, units, flipped, |nodes|);
    PlainAgrees(nodes, units, flipped, |nodes|);
    SameElements(closed, e);
    forall i | 0 <= i < |nodes| ensures Agrees(nodes[i], units, closed) {
      assert Agrees(nodes[i], units, e);
      SameMembers(nodes[i], units, closed, e);
    }
    if Defined(units, flipped) {
      PlainScratch(nodes, units, flipped, |nodes|);
      assert Flipped(units, closed) == Flipped(units, e);
    }
  }

  /** A closed list, closed again: its nodes are in it twice, and no look-up fails that did not fail before. */
  lemma ClosedTwice(nodes: seq<Node>, lists: seq<seq<nat>>, units: seq<nat>, closed: seq<nat>)
    requires Ordered(nodes) && Evaluated(nodes, units) && StrictlySorted(closed)
    requires Consistent(nodes, units, []) && Consistent(nodes, units, closed)
    ensures var e := Extended(nodes, units, closed, |nodes|);
            forall v :: multiset(e)[v] == if v !in closed then 0 else if IsCore(nodes, v) then 1 else 2
    ensures Reaches(nodes, lists, units, closed, |nodes|) <==>
              forall i :: 0 <= i < |nodes| && nodes[i].variable >= |lists| ==> nodes[i].variable !in closed
  {
    hide Pushed, Extended, Ordered, Agrees;
    DistinctOnce(closed);
    forall i | 0 <= i < |nodes|
      ensures Pushed(nodes[i], units, Extended(nodes, units, closed, i)) <==> nodes[i].variable in closed
    {
      ClosedAgain(nodes, units, closed, i);
    }
    forall v ensures multiset(Extended(nodes, units, closed, |nodes|))[v] == if v !in closed then 0 else if IsCore(nodes, v) then 1 else 2 {
      if i :| 0 <= i < |nodes| && nodes[i].variable == v {
        ExtendedCount(nodes, units, closed, i, |nodes|);
      } else {
        UntouchedCount(nodes, units, closed, v, |nodes|);
      }
    }
  }

  /** The nodes that have a unit before the evaluation have the right one. */
  ghost predicate PresetRight(nodes: seq<Node>, units: seq<nat>) {
    forall i :: 0 <= i < |nodes| && nodes[i].variable < |units| && units[nodes[i].variable] != 2 ==>
      units[nodes[i].variable] == Scratch(nodes, units)[nodes[i].variable]
  }

  /** In a network whose nodes read smaller variables only, some node has no list of readers. */
  lemma SomeUnlisted(nodes: seq<Node>, lists: seq<seq<nat>>)
    requires nodes != [] && Tight(nodes, lists)
    requires forall i, v: nat :: 0 <= i < |nodes| && Reads(nodes[i], v) ==> v < nodes[i].variable
    ensures !AllListed(nodes, lists)
  {
    if |lists| > 0 {
      var i :| 0 <= i < |nodes| && Reads(nodes[i], |lists| - 1);
      assert nodes[i].variable >= |lists|;
    } else {
      assert nodes[0].variable >= |lists|;
    }
  }

  /** The smallest such network: one flip makes the look-up leave the lists. */
  lemma UnlistedFlips()
    ensures var nodes, lists, units := [Node(AndIff, 2, [Literal(true, 1)], 1)], [[], [0]], [0, 0, 0];
            && Ordered(nodes) && ListsOf(nodes, lists) && Tight(nodes, lists)
            && Evaluated(nodes, units) && Consistent(nodes, units, []) && IsCore(nodes, 1)
            && Scratch(nodes, Flipped(units, [1])) == [0, 1, 1] && !InReach(nodes, lists, units, [1])
  {
    var nodes, lists, units := [Node(AndIff, 2, [Literal(true, 1)], 1)], [[], [0]], [0, 0, 0];
    var node, flipped := nodes[0], Flipped(units, [1]);
    assert node.args[0].number == 1 && Reads(node, 1);
    assert !TrueLiteral(node.args[0], units, []);
    assert flipped == [0, 1, 0];
    assert Evaluate(node, flipped, []);
    assert ScratchTo(nodes, flipped, 0) == flipped;
    assert ScratchTo(nodes, flipped, 1) == [0, 1, 1];
    assert nodes[0].variable == 2;
  }

  /** Incremental evaluation is full evaluation: any closure of the flips gives exactly the units that an
      evaluation from scratch finds when only the core variables are flipped. */
  lemma ClosedIsFull(nodes: seq<Node>, units: seq<nat>, flipped: seq<nat>, closed: seq<nat>)
    requires Ordered(nodes) && Evaluated(nodes, units) && Consistent(nodes, units, closed) && Defined(units, closed)
    requires forall v :: v in closed && v !in flipped ==> !IsCore(nodes, v)
    requires forall v :: v in flipped ==> v in closed
    ensures Flipped(units, closed) == Scratch(nodes, Flipped(units, flipped))
  {
    forall i | 0 <= i < |nodes| ensures nodes[i].variable < |units| && Agrees(nodes[i], Flipped(units, closed), []) {
      assert Agrees(nodes[i], units, closed);
      FlippedMeaning(nodes[i], units, closed);
    }
    ScratchUnique(nodes, Flipped(units, flipped), Flipped(units, closed));
  }

  class Net {
    var nodes: seq<Node>
    var finalized: seq<Node>
    var literalToNodes: seq<seq<nat>>
    const variableToNode: seq<nat>
    ghost const plan: seq<Node>
    ghost const rank: seq<nat>

    /** The parsed nodes; `rank` witnesses that the circuit has no cycle. */
    constructor (nodes: seq<Node>, variableToNode: seq<nat>, ghost rank: seq<nat>)
      requires Acyclic(nodes, variableToNode, rank)
      requires forall i :: 0 <= i < |nodes| ==> nodes[i].depth == if nodes[i].gate.Value? then 0 else -1
      requires forall i :: 0 <= i < |nodes| ==> SortedArgs(nodes[i].args)
      ensures Measuring() && this.nodes == plan == nodes && this.rank == rank && this.variableToNode == variableToNode
      ensures finalized == [] && literalToNodes == []
    {
      this.nodes, this.variableToNode := nodes, variableToNode;
      finalized, literalToNodes := [], [];
      plan, this.rank := nodes, rank;
    }

    /** Each depth is unknown or right. */
    ghost predicate Measuring()
      reads this
    {
      && Acyclic(plan, variableToNode, rank) && SamePlan(nodes, plan)
      && (forall i :: 0 <= i < |nodes| ==> nodes[i].depth == -1 || nodes[i].depth == DepthOf(plan, variableToNode, rank, i))
      && (forall i :: 0 <= i < |nodes| && nodes[i].gate.Value? ==> nodes[i].depth == 0)
      && (forall i :: 0 <= i < |plan| ==> SortedArgs(plan[i].args))
    }

    /** Finds the depth of node `i` and of all nodes it depends on. */
    method FinalizeNode(i: nat)
      requires Measuring() && i < |nodes| && nodes[i].depth == -1
      modifies `nodes
      ensures Measuring() && |nodes| == |old(nodes)| && nodes[i].depth == DepthOf(plan, variableToNode, rank, i)
      ensures forall j :: 0 <= j < |nodes| && old(nodes[j].depth) != -1 ==> nodes[j] == old(nodes[j])
      decreases rank[i]
    {
      var maxDepth := 0;
      var args := nodes[i].args;
      for a := 0 to |args|
        invariant Measuring() && |nodes| == |old(nodes)| && args == plan[i].args && !plan[i].gate.Value?
        invariant forall j :: 0 <= j < |nodes| && old(nodes[j].depth) != -1 ==> nodes[j] == old(nodes[j])
        invariant maxDepth == MaxDepth(plan, variableToNode, rank, i, a)
      {
        var nodeIndex := variableToNode[args[a].number];
        var depth := if nodeIndex == NONE then 0 else nodes[nodeIndex].depth;
        if depth == -1 {
          FinalizeNode(nodeIndex);
          depth := nodes[nodeIndex].depth;
        }
        assert depth == ArgDepth(plan, variableToNode, rank, i, a);
        if depth > maxDepth {
          maxDepth := depth;
        }
      }
      nodes := nodes[i := nodes[i].(depth := maxDepth + 1)];
    }

    /** Gives every node its depth, puts the nodes in order and lists the readers of each variable. */
    method Finalize()
      requires Measuring() && finalized == [] && literalToNodes == []
      modifies this
      ensures Ready() && Tight(finalized, literalToNodes)
      ensures exists measured :: Measured(measured, plan, variableToNode, rank) && multiset(finalized) == multiset(measured)
      ensures forall i, j :: 0 <= i < j < |finalized| ==> finalized[i].depth <= finalized[j].depth
    {
      FinalizeAll();
      ghost var measured := nodes;
      SortNodes();
      DepthOrders(measured, plan, variableToNode, rank, nodes);
      forall i | 0 <= i < |nodes| ensures SortedArgs(nodes[i].args) {
        var p := IndexIn(measured, nodes, i);
      }
      ListReaders();
      finalized := nodes;
      nodes := [];
    }

    method FinalizeAll()
      requires Measuring()
      modifies `nodes
      ensures Measuring() && Measured(nodes, plan, variableToNode, rank)
    {
      for i := 0 to |nodes|
        invariant Measuring() && |nodes| == |plan|
        invariant forall j :: 0 <= j < i ==> nodes[j].depth == DepthOf(plan, variableToNode, rank, j)
      {
        if nodes[i].depth == -1 {
          FinalizeNode(i);
        }
      }
    }

    method SortNodes()
      modifies `nodes
      ensures multiset(nodes) == multiset(old(nodes))
      ensures forall i, j :: 0 <= i < j < |nodes| ==> nodes[i].depth <= nodes[j].depth
    {
      var a := new Node[|nodes|](i requires 0 <= i < |nodes| reads this => nodes[i]);
      assert a[..] == nodes;
      Sorting.Sort(a, 0, a.Length, (x: Node, y: Node) => x.depth < y.depth);
      assert a[..] == a[0..a.Length] && nodes == nodes[0..a.Length];
      nodes := a[..];
    }

    method ListReaders()
      requires literalToNodes == []
      modifies `literalToNodes
      ensures ListsOf(nodes, literalToNodes) && Tight(nodes, literalToNodes)
    {
      hide Tight, ListsOf;
      NoReaders();
      TightStart(nodes, literalToNodes);
      assert nodes[..0] == [];
      for i := 0 to |nodes|
        invariant ListsOf(nodes[..i], literalToNodes) && Tight(nodes, literalToNodes)
      {
        ListNode(i);
      }
      assert nodes[..|nodes|] == nodes;
    }

    /** Puts node `i` on the lists of the variables that it reads. */
    method ListNode(i: nat)
      requires i < |nodes| && ListsOf(nodes[..i], literalToNodes) && Tight(nodes, literalToNodes)
      modifies `literalToNodes
      ensures ListsOf(nodes[..i + 1], literalToNodes) && Tight(nodes, literalToNodes)
    {
      hide Tight;
      var args := nodes[i].args;
      for k := 0 to |args|
        invariant forall v, m :: 0 <= v < |literalToNodes| && 0 <= m < |literalToNodes[v]| ==>
          literalToNodes[v][m] <= i && Reads(nodes[literalToNodes[v][m]], v)
        invariant forall j, m :: 0 <= j < i && 0 <= m < |nodes[j].args| ==>
          nodes[j].args[m].number < |literalToNodes| && j in literalToNodes[nodes[j].args[m].number]
        invariant forall m :: 0 <= m < k ==> args[m].number < |literalToNodes| && i in literalToNodes[args[m].number]
        invariant Tight(nodes, literalToNodes)
      {
        var v := args[k].number;
        ghost var before := literalToNodes;
        if v >= |literalToNodes| {
          literalToNodes := literalToNodes + seq(v + 1 - |literalToNodes|, _ => []);
        }
        literalToNodes := literalToNodes[v := literalToNodes[v] + [i]];
        TightStep(nodes, before, literalToNodes, i, k);
      }
    }

    /** The network can be evaluated. */
    ghost predicate Ready()
      reads this
    {
      && Ordered(finalized) && ListsOf(finalized, literalToNodes)
      && (forall i :: 0 <= i < |finalized| ==> SortedArgs(finalized[i].args))
    }

    /** All variables have a unit. */
    ghost predicate Covers(n: nat)
      reads this
    {
      forall i :: 0 <= i < |finalized| ==>
        finalized[i].variable < n && forall k :: 0 <= k < |finalized[i].args| ==> finalized[i].args[k].number < n
    }

    /** The nodes before `n` that had no unit have got the value of their gate. */
    ghost predicate Filled(units: seq<nat>, r: seq<nat>, n: nat)
      reads this
    {
      && |r| == |units| && n <= |finalized|
      && (forall v :: 0 <= v < |units| && (units[v] != 2 || IsCore(finalized[..n], v)) ==> r[v] == units[v])
      && (forall j :: 0 <= j < n && finalized[j].variable < |units| && units[finalized[j].variable] == 2 ==>
            r[finalized[j].variable] <= 1 && Agrees(finalized[j], r, []))
    }

    /** Fills in the units that are undefined. */
    method Compute(units: seq<nat>) returns (r: seq<nat>)
      requires Ready() && Covers(|units|)
      ensures |r| == |units|
      ensures forall v :: 0 <= v < |units| && (units[v] != 2 || IsCore(finalized, v)) ==> r[v] == units[v]
      ensures forall i :: 0 <= i < |finalized| && units[finalized[i].variable] == 2 ==>
                r[finalized[i].variable] <= 1 && Agrees(finalized[i], r, [])
      ensures PresetRight(finalized, units) <==> Evaluated(finalized, r) && Consistent(finalized, r, [])
      ensures PresetRight(finalized, units) ==> r == Scratch(finalized, units)
    {
      hide Evaluate, ListsOf;
      r := units;
      for i := 0 to |finalized|
        invariant Filled(units, r, i)
      {
        var node := finalized[i];
        FreshNode(i);
        if r[node.variable] == 2 {
          var value := Propagate(node, r, []);
          FillNode(units, r, i, if value then 1 else 0);
          r := r[node.variable := if value then 1 else 0];
        }
      }
      assert finalized[..|finalized|] == finalized;
      FilledAll(units, r);
    }

    /** Filling in gives the evaluation from scratch exactly if the units set before are right. */
    lemma FilledAll(units: seq<nat>, r: seq<nat>)
      requires Ready() && Covers(|units|) && Filled(units, r, |finalized|)
      ensures PresetRight(finalized, units) <==> Evaluated(finalized, r) && Consistent(finalized, r, [])
      ensures PresetRight(finalized, units) ==> r == Scratch(finalized, units)
    {
      hide ListsOf, Evaluate, Ordered;
      FilledMeans(units, r);
      if Evaluated(finalized, r) && Consistent(finalized, r, []) {
        ScratchUnique(finalized, units, r);
      }
      if PresetRight(finalized, units) {
        FilledPrefix(units, r, |finalized|);
        ScratchMeaning(finalized, units, |finalized|);
        forall v | 0 <= v < |units| ensures r[v] == Scratch(finalized, units)[v] {
          if !IsCore(finalized, v) {
            var i :| 0 <= i < |finalized| && finalized[i].variable == v;
          }
        }
        assert r == Scratch(finalized, units);
        assert forall i :: 0 <= i < |finalized| ==> r[finalized[i].variable] <= 1 && Agrees(finalized[i], r, []);
      }
    }

    lemma FilledMeans(units: seq<nat>, r: seq<nat>)
      requires Covers(|units|) && Filled(units, r, |finalized|)
      ensures forall v :: 0 <= v < |units| && (units[v] != 2 || IsCore(finalized, v)) ==> r[v] == units[v]
    {
      assert finalized[..|finalized|] == finalized;
    }

    lemma {:induction false} FilledPrefix(units: seq<nat>, r: seq<nat>, n: nat)
      requires Ready() && Covers(|units|) && Filled(units, r, |finalized|) && PresetRight(finalized, units) && n <= |finalized|
      ensures forall i :: 0 <= i < n ==> r[finalized[i].variable] == Scratch(finalized, units)[finalized[i].variable]
    {
      if n > 0 {
        FilledPrefix(units, r, n - 1);
        ScratchMeaning(finalized, units, |finalized|);
        assert finalized[..|finalized|] == finalized;
        var node, full := finalized[n - 1], Scratch(finalized, units);
        if units[node.variable] == 2 {
          forall k | 0 <= k < |node.args| ensures TrueLiteral(node.args[k], r, []) == TrueLiteral(node.args[k], full, []) {
            var v := node.args[k].number;
            if !IsCore(finalized, v) {
              var i :| 0 <= i < |finalized| && finalized[i].variable == v;
              assert i < n - 1;
            }
          }
          EvaluateFrame(node, r, [], full, []);
          assert Agrees(node, r, []) && Agrees(node, full, []);
        }
      }
    }

    /** A node is no node before itself. */
    lemma FreshNode(i: nat)
      requires Ordered(finalized) && i < |finalized|
      ensures IsCore(finalized[..i], finalized[i].variable)
      ensures forall v :: IsCore(finalized[..i + 1], v) <==> IsCore(finalized[..i], v) && v != finalized[i].variable
    {
      forall v ensures IsCore(finalized[..i + 1], v) <==> IsCore(finalized[..i], v) && v != finalized[i].variable {
        if IsCore(finalized[..i + 1], v) {
          assert finalized[..i + 1][i].variable != v;
          forall j | 0 <= j < i ensures finalized[..i][j].variable != v {
            assert finalized[..i + 1][j].variable != v;
          }
        }
      }
    }

    /** Giving a node its value disturbs no node before it. */
    lemma FillNode(units: seq<nat>, r: seq<nat>, i: nat, bit: nat)
      requires Ordered(finalized) && Filled(units, r, i) && i < |finalized| && finalized[i].variable < |units|
      requires units[finalized[i].variable] == 2 && bit == if Evaluate(finalized[i], r, []) then 1 else 0
      requires forall k :: 0 <= k < |finalized[i].args| ==> finalized[i].args[k].number < |units|
      requires forall v :: IsCore(finalized[..i + 1], v) <==> IsCore(finalized[..i], v) && v != finalized[i].variable
      ensures Filled(units, r[finalized[i].variable := bit], i + 1)
    {
      var r' := r[finalized[i].variable := bit];
      forall j | 0 <= j <= i ensures Evaluate(finalized[j], r', []) == Evaluate(finalized[j], r, []) {
        EvaluateFrame(finalized[j], r, [], r', []);
      }
    }

    /** Marks the nodes that read `v`. */
    method MarkReaders(v: nat, toCompute: array<bool>)
      requires Ready() && Covers(toCompute.Length) && v < |literalToNodes|
      modifies toCompute
      ensures forall i :: 0 <= i < |finalized| ==>
                toCompute[finalized[i].variable] == (old(toCompute[finalized[i].variable]) || !ReadsNothingOf(finalized[i], [v]))
    {
      var list := literalToNodes[v];
      assert forall m :: 0 <= m < |list| ==> list[m] < |finalized|;
      for k := 0 to |list|
        invariant forall x :: 0 <= x < toCompute.Length && old(toCompute[x]) ==> toCompute[x]
        invariant forall m :: 0 <= m < k ==> toCompute[finalized[list[m]].variable]
        invariant forall x :: 0 <= x < toCompute.Length && toCompute[x] ==>
          old(toCompute[x]) || exists m :: 0 <= m < k && finalized[list[m]].variable == x
      {
        toCompute[finalized[list[k]].variable] := true;
      }
      forall i | 0 <= i < |finalized|
        ensures toCompute[finalized[i].variable] == (old(toCompute[finalized[i].variable]) || !ReadsNothingOf(finalized[i], [v]))
      {
        ListedReaders(v, i);
        if m :| 0 <= m < |list| && finalized[list[m]].variable == finalized[i].variable {
          assert list[m] == i;
        }
      }
    }

    lemma ListedReaders(v: nat, i: nat)
      requires Ready() && v < |literalToNodes| && i < |finalized|
      ensures !ReadsNothingOf(finalized[i], [v]) <==> i in literalToNodes[v]
    {
      if k :| 0 <= k < |finalized[i].args| && finalized[i].args[k].number in [v] {
        assert i in literalToNodes[finalized[i].args[k].number];
      }
    }

    /** From node `from` on, exactly the nodes that read a flipped variable are marked. */
    ghost predicate Marked(flipped: seq<nat>, toCompute: seq<bool>, from: nat)
      reads this
    {
      forall i :: from <= i < |finalized| ==>
        finalized[i].variable < |toCompute| && (toCompute[finalized[i].variable] <==> !ReadsNothingOf(finalized[i], flipped))
    }

    method MarkAll(flipped: seq<nat>, toCompute: array<bool>)
      requires Ready() && Covers(toCompute.Length) && forall x :: 0 <= x < toCompute.Length ==> !toCompute[x]
      modifies toCompute
      ensures Marked(flipped, toCompute[..], 0)
    {
      hide Ordered, ListsOf;
      for i := 0 to |flipped|
        invariant Marked(flipped[..i], toCompute[..], 0)
      {
        ghost var before := toCompute[..];
        if |literalToNodes| > flipped[i] {
          MarkReaders(flipped[i], toCompute);
        } else {
          Unread(flipped[i]);
        }
        assert flipped[..i + 1] == flipped[..i] + [flipped[i]];
        MarkedMore(flipped[..i], flipped[i], before, toCompute[..], 0);
      }
      assert flipped[..|flipped|] == flipped;
    }

    /** Nobody reads a variable beyond the lists. */
    lemma Unread(v: nat)
      requires Ready() && v >= |literalToNodes|
      ensures forall i :: 0 <= i < |finalized| ==> ReadsNothingOf(finalized[i], [v])
    {
    }

    lemma MarkedMore(flipped: seq<nat>, v: nat, before: seq<bool>, after: seq<bool>, from: nat)
      requires Marked(flipped, before, from) && |after| == |before|
      requires forall i :: 0 <= i < |finalized| && finalized[i].variable < |after| ==>
                 after[finalized[i].variable] == (before[finalized[i].variable] || !ReadsNothingOf(finalized[i], [v]))
      ensures Marked(flipped + [v], after, from)
    {
      forall i | from <= i < |finalized|
        ensures ReadsNothingOf(finalized[i], flipped + [v]) <==> ReadsNothingOf(finalized[i], flipped) && ReadsNothingOf(finalized[i], [v])
      {
        if ReadsNothingOf(finalized[i], flipped + [v]) {
          assert forall k :: 0 <= k < |finalized[i].args| ==> finalized[i].args[k].number !in flipped + [v];
        }
      }
    }

    /** What the loop over the nodes keeps: the list is the one that the nodes before `n` lead to, and of the
        others exactly those that read from it are marked. */
    ghost predicate ClosedTo(units: seq<nat>, flipped: seq<nat>, closed: seq<nat>, toCompute: seq<bool>, n: nat)
      reads this
    {
      && n <= |finalized| && Sorted(closed)
      && multiset(closed) == multiset(Extended(finalized, units, flipped, n))
      && Marked(closed, toCompute, n)
    }

    /** Closes the flips, whatever they are: a node is appended if it reads from the list and its value is
        not its unit, even if it is in the list already. The readers of an appended node are looked up without
        a test. For flips of core variables under right units, the flipped units are afterwards those of an
        evaluation from scratch, and the look-up leaves the lists exactly if a node beyond their end changes
        its value. */
    method ComputeFlipped(units: seq<nat>, flipped: seq<nat>) returns (closed: seq<nat>, inRange: bool)
      requires Ready() && Covers(|units|) && Evaluated(finalized, units) && StrictlySorted(flipped)
      ensures inRange <==> Reaches(finalized, literalToNodes, units, flipped, |finalized|)
      ensures inRange ==> Sorted(closed) && multiset(closed) == multiset(Extended(finalized, units, flipped, |finalized|))
      ensures inRange && (forall k :: 0 <= k < |flipped| ==> IsCore(finalized, flipped[k])) ==> StrictlySorted(closed)
      ensures Plain(finalized, units, flipped) && inRange ==>
                && StrictlySorted(closed) && Consistent(finalized, units, closed)
                && (forall v :: v in closed && v !in flipped ==> !IsCore(finalized, v)) && (forall v :: v in flipped ==> v in closed)
      ensures Plain(finalized, units, flipped) && Defined(units, flipped) ==>
                && (inRange <==> InReach(finalized, literalToNodes, units, flipped))
                && (inRange ==> Flipped(units, closed) == Scratch(finalized, Flipped(units, flipped)))
      ensures AllListed(finalized, literalToNodes) ==> inRange
    {
      hide Ordered, ListsOf, Consistent, Evaluate, Extended, Pushed, Evaluated, InReach;
      closed := flipped;
      var toCompute := new bool[|units|](_ => false);
      MarkAll(closed, toCompute);
      ExtendedNothing(finalized, units, flipped);
      if Plain(finalized, units, flipped) && Defined(units, flipped) {
        PlainReach(finalized, literalToNodes, units, flipped);
      }
      for i := 0 to |finalized|
        invariant ClosedTo(units, flipped, closed, toCompute[..], i)
        invariant Reaches(finalized, literalToNodes, units, flipped, i)
      {
        closed, inRange := ComputeNode(units, flipped, closed, toCompute, i);
        if !inRange {
          return;
        }
      }
      inRange := true;
      if forall k :: 0 <= k < |flipped| ==> IsCore(finalized, flipped[k]) {
        CoreStrict(finalized, units, flipped, closed);
      }
      if Plain(finalized, units, flipped) {
        PlainCloses(finalized, units, flipped, closed);
      }
    }

    method ComputeNode(units: seq<nat>, ghost flipped: seq<nat>, before: seq<nat>, toCompute: array<bool>, i: nat)
      returns (closed: seq<nat>, inRange: bool)
      requires Ready() && Covers(|units|) && Evaluated(finalized, units)
      requires i < |finalized| && toCompute.Length == |units| && ClosedTo(units, flipped, before, toCompute[..], i)
      modifies toCompute
      ensures inRange <==> finalized[i].variable < |literalToNodes| || !Pushed(finalized[i], units, Extended(finalized, units, flipped, i))
      ensures inRange ==> ClosedTo(units, flipped, closed, toCompute[..], i + 1)
    {
      hide Ordered, ListsOf, Evaluate, Extended, ReadsNothingOf;
      closed, inRange := before, true;
      var variable := finalized[i].variable;
      SameElements(before, Extended(finalized, units, flipped, i));
      SameMembers(finalized[i], units, before, Extended(finalized, units, flipped, i));
      ExtendedStep(finalized, units, flipped, i);
      if toCompute[variable] {
        var value := Propagate(finalized[i], units, closed);
        if value != Bit(units[variable], false) {
          ghost var marked := toCompute[..];
          closed := InsertFlip(closed, variable);
          if variable >= |literalToNodes| {
            return closed, false;
          }
          MarkReaders(variable, toCompute);
          MarkedMore(before, variable, marked, toCompute[..], i + 1);
          MarkedSame(before + [variable], closed, toCompute[..], i + 1);
        }
      }
    }

    lemma MarkedSame(a: seq<nat>, b: seq<nat>, toCompute: seq<bool>, from: nat)
      requires Marked(a, toCompute, from) && multiset(a) == multiset(b)
      ensures Marked(b, toCompute, from)
    {
      SameElements(a, b);
      forall i | from <= i < |finalized| ensures ReadsNothingOf(finalized[i], a) == ReadsNothingOf(finalized[i], b) {
      }
    }
  }
}
