/** The tree of open cubes of the cube-and-conquer solver and the clauses of the cubes closed so far.
    The solver instance of a node is an oracle that is sound for the formula under the node's cube. */
module CubeTree {
  import opened Logic
  import Sorting

  type Cube = seq<Lit>

  datatype Phase = Free | Ready | Simp | Lkhd | Split | Search

  datatype Lookahead = NoLiteral | On(lit: Lit)

  datatype Node = Node(id: nat, pos: nat, depth: nat, state: Phase, res: nat, lookahead: Lookahead, cube: Cube)

  /** What the foreign solver instances answer, by round; `chosen` says which nodes get a job. */
  datatype Oracle = Oracle(
    result: (nat, Phase, Node) -> nat, inconsistent: (nat, Node) -> bool, literal: (nat, Node) -> Lookahead,
    chosen: (nat, Phase, Node) -> bool, order: (nat, Phase, Node) -> int, parallel: nat -> nat)

  // ---------------------------------------------------------------- meaning

  ghost predicate InCube(A: Assignment, cube: Cube) {
    forall k :: 0 <= k < |cube| ==> Holds(A, cube[k])
  }

  ghost predicate Refutes(F: seq<Clause>, cube: Cube) {
    forall A: Assignment :: Models(A, F) ==> !InCube(A, cube)
  }

  /** A result 20 means that no model lies in the cube, a result 10 that there is a model. */
  ghost predicate Sound(F: seq<Clause>, oracle: Oracle) {
    && (forall r: nat, p: Phase, n: Node :: oracle.result(r, p, n) == 20 ==> Refutes(F, n.cube))
    && (forall r: nat, p: Phase, n: Node :: oracle.result(r, p, n) == 10 ==> Satisfiable(F))
    && (forall r: nat, p: Phase, n: Node :: oracle.result(r, p, n) in {0, 10, 20})
    && (forall r: nat, n: Node :: oracle.inconsistent(r, n) ==> Refutes(F, n.cube))
    && (forall r: nat :: oracle.parallel(r) == 20 ==> !Satisfiable(F))
    && (forall r: nat :: oracle.parallel(r) == 10 ==> Satisfiable(F))
    && (forall r: nat :: oracle.parallel(r) in {0, 10, 20})
  }

  function Negated(cube: Cube): (c: Clause)
    ensures |c| == |cube| && forall k :: 0 <= k < |c| ==> c[k] == cube[k].Neg()
  {
    seq(|cube|, k requires 0 <= k < |cube| => cube[k].Neg())
  }

  /** The clause of a closed cube excludes exactly the cube. */
  lemma NegatedMeaning(A: Assignment, cube: Cube)
    ensures Sat(A, Negated(cube)) <==> !InCube(A, cube)
  {
    if !InCube(A, cube) {
      var k :| 0 <= k < |cube| && !Holds(A, cube[k]);
      assert Holds(A, Negated(cube)[k]);
    }
  }

  // ---------------------------------------------------------------- counting

  ghost function Hit(A: Assignment, cube: Cube): nat {
    if InCube(A, cube) then 1 else 0
  }

  /** How many open cubes contain the assignment. */
  ghost function OpenCount(A: Assignment, nodes: seq<Node>): nat {
    if nodes == [] then 0 else OpenCount(A, nodes[..|nodes| - 1]) + Hit(A, nodes[|nodes| - 1].cube)
  }

  /** How many leaf clauses the assignment falsifies. */
  ghost function Falsified(A: Assignment, leafs: seq<Clause>): nat {
    if leafs == [] then 0 else Falsified(A, leafs[..|leafs| - 1]) + if Sat(A, leafs[|leafs| - 1]) then 0 else 1
  }

  /** Every assignment lies in one open cube or falsifies one leaf clause, not both and not two. */
  ghost predicate Partition(nodes: seq<Node>, leafs: seq<Clause>) {
    forall A: Assignment :: OpenCount(A, nodes) + Falsified(A, leafs) == 1
  }

  lemma {:induction false} CountUpdate(A: Assignment, nodes: seq<Node>, i: nat, n: Node)
    requires i < |nodes|
    ensures OpenCount(A, nodes[i := n]) == OpenCount(A, nodes) - Hit(A, nodes[i].cube) + Hit(A, n.cube)
  {
    var front := nodes[..|nodes| - 1];
    if i < |nodes| - 1 {
      CountUpdate(A, front, i, n);
      assert nodes[i := n][..|nodes| - 1] == front[i := n];
    } else {
      assert nodes[i := n][..|nodes| - 1] == front;
    }
  }

  lemma CountPush(A: Assignment, nodes: seq<Node>, n: Node)
    ensures OpenCount(A, nodes + [n]) == OpenCount(A, nodes) + Hit(A, n.cube)
  {
    assert (nodes + [n])[..|nodes|] == nodes;
  }

  lemma FalsifiedPush(A: Assignment, leafs: seq<Clause>, c: Clause)
    ensures Falsified(A, leafs + [c]) == Falsified(A, leafs) + if Sat(A, c) then 0 else 1
  {
    assert (leafs + [c])[..|leafs|] == leafs;
  }

  /** The nodes after node `i` is deleted: the last one takes its place. */
  function Deleted(nodes: seq<Node>, i: nat): seq<Node>
    requires i < |nodes|
  {
    var last := |nodes| - 1;
    if i < last then nodes[i := nodes[last].(pos := i)][..last] else nodes[..last]
  }

  lemma CountDeleted(A: Assignment, nodes: seq<Node>, i: nat)
    requires i < |nodes|
    ensures OpenCount(A, Deleted(nodes, i)) + Hit(A, nodes[i].cube) == OpenCount(A, nodes)
  {
    var last := |nodes| - 1;
    if i < last {
      var front := nodes[..last];
      CountUpdate(A, front, i, nodes[last].(pos := i));
      assert Deleted(nodes, i) == front[i := nodes[last].(pos := i)];
    }
  }

  /** Closing a cube moves its assignments from the open cubes to the leaf clauses. */
  lemma CloseKeeps(nodes: seq<Node>, leafs: seq<Clause>, i: nat)
    requires Partition(nodes, leafs) && i < |nodes|
    ensures Partition(Deleted(nodes, i), leafs + [Negated(nodes[i].cube)])
  {
    hide OpenCount, Falsified, Deleted, InCube, Sat, Negated;
    forall A: Assignment
      ensures OpenCount(A, Deleted(nodes, i)) + Falsified(A, leafs + [Negated(nodes[i].cube)]) == 1
    {
      CountDeleted(A, nodes, i);
      FalsifiedPush(A, leafs, Negated(nodes[i].cube));
      NegatedMeaning(A, nodes[i].cube);
      assert OpenCount(A, nodes) + Falsified(A, leafs) == 1;
    }
  }

  /** Splitting a cube on a literal divides its assignments between the two halves. */
  lemma SplitKeeps(nodes: seq<Node>, leafs: seq<Clause>, i: nat, p: Lit, n: Node, child: Node)
    requires Partition(nodes, leafs) && i < |nodes|
    requires n.cube == nodes[i].cube + [p] && child.cube == nodes[i].cube + [p.Neg()]
    ensures Partition(nodes[i := n] + [child], leafs)
  {
    hide OpenCount, Falsified;
    forall A: Assignment ensures OpenCount(A, nodes[i := n] + [child]) + Falsified(A, leafs) == 1 {
      CountUpdate(A, nodes, i, n);
      CountPush(A, nodes[i := n], child);
      ExtendedCube(A, nodes[i].cube, p);
      ExtendedCube(A, nodes[i].cube, p.Neg());
      assert OpenCount(A, nodes) + Falsified(A, leafs) == 1;
    }
  }

  lemma ExtendedCube(A: Assignment, cube: Cube, p: Lit)
    ensures InCube(A, cube + [p]) <==> InCube(A, cube) && Holds(A, p)
  {
    if InCube(A, cube + [p]) {
      forall k | 0 <= k < |cube| ensures Holds(A, cube[k]) {
        assert Holds(A, (cube + [p])[k]);
      }
      assert Holds(A, (cube + [p])[|cube|]);
    }
  }

  /** Only the cubes matter, not where their nodes are. */
  lemma {:induction false} CountPermuted(A: Assignment, s: seq<Node>, t: seq<Node>)
    requires multiset(s) == multiset(t)
    ensures OpenCount(A, s) == OpenCount(A, t)
    decreases |s|
  {
    hide InCube, Without, OpenCount;
    assert |s| == |multiset(s)| == |t|;
    if s == [] {
      assert s == t;
    } else {
      var last := |s| - 1;
      assert s[last] in multiset(t);
      var i :| 0 <= i < |t| && t[i] == s[last];
      BothOut(s, last, t, i);
      CountWithout(A, s, last);
      CountWithout(A, t, i);
      CountPermuted(A, Without(s, last), Without(t, i));
    }
  }

  /** Taking out one node takes out its share of the count. */
  lemma CountWithout(A: Assignment, t: seq<Node>, i: nat)
    requires i < |t|
    ensures OpenCount(A, Without(t, i)) + Hit(A, t[i].cube) == OpenCount(A, t)
  {
    hide InCube;
    assert t == t[..i] + [t[i]] + t[i + 1..];
    CountConcat(A, t[..i] + [t[i]], t[i + 1..]);
    CountPush(A, t[..i], t[i]);
    CountConcat(A, t[..i], t[i + 1..]);
  }

  lemma {:induction false} CountConcat(A: Assignment, s: seq<Node>, t: seq<Node>)
    ensures OpenCount(A, s + t) == OpenCount(A, s) + OpenCount(A, t)
  {
    if t == [] {
      assert s + t == s;
    } else {
      var front := t[..|t| - 1];
      CountConcat(A, s, front);
      CountPush(A, s + front, t[|t| - 1]);
      assert s + t == s + front + [t[|t| - 1]];
    }
  }

  lemma {:induction false} CountSameCubes(A: Assignment, s: seq<Node>, t: seq<Node>)
    requires |s| == |t| && forall i :: 0 <= i < |s| ==> s[i].cube == t[i].cube
    ensures OpenCount(A, s) == OpenCount(A, t)
  {
    if s != [] {
      CountSameCubes(A, s[..|s| - 1], t[..|t| - 1]);
    }
  }

  lemma SameCubesKeep(s: seq<Node>, t: seq<Node>, leafs: seq<Clause>)
    requires Partition(s, leafs) && |s| == |t| && forall i :: 0 <= i < |s| ==> s[i].cube == t[i].cube
    ensures Partition(t, leafs)
  {
    forall A: Assignment ensures OpenCount(A, t) + Falsified(A, leafs) == 1 {
      CountSameCubes(A, s, t);
      assert OpenCount(A, s) + Falsified(A, leafs) == 1;
    }
  }

  lemma PermutedKeeps(s: seq<Node>, t: seq<Node>, leafs: seq<Clause>)
    requires Partition(s, leafs) && multiset(s) == multiset(t)
    ensures Partition(t, leafs)
  {
    forall A: Assignment ensures OpenCount(A, t) + Falsified(A, leafs) == 1 {
      CountPermuted(A, s, t);
      assert OpenCount(A, s) + Falsified(A, leafs) == 1;
    }
  }

  /** With no cube left, every assignment falsifies a leaf clause, and these follow from the formula. */
  lemma NothingOpen(F: seq<Clause>, leafs: seq<Clause>)
    requires Partition([], leafs) && forall i :: 0 <= i < |leafs| ==> Entails(F, leafs[i])
    ensures !Satisfiable(F)
  {
    forall A: Assignment ensures !Models(A, F) {
      assert OpenCount(A, []) + Falsified(A, leafs) == 1;
      var i := FalsifiedLeaf(A, leafs);
      assert Entails(F, leafs[i]);
    }
  }

  lemma {:induction false} FalsifiedLeaf(A: Assignment, leafs: seq<Clause>) returns (i: nat)
    requires Falsified(A, leafs) > 0
    ensures i < |leafs| && !Sat(A, leafs[i])
  {
    i := |leafs| - 1;
    if Sat(A, leafs[i]) {
      i := FalsifiedLeaf(A, leafs[..i]);
    }
  }

  /** A refuted cube has no satisfiable part. */
  lemma SplitHonest(F: seq<Clause>, n: Node, n': Node)
    requires Honest(F, n) && n'.res == n.res && |n'.cube| == |n.cube| + 1 && n'.cube == n.cube + [n'.cube[|n.cube|]]
    ensures Honest(F, n')
  {
    forall A: Assignment | InCube(A, n'.cube) ensures InCube(A, n.cube) {
      ExtendedCube(A, n.cube, n'.cube[|n.cube|]);
    }
  }

  lemma PermutedNodes(s: seq<Node>, t: seq<Node>, F: seq<Clause>)
    requires multiset(s) == multiset(t) && forall i :: 0 <= i < |s| ==> Honest(F, s[i]) && s[i].state == Ready
    ensures |t| == |s| && forall i :: 0 <= i < |t| ==> Honest(F, t[i]) && t[i].state == Ready
  {
    assert |s| == |multiset(s)| == |t|;
    forall i | 0 <= i < |t| ensures t[i] in s {
      assert t[i] in multiset(s);
    }
  }

  lemma HonestAgain(F: seq<Clause>, s: seq<Node>, t: seq<Node>)
    requires |s| == |t| && forall i :: 0 <= i < |s| ==> Honest(F, s[i]) && t[i] == s[i].(pos := i)
    ensures forall i :: 0 <= i < |t| ==> Honest(F, t[i])
  {
    forall i | 0 <= i < |t| ensures Honest(F, t[i]) {
      assert Honest(F, s[i]);
    }
  }

  /** The nodes without their positions. */
  ghost function Bare(nodes: seq<Node>): (r: seq<Node>)
    ensures |r| == |nodes| && forall i :: 0 <= i < |r| ==> r[i] == nodes[i].(pos := 0)
  {
    seq(|nodes|, i requires 0 <= i < |nodes| => nodes[i].(pos := 0))
  }

  lemma {:induction false} BarePermuted(s: seq<Node>, t: seq<Node>)
    requires multiset(s) == multiset(t)
    ensures multiset(Bare(s)) == multiset(Bare(t))
    decreases |s|
  {
    hide Without;
    assert |s| == |multiset(s)| == |t|;
    if s == [] {
      assert s == t;
    } else {
      var last := |s| - 1;
      assert s[last] in multiset(t);
      var i :| 0 <= i < |t| && t[i] == s[last];
      BothOut(s, last, t, i);
      BareOut(s, last);
      BareOut(t, i);
      BarePermuted(Without(s, last), Without(t, i));
    }
  }

  ghost function Without<T>(s: seq<T>, i: nat): seq<T>
    requires i < |s|
  {
    s[..i] + s[i + 1..]
  }

  lemma OneOut<T>(s: seq<T>, i: nat)
    requires i < |s|
    ensures multiset(s) == multiset(Without(s, i)) + multiset{s[i]}
  {
    assert s == s[..i] + [s[i]] + s[i + 1..];
  }

  lemma BothOut<T>(s: seq<T>, i: nat, t: seq<T>, j: nat)
    requires i < |s| && j < |t| && s[i] == t[j] && multiset(s) == multiset(t)
    ensures multiset(Without(s, i)) == multiset(Without(t, j)) && |Without(s, i)| == |s| - 1
  {
    OneOut(s, i);
    OneOut(t, j);
    hide Without;
    var a, b := multiset(Without(s, i)), multiset(Without(t, j));
    assert a == multiset(s) - multiset{s[i]} && b == multiset(t) - multiset{t[j]};
  }

  lemma BareOut(s: seq<Node>, i: nat)
    requires i < |s|
    ensures multiset(Bare(s)) == multiset(Bare(Without(s, i))) + multiset{s[i].(pos := 0)}
  {
    OneOut(Bare(s), i);
    assert Without(Bare(s), i) == Bare(Without(s, i));
  }

  /** The result of a node means what it says. */
  ghost predicate Honest(F: seq<Clause>, n: Node) {
    (n.res == 20 ==> Refutes(F, n.cube)) && (n.res == 10 ==> Satisfiable(F))
  }

  ghost predicate Positions(nodes: seq<Node>) {
    forall i :: 0 <= i < |nodes| ==> nodes[i].pos == i && nodes[i].state == Ready
  }

  // ---------------------------------------------------------------- the solver

  class Treengeling {
    ghost const formula: seq<Clause>
    const oracle: Oracle
    const noparallel: bool
    var nodes: seq<Node>
    var ids: nat
    var round: nat
    var leafs: seq<Clause>              // clauses not yet consumed by the parallel instance
    ghost var emitted: seq<Clause>      // all leaf clauses so far

    ghost predicate Valid()
      reads this
    {
      && Sound(formula, oracle) && Positions(nodes) && Partition(nodes, emitted)
      && (forall i :: 0 <= i < |nodes| ==> Honest(formula, nodes[i]))
      && (forall i :: 0 <= i < |emitted| ==> Entails(formula, emitted[i]))
      && (forall i :: 0 <= i < |leafs| ==> leafs[i] in emitted)
    }

    /** Opens the root node, whose cube is empty. */
    constructor (ghost formula: seq<Clause>, oracle: Oracle, noparallel: bool)
      requires Sound(formula, oracle)
      ensures Valid() && this.formula == formula && this.oracle == oracle && emitted == [] && |nodes| == 1
    {
      this.formula, this.oracle, this.noparallel := formula, oracle, noparallel;
      nodes, ids, round, leafs, emitted := [Node(0, 0, 0, Ready, 0, NoLiteral, [])], 1, 0, [], [];
      new;
      forall A: Assignment ensures OpenCount(A, nodes) + Falsified(A, emitted) == 1 {
        CountPush(A, [], nodes[0]);
      }
    }

    /** Deletes a node; the last one moves to its position. */
    method DelNode(i: nat)
      requires i < |nodes| && Positions(nodes)
      modifies `nodes
      ensures nodes == old(Deleted(nodes, i)) && Positions(nodes)
    {
      var lastpos := |nodes| - 1;
      var last := nodes[lastpos];
      if i != lastpos {
        nodes := nodes[i := last.(pos := i)];
      }
      nodes := nodes[..lastpos];
    }

    /** Turns the cube of a node into a leaf clause. */
    method EnqNewLeaf(i: nat)
      requires i < |nodes| && Refutes(formula, nodes[i].cube)
      requires (forall j :: 0 <= j < |emitted| ==> Entails(formula, emitted[j])) && (forall j :: 0 <= j < |leafs| ==> leafs[j] in emitted)
      modifies `leafs, `emitted
      ensures leafs == old(leafs) + [Negated(nodes[i].cube)] && emitted == old(emitted) + [Negated(nodes[i].cube)]
      ensures (forall j :: 0 <= j < |emitted| ==> Entails(formula, emitted[j])) && (forall j :: 0 <= j < |leafs| ==> leafs[j] in emitted)
    {
      var leaf := Negated(nodes[i].cube);
      forall A: Assignment | Models(A, formula) ensures Sat(A, leaf) {
        NegatedMeaning(A, nodes[i].cube);
      }
      leafs := leafs + [leaf];
      emitted := emitted + [leaf];
    }

    /** Hands the oldest leaf clause to the parallel instance; it follows from the formula. */
    method ConsumeLeaf() returns (found: bool, leaf: Clause)
      requires Valid()
      modifies `leafs
      ensures Valid() && found == (|old(leafs)| > 0)
      ensures found ==> leaf == old(leafs)[0] && leafs == old(leafs)[1..] && Entails(formula, leaf)
      ensures !found ==> leafs == old(leafs)
    {
      found, leaf := |leafs| > 0, [];
      if found {
        leaf := leafs[0];
        leafs := leafs[1..];
      }
    }

    /** Closes all refuted cubes; the answer 20 says that none is left. */
    method Flush() returns (res: nat)
      requires Valid()
      modifies `nodes, `leafs, `emitted
      ensures Valid() && (res == 20 <==> nodes == []) && (res == 20 || res == 0)
      ensures res == 20 ==> !Satisfiable(formula)
      ensures forall i :: 0 <= i < |nodes| ==> nodes[i].res != 20 && !oracle.inconsistent(round, nodes[i])
      ensures |nodes| + |emitted| == old(|nodes| + |emitted|)
    {
      hide Partition, Refutes, Satisfiable, Entails;
      var i: nat := 0;
      while i < |nodes|
        invariant Valid() && i <= |nodes| && |nodes| + |emitted| == old(|nodes| + |emitted|)
        invariant forall j :: 0 <= j < i ==> nodes[j].res != 20 && !oracle.inconsistent(round, nodes[j])
        decreases |nodes| - i
      {
        if nodes[i].res == 20 || oracle.inconsistent(round, nodes[i]) {
          Close(i);
        } else {
          i := i + 1;
        }
      }
      if |nodes| > 0 { return 0; }
      NothingOpen(formula, emitted);
      return 20;
    }

    method Close(i: nat)
      requires Valid() && i < |nodes| && (nodes[i].res == 20 || oracle.inconsistent(round, nodes[i]))
      modifies `nodes, `leafs, `emitted
      ensures Valid() && nodes == old(Deleted(nodes, i)) && |emitted| == |old(emitted)| + 1
    {
      hide Partition, Satisfiable, Entails;
      CloseKeeps(nodes, emitted, i);
      EnqNewLeaf(i);
      DelNode(i);
    }

    /** Sorts the nodes, then writes the positions again. */
    method SortNodes(phase: Phase)
      requires Valid()
      modifies `nodes
      ensures Valid() && multiset(Bare(nodes)) == multiset(Bare(old(nodes))) && |nodes| == |old(nodes)|
      ensures forall i, j :: 0 <= i < j < |nodes| ==>
                oracle.order(round, phase, nodes[i].(pos := 0)) <= oracle.order(round, phase, nodes[j].(pos := 0))
    {
      hide Partition, Satisfiable, Entails, Sound, Honest;
      var a := new Node[|nodes|](i requires 0 <= i < |nodes| reads this => nodes[i]);
      assert a[..] == nodes;
      var r, key := round, oracle.order;
      Sorting.Sort(a, 0, a.Length, (x: Node, y: Node) => key(r, phase, x.(pos := 0)) < key(r, phase, y.(pos := 0)));
      assert a[..] == a[0..a.Length] && nodes == nodes[0..a.Length];
      PermutedKeeps(nodes, a[..], emitted);
      ghost var sorted := a[..];
      PermutedNodes(nodes, sorted, formula);
      nodes := a[..];
      FixNodesPos();
      SameCubesKeep(sorted, nodes, emitted);
      HonestAgain(formula, sorted, nodes);
      BarePermuted(old(nodes), sorted);
      assert Bare(nodes) == Bare(sorted);
    }

    method FixNodesPos()
      modifies `nodes
      ensures |nodes| == |old(nodes)| && forall i :: 0 <= i < |nodes| ==> nodes[i] == old(nodes[i]).(pos := i)
    {
      for i := 0 to |nodes|
        invariant |nodes| == |old(nodes)|
        invariant forall j :: 0 <= j < |nodes| ==> nodes[j] == if j < i then old(nodes[j]).(pos := j) else old(nodes[j])
      {
        nodes := nodes[i := nodes[i].(pos := i)];
      }
    }

    /** A node after its job, if it gets one. */
    ghost function Ran(phase: Phase, node: Node): Node
      reads this
    {
      if !oracle.inconsistent(round, node) && oracle.chosen(round, phase, node)
      then node.(res := oracle.result(round, phase, node.(state := phase))) else node
    }

    /** Runs a simplification or search job on every chosen node that is not refuted yet. */
    method RunJobs(phase: Phase) returns (ghost sorted: seq<Node>)
      requires Valid() && (phase == Simp || phase == Search)
      modifies `nodes
      ensures Valid() && multiset(Bare(sorted)) == multiset(Bare(old(nodes))) && |nodes| == |sorted|
      ensures forall i :: 0 <= i < |nodes| ==> nodes[i] == Ran(phase, sorted[i])
    {
      hide Partition, Satisfiable, Entails;
      SortNodes(phase);
      sorted := nodes;
      for i := 0 to |nodes|
        invariant |nodes| == |sorted| && Positions(nodes)
        invariant forall j :: 0 <= j < |nodes| ==> nodes[j] == if j < i then Ran(phase, sorted[j]) else sorted[j]
        invariant forall j :: 0 <= j < |nodes| ==> nodes[j].cube == sorted[j].cube && Honest(formula, nodes[j])
      {
        if !oracle.inconsistent(round, nodes[i]) && oracle.chosen(round, phase, nodes[i]) {
          var node := nodes[i].(state := phase);
          node := node.(res := oracle.result(round, phase, node));
          nodes := nodes[i := node.(state := Ready)];
        }
      }
      SameCubesKeep(sorted, nodes, emitted);
    }

    /** Picks the literals to split on. */
    method LookaheadJobs() returns (ghost sorted: seq<Node>)
      requires Valid()
      modifies `nodes
      ensures Valid() && multiset(Bare(sorted)) == multiset(Bare(old(nodes))) && |nodes| == |sorted|
      ensures forall i :: 0 <= i < |nodes| ==> nodes[i] == sorted[i].(lookahead :=
                if oracle.chosen(round, Lkhd, sorted[i]) then oracle.literal(round, sorted[i]) else NoLiteral)
    {
      hide Partition, Satisfiable, Entails;
      SortNodes(Lkhd);
      sorted := nodes;
      for i := 0 to |nodes|
        invariant |nodes| == |sorted| && Positions(nodes)
        invariant forall j :: i <= j < |nodes| ==> nodes[j] == sorted[j]
        invariant forall j :: 0 <= j < i ==> nodes[j] == sorted[j].(lookahead :=
                    if oracle.chosen(round, Lkhd, sorted[j]) then oracle.literal(round, sorted[j]) else NoLiteral)
        invariant forall j :: 0 <= j < |nodes| ==> nodes[j].cube == sorted[j].cube && Honest(formula, nodes[j])
      {
        nodes := nodes[i := nodes[i].(lookahead :=
          if oracle.chosen(round, Lkhd, nodes[i]) then oracle.literal(round, nodes[i]) else NoLiteral)];
      }
      SameCubesKeep(sorted, nodes, emitted);
    }

    /** Extends the node's cube by a literal and opens a child for the complement. */
    method SplitNode(i: nat)
      requires Valid() && i < |nodes| && nodes[i].lookahead.On?
      modifies `nodes, `ids
      ensures Valid() && |nodes| == |old(nodes)| + 1 && (forall j :: 0 <= j < |old(nodes)| && j != i ==> nodes[j] == old(nodes[j]))
      ensures nodes[i] == old(nodes[i]).(cube := old(nodes[i].cube + [nodes[i].lookahead.lit]))
      ensures nodes[|nodes| - 1].cube == old(nodes[i].cube + [nodes[i].lookahead.lit.Neg()])
    {
      hide Partition, Satisfiable, Entails;
      var node := nodes[i].(state := Split);
      var child := Node(ids, |nodes|, node.depth + 1, Ready, 0, NoLiteral, node.cube + [node.lookahead.lit.Neg()]);
      ids := ids + 1;
      node := node.(cube := node.cube + [node.lookahead.lit], state := Ready);
      SplitKeeps(nodes, emitted, i, node.lookahead.lit, node, child);
      SplitHonest(formula, nodes[i], node);
      nodes := nodes[i := node] + [child];
    }

    ghost function AfterSplit(node: Node): Node
      reads this
    {
      if !oracle.inconsistent(round, node) && node.lookahead.On? then node.(cube := node.cube + [node.lookahead.lit]) else node
    }

    /** Splits every node with a literal that is not refuted. */
    method SplitJobs()
      requires Valid()
      modifies `nodes, `ids
      ensures Valid() && |nodes| >= |old(nodes)|
      ensures forall i :: 0 <= i < |old(nodes)| ==> nodes[i] == AfterSplit(old(nodes)[i])
    {
      hide Partition, Satisfiable, Entails, Honest;
      var n := |nodes|;
      for i := 0 to n
        invariant Valid() && |nodes| >= n
        invariant forall j :: 0 <= j < n ==> nodes[j] == if j < i then AfterSplit(old(nodes)[j]) else old(nodes)[j]
      {
        if !oracle.inconsistent(round, nodes[i]) && nodes[i].lookahead.On? {
          SplitNode(i);
        }
      }
    }

    /** The answer so far: 20 if no cube is left, 10 if a node found a model, else what the parallel
        instance says. */
    method Finish() returns (res: nat)
      requires Valid()
      modifies `nodes, `leafs, `emitted
      ensures Valid() && res in {0, 10, 20}
      ensures (res == 20 ==> !Satisfiable(formula)) && (res == 10 ==> Satisfiable(formula))
      ensures (exists i :: 0 <= i < |nodes| && nodes[i].res == 10) ==> res == 10
      ensures nodes == [] ==> res == 20
    {
      hide Partition, Satisfiable, Entails;
      res := Flush();
      if res != 0 { return; }
      for i := 0 to |nodes|
        invariant forall j :: 0 <= j < i ==> nodes[j].res != 10
      {
        if nodes[i].res == 10 { return 10; }
      }
      if !noparallel {
        res := oracle.parallel(round);
      }
    }

    /** The first `rounds` rounds of the main loop; 0 says that there is no answer yet. */
    method Solve(rounds: nat) returns (res: nat)
      requires Valid()
      modifies `nodes, `ids, `round, `leafs, `emitted
      ensures Valid()
      ensures (res == 20 ==> !Satisfiable(formula)) && (res == 10 ==> Satisfiable(formula))
    {
      hide Partition, Satisfiable, Entails, Honest, Sound;
      res := Flush();
      if res != 0 { return; }
      ghost var before := RunJobs(Search);
      for r := 0 to rounds
        invariant Valid() && res == 0
      {
        res := Finish();
        if res != 0 { return; }
        round := round + 1;
        before := RunJobs(Simp);
        res := Flush();
        if res != 0 { return; }
        before := LookaheadJobs();
        SplitJobs();
        res := Flush();
        if res != 0 { return; }
        before := RunJobs(Search);
      }
    }
  }
}
