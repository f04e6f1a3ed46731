/** Variable elimination: resolvents, the flat stack of stored clauses, and how walking that stack
    backwards rebuilds a model. */
module Elimination {
  import opened Logic

  // ---------------------------------------------------------------- merge

  /** The literals of `qs`, apart from those on `v`, whose variables do not occur in `ps`. */
  function Unmatched(qs: Clause, ps: Clause, v: nat): Clause {
    if qs == [] then [] else
      var rest := Unmatched(qs[..|qs| - 1], ps, v);
      var q := qs[|qs| - 1];
      if q.v != v && !HasVarOf(ps, q) then rest + [q] else rest
  }

  predicate HasVarOf(ps: Clause, q: Lit) {
    exists j :: 0 <= j < |ps| && ps[j].v == q.v
  }

  function WithoutVar(ps: Clause, v: nat): Clause {
    if ps == [] then [] else
      var rest := WithoutVar(ps[..|ps| - 1], v);
      if ps[|ps| - 1].v != v then rest + [ps[|ps| - 1]] else rest
  }

  /** Some variable other than `v` occurs with both signs: the resolvent is a tautology. */
  ghost predicate Clash(ps: Clause, qs: Clause, v: nat) {
    exists i, j :: 0 <= i < |qs| && 0 <= j < |ps| && qs[i].v != v && ps[j] == qs[i].Neg()
  }

  /** The resolvent of two clauses on `v`, the shorter one merged into the longer. */
  function Resolvent(ps: Clause, qs: Clause, v: nat): Clause {
    if |ps| < |qs| then Unmatched(ps, qs, v) + WithoutVar(qs, v) else Unmatched(qs, ps, v) + WithoutVar(ps, v)
  }

  lemma {:induction false} UnmatchedLits(qs: Clause, ps: Clause, v: nat)
    ensures forall x :: x in Unmatched(qs, ps, v) <==> x in qs && x.v != v && !HasVarOf(ps, x)
    ensures DistinctVars(qs, 0) ==> DistinctVars(Unmatched(qs, ps, v), 0)
  {
    if qs != [] {
      var init := qs[..|qs| - 1];
      UnmatchedLits(init, ps, v);
      assert qs == init + [qs[|qs| - 1]];
      assert DistinctVars(qs, 0) ==> forall x :: x in init ==> x.v != qs[|qs| - 1].v;
    }
  }

  lemma {:induction false} WithoutVarLits(ps: Clause, v: nat)
    ensures forall x :: x in WithoutVar(ps, v) <==> x in ps && x.v != v
    ensures DistinctVars(ps, 0) ==> DistinctVars(WithoutVar(ps, v), 0)
    ensures DistinctVars(ps, 0) ==> |WithoutVar(ps, v)| == if HasVarOf(ps, MkLit(v)) then |ps| - 1 else |ps|
  {
    if ps != [] {
      var init, last := ps[..|ps| - 1], ps[|ps| - 1];
      WithoutVarLits(init, v);
      assert ps == init + [last];
      HasVarLast(ps, v);
      if DistinctVars(ps, 0) {
        assert forall x :: x in init ==> x.v != last.v;
      }
    }
  }

  lemma HasVarLast(ps: Clause, v: nat)
    requires ps != []
    ensures var init, last := ps[..|ps| - 1], ps[|ps| - 1];
            && (HasVarOf(ps, MkLit(v)) <==> last.v == v || HasVarOf(init, MkLit(v)))
            && (DistinctVars(ps, 0) && last.v == v ==> !HasVarOf(init, MkLit(v)))
  {
    var init := ps[..|ps| - 1];
    if HasVarOf(ps, MkLit(v)) && ps[|ps| - 1].v != v {
      var j :| 0 <= j < |ps| && ps[j].v == v;
      assert init[j].v == v;
    }
    if HasVarOf(init, MkLit(v)) {
      var j :| 0 <= j < |init| && init[j].v == v;
      assert ps[j].v == v;
    }
  }

  /** Without a clash a literal whose variable occurs in the other clause occurs there itself. */
  lemma MatchedSame(a: Clause, b: Clause, v: nat, x: Lit)
    requires !Clash(a, b, v) && x in b && x.v != v && HasVarOf(a, x)
    ensures x in a
  {
    var i :| 0 <= i < |b| && b[i] == x;
    var j :| 0 <= j < |a| && a[j].v == x.v;
    assert a[j] != b[i].Neg();
  }

  /** Without a clash the resolvent holds exactly the literals of both clauses that are not on `v`. */
  lemma ResolventLits(ps: Clause, qs: Clause, v: nat)
    requires !Clash(ps, qs, v)
    ensures forall x :: x in Resolvent(ps, qs, v) <==> (x in ps || x in qs) && x.v != v
  {
    hide Clash, HasVarOf, Unmatched, WithoutVar;
    var a, b := if |ps| < |qs| then qs else ps, if |ps| < |qs| then ps else qs;
    UnmatchedLits(b, a, v);
    WithoutVarLits(a, v);
    ClashSym(ps, qs, v);
    forall x: Lit | x in b && x.v != v && HasVarOf(a, x) ensures x in a {
      MatchedSame(a, b, v, x);
    }
  }

  lemma DistinctConcat(u: Clause, w: Clause)
    requires DistinctVars(u, 0) && DistinctVars(w, 0)
    requires forall x, y :: x in u && y in w ==> x.v != y.v
    ensures DistinctVars(u + w, 0)
  {
    var r := u + w;
    forall j, k | 0 <= j < k < |r| ensures r[j].v != r[k].v {
      if j < |u| <= k {
        assert u[j] in u && w[k - |u|] in w;
      }
    }
  }

  /** ... and each variable once. */
  lemma ResolventDistinct(ps: Clause, qs: Clause, v: nat)
    requires DistinctVars(ps, 0) && DistinctVars(qs, 0)
    ensures DistinctVars(Resolvent(ps, qs, v), 0)
  {
    var a, b := if |ps| < |qs| then qs else ps, if |ps| < |qs| then ps else qs;
    UnmatchedLits(b, a, v);
    WithoutVarLits(a, v);
    var u, w := Unmatched(b, a, v), WithoutVar(a, v);
    hide Unmatched, WithoutVar;
    forall x, y | x in u && y in w ensures x.v != y.v {
      var m :| 0 <= m < |a| && a[m] == y;
    }
    assert Resolvent(ps, qs, v) == u + w;
    DistinctConcat(u, w);
  }

  /** What two clauses with `v` in opposite signs entail. */
  lemma ResolventHolds(A: Assignment, ps: Clause, qs: Clause, v: nat)
    requires !Clash(ps, qs, v) && Sat(A, ps) && Sat(A, qs)
    requires forall k :: 0 <= k < |ps| && ps[k].v == v ==> !ps[k].neg
    requires forall k :: 0 <= k < |qs| && qs[k].v == v ==> qs[k].neg
    ensures Sat(A, Resolvent(ps, qs, v))
  {
    ResolventLits(ps, qs, v);
    var i :| 0 <= i < |ps| && Holds(A, ps[i]);
    var j :| 0 <= j < |qs| && Holds(A, qs[j]);
    if ps[i].v != v {
      SatMember(A, Resolvent(ps, qs, v), ps[i]);
    } else {
      SatMember(A, Resolvent(ps, qs, v), qs[j]);
    }
  }

  /** Looks for the variable of `q` in `ps`. */
  method Match(ps: Clause, q: Lit) returns (clash: bool, found: bool)
    requires DistinctVars(ps, 0)
    ensures clash <==> q.Neg() in ps
    ensures !clash ==> (found <==> HasVarOf(ps, q))
  {
    for j := 0 to |ps|
      invariant forall k :: 0 <= k < j ==> ps[k].v != q.v
    {
      if ps[j].v == q.v {
        if ps[j] == q.Neg() {
          return true, false;
        }
        assert forall k :: 0 <= k < |ps| && k != j ==> ps[k].v != q.v;
        return false, true;
      }
    }
    return false, false;
  }

  /** Returns false if the resolvent is always satisfied. */
  method Merge(ps0: Clause, qs0: Clause, v: nat) returns (ok: bool, outClause: Clause)
    requires DistinctVars(ps0, 0) && DistinctVars(qs0, 0)
    ensures ok <==> !Clash(ps0, qs0, v)
    ensures ok ==> outClause == Resolvent(ps0, qs0, v) && DistinctVars(outClause, 0)
  {
    ResolventDistinct(ps0, qs0, v);
    var ps, qs := ps0, qs0;
    if |ps0| < |qs0| {
      ps, qs := qs0, ps0;
    }
    outClause := [];
    for i := 0 to |qs|
      invariant outClause == Unmatched(qs[..i], ps, v)
      invariant forall k :: 0 <= k < i && qs[k].v != v ==> qs[k].Neg() !in ps
    {
      assert qs[..i + 1][..i] == qs[..i];
      if qs[i].v != v {
        var clash, found := Match(ps, qs[i]);
        if clash {
          ClashAt(ps, qs, v, i);
          ClashSym(ps, qs, v);
          return false, [];
        }
        if !found {
          outClause := outClause + [qs[i]];
        }
      }
    }
    assert qs[..|qs|] == qs;
    ClashSym(ps, qs, v);
    var rest := [];
    for i := 0 to |ps|
      invariant rest == WithoutVar(ps[..i], v)
    {
      assert ps[..i + 1][..i] == ps[..i];
      if ps[i].v != v {
        rest := rest + [ps[i]];
      }
    }
    assert ps[..|ps|] == ps;
    outClause := outClause + rest;
    ok := true;
  }

  /** The size of the resolvent alone, for clauses that contain `v`. */
  method MergeSize(ps0: Clause, qs0: Clause, v: nat) returns (ok: bool, size: int)
    requires DistinctVars(ps0, 0) && DistinctVars(qs0, 0)
    requires HasVarOf(ps0, MkLit(v)) && HasVarOf(qs0, MkLit(v))
    ensures ok <==> !Clash(ps0, qs0, v)
    ensures ok ==> size == |Resolvent(ps0, qs0, v)|
  {
    var ps, qs := ps0, qs0;
    if |ps0| < |qs0| {
      ps, qs := qs0, ps0;
    }
    WithoutVarLits(ps, v);
    size := |ps| - 1;
    for i := 0 to |qs|
      invariant size == |ps| - 1 + |Unmatched(qs[..i], ps, v)|
      invariant forall k :: 0 <= k < i && qs[k].v != v ==> qs[k].Neg() !in ps
    {
      assert qs[..i + 1][..i] == qs[..i];
      if qs[i].v != v {
        var clash, found := Match(ps, qs[i]);
        if clash {
          ClashAt(ps, qs, v, i);
          ClashSym(ps, qs, v);
          return false, size;
        }
        if !found {
          size := size + 1;
        }
      }
    }
    assert qs[..|qs|] == qs;
    ClashSym(ps, qs, v);
    ok := true;
  }

  lemma ClashAt(ps: Clause, qs: Clause, v: nat, i: nat)
    requires i < |qs| && qs[i].v != v && qs[i].Neg() in ps
    ensures Clash(ps, qs, v)
  {
  }

  lemma ClashSym(ps: Clause, qs: Clause, v: nat)
    ensures Clash(ps, qs, v) <==> Clash(qs, ps, v)
  {
    if Clash(ps, qs, v) {
      var i, j :| 0 <= i < |qs| && 0 <= j < |ps| && qs[i].v != v && ps[j] == qs[i].Neg();
      assert qs[i] == ps[j].Neg();
    }
    if Clash(qs, ps, v) {
      var i, j :| 0 <= i < |ps| && 0 <= j < |qs| && ps[i].v != v && qs[j] == ps[i].Neg();
      assert ps[i] == qs[j].Neg();
    }
  }

  // ---------------------------------------------------------------- the stack of stored clauses

  /** The codes of a clause. */
  function Codes(c: Clause): (r: seq<nat>)
    ensures |r| == |c|
  {
    seq(|c|, i requires 0 <= i < |c| => c[i].Code())
  }

  /** The flat form of the stack: the literals of each clause, then its length. */
  function Flat(stack: seq<Clause>): seq<nat> {
    if stack == [] then [] else Flat(stack[..|stack| - 1]) + Codes(stack[|stack| - 1]) + [|stack[|stack| - 1]|]
  }

  ghost predicate StackShape(stack: seq<Clause>, n: nat) {
    forall i :: 0 <= i < |stack| ==> |stack[i]| > 0 && forall k :: 0 <= k < |stack[i]| ==> stack[i][k].v < n
  }

  type Model = seq<LBool>

  /** All literals of `c` from index `from` on are false. */
  ghost predicate FalseFrom(m: Model, c: Clause, from: nat) {
    forall k :: from <= k < |c| ==> c[k].v < |m| && ValueOf(m, c[k]) == False
  }

  /** One stored clause: if all literals but the first are false, the first is made true. */
  ghost function Repaired(m: Model, c: Clause): Model {
    if |c| > 0 && c[0].v < |m| && FalseFrom(m, c, 1) then m[c[0].v := Lifted(c[0])] else m
  }

  /** The stored clauses taken from the top of the stack down. */
  ghost function Rebuilt(stack: seq<Clause>, m: Model): (r: Model)
    ensures |r| == |m|
  {
    if stack == [] then m else Rebuilt(stack[..|stack| - 1], Repaired(m, stack[|stack| - 1]))
  }

  lemma {:induction false} RebuiltAppend(a: seq<Clause>, b: seq<Clause>, m: Model)
    ensures Rebuilt(a + b, m) == Rebuilt(a, Rebuilt(b, m))
  {
    if b == [] {
      assert a + b == a;
    } else {
      var init, last := b[..|b| - 1], b[|b| - 1];
      assert (a + b)[..|a + b| - 1] == a + init && (a + b)[|a + b| - 1] == last;
      RebuiltAppend(a, init, Repaired(m, last));
    }
  }

  lemma FlatAppend(stack: seq<Clause>, c: Clause)
    ensures Flat(stack + [c]) == Flat(stack) + Codes(c) + [|c|]
  {
    assert (stack + [c])[..|stack|] == stack;
  }

  /** Where the topmost of the first `k` clauses lies. */
  lemma FlatTop(stack: seq<Clause>, k: nat)
    requires 0 < k <= |stack|
    ensures
      var base := |Flat(stack[..k - 1])|;
      var c := stack[k - 1];
      && |Flat(stack[..k])| == base + |c| + 1
      && Flat(stack[..k])[base + |c|] == |c|
      && forall j :: 0 <= j < |c| ==> Flat(stack[..k])[base + j] == c[j].Code()
  {
    assert stack[..k][..k - 1] == stack[..k - 1];
  }

  lemma {:induction false} FlatPrefix(stack: seq<Clause>, k: nat)
    requires k <= |stack|
    ensures |Flat(stack[..k])| <= |Flat(stack)| && Flat(stack)[..|Flat(stack[..k])|] == Flat(stack[..k])
    decreases |stack| - k
  {
    if k == |stack| {
      assert stack[..k] == stack;
    } else {
      FlatPrefix(stack, k + 1);
      assert stack[..k + 1][..k] == stack[..k];
      var a, b := Flat(stack[..k]), Flat(stack[..k + 1]);
      assert b[..|a|] == a;
      assert Flat(stack)[..|a|] == Flat(stack)[..|b|][..|a|];
    }
  }

  /** `extendModel`: the walk over the flat stack performs exactly the repairs of the stored clauses,
      from the last to the first. */
  method ExtendModel(elimclauses: seq<nat>, model0: Model, ghost stack: seq<Clause>) returns (model: Model)
    requires elimclauses == Flat(stack) && StackShape(stack, |model0|)
    ensures model == Rebuilt(stack, model0)
  {
    hide Flat, Repaired;
    model := model0;
    var i: int := |elimclauses| - 1;
    ghost var k := |stack|;
    assert stack[..k] == stack;
    while i > 0
      invariant 0 <= k <= |stack| && i + 1 == |Flat(stack[..k])| && |model| == |model0|
      invariant Rebuilt(stack, model0) == Rebuilt(stack[..k], model)
      decreases k
    {
      FlatEnd(stack, k, |model|);
      FlatTop(stack, k);
      assert stack[..k][..k - 1] == stack[..k - 1];
      var j;
      i, j, model := RepairTop(elimclauses, i, model, stack, k);
      i := i - j;
      k := k - 1;
    }
    FlatEnd(stack, k, |model|);
  }

  lemma FlatEnd(stack: seq<Clause>, k: nat, n: nat)
    requires k <= |stack| && StackShape(stack, n)
    ensures |Flat(stack[..k])| <= 1 <==> k == 0
    ensures k == 0 ==> stack[..k] == []
  {
    if k > 0 { FlatTop(stack, k); }
  }

  /** One round of the walk: from the length field at `i0` down to the first literal that is not
      false, or to the front, which is then made true. */
  method RepairTop(elimclauses: seq<nat>, i0: nat, model0: Model, ghost stack: seq<Clause>, ghost k: nat)
    returns (i: int, j: nat, model: Model)
    requires elimclauses == Flat(stack) && StackShape(stack, |model0|) && 0 < k <= |stack|
    requires i0 == |Flat(stack[..k - 1])| + |stack[k - 1]|
    ensures i - j + 1 == |Flat(stack[..k - 1])| && model == Repaired(model0, stack[k - 1])
  {
    hide Flat;
    ghost var c := stack[k - 1];
    ghost var base := |Flat(stack[..k - 1])|;
    model := model0;
    EntryAt(stack, k, |c|);
    i, j := i0 - 1, elimclauses[i0];
    while j > 1
      invariant 1 <= j <= |c| && i == base + j - 1
      invariant FalseFrom(model, c, j)
    {
      EntryAt(stack, k, j - 1);
      if ValueOf(model, ToLit(elimclauses[i])) != False {
        return;
      }
      j := j - 1;
      i := i - 1;
    }
    EntryAt(stack, k, 0);
    var x := ToLit(elimclauses[i]);
    model := model[x.v := Lifted(x)];
  }

  lemma EntryAt(stack: seq<Clause>, k: nat, j: nat)
    requires 0 < k <= |stack| && j <= |stack[k - 1]|
    ensures |Flat(stack[..k - 1])| + j < |Flat(stack)|
    ensures Flat(stack)[|Flat(stack[..k - 1])| + j] == if j < |stack[k - 1]| then stack[k - 1][j].Code() else |stack[k - 1]|
    ensures j < |stack[k - 1]| ==> ToLit(stack[k - 1][j].Code()) == stack[k - 1][j]
  {
    FlatTop(stack, k);
    FlatPrefix(stack, k);
    var b := Flat(stack[..k]);
    assert Flat(stack)[|Flat(stack[..k - 1])| + j] == Flat(stack)[..|b|][|Flat(stack[..k - 1])| + j];
  }

  /** `mkElimClause` for a clause: copies it with the literal on `v` in front, followed by its length. */
  method MkElimClause(elimclauses0: seq<nat>, v: nat, c: Clause, ghost stack: seq<Clause>) returns (elimclauses: seq<nat>, ghost front: Clause)
    requires elimclauses0 == Flat(stack) && DistinctVars(c, 0) && HasVarOf(c, MkLit(v))
    ensures elimclauses == Flat(stack + [front]) && |front| == |c| > 0 && front[0].v == v
    ensures SameLits(c, front) && DistinctVars(front, 0)
  {
    elimclauses := elimclauses0;
    var first := |elimclauses|;
    var vPos: int := -1;
    for i := 0 to |c|
      invariant elimclauses == elimclauses0 + Codes(c[..i])
      invariant vPos == -1 ==> forall k :: 0 <= k < i ==> c[k].v != v
      invariant vPos != -1 ==> first <= vPos < first + i && c[vPos - first].v == v
    {
      assert Codes(c[..i + 1]) == Codes(c[..i]) + [c[i].Code()];
      elimclauses := elimclauses + [c[i].Code()];
      if c[i].v == v {
        vPos := i + first;
      }
    }
    assert c[..|c|] == c;
    ghost var p := vPos - first;
    front := c[0 := c[p]][p := c[0]];
    elimclauses := elimclauses[vPos := elimclauses[first]][first := elimclauses[vPos]];
    assert elimclauses == elimclauses0 + Codes(front);
    FrontLits(c, p);
    FlatAppend(stack, front);
    elimclauses := elimclauses + [|c|];
  }

  lemma FrontLits(c: Clause, p: nat)
    requires p < |c| && DistinctVars(c, 0)
    ensures var d := c[0 := c[p]][p := c[0]]; SameLits(c, d) && DistinctVars(d, 0)
  {
    var d := c[0 := c[p]][p := c[0]];
    assert forall k :: 0 <= k < |c| ==> d[k] == c[if k == 0 then p else if k == p then 0 else k];
    forall k | 0 <= k < |c| ensures c[k] in d {
      assert c[k] == d[if k == 0 then p else if k == p then 0 else k];
    }
  }
}
