/** Variables, literals, clauses and their meaning under total assignments. */
module Logic {

  /** A literal is a variable with a sign; `neg` is the program's sign bit. */
  datatype Lit = Lit(v: nat, neg: bool) {
    /** The complement `~p`. */
    function Neg(): Lit {
      Lit(v, !neg)
    }

    /** The integer `2 * var + sign` used as an array index and stored in `elimclauses`. */
    function Code(): nat {
      2 * v + if neg then 1 else 0
    }
  }

  function MkLit(v: nat, sign: bool := false): Lit {
    Lit(v, sign)
  }

  /** Inverse of `Code`. */
  function ToLit(x: nat): Lit {
    Lit(x / 2, x % 2 == 1)
  }

  /** The encoding is a bijection between literals and naturals, complement is `x ^ 1`,
      and the variable is `x >> 1`. */
  lemma CodeBijection(p: Lit, x: nat)
    ensures ToLit(p.Code()) == p && ToLit(x).Code() == x
    ensures p.Neg().Code() == if p.Code() % 2 == 0 then p.Code() + 1 else p.Code() - 1
    ensures p.Code() / 2 == p.v && (p.Code() % 2 == 1 <==> p.neg)
  {
  }

  /** Lifted booleans. */
  datatype LBool = True | False | Undef

  function ValueOf(assigns: seq<LBool>, p: Lit): LBool
    requires p.v < |assigns|
  {
    match assigns[p.v]
    case Undef => Undef
    case True => if p.neg then False else True
    case False => if p.neg then True else False
  }

  function Lifted(p: Lit): LBool {
    if p.neg then False else True
  }

  type Clause = seq<Lit>

  /** From index `from` on, no variable occurs twice: no literal is repeated and none meets its
      complement. */
  ghost predicate DistinctVars(c: Clause, from: nat) {
    forall j, k :: from <= j < k < |c| ==> c[j].v != c[k].v
  }

  lemma DistinctMember(d: Clause, x: Lit, y: Lit)
    requires DistinctVars(d, 0) && x in d && y in d && x.v == y.v
    ensures x == y
  {
    var a :| 0 <= a < |d| && d[a] == x;
    var b :| 0 <= b < |d| && d[b] == y;
    assert forall j, k :: 0 <= j < |d| && 0 <= k < |d| && j != k ==> d[j].v != d[k].v;
  }

  /** The two clauses hold the same literals. */
  ghost predicate SameLits(c: Clause, d: Clause) {
    && |c| == |d|
    && (forall k :: 0 <= k < |c| ==> c[k] in d)
    && (forall k :: 0 <= k < |d| ==> d[k] in c)
  }

  /** A total assignment, given as the set of true variables. */
  type Assignment = iset<nat>

  ghost predicate Holds(A: Assignment, p: Lit) {
    (p.v in A) != p.neg
  }

  ghost predicate Sat(A: Assignment, c: Clause) {
    exists k :: 0 <= k < |c| && Holds(A, c[k])
  }

  ghost predicate Models(A: Assignment, F: seq<Clause>) {
    forall i :: 0 <= i < |F| ==> Sat(A, F[i])
  }

  ghost predicate Entails(F: seq<Clause>, c: Clause) {
    forall A: Assignment :: Models(A, F) ==> Sat(A, c)
  }

  ghost predicate Satisfiable(F: seq<Clause>) {
    exists A: Assignment :: Models(A, F)
  }

  lemma ModelsAppend(A: Assignment, F: seq<Clause>, c: Clause)
    ensures Models(A, F + [c]) <==> Models(A, F) && Sat(A, c)
  {
    if Models(A, F + [c]) {
      forall i | 0 <= i < |F| ensures Sat(A, F[i]) {
        assert (F + [c])[i] == F[i];
      }
      assert (F + [c])[|F|] == c;
    }
  }

  lemma SatMember(A: Assignment, c: Clause, p: Lit)
    requires p in c && Holds(A, p)
    ensures Sat(A, c)
  {
    var k :| 0 <= k < |c| && c[k] == p;
    assert Holds(A, c[k]);
  }

  /** The same literals in another order mean the same. */
  lemma SatSubset(A: Assignment, c: Clause, d: Clause)
    requires Sat(A, c)
    requires forall k :: 0 <= k < |c| ==> c[k] in d
    ensures Sat(A, d)
  {
    var k :| 0 <= k < |c| && Holds(A, c[k]);
    SatMember(A, d, c[k]);
  }
}
