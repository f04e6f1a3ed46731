/** The normalisation of a clause before it is stored: sorted, without literals that are false at
    level 0 and without repetitions. */
module ClauseCleaning {
  import opened Logic
  import opened Sorting

  /** The order on literals, which makes a literal and its complement adjacent. */
  function LitLess(): (Lit, Lit) -> bool {
    (p: Lit, q: Lit) => p.Code() < q.Code()
  }

  lemma LitLessOrder()
    ensures StrictWeakOrder(LitLess())
  {
  }

  ghost predicate Ascending(c: Clause) {
    forall i, j :: 0 <= i < j < |c| ==> c[i].Code() <= c[j].Code()
  }

  /** Sorting a clause keeps its literals. */
  lemma SortedClause(c: Clause, d: Clause)
    requires Rearranged(c, d, 0, |c|) && SortedRange(d, 0, |d|, LitLess())
    ensures SameLits(c, d) && Ascending(d)
  {
    forall k | 0 <= k < |c| ensures d[k] in c && c[k] in d {
      var m := RearrangedFrom(c, d, 0, |c|, k);
      assert Rearranged(d, c, 0, |c|);
      var m' := RearrangedFrom(d, c, 0, |c|, k);
    }
    forall i, j | 0 <= i < j < |d| ensures d[i].Code() <= d[j].Code() {
      assert !LitLess()(d[j], d[i]);
    }
  }

  /** `ks` is `ps` without its false literals and without repetitions; nothing in it is assigned. */
  ghost predicate Cleaned(assigns: seq<LBool>, ps: Clause, ks: Clause) {
    && (forall k :: 0 <= k < |ks| ==> ks[k] in ps && ks[k].v < |assigns| && ValueOf(assigns, ks[k]) == Undef)
    && DistinctVars(ks, 0)
    && (forall i :: 0 <= i < |ps| ==> ps[i] in ks || (ps[i].v < |assigns| && ValueOf(assigns, ps[i]) == False))
  }

  /** The clause holds a true literal or two complementary ones. */
  ghost predicate Obsolete(assigns: seq<LBool>, ps: Clause) {
    || (exists i :: 0 <= i < |ps| && ps[i].v < |assigns| && ValueOf(assigns, ps[i]) == True)
    || (exists i, j :: 0 <= i < |ps| && 0 <= j < |ps| && ps[i] == ps[j].Neg())
  }

  /** `Cleaned` for the first `i` literals of a sorted clause. */
  ghost predicate Cleaning(assigns: seq<LBool>, ps: Clause, ks: Clause, i: nat) {
    && i <= |ps|
    && (forall k :: 0 <= k < |ks| ==> ks[k] in ps && ks[k].v < |assigns| && ValueOf(assigns, ks[k]) == Undef)
    && (forall j, k :: 0 <= j < k < |ks| ==> ks[j].v < ks[k].v)
    && (i < |ps| ==> forall k :: 0 <= k < |ks| ==> ks[k].Code() <= ps[i].Code())
    && (forall k :: 0 <= k < i ==> ps[k] in ks || (ps[k].v < |assigns| && ValueOf(assigns, ps[k]) == False))
  }

  lemma CleanSkip(assigns: seq<LBool>, ps: Clause, ks: Clause, i: nat)
    requires Cleaning(assigns, ps, ks, i) && Ascending(ps) && i < |ps| && ps[i].v < |assigns|
    requires ps[i] in ks || ValueOf(assigns, ps[i]) == False
    ensures Cleaning(assigns, ps, ks, i + 1)
  {
    assert i + 1 < |ps| ==> ps[i].Code() <= ps[i + 1].Code();
  }

  lemma CleanKeep(assigns: seq<LBool>, ps: Clause, ks: Clause, i: nat)
    requires Cleaning(assigns, ps, ks, i) && Ascending(ps) && i < |ps| && ps[i].v < |assigns| && ValueOf(assigns, ps[i]) == Undef
    requires |ks| > 0 ==> ps[i] != ks[|ks| - 1] && ps[i] != ks[|ks| - 1].Neg()
    ensures Cleaning(assigns, ps, ks + [ps[i]], i + 1)
  {
    assert i + 1 < |ps| ==> ps[i].Code() <= ps[i + 1].Code();
    if |ks| > 0 {
      var p, q := ks[|ks| - 1], ps[i];
      assert p.Code() <= q.Code() && p.v != q.v;
    }
    forall k | 0 <= k < |ks| ensures ks[k].v < ps[i].v && ks[k].Code() <= ps[i].Code() {
      assert ks[k].v <= ks[|ks| - 1].v;
    }
    forall k | 0 <= k < i ensures ps[k] in ks + [ps[i]] || (ps[k].v < |assigns| && ValueOf(assigns, ps[k]) == False) {
    }
  }

  lemma CleanDone(assigns: seq<LBool>, ps: Clause, sorted: Clause, ks: Clause)
    requires SameLits(ps, sorted) && Cleaning(assigns, sorted, ks, |sorted|)
    ensures Cleaned(assigns, ps, ks)
  {
  }

  lemma CleanObsolete(assigns: seq<LBool>, ps: Clause, sorted: Clause, ks: Clause, i: nat)
    requires SameLits(ps, sorted) && Cleaning(assigns, sorted, ks, i) && i < |sorted| && sorted[i].v < |assigns|
    requires ValueOf(assigns, sorted[i]) == True || (|ks| > 0 && sorted[i] == ks[|ks| - 1].Neg())
    ensures Obsolete(assigns, ps)
  {
    var j :| 0 <= j < |ps| && ps[j] == sorted[i];
    if ValueOf(assigns, sorted[i]) != True {
      var k :| 0 <= k < |sorted| && sorted[k] == ks[|ks| - 1];
      var m :| 0 <= m < |ps| && ps[m] == sorted[k];
    }
  }

  /** No variable of the clause is assigned or occurs twice, so there is nothing to clean. */
  ghost predicate Clean(assigns: seq<LBool>, ps: Clause) {
    DistinctVars(ps, 0) && forall i :: 0 <= i < |ps| ==> ps[i].v < |assigns| && assigns[ps[i].v] == Undef
  }

  lemma CleanStays(assigns: seq<LBool>, ps: Clause, ks: Clause)
    requires Clean(assigns, ps)
    ensures !Obsolete(assigns, ps)
    ensures Cleaned(assigns, ps, ks) ==> SameLits(ps, ks)
  {
    if Cleaned(assigns, ps, ks) {
      forall i | 0 <= i < |ps| ensures ps[i] in ks {
        assert ValueOf(assigns, ps[i]) == Undef;
      }
      DistinctFits(ps, ks);
      DistinctFits(ks, ps);
    }
  }

  /** Different literals need as many places. */
  lemma {:induction false} DistinctFits(c: Clause, d: Clause)
    requires DistinctVars(c, 0) && forall k :: 0 <= k < |c| ==> c[k] in d
    ensures |c| <= |d|
  {
    if c != [] {
      var last, front := c[|c| - 1], c[..|c| - 1];
      assert c[|c| - 1] in d;
      var j :| 0 <= j < |d| && d[j] == last;
      assert d == d[..j] + [last] + d[j + 1..];
      forall k | 0 <= k < |front| ensures front[k] in d[..j] + d[j + 1..] {
        assert c[k] in d && c[k].v != last.v;
      }
      DistinctFits(front, d[..j] + d[j + 1..]);
    }
  }

  /** The literals of a clause in the order of their codes. */
  method SortClause(ps: Clause) returns (sorted: Clause)
    ensures SameLits(ps, sorted) && Ascending(sorted)
  {
    var a := new Lit[|ps|](i requires 0 <= i < |ps| => ps[i]);
    assert a[..] == ps;
    LitLessOrder();
    Sort(a, 0, a.Length, LitLess());
    sorted := a[..];
    SortedClause(ps, sorted);
  }

  /** Removes false and repeated literals, unless the clause is obsolete. */
  method CleanClause(assigns: seq<LBool>, ps0: Clause) returns (obsolete: bool, ks: Clause)
    requires forall k :: 0 <= k < |ps0| ==> ps0[k].v < |assigns|
    ensures obsolete ==> Obsolete(assigns, ps0)
    ensures !obsolete ==> Cleaned(assigns, ps0, ks)
  {
    hide Cleaning, Cleaned, Obsolete, Ascending;
    var ps := SortClause(ps0);
    ks := [];
    assert Cleaning(assigns, ps, [], 0) by { StartCleaning(assigns, ps); }
    for i := 0 to |ps|
      invariant Cleaning(assigns, ps, ks, i)
    {
      if ValueOf(assigns, ps[i]) == True || (|ks| > 0 && ps[i] == ks[|ks| - 1].Neg()) {
        CleanObsolete(assigns, ps0, ps, ks, i);
        return true, ks;
      } else if ValueOf(assigns, ps[i]) != False && (|ks| == 0 || ps[i] != ks[|ks| - 1]) {
        CleanKeep(assigns, ps, ks, i);
        ks := ks + [ps[i]];
      } else {
        CleanSkip(assigns, ps, ks, i);
      }
    }
    CleanDone(assigns, ps0, ps, ks);
    obsolete := false;
  }

  lemma StartCleaning(assigns: seq<LBool>, ps: Clause)
    ensures Cleaning(assigns, ps, [], 0)
  {
  }
}
