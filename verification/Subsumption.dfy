/** `Clause::subsumes`: subsumption and self-subsuming resolution in one pass, behind a
    bit-mask filter. */
module Subsumption {
  import opened Logic
  import opened FiniteSets

  /** `lit_Undef`, `lit_Error`, or the literal to resolve on. */
  datatype Outcome = Subsumed | NoHit | ResolveOn(p: Lit)

  function Bit(v: nat): bv32 {
    (1 as bv32) << (v % 32)
  }

  function Or(x: bv32, y: bv32): bv32 {
    x | y
  }

  /** All bits of `x` are bits of `y`. */
  predicate BitsWithin(x: bv32, y: bv32) {
    x & !y == 0
  }

  /** The variable abstraction of a clause. */
  function Abstraction(c: Clause): bv32 {
    if c == [] then 0 else Or(Abstraction(c[..|c| - 1]), Bit(c[|c| - 1].v))
  }

  method CalcAbstraction(c: Clause) returns (abs: bv32)
    ensures abs == Abstraction(c)
  {
    abs := 0;
    for i := 0 to |c|
      invariant abs == Abstraction(c[..i])
    {
      assert c[..i + 1][..i] == c[..i];
      abs := Or(abs, Bit(c[i].v));
    }
    assert c[..|c|] == c;
  }

  lemma OrWithin(x: bv32, y: bv32, m: bv32)
    requires BitsWithin(x, m) && BitsWithin(y, m)
    ensures BitsWithin(Or(x, y), m)
  {
  }

  lemma WithinOr(x: bv32, m: bv32, y: bv32)
    ensures BitsWithin(x, m) ==> BitsWithin(x, Or(m, y))
    ensures BitsWithin(y, Or(m, y)) && BitsWithin(0, m)
  {
  }

  lemma {:induction false} BitInAbstraction(d: Clause, j: nat)
    requires j < |d|
    ensures BitsWithin(Bit(d[j].v), Abstraction(d))
  {
    hide Bit, Or, BitsWithin;
    var rest, last := d[..|d| - 1], d[|d| - 1];
    WithinOr(Bit(d[j].v), Abstraction(rest), Bit(last.v));
    if j < |rest| {
      BitInAbstraction(rest, j);
    }
  }

  ghost predicate VarsWithin(c: Clause, d: Clause) {
    forall k :: 0 <= k < |c| ==> Mentions(d, c[k].v)
  }

  ghost predicate Mentions(d: Clause, v: nat) {
    exists j :: 0 <= j < |d| && d[j].v == v
  }

  /** The abstraction filter lets every clause pass whose variables all occur in the other. */
  lemma {:induction false} FilterPasses(c: Clause, d: Clause)
    requires VarsWithin(c, d)
    ensures BitsWithin(Abstraction(c), Abstraction(d))
  {
    hide Bit, Or, BitsWithin;
    if c == [] {
      WithinOr(0, Abstraction(d), 0);
    } else {
      var rest, last := c[..|c| - 1], c[|c| - 1];
      FilterPasses(rest, d);
      assert Mentions(d, c[|c| - 1].v);
      var j :| 0 <= j < |d| && d[j].v == last.v;
      BitInAbstraction(d, j);
      OrWithin(Abstraction(rest), Bit(last.v), Abstraction(d));
    }
  }

  ghost function Vars(c: Clause): (r: set<nat>)
    ensures forall v :: v in r <==> Mentions(c, v)
  {
    set k | 0 <= k < |c| :: c[k].v
  }

  lemma {:induction false} VarsSize(c: Clause)
    ensures |Vars(c)| <= |c|
    ensures DistinctVars(c, 0) ==> |Vars(c)| == |c|
  {
    if c != [] {
      var rest, last := c[..|c| - 1], c[|c| - 1];
      VarsSize(rest);
      assert Vars(c) == Vars(rest) + {last.v} by {
        forall v ensures v in Vars(c) <==> v in Vars(rest) + {last.v} {
          if Mentions(c, v) && v != last.v {
            var j :| 0 <= j < |c| && c[j].v == v;
            assert rest[j].v == v;
          }
          if Mentions(rest, v) {
            var j :| 0 <= j < |rest| && rest[j].v == v;
            assert c[j].v == v;
          }
          assert c[|c| - 1].v == last.v;
        }
      }
      if DistinctVars(c, 0) {
        assert forall j :: 0 <= j < |rest| ==> rest[j].v == c[j].v != c[|c| - 1].v;
        assert !Mentions(rest, last.v);
      }
    }
  }

  /** A duplicate-free clause is not longer than one that has all its variables. */
  lemma SizePasses(c: Clause, d: Clause)
    requires DistinctVars(c, 0) && VarsWithin(c, d)
    ensures |c| <= |d|
  {
    VarsSize(c);
    VarsSize(d);
    assert Vars(c) <= Vars(d);
    SubsetSize(Vars(c), Vars(d));
  }

  ghost predicate IsSubset(c: Clause, d: Clause) {
    forall k :: 0 <= k < |c| ==> c[k] in d
  }

  /** Resolving `c` and `d` on `p` removes the complement of `p` from `d`. */
  ghost predicate Strengthens(c: Clause, d: Clause, p: Lit) {
    p in c && p.Neg() in d && forall k :: 0 <= k < |c| ==> c[k] == p || c[k] in d
  }

  lemma SubsetVars(c: Clause, d: Clause)
    requires IsSubset(c, d)
    ensures VarsWithin(c, d)
  {
    forall k | 0 <= k < |c| ensures Mentions(d, c[k].v) {
      var j :| 0 <= j < |d| && d[j] == c[k];
    }
  }

  lemma StrengthensVars(c: Clause, d: Clause, p: Lit)
    requires Strengthens(c, d, p)
    ensures VarsWithin(c, d)
  {
    forall k | 0 <= k < |c| ensures Mentions(d, c[k].v) {
      var q := if c[k] == p then p.Neg() else c[k];
      var j :| 0 <= j < |d| && d[j] == q;
    }
  }

  /** What the first `i` literals of `c` have shown. */
  ghost predicate Scanned(c: Clause, d: Clause, i: nat, ret: Outcome) {
    match ret
    case Subsumed => forall k :: 0 <= k < i <= |c| ==> c[k] in d
    case ResolveOn(p) =>
      && (exists k :: 0 <= k < i <= |c| && c[k] == p) && p.Neg() in d
      && forall k :: 0 <= k < i <= |c| ==> c[k] == p || c[k] in d
    case NoHit => false
  }

  /** A literal with neither itself nor, while nothing has been resolved on, its complement in `d`
      rules out any hit. */
  lemma Miss(c: Clause, d: Clause, i: nat, ret: Outcome)
    requires DistinctVars(c, 0) && DistinctVars(d, 0) && i < |c| && Scanned(c, d, i, ret)
    requires c[i] !in d && (ret.Subsumed? ==> c[i].Neg() !in d)
    ensures !IsSubset(c, d) && forall p :: !Strengthens(c, d, p)
  {
    if ret.ResolveOn? {
      var k :| 0 <= k < i && c[k] == ret.p;
      BothSigns(d, ret.p);
      // `c[k]` is neither in `d` nor the missing literal `c[i]`
      assert c[k] != c[i] && c[k] !in d;
    }
  }

  /** Whether `c` subsumes `d` or can strengthen it. */
  method Subsumes(c: Clause, d: Clause, absC: bv32, absD: bv32) returns (ret: Outcome)
    requires absC == Abstraction(c) && absD == Abstraction(d)
    requires DistinctVars(c, 0) && DistinctVars(d, 0)
    ensures ret == Subsumed <==> IsSubset(c, d)
    ensures forall p :: ret == ResolveOn(p) <==> Strengthens(c, d, p)
  {
    if |d| < |c| || !BitsWithin(absC, absD) {
      Filtered(c, d);
      return NoHit;
    }
    ret := Subsumed;
    for i := 0 to |c|
      invariant Scanned(c, d, i, ret)
    {
      var j := 0;
      var found := ret;
      var hit := false;
      while j < |d| && !hit
        invariant 0 <= j <= |d|
        invariant !hit ==> found == ret && c[i] !in d[..j] && (ret.Subsumed? ==> c[i].Neg() !in d[..j])
        invariant hit ==> (found == ret && c[i] in d) || (ret.Subsumed? && found == ResolveOn(c[i]) && c[i].Neg() in d)
        decreases |d| - j, !hit
      {
        if c[i] == d[j] {
          hit := true;
        } else if ret == Subsumed && c[i] == d[j].Neg() {
          assert d[j] == c[i].Neg();
          found := ResolveOn(c[i]);
          hit := true;
        } else {
          assert ret.Subsumed? ==> d[j] != c[i].Neg();
          j := j + 1;
        }
      }
      if !hit {
        assert d[..j] == d;
        Miss(c, d, i, ret);
        return NoHit;
      }
      ret := found;
    }
    Hit(c, d, ret);
  }

  lemma Filtered(c: Clause, d: Clause)
    requires DistinctVars(c, 0) && (|d| < |c| || !BitsWithin(Abstraction(c), Abstraction(d)))
    ensures !IsSubset(c, d) && forall p :: !Strengthens(c, d, p)
  {
    hide Abstraction, DistinctVars, VarsWithin, IsSubset, Strengthens;
    if VarsWithin(c, d) {
      FilterPasses(c, d);
      SizePasses(c, d);
    }
    if IsSubset(c, d) {
      SubsetVars(c, d);
    }
    forall p ensures !Strengthens(c, d, p) {
      if Strengthens(c, d, p) {
        StrengthensVars(c, d, p);
      }
    }
  }

  lemma Hit(c: Clause, d: Clause, ret: Outcome)
    requires DistinctVars(c, 0) && DistinctVars(d, 0) && Scanned(c, d, |c|, ret)
    ensures ret == Subsumed <==> IsSubset(c, d)
    ensures forall p :: ret == ResolveOn(p) <==> Strengthens(c, d, p)
  {
    forall p: Lit | p.Neg() in d ensures p !in d {
      BothSigns(d, p);
    }
  }

  lemma BothSigns(d: Clause, p: Lit)
    requires DistinctVars(d, 0) && p.Neg() in d
    ensures p !in d
  {
    if p in d {
      DistinctMember(d, p, p.Neg());
    }
  }

  // ---------------------------------------------------------------- what a hit is good for

  /** `d` without its first occurrence of `q`. */
  function Strengthened(d: Clause, q: Lit): Clause {
    if d == [] then [] else if d[0] == q then d[1..] else [d[0]] + Strengthened(d[1..], q)
  }

  lemma {:induction false} StrengthenedLits(d: Clause, q: Lit)
    requires DistinctVars(d, 0)
    ensures forall x :: x in Strengthened(d, q) <==> x in d && x != q
    ensures DistinctVars(Strengthened(d, q), 0)
    ensures |Strengthened(d, q)| == if q in d then |d| - 1 else |d|
  {
    if d != [] {
      var rest := d[1..];
      StrengthenedLits(rest, q);
      assert d == [d[0]] + rest;
      var r := Strengthened(d, q);
      if d[0] == q {
        assert forall k :: 0 <= k < |rest| ==> rest[k] == d[k + 1] != d[0];
      } else {
        forall k | 1 <= k < |r| ensures r[k].v != d[0].v {
          assert r[k] in rest;
          var j :| 0 <= j < |rest| && rest[j] == r[k];
          assert d[j + 1] == r[k];
        }
        forall j, k | 0 <= j < k < |r| ensures r[j].v != r[k].v {
          if j > 0 {
            assert Strengthened(rest, q)[j - 1] == r[j] && Strengthened(rest, q)[k - 1] == r[k];
          }
        }
      }
    }
  }

  /** A subsumed clause says nothing beyond the clause that subsumes it. */
  lemma SubsumedRedundant(A: Assignment, c: Clause, d: Clause)
    requires IsSubset(c, d) && Sat(A, c)
    ensures Sat(A, d)
  {
    SatSubset(A, c, d);
  }

  /** Next to `c`, the strengthened clause is equivalent to `d`. */
  lemma StrengthenEquivalent(A: Assignment, c: Clause, d: Clause, p: Lit)
    requires Strengthens(c, d, p) && Sat(A, c) && DistinctVars(c, 0) && DistinctVars(d, 0)
    ensures Sat(A, d) <==> Sat(A, Strengthened(d, p.Neg()))
  {
    StrengthenedLits(d, p.Neg());
    var e := Strengthened(d, p.Neg());
    if Sat(A, d) {
      var k :| 0 <= k < |d| && Holds(A, d[k]);
      if d[k] != p.Neg() {
        SatMember(A, e, d[k]);
      } else {
        var j :| 0 <= j < |c| && Holds(A, c[j]);
        assert c[j] != p.Neg();
        SatMember(A, e, c[j]);
      }
    }
    if Sat(A, e) {
      SatSubset(A, e, d);
    }
  }
}
