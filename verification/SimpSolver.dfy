/** The preprocessor: clause database with occurrence lists, backward subsumption and variable
    elimination at level 0. */
module Preprocessor {
  import opened Logic
  import opened FiniteSets
  import opened ClauseCleaning
  import opened Elimination
  import opened SimpState
  import Subsumption

  /** Which clauses mention a variable; removed clauses are cleaned out on lookup. */
  ghost predicate OccOk(db: Db, occurs: seq<seq<nat>>) {
    && |occurs| == db.n
    && (forall r, k :: Live(db, r) && 0 <= k < |db.ca[r]| ==>
          db.ca[r][k].v < |occurs| && r in occurs[db.ca[r][k].v])
    && (forall v :: 0 <= v < |occurs| ==> OccList(db, occurs[v], v))
  }

  ghost predicate OccList(db: Db, list: seq<nat>, v: nat) {
    && (forall i :: 0 <= i < |list| ==> list[i] < |db.ca| && (Live(db, list[i]) ==> HasVarOf(db.ca[list[i]], MkLit(v))))
    && (forall i, j :: 0 <= i < j < |list| ==> list[i] != list[j])
  }

  /** The literal count of the live clauses among the first `k`. */
  ghost function LiveLits(db: Db, k: nat): nat
    requires k <= |db.ca| == |db.dead|
  {
    if k == 0 then 0 else LiveLits(db, k - 1) + if db.dead[k - 1] then 0 else |db.ca[k - 1]|
  }

  lemma {:induction false} LiveLitsAt(s: Db, t: Db, r: nat, k: nat)
    requires k <= |s.ca| == |s.dead| == |t.ca| == |t.dead| && r < |s.ca| && !s.dead[r]
    requires forall q :: 0 <= q < |s.ca| && q != r ==> t.ca[q] == s.ca[q] && t.dead[q] == s.dead[q]
    requires (t.dead[r] && |s.ca[r]| > 0) || |t.ca[r]| < |s.ca[r]|
    ensures LiveLits(t, k) <= LiveLits(s, k) && (r < k ==> LiveLits(t, k) < LiveLits(s, k))
  {
    if k > 0 { LiveLitsAt(s, t, r, k - 1); }
  }

  lemma {:induction false} LiveLitsSame(s: Db, t: Db, k: nat)
    requires k <= |s.ca| == |s.dead| == |t.ca| == |t.dead| && t.ca == s.ca && t.dead == s.dead
    ensures LiveLits(t, k) == LiveLits(s, k)
  {
    if k > 0 { LiveLitsSame(s, t, k - 1); }
  }

  /** The clauses of a list that are still live. */
  function WithoutDead(list: seq<nat>, dead: seq<bool>): seq<nat>
    requires forall i :: 0 <= i < |list| ==> list[i] < |dead|
  {
    if list == [] then [] else
      var rest := WithoutDead(list[..|list| - 1], dead);
      if dead[list[|list| - 1]] then rest else rest + [list[|list| - 1]]
  }

  lemma {:induction false} WithoutDeadMembers(list: seq<nat>, dead: seq<bool>)
    requires forall i :: 0 <= i < |list| ==> list[i] < |dead|
    ensures forall r :: r in WithoutDead(list, dead) <==> r in list && !dead[r]
    ensures (forall i, j :: 0 <= i < j < |list| ==> list[i] != list[j]) ==>
              forall i, j :: 0 <= i < j < |WithoutDead(list, dead)| ==> WithoutDead(list, dead)[i] != WithoutDead(list, dead)[j]
  {
    if list != [] {
      var init := list[..|list| - 1];
      WithoutDeadMembers(init, dead);
      assert list == init + [list[|list| - 1]];
      assert (forall i, j :: 0 <= i < j < |list| ==> list[i] != list[j]) ==> list[|list| - 1] !in init;
    }
  }

  ghost predicate TrailTrue(trail: seq<Lit>, assigns: seq<LBool>) {
    forall i :: 0 <= i < |trail| ==> trail[i].v < |assigns| && ValueOf(assigns, trail[i]) == True
  }

  ghost function Unassigned(assigns: seq<LBool>): (r: set<nat>)
    ensures forall v :: v in r <==> 0 <= v < |assigns| && assigns[v] == Undef
  {
    set v | v in Below(|assigns|) && assigns[v] == Undef
  }

  /** The stack repairs eliminated variables only. */
  ghost predicate Heads(stack: seq<Clause>, eliminated: seq<bool>) {
    forall i :: 0 <= i < |stack| ==> |stack[i]| > 0 && stack[i][0].v < |eliminated| && eliminated[stack[i][0].v]
  }

  lemma HeadsKept(stack: seq<Clause>, eliminated: seq<bool>, v: nat)
    requires Heads(stack, eliminated) && v < |eliminated|
    ensures Heads(stack, eliminated[v := true])
  {
  }

  lemma {:induction false} RebuiltElsewhere(stack: seq<Clause>, eliminated: seq<bool>, m: Model, v: nat)
    requires Heads(stack, eliminated) && |m| == |eliminated| && v < |m| && !eliminated[v]
    ensures Rebuilt(stack, m)[v] == m[v]
  {
    if stack != [] {
      var init := stack[..|stack| - 1];
      assert forall i :: 0 <= i < |init| ==> init[i] == stack[i];
      RebuiltElsewhere(init, eliminated, Repaired(m, stack[|stack| - 1]), v);
    }
  }

  lemma MoreFormula(F: seq<Clause>, s: Db, ps: Clause)
    requires Sound(F, s)
    ensures Sound(F + [ps], s) && Entails(F + [ps], ps)
  {
    forall A: Assignment | Models(A, F + [ps]) ensures Models(A, F) && Sat(A, ps) {
      ModelsAppend(A, F, ps);
    }
    forall r | Live(s, r) ensures Entails(F + [ps], s.ca[r]) {
      assert Entails(F, s.ca[r]);
    }
    forall v | 0 <= v < |s.assigns| && s.assigns[v] != Undef ensures Entails(F + [ps], [Assigned(s.assigns, v)]) {
      assert Entails(F, [Assigned(s.assigns, v)]);
    }
  }

  lemma MoreRebuilds(F: seq<Clause>, s: Db, t: Db, ps: Clause, stack: seq<Clause>)
    requires Rebuilds(F, s, stack) && Refines(t, s) && Represented(t, ps) && Heads(stack, t.eliminated) && DbShape(t)
    requires forall k :: 0 <= k < |ps| ==> ps[k].v < t.n && !t.eliminated[ps[k].v]
    ensures Rebuilds(F + [ps], t, stack)
  {
    forall m: Model | Total(m, t.eliminated) && DbTrue(m, t) ensures AllTrue(Rebuilt(stack, m), F + [ps]) {
      assert DbTrue(m, s);
      RepresentedTrue(m, t, ps);
      var k :| 0 <= k < |ps| && ps[k].v < |m| && ValueOf(m, ps[k]) == True;
      RebuiltElsewhere(stack, t.eliminated, m, ps[k].v);
      assert ValueOf(Rebuilt(stack, m), ps[k]) == True;
    }
  }

  /** The formula is satisfiable exactly if what is left of it is. */
  lemma Equisatisfiable(F: seq<Clause>, s: Db, stack: seq<Clause>)
    requires DbShape(s) && Sound(F, s) && Rebuilds(F, s, stack)
    ensures Satisfiable(F) <==> exists m: Model :: Total(m, s.eliminated) && DbTrue(m, s)
  {
    if Satisfiable(F) {
      var A: Assignment :| Models(A, F);
      var m: Model := seq(s.n, v requires 0 <= v => if v in A then True else False);
      forall r | Live(s, r) ensures MTrue(m, s.ca[r]) {
        assert Entails(F, s.ca[r]) && Stored(s.n, s.ca[r]);
        var k :| 0 <= k < |s.ca[r]| && Holds(A, s.ca[r][k]);
        assert ValueOf(m, s.ca[r][k]) == True;
      }
      forall v | 0 <= v < s.n && s.assigns[v] != Undef ensures m[v] == s.assigns[v] {
        assert Entails(F, [Assigned(s.assigns, v)]);
        UnitTrue(A, Assigned(s.assigns, v));
      }
      assert Total(m, s.eliminated) && DbTrue(m, s);
    }
    if m: Model :| Total(m, s.eliminated) && DbTrue(m, s) {
      var m2 := Rebuilt(stack, m);
      var A: Assignment := iset v: nat | v < |m2| && m2[v] == True;
      forall i | 0 <= i < |F| ensures Sat(A, F[i]) {
        assert MTrue(m2, F[i]);
        var k :| 0 <= k < |F[i]| && F[i][k].v < |m2| && ValueOf(m2, F[i][k]) == True;
        assert Holds(A, F[i][k]);
      }
      assert Models(A, F);
    }
  }

  lemma RefinesSelf(s: Db)
    ensures Refines(s, s)
    ensures |s.ca| == |s.dead| ==> Grows(s, s)
  {
  }

  lemma AssignedLit(F: seq<Clause>, db: Db, p: Lit)
    requires Sound(F, db) && p.v < |db.assigns| && ValueOf(db.assigns, p) == False
    ensures Entails(F, [p.Neg()])
  {
    assert Assigned(db.assigns, p.v) == p.Neg();
  }

  lemma UnitOcc(s: Db, p: Lit, occurs: seq<seq<nat>>)
    requires p.v < |s.assigns| && OccOk(s, occurs)
    ensures OccOk(WithUnit(s, p), occurs)
    ensures |s.ca| == |s.dead| && s.assigns[p.v] == Undef ==> Grows(s, WithUnit(s, p))
  {
    var t := WithUnit(s, p);
    assert forall r :: Live(t, r) <==> Live(s, r);
    forall v | 0 <= v < |occurs| ensures OccList(t, occurs[v], v) {
      assert OccList(s, occurs[v], v);
    }
  }

  lemma FalseClause(F: seq<Clause>, db: Db, c: Clause)
    requires Sound(F, db) && Entails(F, c) && forall k :: 0 <= k < |c| ==> c[k].v < |db.assigns| && ValueOf(db.assigns, c[k]) == False
    ensures !Satisfiable(F)
  {
    forall A: Assignment ensures !Models(A, F) {
      if Models(A, F) {
        var k :| 0 <= k < |c| && Holds(A, c[k]);
        AssignedLit(F, db, c[k]);
        UnitTrue(A, c[k].Neg());
      }
    }
  }

  lemma UnassignedStep(assigns: seq<LBool>, p: Lit)
    requires p.v < |assigns| && assigns[p.v] == Undef
    ensures p.v in Unassigned(assigns)
  {
  }

  lemma EnqueuedUnit(a: seq<LBool>, b: seq<LBool>, s: Db, t: Db, p: Lit)
    requires s.assigns == a && t.assigns == b && Grows(s, t) && p.v < |a| && a[p.v] == Undef && ValueOf(b, p) == True
    ensures |Unassigned(b)| < |Unassigned(a)|
  {
    assert Unassigned(b) <= Unassigned(a) - {p.v};
    SubsetSize(Unassigned(b), Unassigned(a) - {p.v});
  }

  lemma ShapeSizes(s: Db, occurs: seq<seq<nat>>)
    requires DbShape(s) && OccOk(s, occurs)
    ensures |occurs| == |s.assigns| == |s.eliminated| == s.n && |s.ca| == |s.dead|
    ensures forall r :: Live(s, r) ==> Stored(s.n, s.ca[r])
    ensures forall v, i :: 0 <= v < s.n && 0 <= i < |occurs[v]| ==> occurs[v][i] < |s.ca|
  {
    forall v, i | 0 <= v < s.n && 0 <= i < |occurs[v]| ensures occurs[v][i] < |s.ca| {
      assert OccList(s, occurs[v], v);
    }
  }

  lemma ObsoleteRepresented(s: Db, ps: Clause)
    requires Obsolete(s.assigns, ps)
    ensures Represented(s, ps)
  {
  }

  lemma UnitRepresented(s: Db, ps: Clause, p: Lit)
    requires p in ps && p.v < |s.assigns| && ValueOf(s.assigns, p) == True
    ensures Represented(s, ps)
  {
    var i :| 0 <= i < |ps| && ps[i] == p;
    assert ValueOf(s.assigns, ps[i]) == True;
  }

  lemma StoredRepresented(s: Db, r: nat, ks: Clause, ps: Clause)
    requires Live(s, r) && s.ca[r] == ks && forall k :: 0 <= k < |ks| ==> ks[k] in ps
    ensures Represented(s, ps)
  {
    assert Within(s.ca[r], ps);
  }

  lemma CleanedLits(assigns: seq<LBool>, ps: Clause, ks: Clause)
    requires Cleaned(assigns, ps, ks)
    ensures DistinctVars(ks, 0) && forall k :: 0 <= k < |ks| ==> ks[k] in ps && ks[k].v < |assigns|
    ensures forall v :: HasVarOf(ks, MkLit(v)) ==> HasVarOf(ps, MkLit(v))
  {
    forall v | HasVarOf(ks, MkLit(v)) ensures HasVarOf(ps, MkLit(v)) {
      var j :| 0 <= j < |ks| && ks[j].v == v;
      var i :| 0 <= i < |ps| && ps[i] == ks[j];
    }
  }

  lemma CleanedEntailed(F: seq<Clause>, s: Db, ps: Clause, ks: Clause)
    requires Sound(F, s) && Entails(F, ps) && Cleaned(s.assigns, ps, ks)
    ensures Entails(F, ks)
    ensures |ks| == 0 ==> !Satisfiable(F)
  {
    forall A: Assignment | Models(A, F) ensures Sat(A, ks) {
      var i :| 0 <= i < |ps| && Holds(A, ps[i]);
      if ps[i] in ks {
        SatMember(A, ks, ps[i]);
      } else {
        AssignedLit(F, s, ps[i]);
        UnitTrue(A, ps[i].Neg());
      }
    }
    if |ks| == 0 {
      assert forall A: Assignment :: !Sat(A, ks);
    }
  }

  /** The occurrence lists once the first `k` literals of clause `cr` have been entered. */
  ghost function Entered(occurs: seq<seq<nat>>, c: Clause, cr: nat, k: nat): seq<seq<nat>>
    requires k <= |c| && forall i :: 0 <= i < |c| ==> c[i].v < |occurs|
  {
    seq(|occurs|, v requires 0 <= v < |occurs| && k <= |c| =>
      if exists j :: 0 <= j < k && c[j].v == v then occurs[v] + [cr] else occurs[v])
  }

  lemma EnteredAt(occurs: seq<seq<nat>>, c: Clause, cr: nat, i: nat)
    requires DistinctVars(c, 0) && i < |c| && forall k :: 0 <= k < |c| ==> c[k].v < |occurs|
    ensures
      var e := Entered(occurs, c, cr, i);
      Entered(occurs, c, cr, i + 1) == e[c[i].v := e[c[i].v] + [cr]]
  {
    var e, e' := Entered(occurs, c, cr, i), Entered(occurs, c, cr, i + 1);
    forall v | 0 <= v < |occurs| ensures e'[v] == e[c[i].v := e[c[i].v] + [cr]][v] {
      if v == c[i].v {
        assert !exists j :: 0 <= j < i && c[j].v == v;
      }
    }
  }

  lemma StoredGrows(s: Db, c: Clause)
    requires DbShape(s)
    ensures Grows(s, WithStored(s, c))
  {
  }

  lemma StoredOcc(s: Db, c: Clause, occurs: seq<seq<nat>>)
    requires DbShape(s) && OccOk(s, occurs) && Stored(s.n, c)
    ensures |occurs| == s.n && OccOk(WithStored(s, c), Entered(occurs, c, |s.ca|, |c|))
    ensures Entered(occurs, c, |s.ca|, 0) == occurs
    ensures forall v :: 0 <= v < s.n && !HasVarOf(c, MkLit(v)) ==> Entered(occurs, c, |s.ca|, |c|)[v] == occurs[v]
  {
    var t := WithStored(s, c);
    var e := Entered(occurs, c, |s.ca|, |c|);
    assert forall r :: Live(s, r) ==> Live(t, r) && t.ca[r] == s.ca[r];
    forall r, k | Live(t, r) && 0 <= k < |t.ca[r]| ensures t.ca[r][k].v < |e| && r in e[t.ca[r][k].v] {
      if r < |s.ca| {
        assert Live(s, r) && t.ca[r] == s.ca[r];
        assert r in occurs[s.ca[r][k].v];
      } else {
        assert c[k].v == t.ca[r][k].v;
      }
    }
    forall v | 0 <= v < |e| ensures OccList(t, e[v], v) {
      EnteredList(s, c, occurs, v);
    }
  }

  lemma EnteredList(s: Db, c: Clause, occurs: seq<seq<nat>>, v: nat)
    requires DbShape(s) && OccOk(s, occurs) && Stored(s.n, c) && v < |occurs|
    ensures OccList(WithStored(s, c), Entered(occurs, c, |s.ca|, |c|)[v], v)
  {
    var t := WithStored(s, c);
    assert OccList(s, occurs[v], v);
    var list := Entered(occurs, c, |s.ca|, |c|)[v];
    forall i | 0 <= i < |list| ensures list[i] < |t.ca| && (Live(t, list[i]) ==> HasVarOf(t.ca[list[i]], MkLit(v))) {
      if i < |occurs[v]| {
        assert list[i] == occurs[v][i];
        assert Live(t, list[i]) ==> Live(s, list[i]);
      }
    }
  }

  lemma LookupOcc(s: Db, occurs: seq<seq<nat>>, v: nat)
    requires OccOk(s, occurs) && v < |occurs| && |s.ca| == |s.dead|
    requires forall i :: 0 <= i < |occurs[v]| ==> occurs[v][i] < |s.dead|
    ensures OccOk(s, occurs[v := WithoutDead(occurs[v], s.dead)])
  {
    var o := occurs[v := WithoutDead(occurs[v], s.dead)];
    assert OccList(s, occurs[v], v);
    WithoutDeadMembers(occurs[v], s.dead);
    forall u | 0 <= u < |o| ensures OccList(s, o[u], u) {
      assert OccList(s, occurs[u], u);
      if u == v {
        forall i | 0 <= i < |o[v]| ensures o[v][i] < |s.ca| && (Live(s, o[v][i]) ==> HasVarOf(s.ca[o[v][i]], MkLit(v))) {
          assert o[v][i] in occurs[v];
        }
      }
    }
    forall r, k | Live(s, r) && 0 <= k < |s.ca[r]| ensures s.ca[r][k].v < |o| && r in o[s.ca[r][k].v] {
      assert r in occurs[s.ca[r][k].v];
    }
  }

  /** `list` without its first `x`. */
  function Removed(list: seq<nat>, x: nat): seq<nat> {
    if list == [] then [] else if list[0] == x then list[1..] else [list[0]] + Removed(list[1..], x)
  }

  lemma {:induction false} RemovedMembers(list: seq<nat>, x: nat)
    requires forall i, j :: 0 <= i < j < |list| ==> list[i] != list[j]
    ensures forall r :: r in Removed(list, x) <==> r in list && r != x
    ensures forall i, j :: 0 <= i < j < |Removed(list, x)| ==> Removed(list, x)[i] != Removed(list, x)[j]
  {
    if list != [] {
      RemovedMembers(list[1..], x);
      assert list == [list[0]] + list[1..];
      assert list[0] !in list[1..];
    }
  }

  lemma GrowsKeeps(s: Db, t: Db)
    requires Grows(s, t)
    ensures |s.ca| <= |t.ca| && (|s.ca| == |t.ca| ==> t.ca == s.ca && t.dead == s.dead)
    ensures forall v :: 0 <= v < |s.assigns| && s.assigns[v] != Undef ==> v < |t.assigns| && t.assigns[v] == s.assigns[v]
  {
  }

  lemma StrengthenedStored(s: Db, cr: nat, l: Lit)
    requires DbShape(s) && Live(s, cr) && l in s.ca[cr]
    ensures
      var c := Subsumption.Strengthened(s.ca[cr], l);
      && Within(c, s.ca[cr]) && l !in c && |c| + 1 == |s.ca[cr]| && |s.ca[cr]| >= 2
      && (forall k :: 0 <= k < |c| ==> c[k] in s.ca[cr] && c[k].v < s.n)
      && (|c| >= 2 ==> Stored(s.n, c))
      && l.v < s.n && (forall x :: x in s.ca[cr] && x != l ==> x in c)
  {
    assert Stored(s.n, s.ca[cr]);
    Subsumption.StrengthenedLits(s.ca[cr], l);
    var c := Subsumption.Strengthened(s.ca[cr], l);
    var i :| 0 <= i < |s.ca[cr]| && s.ca[cr][i] == l;
    forall k | 0 <= k < |c| ensures c[k] in s.ca[cr] && c[k].v < s.n {
      assert c[k] in c;
      var j :| 0 <= j < |s.ca[cr]| && s.ca[cr][j] == c[k];
    }
    assert l !in c;
  }

  /** Removing a clause keeps everything but its own meaning. */
  lemma DeadKeeps(F: seq<Clause>, s: Db, cr: nat, c: Clause, occurs: seq<seq<nat>>)
    requires DbShape(s) && NoneEliminated(s, -1) && Sound(F, s) && OccOk(s, occurs) && Live(s, cr)
    ensures
      var t := WithDead(s.(ca := s.ca[cr := c]), cr);
      DbShape(t) && NoneEliminated(t, -1) && Sound(F, t) && OccOk(t, occurs)
  {
    var t := WithDead(s.(ca := s.ca[cr := c]), cr);
    forall r | Live(t, r) ensures Live(s, r) && t.ca[r] == s.ca[r] {
    }
    forall v | 0 <= v < |occurs| ensures OccList(t, occurs[v], v) {
      assert OccList(s, occurs[v], v);
    }
  }

  /** A binary clause is replaced by one of its literals. */
  lemma UnitReplaces(s: Db, t: Db, u: Db, cr: nat, c: Clause, p: Lit)
    requires DbShape(s) && NoneEliminated(s, -1) && Live(s, cr) && p in s.ca[cr] && Refines(u, t) && u.n == s.n && |u.assigns| == u.n
    requires t == WithDead(s.(ca := s.ca[cr := c]), cr)
    requires p.v < |u.assigns| && ValueOf(u.assigns, p) == True
    ensures Refines(u, s)
  {
    var k :| 0 <= k < |s.ca[cr]| && s.ca[cr][k] == p;
    assert !s.eliminated[p.v];
    forall m: Model | Total(m, u.eliminated) && DbTrue(m, u) ensures DbTrue(m, s) {
      assert DbTrue(m, t);
      assert m[p.v] == u.assigns[p.v];
      forall r | Live(s, r) ensures MTrue(m, s.ca[r]) {
        if r == cr {
          assert ValueOf(m, s.ca[cr][k]) == True;
        } else {
          assert Live(t, r) && t.ca[r] == s.ca[r];
        }
      }
    }
  }

  lemma ShortenedOcc(s: Db, cr: nat, l: Lit, c: Clause, occurs: seq<seq<nat>>)
    requires DbShape(s) && OccOk(s, occurs) && Live(s, cr) && l in s.ca[cr] && l.v < s.n
    requires Stored(s.n, c) && Within(c, s.ca[cr]) && l !in c && forall x :: x in s.ca[cr] && x != l ==> x in c
    ensures OccOk(WithShorter(s, cr, c), occurs[l.v := Removed(occurs[l.v], cr)])
  {
    var t := WithShorter(s, cr, c);
    var o := occurs[l.v := Removed(occurs[l.v], cr)];
    assert OccList(s, occurs[l.v], l.v);
    RemovedMembers(occurs[l.v], cr);
    NoVarLeft(s, cr, l, c);
    forall r, k | Live(t, r) && 0 <= k < |t.ca[r]| ensures t.ca[r][k].v < |o| && r in o[t.ca[r][k].v] {
      assert Live(s, r);
      if r == cr {
        var j :| 0 <= j < |s.ca[cr]| && s.ca[cr][j] == c[k];
        assert r in occurs[s.ca[cr][j].v];
      } else {
        assert r in occurs[s.ca[r][k].v];
      }
    }
    forall v | 0 <= v < |o| ensures OccList(t, o[v], v) {
      ShortenedList(s, cr, l, c, occurs, v);
    }
  }

  lemma NoVarLeft(s: Db, cr: nat, l: Lit, c: Clause)
    requires DbShape(s) && Live(s, cr) && l in s.ca[cr] && Within(c, s.ca[cr]) && l !in c
    ensures forall k :: 0 <= k < |c| ==> c[k].v != l.v
  {
    assert Stored(s.n, s.ca[cr]);
    forall k | 0 <= k < |c| ensures c[k].v != l.v {
      if c[k].v == l.v {
        DistinctMember(s.ca[cr], c[k], l);
      }
    }
  }

  lemma ShortenedList(s: Db, cr: nat, l: Lit, c: Clause, occurs: seq<seq<nat>>, v: nat)
    requires DbShape(s) && OccOk(s, occurs) && Live(s, cr) && l.v < s.n && v < s.n
    requires forall x :: x in s.ca[cr] && x != l ==> x in c
    ensures OccList(WithShorter(s, cr, c), occurs[l.v := Removed(occurs[l.v], cr)][v], v)
  {
    var t := WithShorter(s, cr, c);
    var list := occurs[l.v := Removed(occurs[l.v], cr)][v];
    assert OccList(s, occurs[v], v);
    if v == l.v { RemovedMembers(occurs[v], cr); }
    forall i | 0 <= i < |list| ensures list[i] < |t.ca| && (Live(t, list[i]) ==> HasVarOf(t.ca[list[i]], MkLit(v))) {
      assert list[i] in list;
      assert list[i] in occurs[v];
      if Live(t, list[i]) {
        assert Live(s, list[i]);
        if list[i] == cr {
          var j :| 0 <= j < |s.ca[cr]| && s.ca[cr][j].v == v;
          assert s.ca[cr][j] in c;
          var k :| 0 <= k < |c| && c[k] == s.ca[cr][j];
        }
      }
    }
  }

  /** Clause `c` is part of the database: a live clause, or a true literal. */
  ghost predicate Holding(s: Db, c: Clause, cr: int) {
    || (Live(s, cr) && s.ca[cr] == c)
    || (cr == -1 && |c| == 1 && c[0].v < |s.assigns| && ValueOf(s.assigns, c[0]) == True)
  }

  lemma UnitHolding(s: Db, p: Lit)
    requires p.v < |s.assigns| && ValueOf(s.assigns, p) == True
    ensures Holding(s, [p], -1)
  {
  }

  lemma ClauseHolding(s: Db, cr: nat)
    requires Live(s, cr)
    ensures Holding(s, s.ca[cr], cr)
  {
  }

  lemma HoldingShape(s: Db, c: Clause, cr: int)
    requires DbShape(s) && Holding(s, c, cr)
    ensures DistinctVars(c, 0) && |c| > 0 && forall k :: 0 <= k < |c| ==> c[k].v < s.n
    ensures cr < |s.ca|
  {
    if cr != -1 {
      assert Stored(s.n, s.ca[cr]);
    }
  }

  lemma LiveShape(s: Db, r: nat)
    requires DbShape(s) && Live(s, r)
    ensures DistinctVars(s.ca[r], 0) && |s.ca[r]| >= 2
  {
    assert Stored(s.n, s.ca[r]);
  }

  lemma HoldingKept(s: Db, t: Db, c: Clause, cr: int, r: nat)
    requires Holding(s, c, cr) && r != cr && |s.ca| == |s.dead| == |t.ca| == |t.dead|
    requires forall q :: 0 <= q < |s.ca| && q != r ==> t.ca[q] == s.ca[q] && t.dead[q] == s.dead[q]
    requires forall v :: 0 <= v < |s.assigns| && s.assigns[v] != Undef ==> v < |t.assigns| && t.assigns[v] == s.assigns[v]
    ensures Holding(t, c, cr)
  {
  }

  lemma SubsumedDrop(F: seq<Clause>, s: Db, c: Clause, cr: int, r: nat, occurs: seq<seq<nat>>)
    requires DbShape(s) && NoneEliminated(s, -1) && Sound(F, s) && OccOk(s, occurs) && Holding(s, c, cr) && Live(s, r) && r != cr
    requires Subsumption.IsSubset(c, s.ca[r])
    ensures
      var t := WithDead(s, r);
      && DbShape(t) && NoneEliminated(t, -1) && Sound(F, t) && OccOk(t, occurs) && Refines(t, s) && Holding(t, c, cr)
  {
    var t := WithDead(s, r);
    assert Represented(t, s.ca[r]) by {
      if cr == -1 {
        var i :| 0 <= i < |s.ca[r]| && s.ca[r][i] == c[0];
        assert ValueOf(t.assigns, s.ca[r][i]) == True;
      } else {
        assert Live(t, cr) && Within(t.ca[cr], s.ca[r]);
      }
    }
    DropStep(F, s, r, -1);
    DeadKeeps(F, s, r, s.ca[r], occurs);
    assert s.(ca := s.ca[r := s.ca[r]]) == s;
  }

  lemma ResolveEntailed(F: seq<Clause>, s: Db, c: Clause, cr: int, r: nat, l: Lit)
    requires DbShape(s) && Sound(F, s) && Holding(s, c, cr) && Live(s, r) && Subsumption.Strengthens(c, s.ca[r], l)
    ensures l.Neg() in s.ca[r] && Entails(F, Subsumption.Strengthened(s.ca[r], l.Neg()))
  {
    HoldingShape(s, c, cr);
    LiveShape(s, r);
    var d := s.ca[r];
    assert Entails(F, d);
    HoldingEntailed(F, s, c, cr);
    forall A: Assignment | Models(A, F) ensures Sat(A, Subsumption.Strengthened(d, l.Neg())) {
      Subsumption.StrengthenEquivalent(A, c, d, l);
    }
  }

  lemma HoldingEntailed(F: seq<Clause>, s: Db, c: Clause, cr: int)
    requires Sound(F, s) && Holding(s, c, cr)
    ensures Entails(F, c)
  {
    if cr == -1 {
      assert Assigned(s.assigns, c[0].v) == c[0];
      assert c == [c[0]];
    }
  }

  lemma OtherSign(c: Clause, v: nat)
    requires HasVarOf(c, MkLit(v)) && MkLit(v) !in c
    ensures MkLit(v, true) in c
  {
    var j :| 0 <= j < |c| && c[j].v == v;
    assert c[j] == MkLit(v, true);
  }

  lemma SideClause(s: Db, rs: seq<nat>, w: Lit, i: nat)
    requires DbShape(s) && OneSide(s, rs, w) && i < |rs|
    ensures rs[i] < |s.ca| && Live(s, rs[i]) && DistinctVars(s.ca[rs[i]], 0) && HasVarOf(s.ca[rs[i]], MkLit(w.v)) && w in s.ca[rs[i]]
    ensures forall k :: 0 <= k < |s.ca[rs[i]]| ==> s.ca[rs[i]][k].v < s.n
    ensures forall k :: 0 <= k < |s.ca[rs[i]]| && s.ca[rs[i]][k].v == w.v ==> s.ca[rs[i]][k] == w
  {
    var c := s.ca[rs[i]];
    assert Live(s, rs[i]) && Stored(s.n, c);
    var j :| 0 <= j < |c| && c[j] == w;
    forall k | 0 <= k < |c| && c[k].v == w.v ensures c[k] == w {
      DistinctMember(c, c[k], w);
    }
  }

  lemma SideRefs(s: Db, rs: seq<nat>, w: Lit)
    requires OneSide(s, rs, w)
    ensures forall i :: 0 <= i < |rs| ==> rs[i] < |s.ca|
  {
    forall i | 0 <= i < |rs| ensures rs[i] < |s.ca| {
      assert Live(s, rs[i]);
    }
  }

  /** No resolvent of `p` with the first `k` clauses of `neg` is longer than the limit. */
  ghost predicate RowShort(ca: seq<Clause>, p: Clause, neg: seq<nat>, v: nat, lim: int, k: nat)
    requires k <= |neg| && forall j :: 0 <= j < |neg| ==> neg[j] < |ca|
  {
    lim != -1 ==> forall b :: 0 <= b < k && !Clash(p, ca[neg[b]], v) ==> |Resolvent(p, ca[neg[b]], v)| <= lim
  }

  /** How many clauses of `neg` have a resolvent with `p`, and all of `pos` together. */
  ghost function RowCount(ca: seq<Clause>, p: Clause, neg: seq<nat>, v: nat, k: nat): nat
    requires k <= |neg| && forall j :: 0 <= j < |neg| ==> neg[j] < |ca|
  {
    if k == 0 then 0 else RowCount(ca, p, neg, v, k - 1) + if Clash(p, ca[neg[k - 1]], v) then 0 else 1
  }

  ghost function AllCount(ca: seq<Clause>, pos: seq<nat>, neg: seq<nat>, v: nat, k: nat): nat
    requires k <= |pos| && (forall j :: 0 <= j < |neg| ==> neg[j] < |ca|) && (forall i :: 0 <= i < |pos| ==> pos[i] < |ca|)
  {
    if k == 0 then 0 else AllCount(ca, pos, neg, v, k - 1) + RowCount(ca, ca[pos[k - 1]], neg, v, |neg|)
  }

  /** The resolvents are too many, or one of them is too long. */
  ghost predicate Costly(ca: seq<Clause>, pos: seq<nat>, neg: seq<nat>, v: nat, most: int, lim: int)
    requires (forall j :: 0 <= j < |neg| ==> neg[j] < |ca|) && (forall i :: 0 <= i < |pos| ==> pos[i] < |ca|)
  {
    || (AllCount(ca, pos, neg, v, |pos|) > most && AllCount(ca, pos, neg, v, |pos|) > 0)
    || exists i :: 0 <= i < |pos| && !RowShort(ca, ca[pos[i]], neg, v, lim, |neg|)
  }

  lemma {:induction false} RowGrows(ca: seq<Clause>, p: Clause, neg: seq<nat>, v: nat, j: nat, k: nat)
    requires j <= k <= |neg| && forall j :: 0 <= j < |neg| ==> neg[j] < |ca|
    ensures RowCount(ca, p, neg, v, j) <= RowCount(ca, p, neg, v, k)
    decreases k - j
  {
    if j < k { RowGrows(ca, p, neg, v, j, k - 1); }
  }

  lemma {:induction false} AllGrows(ca: seq<Clause>, pos: seq<nat>, neg: seq<nat>, v: nat, i: nat, k: nat)
    requires i <= k <= |pos| && (forall j :: 0 <= j < |neg| ==> neg[j] < |ca|) && (forall i :: 0 <= i < |pos| ==> pos[i] < |ca|)
    ensures AllCount(ca, pos, neg, v, i) <= AllCount(ca, pos, neg, v, k)
    decreases k - i
  {
    hide RowCount;
    if i < k { AllGrows(ca, pos, neg, v, i, k - 1); }
  }

  lemma FrontIs(s: Db, rs: seq<nat>, i: nat, front: Clause, w: Lit, stack: seq<Clause>)
    requires DbShape(s) && OneSide(s, rs, w) && i < |rs| && rs[i] < |s.ca| && StackShape(stack, s.n)
    requires SameLits(s.ca[rs[i]], front) && |front| > 0 && front[0].v == w.v
    ensures front[0] == w && StackShape(stack + [front], s.n)
  {
    SideClause(s, rs, w, i);
    var c := s.ca[rs[i]];
    assert front[0] in c;
    var j :| 0 <= j < |c| && c[j] == front[0];
    forall k | 0 <= k < |front| ensures front[k].v < s.n {
      var m :| 0 <= m < |c| && c[m] == front[k];
    }
  }

  lemma UnitCodes(stack: seq<Clause>, p: Lit)
    ensures Flat(stack + [[p]]) == Flat(stack) + [p.Code(), 1]
  {
    FlatAppend(stack, [p]);
    assert Codes([p]) == [p.Code()];
  }

  lemma GrowsAt(s: Db, t: Db, a: nat, b: nat)
    requires Grows(s, t) && a < |s.ca| && b < |s.ca|
    ensures |s.ca| <= |t.ca| && t.ca[a] == s.ca[a] && t.ca[b] == s.ca[b]
  {
  }

  lemma GrowsPairs(s: Db, t: Db, ca: seq<Clause>, pos: seq<nat>, neg: seq<nat>, v: nat)
    requires Grows(s, t) && (forall i :: 0 <= i < |pos| ==> pos[i] < |ca|) && (forall j :: 0 <= j < |neg| ==> neg[j] < |ca|)
    ensures forall a, b :: 0 <= a < |pos| && 0 <= b < |neg| && PairDone(s, ca[pos[a]], ca[neg[b]], v) ==> PairDone(t, ca[pos[a]], ca[neg[b]], v)
  {
    forall a, b | 0 <= a < |pos| && 0 <= b < |neg| && PairDone(s, ca[pos[a]], ca[neg[b]], v)
      ensures PairDone(t, ca[pos[a]], ca[neg[b]], v)
    {
      if !Clash(ca[pos[a]], ca[neg[b]], v) {
        GrowsRepresented(s, t, Resolvent(ca[pos[a]], ca[neg[b]], v));
      }
    }
  }

  /** A resolvent is entailed, and free of `v` and of eliminated variables. */
  lemma ResolventFacts(F: seq<Clause>, s: Db, t: Db, pos: seq<nat>, neg: seq<nat>, v: nat, i: nat, j: nat)
    requires DbShape(s) && OneSide(s, pos, MkLit(v)) && OneSide(s, neg, MkLit(v, true)) && i < |pos| && j < |neg|
    requires Grows(s, t) && DbShape(t) && NoneEliminated(t, v) && Sound(F, t)
    requires pos[i] < |s.ca| && neg[j] < |s.ca| && !Clash(s.ca[pos[i]], s.ca[neg[j]], v)
    ensures
      var r := Resolvent(s.ca[pos[i]], s.ca[neg[j]], v);
      && Entails(F, r) && (forall k :: 0 <= k < |r| ==> r[k].v < t.n && !t.eliminated[r[k].v])
      && !HasVarOf(r, MkLit(v))
  {
    SideClause(s, pos, MkLit(v), i);
    SideClause(s, neg, MkLit(v, true), j);
    var p, q := s.ca[pos[i]], s.ca[neg[j]];
    assert Live(t, pos[i]) && t.ca[pos[i]] == p && Live(t, neg[j]) && t.ca[neg[j]] == q;
    assert Entails(F, p) && Entails(F, q);
    var r := Resolvent(p, q, v);
    forall A: Assignment | Models(A, F) ensures Sat(A, r) {
      ResolventHolds(A, p, q, v);
    }
    ResolventLits(p, q, v);
    forall k | 0 <= k < |r| ensures r[k].v < t.n && !t.eliminated[r[k].v] && r[k].v != v {
      assert r[k] in r;
      if r[k] in p {
        var m :| 0 <= m < |p| && p[m] == r[k];
        assert t.ca[pos[i]][m].v < |t.eliminated|;
      } else {
        var m :| 0 <= m < |q| && q[m] == r[k];
        assert t.ca[neg[j]][m].v < |t.eliminated|;
      }
    }
  }

  /** How many live clauses mention `v`. */
  ghost function Mentioning(s: Db, v: nat): nat {
    |set r | 0 <= r < |s.ca| && Live(s, r) && HasVarOf(s.ca[r], MkLit(v))|
  }

  ghost function Elements(list: seq<nat>): (e: set<nat>)
    ensures forall r :: r in e <==> r in list
  {
    set r | r in list
  }

  lemma {:induction false} ElementsSize(list: seq<nat>)
    requires forall i, j :: 0 <= i < j < |list| ==> list[i] != list[j]
    ensures |Elements(list)| == |list|
  {
    if list == [] {
      assert Elements(list) == {};
    } else {
      var init, last := list[..|list| - 1], list[|list| - 1];
      ElementsSize(init);
      assert list == init + [last];
      assert last !in init;
      assert Elements(list) == Elements(init) + {last};
    }
  }

  lemma ListSize(s: Db, cls: seq<nat>, v: nat)
    requires forall i :: 0 <= i < |cls| ==> Live(s, cls[i]) && HasVarOf(s.ca[cls[i]], MkLit(v))
    requires forall r :: Live(s, r) && HasVarOf(s.ca[r], MkLit(v)) ==> r in cls
    requires forall i, j :: 0 <= i < j < |cls| ==> cls[i] != cls[j]
    ensures |cls| == Mentioning(s, v)
  {
    ElementsSize(cls);
    assert Elements(cls) == (set r | 0 <= r < |s.ca| && Live(s, r) && HasVarOf(s.ca[r], MkLit(v)));
  }

  lemma EliminatedKeeps(F: seq<Clause>, s: Db, e: Db, v: nat, occurs: seq<seq<nat>>)
    requires DbShape(s) && NoneEliminated(s, -1) && OccOk(s, occurs) && Sound(F, s) && v < s.n
    requires e == s.(eliminated := s.eliminated[v := true])
    ensures DbShape(e) && NoneEliminated(e, v) && OccOk(e, occurs) && Sound(F, e)
  {
    assert forall r :: Live(e, r) <==> Live(s, r);
    forall u | 0 <= u < |occurs| ensures OccList(e, occurs[u], u) {
      assert OccList(s, occurs[u], u);
    }
    forall r, k | Live(e, r) && 0 <= k < |e.ca[r]|
      ensures e.ca[r][k].v < |e.eliminated| && (e.eliminated[e.ca[r][k].v] ==> e.ca[r][k].v == v)
    {
      assert s.ca[r][k].v < |s.eliminated|;
    }
    forall u | 0 <= u < |e.assigns| && e.assigns[u] != Undef ensures Entails(F, [Assigned(e.assigns, u)]) {
      assert Assigned(e.assigns, u) == Assigned(s.assigns, u);
    }
  }

  lemma EliminatedSize(s: Db)
    requires DbShape(s)
    ensures |s.eliminated| == s.n
  {
  }

  lemma SideSame(s: Db, e: Db, rs: seq<nat>, w: Lit)
    requires OneSide(s, rs, w) && e == s.(eliminated := e.eliminated)
    ensures OneSide(e, rs, w)
  {
    forall i | 0 <= i < |rs| ensures Live(e, rs[i]) && w in e.ca[rs[i]] {
      assert Live(s, rs[i]);
    }
  }

  lemma FrontsSame(e: Db, s: Db, rs: seq<nat>, fronts: seq<Clause>, w: Lit)
    requires Fronts(e, rs, fronts, w) && e == s.(eliminated := e.eliminated)
    ensures Fronts(s, rs, fronts, w)
  {
  }

  /** Without the clauses of `v` the database is consistent again. */
  lemma FinishElimination(F: seq<Clause>, s: Db, t: Db, u: Db, v: nat, cls: seq<nat>, pos: seq<nat>, neg: seq<nat>, occurs: seq<seq<nat>>)
    requires DbShape(t) && NoneEliminated(t, v) && OccOk(t, occurs) && Sound(F, t) && v < |occurs| && occurs[v] == cls
    requires u == t.(dead := u.dead) && |u.dead| == |t.dead|
    requires forall r :: 0 <= r < |u.dead| ==> u.dead[r] == (t.dead[r] || r in cls)
    ensures DbShape(u) && NoneEliminated(u, -1) && OccOk(u, occurs[v := []]) && Sound(F, u)
  {
    forall r ensures Live(u, r) <==> Live(t, r) && r !in cls {
    }
    forall r, k | Live(u, r) && 0 <= k < |u.ca[r]| ensures u.ca[r][k].v != v && Live(t, r) {
      assert r in occurs[t.ca[r][k].v];
    }
    var o := occurs[v := []];
    forall x | 0 <= x < |o| ensures OccList(u, o[x], x) {
      assert OccList(t, occurs[x], x);
    }
  }

  /** The elimination as one step of the database: models can be carried back. */
  lemma EliminationStep(F: seq<Clause>, s: Db, t: Db, u: Db, v: nat, cls: seq<nat>, pos: seq<nat>, neg: seq<nat>,
                        stored: seq<nat>, others: seq<nat>, w: Lit, fronts: seq<Clause>, stack: seq<Clause>)
    requires Rebuilds(F, s, stack) && DbShape(s) && NoneEliminated(s, -1) && DbShape(u) && v < s.n && !s.eliminated[v] && s.assigns[v] == Undef
    requires Grows(s.(eliminated := s.eliminated[v := true]), t)
    requires u == t.(dead := u.dead) && |u.dead| == |t.dead|
    requires forall r :: 0 <= r < |u.dead| ==> u.dead[r] == (t.dead[r] || r in cls)
    requires OneSide(s, pos, MkLit(v)) && OneSide(s, neg, MkLit(v, true))
    requires forall r :: r in cls <==> r in pos || r in neg
    requires forall r :: Live(s, r) && HasVarOf(s.ca[r], MkLit(v)) ==> r in cls
    requires (forall i :: 0 <= i < |pos| ==> pos[i] < |s.ca|) && forall j :: 0 <= j < |neg| ==> neg[j] < |s.ca|
    requires forall i, j :: 0 <= i < |pos| && 0 <= j < |neg| ==> PairDone(t, s.ca[pos[i]], s.ca[neg[j]], v)
    requires (stored == neg && others == pos && w == MkLit(v, true)) || (stored == pos && others == neg && w == MkLit(v))
    requires Fronts(s, stored, fronts, w)
    ensures Rebuilds(F, u, stack + fronts + [[w.Neg()]])
  {
    hide Rebuilds, Fronts, PairDone;
    forall i, j | 0 <= i < |pos| && 0 <= j < |neg| ensures PairDone(u, s.ca[pos[i]], s.ca[neg[j]], v) {
      PairSurvives(s, t, u, v, cls, pos, neg, i, j);
    }
    EliminatesNow(s, t, u, v, cls, pos, neg, stored, others, w);
    EliminationRebuilds(F, s, u, v, stored, others, w, fronts, stack);
  }

  lemma EliminatesNow(s: Db, t: Db, u: Db, v: nat, cls: seq<nat>, pos: seq<nat>, neg: seq<nat>, stored: seq<nat>, others: seq<nat>, w: Lit)
    requires DbShape(s) && NoneEliminated(s, -1) && DbShape(u) && v < s.n && !s.eliminated[v] && s.assigns[v] == Undef
    requires Grows(s.(eliminated := s.eliminated[v := true]), t)
    requires u == t.(dead := u.dead) && |u.dead| == |t.dead|
    requires forall r :: 0 <= r < |u.dead| ==> u.dead[r] == (t.dead[r] || r in cls)
    requires OneSide(s, pos, MkLit(v)) && OneSide(s, neg, MkLit(v, true))
    requires forall r :: r in cls <==> r in pos || r in neg
    requires forall r :: Live(s, r) && HasVarOf(s.ca[r], MkLit(v)) ==> r in cls
    requires (forall i :: 0 <= i < |pos| ==> pos[i] < |s.ca|) && forall j :: 0 <= j < |neg| ==> neg[j] < |s.ca|
    requires forall i, j :: 0 <= i < |pos| && 0 <= j < |neg| ==> PairDone(u, s.ca[pos[i]], s.ca[neg[j]], v)
    requires (stored == neg && others == pos && w == MkLit(v, true)) || (stored == pos && others == neg && w == MkLit(v))
    ensures Eliminates(s, u, v, stored, others, w)
  {
    hide PairDone, OneSide;
    assert w.v == v;
    assert MkLit(v, true) == MkLit(v).Neg() && MkLit(v) == MkLit(v, true).Neg();
    forall r | Live(s, r) ensures Live(u, r) || r in stored || r in others {
    }
    forall r, k | Live(s, r) && r !in stored && r !in others && 0 <= k < |s.ca[r]| ensures s.ca[r][k].v != v {
      assert !HasVarOf(s.ca[r], MkLit(v));
    }
  }

  /** The clause that represents a resolvent does not mention `v`, so it is not removed. */
  lemma PairSurvives(s: Db, t: Db, u: Db, v: nat, cls: seq<nat>, pos: seq<nat>, neg: seq<nat>, i: nat, j: nat)
    requires DbShape(s) && v < |s.eliminated| && Grows(s.(eliminated := s.eliminated[v := true]), t)
    requires u == t.(dead := u.dead) && |u.dead| == |t.dead|
    requires forall r :: 0 <= r < |u.dead| ==> u.dead[r] == (t.dead[r] || r in cls)
    requires OneSide(s, pos, MkLit(v)) && OneSide(s, neg, MkLit(v, true))
    requires forall r :: r in cls <==> r in pos || r in neg
    requires i < |pos| && j < |neg| && pos[i] < |s.ca| && neg[j] < |s.ca|
    requires PairDone(t, s.ca[pos[i]], s.ca[neg[j]], v)
    ensures PairDone(u, s.ca[pos[i]], s.ca[neg[j]], v)
  {
    var p, q := s.ca[pos[i]], s.ca[neg[j]];
    if !Clash(p, q, v) {
      var res := Resolvent(p, q, v);
      if !Obsolete(t.assigns, res) {
        var r :| Live(t, r) && Within(t.ca[r], res);
        ResolventLits(p, q, v);
        hide Clash, Resolvent;
        var c := t.ca[r];
        assert r !in cls by {
          if r in cls {
            MentionsSide(s, t, v, pos, neg, r);
            NotWithin(c, res, v);
          }
        }
        assert Live(u, r) && u.ca[r] == t.ca[r];
      }
    }
  }

  lemma NotWithin(c: Clause, res: Clause, v: nat)
    requires (exists k :: 0 <= k < |c| && c[k].v == v) && forall x :: x in res ==> x.v != v
    ensures !Within(c, res)
  {
    var k :| 0 <= k < |c| && c[k].v == v;
    assert c[k] !in res;
  }

  lemma MentionsSide(s: Db, t: Db, v: nat, pos: seq<nat>, neg: seq<nat>, r: nat)
    requires DbShape(s) && Grows(s.(eliminated := t.eliminated), t) && OneSide(s, pos, MkLit(v)) && OneSide(s, neg, MkLit(v, true))
    requires r in pos || r in neg
    ensures r < |t.ca| && exists k :: 0 <= k < |t.ca[r]| && t.ca[r][k].v == v
  {
    var w := if r in pos then MkLit(v) else MkLit(v, true);
    var rs := if r in pos then pos else neg;
    var i :| 0 <= i < |rs| && rs[i] == r;
    SideClause(s, rs, w, i);
    var k :| 0 <= k < |s.ca[r]| && s.ca[r][k] == w;
    assert t.ca[r] == s.ca[r];
  }

  class SimpSolver {
    const nVars: nat
    const grow: int
    const clauseLim: int                   // -1: no limit
    const subsumptionLim: int              // -1: no limit
    var ca: seq<Clause>
    var dead: seq<bool>                    // the mark of removed clauses
    var assigns: seq<LBool>
    var trail: seq<Lit>
    var eliminated: seq<bool>
    var occurs: seq<seq<nat>>
    var elimclauses: seq<nat>
    var subsumptionQueue: seq<nat>
    var bwdsubAssigns: nat
    ghost var formula: seq<Clause>
    ghost var stack: seq<Clause>           // what `elimclauses` encodes

    ghost function D(): Db
      reads this
    {
      Db(nVars, ca, dead, assigns, eliminated)
    }

    /** Everything but the way back to the formula; `except` may be a variable in elimination. */
    ghost predicate Consistent(except: int)
      reads this
    {
      && DbShape(D()) && NoneEliminated(D(), except) && OccOk(D(), occurs) && Sound(formula, D())
      && TrailTrue(trail, assigns)
      && (forall i :: 0 <= i < |subsumptionQueue| ==> subsumptionQueue[i] < |ca|)
      && bwdsubAssigns <= |trail|
      && elimclauses == Flat(stack) && StackShape(stack, nVars) && Heads(stack, eliminated)
    }

    ghost predicate Valid()
      reads this
    {
      Consistent(-1) && Rebuilds(formula, D(), stack)
    }

    /** A database without clauses over `n` variables. */
    constructor (n: nat, grow: int, clauseLim: int, subsumptionLim: int)
      ensures Valid() && formula == [] && nVars == n && |assigns| == |eliminated| == n
      ensures forall v :: 0 <= v < n ==> assigns[v] == Undef && !eliminated[v]
    {
      nVars := n;
      this.grow, this.clauseLim, this.subsumptionLim := grow, clauseLim, subsumptionLim;
      ca, dead, trail := [], [], [];
      assigns := seq(n, v => Undef);
      eliminated := seq(n, v => false);
      occurs := seq(n, v => []);
      elimclauses, subsumptionQueue, bwdsubAssigns := [], [], 0;
      formula, stack := [], [];
      new;
      assert forall m: Model :: AllTrue(Rebuilt([], m), []);
    }

    /** Adds a clause of the formula over variables that are not eliminated. */
    method AddClause(ps: Clause) returns (ok: bool)
      requires Valid() && |eliminated| == nVars && forall k :: 0 <= k < |ps| ==> ps[k].v < nVars && !eliminated[ps[k].v]
      modifies `assigns, `trail, `ca, `dead, `occurs, `subsumptionQueue, `formula
      ensures formula == old(formula) + [ps]
      ensures ok ==> Valid()
      ensures !ok ==> !Satisfiable(formula)
    {
      hide OccOk, NoneEliminated, Refines, Entails, Satisfiable, Flat, StackShape, Sound, DbShape, Grows, Represented, Rebuilds, Heads;
      ghost var F, s := formula, D();
      MoreFormula(F, s, ps);
      formula := formula + [ps];
      ok := AddClause_(ps, -1);
      if ok {
        MoreRebuilds(F, s, D(), ps, stack);
      }
    }

    /** Turns a model of what is left into a model of the formula. */
    method ExtendModel(model0: Model) returns (model: Model)
      requires Valid() && Total(model0, eliminated) && DbTrue(model0, D())
      ensures model == Rebuilt(stack, model0) && AllTrue(model, formula)
    {
      model := Elimination.ExtendModel(elimclauses, model0, stack);
    }

    /** Enqueues `p` at level 0; false if it is already false. */
    method Enqueue(p: Lit, ghost except: int) returns (ok: bool)
      requires Consistent(except) && p.v < nVars && Entails(formula, [p])
      modifies `assigns, `trail
      ensures ok ==> Consistent(except) && p.v < |assigns| && ValueOf(assigns, p) == True
      ensures ok ==> Refines(D(), old(D())) && Grows(old(D()), D()) && |trail| >= |old(trail)|
      ensures !ok ==> !Satisfiable(formula)
    {
      hide OccOk, NoneEliminated, Refines, Entails, Satisfiable, Flat, StackShape;
      if assigns[p.v] != Undef {
        RefinesSelf(D());
        if ValueOf(assigns, p) == False {
          AssignedLit(formula, D(), p);
          Contradiction(formula, p);
          return false;
        }
        return true;
      }
      ghost var s := D();
      UnitStep(formula, s, p, except);
      UnitOcc(s, p, occurs);
      assigns := assigns[p.v := Lifted(p)];
      trail := trail + [p];
      ok := true;
    }

    /** Looks at clause `c` under the level-0 assignment. */
    method Examine(c: Clause) returns (found: bool, unit: bool, p: Lit)
      requires |c| > 0 && forall k :: 0 <= k < |c| ==> c[k].v < |assigns|
      ensures found && !unit ==> forall k :: 0 <= k < |c| ==> ValueOf(assigns, c[k]) == False
      ensures found && unit ==> p in c && assigns[p.v] == Undef && forall k :: 0 <= k < |c| && c[k] != p ==> ValueOf(assigns, c[k]) == False
    {
      unit, p := false, c[0];
      for k := 0 to |c|
        invariant !unit ==> forall m :: 0 <= m < k ==> ValueOf(assigns, c[m]) == False
        invariant unit ==> p in c && assigns[p.v] == Undef && forall m :: 0 <= m < k && c[m] != p ==> ValueOf(assigns, c[m]) == False
      {
        if ValueOf(assigns, c[k]) == True || (ValueOf(assigns, c[k]) == Undef && unit) {
          return false, false, p;
        }
        if ValueOf(assigns, c[k]) == Undef {
          unit, p := true, c[k];
        }
      }
      found := true;
    }

    /** Unit propagation at level 0 by repeated scans of the live clauses; false on a conflict. */
    method Propagate(ghost except: int) returns (ok: bool)
      requires Consistent(except)
      modifies `assigns, `trail
      ensures ok ==> Consistent(except) && Refines(D(), old(D())) && Grows(old(D()), D()) && |trail| >= |old(trail)|
      ensures !ok ==> !Satisfiable(formula)
    {
      hide OccOk, NoneEliminated, Refines, Entails, Satisfiable, Flat, StackShape, Unassigned, Grows;
      ghost var s0 := D();
      RefinesSelf(s0);
      var r := 0;
      while r < |ca|
        invariant r <= |ca| && Consistent(except) && Refines(D(), s0) && Grows(s0, D()) && |trail| >= |old(trail)|
        decreases |Unassigned(assigns)|, |ca| - r
      {
        if dead[r] {
          r := r + 1;
        } else {
          ghost var s := D();
          assert Live(s, r) && Stored(nVars, ca[r]) && Entails(formula, ca[r]);
          var found, unit, p := Examine(ca[r]);
          if !found {
            r := r + 1;
          } else if !unit {
            FalseClause(formula, s, ca[r]);
            return false;
          } else {
            UnitEntailed(formula, s, ca[r], p);
            UnassignedStep(assigns, p);
            label Before:
            var b := Enqueue(p, except);
            if !b {
              return false;
            }
            EnqueuedUnit(old@Before(assigns), assigns, s, D(), p);
            RefinesTrans(s0, s, D());
            GrowsTrans(s0, s, D());
            r := 0;
          }
        }
      }
      ok := true;
    }

    /** `addClause_`: normalises an entailed clause and stores what is left of it. */
    method AddClause_(ps: Clause, ghost except: int) returns (ok: bool)
      requires Consistent(except) && Entails(formula, ps)
      requires forall k :: 0 <= k < |ps| ==> ps[k].v < nVars && !eliminated[ps[k].v]
      modifies `assigns, `trail, `ca, `dead, `occurs, `subsumptionQueue
      ensures ok ==> Consistent(except) && Refines(D(), old(D())) && Grows(old(D()), D()) && Represented(D(), ps)
      ensures ok ==> |ca| <= |old(ca)| + 1
      ensures |occurs| == |old(occurs)| == nVars
      ensures ok ==> forall v :: 0 <= v < nVars && !HasVarOf(ps, MkLit(v)) ==> occurs[v] == old(occurs)[v]
      ensures !ok ==> !Satisfiable(formula)
    {
      hide OccOk, NoneEliminated, Refines, Entails, Satisfiable, Flat, StackShape, Grows, Represented, Sound, Cleaned, Obsolete, DbShape;
      ghost var s := D();
      ShapeSizes(s, occurs);
      RefinesSelf(s);
      var obsolete, ks := CleanClause(assigns, ps);
      if obsolete {
        ObsoleteRepresented(s, ps);
        return true;
      }
      CleanedEntailed(formula, s, ps, ks);
      CleanedLits(assigns, ps, ks);
      if |ks| == 0 {
        return false;
      } else if |ks| == 1 {
        assert ks == [ks[0]];
        ok := Enqueue(ks[0], except);
        if ok {
          ghost var t := D();
          UnitRepresented(t, ps, ks[0]);
          ok := Propagate(except);
          if ok {
            RefinesTrans(s, t, D());
            GrowsTrans(s, t, D());
            GrowsRepresented(t, D(), ps);
          }
        }
      } else {
        StoreClause(ks, except);
        StoredRepresented(D(), |ca| - 1, ks, ps);
        ok := true;
      }
    }

    /** Allocates a clause and enters it in the occurrence lists and the subsumption queue. */
    method StoreClause(ks: Clause, ghost except: int)
      requires Consistent(except) && Entails(formula, ks) && Stored(nVars, ks)
      requires forall k :: 0 <= k < |ks| ==> !eliminated[ks[k].v]
      modifies `ca, `dead, `occurs, `subsumptionQueue
      ensures Consistent(except) && D() == WithStored(old(D()), ks)
      ensures Refines(D(), old(D())) && Grows(old(D()), D()) && Live(D(), |ca| - 1)
      ensures |occurs| == |old(occurs)|
      ensures forall v :: 0 <= v < nVars && !HasVarOf(ks, MkLit(v)) ==> occurs[v] == old(occurs)[v]
    {
      hide NoneEliminated, Refines, Entails, Flat, StackShape, Sound, OccOk;
      ghost var s := D();
      StoreStep(formula, s, ks, except);
      StoredOcc(s, ks, occurs);
      StoredGrows(s, ks);
      var cr := |ca|;
      ca := ca + [ks];
      dead := dead + [false];
      subsumptionQueue := subsumptionQueue + [cr];
      EnterOccurs(ks, cr);
      assert D() == WithStored(s, ks);
    }

    method EnterOccurs(ks: Clause, cr: nat)
      requires DistinctVars(ks, 0) && forall k :: 0 <= k < |ks| ==> ks[k].v < |occurs|
      modifies `occurs
      ensures occurs == Entered(old(occurs), ks, cr, |ks|)
    {
      ghost var occ0 := occurs;
      assert occurs == Entered(occ0, ks, cr, 0);
      for i := 0 to |ks|
        invariant |occurs| == |occ0| && occurs == Entered(occ0, ks, cr, i)
      {
        EnteredAt(occ0, ks, cr, i);
        occurs := occurs[ks[i].v := occurs[ks[i].v] + [cr]];
      }
    }

    /** Marks a clause as removed; the occurrence lists are cleaned later. */
    method RemoveClause(cr: nat)
      requires cr < |dead|
      modifies `dead
      ensures dead == old(dead)[cr := true]
    {
      dead := dead[cr := true];
    }

    /** `lookup`: the occurrence list of `v` without removed clauses. */
    method Lookup(v: nat, ghost except: int)
      requires Consistent(except) && v < nVars
      modifies `occurs
      ensures Consistent(except) && |occurs| == nVars
      ensures forall i :: 0 <= i < |occurs[v]| ==> Live(D(), occurs[v][i]) && HasVarOf(ca[occurs[v][i]], MkLit(v))
      ensures forall r :: Live(D(), r) && HasVarOf(ca[r], MkLit(v)) ==> r in occurs[v]
      ensures forall i, j :: 0 <= i < j < |occurs[v]| ==> occurs[v][i] != occurs[v][j]
    {
      hide NoneEliminated, Entails, Flat, StackShape, Sound, DbShape;
      ShapeSizes(D(), occurs);
      assert OccList(D(), occurs[v], v);
      WithoutDeadMembers(occurs[v], dead);
      LookupOcc(D(), occurs, v);
      occurs := occurs[v := WithoutDead(occurs[v], dead)];
    }

    /** Removes literal `l` from a clause; a binary clause becomes a level-0 unit instead. */
    method StrengthenClause(cr: nat, l: Lit) returns (ok: bool)
      requires Consistent(-1) && Live(D(), cr) && l in ca[cr] && Entails(formula, Subsumption.Strengthened(ca[cr], l))
      modifies `assigns, `trail, `ca, `dead, `occurs, `subsumptionQueue
      ensures ok ==> Consistent(-1) && Refines(D(), old(D())) && |ca| == |old(ca)|
      ensures ok ==> LiveLits(D(), |ca|) < LiveLits(old(D()), |old(ca)|)
      ensures ok ==> forall r :: 0 <= r < |ca| && r != cr ==> ca[r] == old(ca)[r] && dead[r] == old(dead)[r]
      ensures ok ==> forall v :: 0 <= v < |old(assigns)| && old(assigns)[v] != Undef ==> v < |assigns| && assigns[v] == old(assigns)[v]
      ensures ok ==> |trail| >= |old(trail)|
      ensures !ok ==> !Satisfiable(formula)
    {
      hide OccOk, NoneEliminated, Refines, Entails, Satisfiable, Flat, StackShape, Sound, DbShape, Grows, LiveLits, Stored;
      ghost var s := D();
      ShapeSizes(s, occurs);
      StrengthenedStored(s, cr, l);
      subsumptionQueue := subsumptionQueue + [cr];
      var c := Subsumption.Strengthened(ca[cr], l);
      if |ca[cr]| == 2 {
        DeadKeeps(formula, s, cr, c, occurs);
        RemoveClause(cr);
        ca := ca[cr := c];
        ghost var t := D();
        assert t == WithDead(s.(ca := s.ca[cr := c]), cr);
        assert c == [c[0]];
        ok := Enqueue(c[0], -1);
        if ok {
          ShapeSizes(D(), occurs);
          UnitReplaces(s, t, D(), cr, c, c[0]);
          ghost var u := D();
          ok := Propagate(-1);
          if ok {
            RefinesTrans(s, u, D());
            GrowsKeeps(t, u);
            GrowsKeeps(u, D());
            LiveLitsSame(t, D(), |ca|);
            LiveLitsAt(s, t, cr, |ca|);
          }
        }
      } else {
        ShortenStep(formula, s, cr, c, -1);
        ShortenedOcc(s, cr, l, c, occurs);
        ca := ca[cr := c];
        occurs := occurs[l.v := Removed(occurs[l.v], cr)];
        assert D() == WithShorter(s, cr, c);
        LiveLitsAt(s, D(), cr, |ca|);
        ok := true;
      }
    }

    /** The variable of `c` with the fewest occurrences. */
    method BestVar(c: Clause) returns (best: nat)
      requires |c| > 0 && forall k :: 0 <= k < |c| ==> c[k].v < |occurs|
      ensures exists k :: 0 <= k < |c| && c[k].v == best
      ensures forall k :: 0 <= k < |c| ==> |occurs[best]| <= |occurs[c[k].v]|
    {
      best := c[0].v;
      for i := 1 to |c|
        invariant exists k :: 0 <= k < |c| && c[k].v == best
        invariant forall k :: 0 <= k < i ==> |occurs[best]| <= |occurs[c[k].v]|
      {
        if |occurs[c[i].v]| < |occurs[best]| {
          best := c[i].v;
        }
      }
    }

    /** Tries clause `c`, with reference `cr` or -1 for a level-0 unit, against clause `r`, which is
        removed if subsumed and strengthened if `c` resolves with it; `onVar` is then the variable
        resolved on. */
    method TryCandidate(c: Clause, cr: int, r: nat) returns (ok: bool, onVar: int)
      requires Consistent(-1) && Holding(D(), c, cr) && Live(D(), r) && r != cr
      modifies `assigns, `trail, `ca, `dead, `occurs, `subsumptionQueue
      ensures ok ==> Consistent(-1) && Holding(D(), c, cr) && Refines(D(), old(D())) && |ca| == |old(ca)| && |trail| >= |old(trail)|
      ensures ok ==> LiveLits(D(), |ca|) < LiveLits(old(D()), |old(ca)|)
                     || (D() == old(D()) && trail == old(trail) && subsumptionQueue == old(subsumptionQueue) && occurs == old(occurs) && onVar == -1)
      ensures !ok ==> !Satisfiable(formula)
    {
      hide OccOk, NoneEliminated, Refines, Entails, Satisfiable, Flat, StackShape, Sound, DbShape, LiveLits, Holding, Stored;
      onVar := -1;
      ghost var s := D();
      ShapeSizes(s, occurs);
      HoldingShape(s, c, cr);
      LiveShape(s, r);
      RefinesSelf(s);
      var absC := Subsumption.CalcAbstraction(c);
      var absD := Subsumption.CalcAbstraction(ca[r]);
      var hit := Subsumption.Subsumes(c, ca[r], absC, absD);
      ok := true;
      match hit
      case Subsumed =>
        SubsumedDrop(formula, s, c, cr, r, occurs);
        RemoveClause(r);
        LiveLitsAt(s, D(), r, |ca|);
      case ResolveOn(l) =>
        ResolveEntailed(formula, s, c, cr, r, l);
        onVar := l.v;
        ok := StrengthenClause(r, l.Neg());
        if ok {
          ShapeSizes(D(), occurs);
          HoldingKept(s, D(), c, cr, r);
        }
      case NoHit =>
    }

    /** Tries clause `c` against all clauses with variable `best`. */
    method CheckCandidates(c: Clause, cr: int, best: nat) returns (ok: bool)
      requires Consistent(-1) && Holding(D(), c, cr) && best < nVars
      modifies `assigns, `trail, `ca, `dead, `occurs, `subsumptionQueue
      ensures ok ==> Consistent(-1) && Refines(D(), old(D())) && |ca| == |old(ca)| && |trail| >= |old(trail)|
      ensures ok ==> LiveLits(D(), |ca|) < LiveLits(old(D()), |old(ca)|)
                     || (D() == old(D()) && trail == old(trail) && subsumptionQueue == old(subsumptionQueue))
      ensures !ok ==> !Satisfiable(formula)
    {
      hide OccOk, NoneEliminated, Refines, Entails, Satisfiable, Flat, StackShape, Sound, DbShape, LiveLits, Holding, Stored;
      ghost var s0 := D();
      RefinesSelf(s0);
      ShapeSizes(s0, occurs);
      var j: int := 0;
      while j < |occurs[best]|
        invariant 0 <= j && Consistent(-1) && Holding(D(), c, cr) && |occurs| == nVars
        invariant Refines(D(), s0) && |ca| == |s0.ca| && |dead| == |ca| && |trail| >= |old(trail)|
        invariant LiveLits(D(), |ca|) < LiveLits(s0, |s0.ca|)
                  || (D() == s0 && trail == old(trail) && subsumptionQueue == old(subsumptionQueue))
        decreases LiveLits(D(), |ca|), |occurs[best]| - j
      {
        ghost var s := D();
        ShapeSizes(s, occurs);
        HoldingShape(s, c, cr);
        if cr >= 0 && dead[cr] {
          break;
        }
        var r := occurs[best][j];
        if !dead[r] && r != cr && (subsumptionLim == -1 || |ca[r]| < subsumptionLim) {
          var onVar;
          ok, onVar := TryCandidate(c, cr, r);
          if !ok {
            return false;
          }
          RefinesTrans(s0, s, D());
          ShapeSizes(D(), occurs);
          if onVar == best {
            j := j - 1;
          }
        }
        j := j + 1;
      }
      ok := true;
    }

    /** Backward subsumption and self-subsuming resolution for all queued clauses and new units. */
    method BackwardSubsumptionCheck() returns (ok: bool)
      requires Valid()
      modifies `assigns, `trail, `ca, `dead, `occurs, `subsumptionQueue, `bwdsubAssigns
      ensures ok ==> Valid() && Refines(D(), old(D())) && |ca| == |old(ca)|
      ensures ok ==> subsumptionQueue == [] && bwdsubAssigns >= |trail|
      ensures !ok ==> !Satisfiable(formula)
    {
      hide OccOk, NoneEliminated, Refines, Entails, Satisfiable, Flat, StackShape, Sound, DbShape, LiveLits, Holding, Rebuilds;
      ghost var s0 := D();
      RefinesSelf(s0);
      ShapeSizes(s0, occurs);
      while |subsumptionQueue| > 0 || bwdsubAssigns < |trail|
        invariant Consistent(-1) && Refines(D(), s0) && |ca| == |s0.ca| && |dead| == |ca|
        decreases LiveLits(D(), |ca|), |subsumptionQueue| + |trail| - bwdsubAssigns
      {
        if * {
          // interrupted by the user
          subsumptionQueue := [];
          bwdsubAssigns := |trail|;
          break;
        }
        var c: Clause, cr := [], -1;
        ghost var s := D();
        ShapeSizes(s, occurs);
        if |subsumptionQueue| == 0 {
          c := [trail[bwdsubAssigns]];
          bwdsubAssigns := bwdsubAssigns + 1;
          UnitHolding(s, c[0]);
        } else {
          cr := subsumptionQueue[0];
          subsumptionQueue := subsumptionQueue[1..];
          if dead[cr] {
            continue;
          }
          c := ca[cr];
          ClauseHolding(s, cr);
        }
        HoldingShape(s, c, cr);
        var best := BestVar(c);
        Lookup(best, -1);
        assert D() == s;
        ok := CheckCandidates(c, cr, best);
        if !ok {
          return false;
        }
        RefinesTrans(s0, s, D());
        ShapeSizes(D(), occurs);
      }
      RefinesRebuilds(formula, s0, D(), stack);
      ok := true;
    }

    /** Splits the clauses of `v` by the sign of `v`. */
    method Split(cls: seq<nat>, v: nat) returns (pos: seq<nat>, neg: seq<nat>)
      requires forall i :: 0 <= i < |cls| ==> Live(D(), cls[i]) && HasVarOf(ca[cls[i]], MkLit(v))
      ensures OneSide(D(), pos, MkLit(v)) && OneSide(D(), neg, MkLit(v, true)) && |pos| + |neg| == |cls|
      ensures forall r :: r in cls <==> r in pos || r in neg
    {
      pos, neg := [], [];
      for i := 0 to |cls|
        invariant OneSide(D(), pos, MkLit(v)) && OneSide(D(), neg, MkLit(v, true)) && |pos| + |neg| == i
        invariant forall r :: r in cls[..i] <==> r in pos || r in neg
      {
        assert cls[..i + 1] == cls[..i] + [cls[i]];
        if MkLit(v) in ca[cls[i]] {
          pos := pos + [cls[i]];
        } else {
          OtherSign(ca[cls[i]], v);
          neg := neg + [cls[i]];
        }
      }
      assert cls[..|cls|] == cls;
    }

    /** Counts the resolvents of clause `p` with those of `neg` on top of `cnt0`; `costly` as soon as
        they are too many or one is too long. */
    method CountRow(p: Clause, neg: seq<nat>, v: nat, cnt0: nat, clsSize: nat) returns (costly: bool, cnt: nat)
      requires DbShape(D()) && OneSide(D(), neg, MkLit(v, true)) && DistinctVars(p, 0) && HasVarOf(p, MkLit(v))
      requires cnt0 <= clsSize + grow || cnt0 == 0
      ensures forall j :: 0 <= j < |neg| ==> neg[j] < |ca|
      ensures !costly ==> cnt == cnt0 + RowCount(ca, p, neg, v, |neg|) && (cnt <= clsSize + grow || cnt == 0)
      ensures !costly ==> RowShort(ca, p, neg, v, clauseLim, |neg|)
      ensures costly ==> !RowShort(ca, p, neg, v, clauseLim, |neg|)
                         || (cnt0 + RowCount(ca, p, neg, v, |neg|) > clsSize + grow && RowCount(ca, p, neg, v, |neg|) > 0)
    {
      hide Clash, OneSide, DbShape;
      SideRefs(D(), neg, MkLit(v, true));
      cnt := cnt0;
      for j := 0 to |neg|
        invariant cnt == cnt0 + RowCount(ca, p, neg, v, j) && (cnt <= clsSize + grow || cnt == 0)
        invariant RowShort(ca, p, neg, v, clauseLim, j)
      {
        SideClause(D(), neg, MkLit(v, true), j);
        var ok, size := MergeSize(p, ca[neg[j]], v);
        if ok {
          cnt := cnt + 1;
          if cnt > clsSize + grow || (clauseLim != -1 && size > clauseLim) {
            RowGrows(ca, p, neg, v, j + 1, |neg|);
            return true, cnt;
          }
        }
      }
      costly := false;
    }

    /** Whether the resolvents are too many, or one of them too long, for the elimination to pay. */
    method TooCostly(pos: seq<nat>, neg: seq<nat>, v: nat, clsSize: nat) returns (costly: bool)
      requires DbShape(D()) && OneSide(D(), pos, MkLit(v)) && OneSide(D(), neg, MkLit(v, true))
      ensures (forall i :: 0 <= i < |pos| ==> pos[i] < |ca|) && forall j :: 0 <= j < |neg| ==> neg[j] < |ca|
      ensures costly <==> Costly(ca, pos, neg, v, clsSize + grow, clauseLim)
    {
      hide Clash, OneSide, DbShape, RowShort, RowCount;
      SideRefs(D(), pos, MkLit(v));
      SideRefs(D(), neg, MkLit(v, true));
      var cnt := 0;
      for i := 0 to |pos|
        invariant cnt == AllCount(ca, pos, neg, v, i) && (cnt <= clsSize + grow || cnt == 0)
        invariant forall a :: 0 <= a < i ==> RowShort(ca, ca[pos[a]], neg, v, clauseLim, |neg|)
      {
        SideClause(D(), pos, MkLit(v), i);
        costly, cnt := CountRow(ca[pos[i]], neg, v, cnt, clsSize);
        if costly {
          AllGrows(ca, pos, neg, v, i + 1, |pos|);
          return;
        }
      }
      costly := false;
    }

    /** Puts one side of the clauses of `v` on the stack, and on top of them the unit that makes the
        other side true. */
    method StoreSide(rs: seq<nat>, v: nat, w: Lit) returns (ghost fronts: seq<Clause>)
      requires DbShape(D()) && OneSide(D(), rs, w) && w.v == v && v < nVars
      requires elimclauses == Flat(stack) && StackShape(stack, nVars) && Heads(stack, eliminated)
      requires |eliminated| == nVars && eliminated[v]
      modifies `elimclauses, `stack
      ensures elimclauses == Flat(stack) && StackShape(stack, nVars) && Heads(stack, eliminated)
      ensures stack == old(stack) + fronts + [[w.Neg()]] && Fronts(D(), rs, fronts, w)
    {
      hide Flat;
      fronts := [];
      ghost var stack0 := stack;
      assert stack == stack0 + fronts;
      for i := 0 to |rs|
        invariant elimclauses == Flat(stack) && StackShape(stack, nVars) && Heads(stack, eliminated) && stack == stack0 + fronts
        invariant Fronts(D(), rs[..i], fronts, w)
      {
        SideClause(D(), rs, w, i);
        ghost var front;
        elimclauses, front := MkElimClause(elimclauses, v, ca[rs[i]], stack);
        FrontIs(D(), rs, i, front, w, stack);
        assert rs[..i + 1] == rs[..i] + [rs[i]];
        assert stack + [front] == stack0 + (fronts + [front]);
        fronts := fronts + [front];
        stack := stack + [front];
      }
      assert rs[..|rs|] == rs;
      UnitCodes(stack, w.Neg());
      elimclauses := elimclauses + [w.Neg().Code(), 1];
      stack := stack + [[w.Neg()]];
    }

    /** Adds all resolvents of the two sides. */
    method AddResolvents(pos: seq<nat>, neg: seq<nat>, v: nat) returns (ok: bool)
      requires Consistent(v) && v < nVars
      requires OneSide(D(), pos, MkLit(v)) && OneSide(D(), neg, MkLit(v, true))
      modifies `assigns, `trail, `ca, `dead, `occurs, `subsumptionQueue
      ensures (forall i :: 0 <= i < |pos| ==> pos[i] < |old(ca)|) && forall j :: 0 <= j < |neg| ==> neg[j] < |old(ca)|
      ensures |occurs| == |old(occurs)| == nVars
      ensures ok ==> Consistent(v) && Grows(old(D()), D()) && occurs[v] == old(occurs)[v]
      ensures ok ==> |ca| <= |old(ca)| + AllCount(old(ca), pos, neg, v, |pos|)
      ensures ok ==> forall i, j :: 0 <= i < |pos| && 0 <= j < |neg| ==> PairDone(D(), old(ca)[pos[i]], old(ca)[neg[j]], v)
      ensures !ok ==> !Satisfiable(formula)
    {
      hide OccOk, NoneEliminated, Refines, Entails, Satisfiable, Flat, StackShape, Sound, DbShape, Grows, PairDone, Clash, OneSide, RowCount;
      ghost var s := D();
      ShapeSizes(s, occurs);
      RefinesSelf(s);
      SideRefs(s, pos, MkLit(v));
      SideRefs(s, neg, MkLit(v, true));
      for i := 0 to |pos|
        invariant Consistent(v) && Grows(s, D()) && |occurs| == nVars && occurs[v] == old(occurs)[v]
        invariant |s.ca| <= |ca| <= |s.ca| + AllCount(s.ca, pos, neg, v, i)
        invariant forall a, b :: 0 <= a < i && 0 <= b < |neg| ==> PairDone(D(), s.ca[pos[a]], s.ca[neg[b]], v)
      {
        SideClause(s, pos, MkLit(v), i);
        for j := 0 to |neg|
          invariant Consistent(v) && Grows(s, D()) && |occurs| == nVars && occurs[v] == old(occurs)[v]
          invariant |s.ca| <= |ca| <= |s.ca| + AllCount(s.ca, pos, neg, v, i) + RowCount(s.ca, s.ca[pos[i]], neg, v, j)
          invariant forall a, b :: 0 <= a < i && 0 <= b < |neg| ==> PairDone(D(), s.ca[pos[a]], s.ca[neg[b]], v)
          invariant forall b :: 0 <= b < j ==> PairDone(D(), s.ca[pos[i]], s.ca[neg[b]], v)
        {
          SideClause(s, neg, MkLit(v, true), j);
          ghost var t := D();
          GrowsAt(s, t, pos[i], neg[j]);
          GrowsKeeps(s, t);
          var b := AddResolvent(s, pos, neg, v, i, j);
          if !b {
            return false;
          }
          GrowsTrans(s, t, D());
          GrowsPairs(t, D(), s.ca, pos, neg, v);
          ShapeSizes(D(), occurs);
        }
      }
      ok := true;
    }

    /** Adds one resolvent, unless it is a tautology. */
    method AddResolvent(ghost s: Db, pos: seq<nat>, neg: seq<nat>, v: nat, i: nat, j: nat) returns (ok: bool)
      requires Consistent(v) && v < nVars && Grows(s, D()) && |occurs| == nVars && i < |pos| && j < |neg|
      requires DbShape(s) && OneSide(s, pos, MkLit(v)) && OneSide(s, neg, MkLit(v, true))
      requires pos[i] < |s.ca| <= |ca| && ca[pos[i]] == s.ca[pos[i]] && neg[j] < |s.ca| && ca[neg[j]] == s.ca[neg[j]]
      modifies `assigns, `trail, `ca, `dead, `occurs, `subsumptionQueue
      ensures |occurs| == nVars == |old(occurs)|
      ensures ok ==> Consistent(v) && Grows(old(D()), D()) && occurs[v] == old(occurs)[v]
      ensures ok ==> |old(ca)| <= |ca| <= |old(ca)| + RowCount(s.ca, s.ca[pos[i]], neg, v, j + 1) - RowCount(s.ca, s.ca[pos[i]], neg, v, j)
      ensures ok ==> PairDone(D(), s.ca[pos[i]], s.ca[neg[j]], v)
      ensures !ok ==> !Satisfiable(formula)
    {
      hide OccOk, NoneEliminated, Refines, Entails, Satisfiable, Flat, StackShape, Sound, DbShape, Grows, Clash, Represented;
      ghost var t := D();
      RefinesSelf(t);
      ShapeSizes(t, occurs);
      SideClause(s, pos, MkLit(v), i);
      SideClause(s, neg, MkLit(v, true), j);
      var merged, resolvent := Merge(ca[pos[i]], ca[neg[j]], v);
      if !merged {
        return true;
      }
      ResolventFacts(formula, s, t, pos, neg, v, i, j);
      ok := AddClause_(resolvent, v);
      if ok {
        GrowsKeeps(t, D());
        ShapeSizes(D(), occurs);
      }
    }

    /** Removes all clauses of a list. */
    method RemoveClauses(cls: seq<nat>)
      requires forall i :: 0 <= i < |cls| ==> cls[i] < |dead|
      modifies `dead
      ensures |dead| == |old(dead)|
      ensures forall r :: 0 <= r < |dead| ==> dead[r] == (old(dead)[r] || r in cls)
    {
      for i := 0 to |cls|
        invariant |dead| == |old(dead)|
        invariant forall r :: 0 <= r < |dead| ==> dead[r] == (old(dead)[r] || r in cls[..i])
      {
        assert cls[..i + 1] == cls[..i] + [cls[i]];
        RemoveClause(cls[i]);
      }
      assert cls[..|cls|] == cls;
    }

    /** Replaces the clauses `cls` of `v`, split into `pos` and `neg`, by their resolvents, and stores
        the smaller side. */
    method Replace(v: nat, cls: seq<nat>, pos: seq<nat>, neg: seq<nat>) returns (ok: bool)
      requires Valid() && v < nVars && |eliminated| == |assigns| == |occurs| == nVars && !eliminated[v] && assigns[v] == Undef
      requires occurs[v] == cls && OneSide(D(), pos, MkLit(v)) && OneSide(D(), neg, MkLit(v, true))
      requires forall r :: r in cls <==> r in pos || r in neg
      requires forall r :: Live(D(), r) && HasVarOf(ca[r], MkLit(v)) ==> r in cls
      modifies this
      ensures formula == old(formula) && eliminated == old(eliminated)[v := true]
      ensures (forall i :: 0 <= i < |pos| ==> pos[i] < |old(ca)|) && forall j :: 0 <= j < |neg| ==> neg[j] < |old(ca)|
      ensures ok ==> Valid() && |ca| <= |old(ca)| + AllCount(old(ca), pos, neg, v, |pos|)
      ensures !ok ==> !Satisfiable(formula)
    {
      hide OccOk, NoneEliminated, Refines, Entails, Satisfiable, Flat, StackShape, Sound, DbShape, Grows, PairDone, Clash, OneSide, RowCount, AllCount, Rebuilds, Fronts;
      ghost var s, stack0 := D(), stack;
      SideRefs(s, pos, MkLit(v));
      SideRefs(s, neg, MkLit(v, true));
      eliminated := eliminated[v := true];
      ghost var e := D();
      HeadsKept(stack, s.eliminated, v);
      EliminatedKeeps(formula, s, e, v, occurs);
      SideSame(s, e, pos, MkLit(v));
      SideSame(s, e, neg, MkLit(v, true));
      ghost var fronts;
      if |pos| > |neg| {
        fronts := StoreSide(neg, v, MkLit(v, true));
        FrontsSame(e, s, neg, fronts, MkLit(v, true));
      } else {
        fronts := StoreSide(pos, v, MkLit(v));
        FrontsSame(e, s, pos, fronts, MkLit(v));
      }
      ok := AddResolvents(pos, neg, v);
      if ok {
        RemoveReplaced(s, v, cls, pos, neg, fronts, stack0, if |pos| > |neg| then MkLit(v, true) else MkLit(v));
      }
    }

    /** The clauses that were resolved away are removed; `w` is the literal of the stored side. */
    method RemoveReplaced(ghost s: Db, v: nat, cls: seq<nat>, ghost pos: seq<nat>, ghost neg: seq<nat>,
                          ghost fronts: seq<Clause>, ghost stack0: seq<Clause>, ghost w: Lit)
      requires Consistent(v) && |occurs| == nVars && v < nVars && occurs[v] == cls && stack == stack0 + fronts + [[w.Neg()]]
      requires Rebuilds(formula, s, stack0) && DbShape(s) && NoneEliminated(s, -1) && v < s.n && !s.eliminated[v] && s.assigns[v] == Undef
      requires Grows(s.(eliminated := s.eliminated[v := true]), D())
      requires OneSide(s, pos, MkLit(v)) && OneSide(s, neg, MkLit(v, true))
      requires forall r :: r in cls <==> r in pos || r in neg
      requires forall r :: Live(s, r) && HasVarOf(s.ca[r], MkLit(v)) ==> r in cls
      requires (forall i :: 0 <= i < |pos| ==> pos[i] < |s.ca|) && forall j :: 0 <= j < |neg| ==> neg[j] < |s.ca|
      requires forall i, j :: 0 <= i < |pos| && 0 <= j < |neg| ==> PairDone(D(), s.ca[pos[i]], s.ca[neg[j]], v)
      requires (w == MkLit(v, true) && Fronts(s, neg, fronts, w)) || (w == MkLit(v) && Fronts(s, pos, fronts, w))
      modifies `dead, `occurs
      ensures Valid()
    {
      hide OccOk, NoneEliminated, Refines, Entails, Flat, StackShape, Sound, DbShape, Grows, PairDone, Clash, OneSide, Rebuilds, Fronts;
      ghost var t := D();
      ShapeSizes(t, occurs);
      EliminatedSize(s);
      GrowsKeeps(s.(eliminated := s.eliminated[v := true]), t);
      RemoveClauses(cls);
      FinishElimination(formula, s, t, D(), v, cls, pos, neg, occurs);
      ghost var stored, others := if w.neg then neg else pos, if w.neg then pos else neg;
      EliminationStep(formula, s, t, D(), v, cls, pos, neg, stored, others, w, fronts, stack0);
      occurs := occurs[v := []];
    }

    /** Eliminates `v` by resolution unless that is too costly, in which case nothing changes. `pos` and
        `neg` are the clauses with `v` and with its complement. */
    method EliminateVar(v: nat) returns (ok: bool, ghost pos: seq<nat>, ghost neg: seq<nat>)
      requires Valid() && v < nVars && |eliminated| == |assigns| == nVars && !eliminated[v] && assigns[v] == Undef
      modifies this
      ensures formula == old(formula)
      ensures ok ==> Valid() && |eliminated| == nVars
      ensures OneSide(old(D()), pos, MkLit(v)) && OneSide(old(D()), neg, MkLit(v, true))
      ensures |pos| + |neg| == Mentioning(old(D()), v)
      ensures (forall i :: 0 <= i < |pos| ==> pos[i] < |old(ca)|) && forall j :: 0 <= j < |neg| ==> neg[j] < |old(ca)|
      ensures Costly(old(ca), pos, neg, v, |pos| + |neg| + grow, clauseLim) ==> ok && D() == old(D())
      ensures !Costly(old(ca), pos, neg, v, |pos| + |neg| + grow, clauseLim) ==> eliminated == old(eliminated)[v := true]
      ensures ok ==> |ca| <= |old(ca)| + AllCount(old(ca), pos, neg, v, |pos|)
      ensures !ok ==> !Satisfiable(formula)
    {
      hide OccOk, NoneEliminated, Refines, Entails, Satisfiable, Flat, StackShape, Sound, DbShape, OneSide, RowCount, AllCount, Rebuilds, RowShort, Mentioning, Costly;
      Lookup(v, -1);
      var cls := occurs[v];
      ListSize(D(), cls, v);
      var pos', neg' := Split(cls, v);
      pos, neg := pos', neg';
      var costly := TooCostly(pos', neg', v, |cls|);
      if costly {
        return true, pos, neg;
      }
      ok := Replace(v, cls, pos', neg');
      if ok {
        ok := BackwardSubsumptionCheck();
        if ok { ShapeSizes(D(), occurs); }
      }
    }
  }
}
