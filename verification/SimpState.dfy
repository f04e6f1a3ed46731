/** The clause database of the preprocessor, as a value: which clauses are live, what they mean
    together with the level-0 assignment, and how models are carried back. */
module SimpState {
  import opened Logic
  import opened ClauseCleaning
  import opened Elimination

  datatype Db = Db(
    n: nat,
    ca: seq<Clause>,
    dead: seq<bool>,
    assigns: seq<LBool>,
    eliminated: seq<bool>)

  ghost predicate Live(db: Db, r: int) {
    0 <= r < |db.ca| == |db.dead| && !db.dead[r]
  }

  ghost predicate Stored(n: nat, c: Clause) {
    |c| >= 2 && DistinctVars(c, 0) && forall k :: 0 <= k < |c| ==> c[k].v < n
  }

  ghost predicate DbShape(db: Db) {
    && |db.dead| == |db.ca| && |db.assigns| == |db.eliminated| == db.n
    && forall r :: Live(db, r) ==> Stored(db.n, db.ca[r])
  }

  /** No live clause mentions an eliminated variable, with the possible exception of `except`. */
  ghost predicate NoneEliminated(db: Db, except: int) {
    forall r, k :: Live(db, r) && 0 <= k < |db.ca[r]| ==>
      db.ca[r][k].v < |db.eliminated| && (db.eliminated[db.ca[r][k].v] ==> db.ca[r][k].v == except)
  }

  /** The literal that is assigned true on variable `v`. */
  function Assigned(assigns: seq<LBool>, v: nat): Lit
    requires v < |assigns|
  {
    Lit(v, assigns[v] == False)
  }

  ghost predicate Sound(F: seq<Clause>, db: Db) {
    && (forall r :: Live(db, r) ==> Entails(F, db.ca[r]))
    && (forall v :: 0 <= v < |db.assigns| && db.assigns[v] != Undef ==> Entails(F, [Assigned(db.assigns, v)]))
  }

  /** Some literal of the clause is true. */
  ghost predicate MTrue(m: Model, c: Clause) {
    exists k :: 0 <= k < |c| && c[k].v < |m| && ValueOf(m, c[k]) == True
  }

  ghost predicate AllTrue(m: Model, F: seq<Clause>) {
    forall i :: 0 <= i < |F| ==> MTrue(m, F[i])
  }

  /** Every variable that was not eliminated has a value. */
  ghost predicate Total(m: Model, eliminated: seq<bool>) {
    |m| == |eliminated| && forall v :: 0 <= v < |m| && !eliminated[v] ==> m[v] != Undef
  }

  /** `m` satisfies the live clauses and agrees with the level-0 assignment. */
  ghost predicate DbTrue(m: Model, db: Db) {
    && |m| == db.n == |db.assigns| == |db.eliminated|
    && (forall r :: Live(db, r) ==> MTrue(m, db.ca[r]))
    && (forall v :: 0 <= v < db.n && db.assigns[v] != Undef && !db.eliminated[v] ==> m[v] == db.assigns[v])
  }

  /** A total model of what is left becomes a model of the formula once the stack has been walked. */
  ghost predicate Rebuilds(F: seq<Clause>, db: Db, stack: seq<Clause>) {
    forall m: Model :: Total(m, db.eliminated) && DbTrue(m, db) ==> AllTrue(Rebuilt(stack, m), F)
  }

  /** Models of `new` are models of `old`, over the same eliminated variables. */
  ghost predicate Refines(new': Db, old': Db) {
    && new'.eliminated == old'.eliminated
    && forall m: Model :: Total(m, new'.eliminated) && DbTrue(m, new') ==> DbTrue(m, old')
  }

  /** The clause holds in every model of the database, for one of these visible reasons. */
  ghost predicate Represented(db: Db, ps: Clause) {
    || Obsolete(db.assigns, ps)
    || exists r :: Live(db, r) && Within(db.ca[r], ps)
  }

  ghost predicate Within(c: Clause, d: Clause) {
    forall k :: 0 <= k < |c| ==> c[k] in d
  }

  lemma MTrueWithin(m: Model, c: Clause, d: Clause)
    requires MTrue(m, c) && Within(c, d)
    ensures MTrue(m, d)
  {
    var k :| 0 <= k < |c| && c[k].v < |m| && ValueOf(m, c[k]) == True;
    var j :| 0 <= j < |d| && d[j] == c[k];
  }

  lemma RefinesRebuilds(F: seq<Clause>, db: Db, db': Db, stack: seq<Clause>)
    requires Rebuilds(F, db, stack) && Refines(db', db)
    ensures Rebuilds(F, db', stack)
  {
  }

  lemma RefinesTrans(a: Db, b: Db, c: Db)
    requires Refines(b, a) && Refines(c, b)
    ensures Refines(c, a)
  {
  }

  /** Two entailed units of opposite sign refute the formula. */
  lemma Contradiction(F: seq<Clause>, p: Lit)
    requires Entails(F, [p]) && Entails(F, [p.Neg()])
    ensures !Satisfiable(F)
  {
    forall A: Assignment ensures !Models(A, F) {
      assert !(Sat(A, [p]) && Sat(A, [p.Neg()]));
    }
  }

  lemma UnitTrue(A: Assignment, p: Lit)
    ensures Sat(A, [p]) <==> Holds(A, p)
  {
    if Holds(A, p) { assert Holds(A, [p][0]); }
  }

  // ---------------------------------------------------------------- level-0 units

  ghost function WithUnit(db: Db, p: Lit): Db
    requires p.v < |db.assigns|
  {
    db.(assigns := db.assigns[p.v := Lifted(p)])
  }

  lemma UnitStep(F: seq<Clause>, db: Db, p: Lit, except: int)
    requires DbShape(db) && NoneEliminated(db, except) && Sound(F, db) && p.v < db.n && db.assigns[p.v] == Undef && Entails(F, [p])
    ensures DbShape(WithUnit(db, p)) && NoneEliminated(WithUnit(db, p), except) && Sound(F, WithUnit(db, p)) && Refines(WithUnit(db, p), db)
  {
    var t := WithUnit(db, p);
    assert forall r :: Live(t, r) ==> Live(db, r);
    assert forall r :: Live(db, r) ==> Live(t, r);
    forall v | 0 <= v < db.n && t.assigns[v] != Undef ensures Entails(F, [Assigned(t.assigns, v)]) {
      if v == p.v {
        assert Assigned(t.assigns, v) == p;
      } else {
        assert Assigned(t.assigns, v) == Assigned(db.assigns, v);
      }
    }
    forall m: Model | Total(m, t.eliminated) && DbTrue(m, t) ensures DbTrue(m, db) {
      assert forall v :: 0 <= v < db.n && db.assigns[v] != Undef ==> t.assigns[v] == db.assigns[v];
    }
  }

  /** A clause with all literals false, but perhaps one, entails that one. */
  lemma UnitEntailed(F: seq<Clause>, db: Db, c: Clause, p: Lit)
    requires Sound(F, db) && Entails(F, c)
    requires forall k :: 0 <= k < |c| && c[k] != p ==> c[k].v < |db.assigns| && ValueOf(db.assigns, c[k]) == False
    ensures Entails(F, [p])
    ensures p !in c ==> !Satisfiable(F)
  {
    forall A: Assignment | Models(A, F) ensures p in c && Sat(A, [p]) {
      var k :| 0 <= k < |c| && Holds(A, c[k]);
      if c[k] != p {
        var u := Assigned(db.assigns, c[k].v);
        assert Entails(F, [u]) && u == c[k].Neg();
        UnitTrue(A, u);
      }
      UnitTrue(A, p);
    }
  }

  // ---------------------------------------------------------------- adding and removing clauses

  ghost function WithStored(db: Db, c: Clause): Db {
    db.(ca := db.ca + [c], dead := db.dead + [false])
  }

  lemma StoreStep(F: seq<Clause>, db: Db, c: Clause, except: int)
    requires DbShape(db) && NoneEliminated(db, except) && Sound(F, db) && Stored(db.n, c) && Entails(F, c)
    requires forall k :: 0 <= k < |c| ==> !db.eliminated[c[k].v] || c[k].v == except
    ensures
      var t := WithStored(db, c);
      DbShape(t) && NoneEliminated(t, except) && Sound(F, t) && Refines(t, db) && Live(t, |db.ca|)
  {
    var t := WithStored(db, c);
    forall r | Live(db, r) ensures Live(t, r) && t.ca[r] == db.ca[r] {
    }
    forall r | Live(t, r) ensures (r < |db.ca| && Live(db, r) && t.ca[r] == db.ca[r]) || t.ca[r] == c {
    }
    forall m: Model | Total(m, t.eliminated) && DbTrue(m, t) ensures DbTrue(m, db) {
      forall r | Live(db, r) ensures MTrue(m, db.ca[r]) {
        assert Live(t, r) && MTrue(m, t.ca[r]);
      }
    }
  }

  ghost function WithDead(db: Db, r: nat): Db
    requires r < |db.dead|
  {
    db.(dead := db.dead[r := true])
  }

  /** A clause may go if another live clause, or a true literal, implies it. */
  lemma DropStep(F: seq<Clause>, db: Db, r: nat, except: int)
    requires DbShape(db) && NoneEliminated(db, except) && Sound(F, db) && Live(db, r)
    requires Represented(WithDead(db, r), db.ca[r])
    requires forall k :: 0 <= k < |db.ca[r]| ==> !db.eliminated[db.ca[r][k].v]
    ensures
      var t := WithDead(db, r);
      DbShape(t) && NoneEliminated(t, except) && Sound(F, t) && Refines(t, db)
  {
    var t := WithDead(db, r);
    forall q | Live(t, q) ensures Live(db, q) {
    }
    forall m: Model | Total(m, t.eliminated) && DbTrue(m, t) ensures DbTrue(m, db) {
      RepresentedTrue(m, t, db.ca[r]);
      forall q | Live(db, q) ensures MTrue(m, db.ca[q]) {
        if q != r { assert Live(t, q); }
      }
    }
  }

  lemma RepresentedTrue(m: Model, db: Db, ps: Clause)
    requires Represented(db, ps) && Total(m, db.eliminated) && DbTrue(m, db)
    requires forall k :: 0 <= k < |ps| ==> ps[k].v < db.n && !db.eliminated[ps[k].v]
    ensures MTrue(m, ps)
  {
    if Obsolete(db.assigns, ps) {
      if i :| 0 <= i < |ps| && ps[i].v < |db.assigns| && ValueOf(db.assigns, ps[i]) == True {
        assert m[ps[i].v] == db.assigns[ps[i].v];
      } else {
        var i, j :| 0 <= i < |ps| && 0 <= j < |ps| && ps[i] == ps[j].Neg();
        assert m[ps[i].v] != Undef;
        assert ValueOf(m, ps[i]) == True || ValueOf(m, ps[j]) == True;
      }
    } else {
      var r :| Live(db, r) && Within(db.ca[r], ps);
      MTrueWithin(m, db.ca[r], ps);
    }
  }

  ghost function WithShorter(db: Db, r: nat, c: Clause): Db
    requires r < |db.ca|
  {
    db.(ca := db.ca[r := c])
  }

  lemma ShortenStep(F: seq<Clause>, db: Db, r: nat, c: Clause, except: int)
    requires DbShape(db) && NoneEliminated(db, except) && Sound(F, db) && Live(db, r)
    requires Stored(db.n, c) && Within(c, db.ca[r]) && Entails(F, c)
    ensures
      var t := WithShorter(db, r, c);
      DbShape(t) && NoneEliminated(t, except) && Sound(F, t) && Refines(t, db) && Live(t, r)
  {
    var t := WithShorter(db, r, c);
    forall q ensures Live(t, q) <==> Live(db, q) {
    }
    forall k | 0 <= k < |c| ensures db.eliminated[c[k].v] ==> c[k].v == except {
      var j :| 0 <= j < |db.ca[r]| && db.ca[r][j] == c[k];
    }
    forall m: Model | Total(m, t.eliminated) && DbTrue(m, t) ensures DbTrue(m, db) {
      forall q | Live(db, q) ensures MTrue(m, db.ca[q]) {
        assert Live(t, q) && MTrue(m, t.ca[q]);
        if q == r { MTrueWithin(m, c, db.ca[r]); }
      }
    }
  }

  // ---------------------------------------------------------------- how representation survives

  /** `t` has every live clause and every assignment of `s`. */
  ghost predicate Grows(s: Db, t: Db) {
    && t.n == s.n && t.eliminated == s.eliminated && |s.assigns| == |t.assigns|
    && |s.ca| == |s.dead| <= |t.ca| == |t.dead|
    && (forall r :: 0 <= r < |s.ca| ==> t.ca[r] == s.ca[r] && t.dead[r] == s.dead[r])
    && (forall v :: 0 <= v < |s.assigns| && s.assigns[v] != Undef ==> t.assigns[v] == s.assigns[v])
  }

  lemma GrowsTrans(a: Db, b: Db, c: Db)
    requires Grows(a, b) && Grows(b, c)
    ensures Grows(a, c)
  {
  }

  lemma GrowsRepresented(s: Db, t: Db, ps: Clause)
    requires Grows(s, t) && Represented(s, ps)
    ensures Represented(t, ps)
  {
    if Obsolete(s.assigns, ps) {
      if i :| 0 <= i < |ps| && ps[i].v < |s.assigns| && ValueOf(s.assigns, ps[i]) == True {
        assert ValueOf(t.assigns, ps[i]) == True;
      }
    } else {
      var r :| Live(s, r) && Within(s.ca[r], ps);
      assert Live(t, r);
    }
  }

  // ---------------------------------------------------------------- the walk over one segment

  /** The stored side of an elimination: clauses with `w` in front and otherwise without its variable. */
  ghost predicate Side(fronts: seq<Clause>, w: Lit, n: nat) {
    forall i :: 0 <= i < |fronts| ==>
      && |fronts[i]| > 0 && fronts[i][0] == w
      && forall k :: 1 <= k < |fronts[i]| ==> fronts[i][k].v < n && fronts[i][k].v != w.v
  }

  /** Walking the segment sets `w` exactly if some stored clause needs it; nothing else changes. */
  lemma {:induction false} SegmentWalk(fronts: seq<Clause>, w: Lit, m: Model, x: Model)
    requires Side(fronts, w, |m|) && w.v < |m|
    requires x == m[w.v := Lifted(w)] || x == m[w.v := Lifted(w.Neg())]
    ensures
      Rebuilt(fronts, x) ==
        if x[w.v] == Lifted(w) || exists i :: 0 <= i < |fronts| && FalseFrom(m, fronts[i], 1)
        then m[w.v := Lifted(w)] else m[w.v := Lifted(w.Neg())]
  {
    if fronts != [] {
      var init, c := fronts[..|fronts| - 1], fronts[|fronts| - 1];
      assert forall i :: 0 <= i < |init| ==> init[i] == fronts[i];
      assert FalseFrom(x, c, 1) <==> FalseFrom(m, c, 1);
      assert c[0] == w;
      var x' := Repaired(x, c);
      assert x' == if x[w.v] == Lifted(w) || FalseFrom(m, c, 1) then m[w.v := Lifted(w)] else m[w.v := Lifted(w.Neg())];
      SegmentWalk(init, w, m, x');
      assert (exists i :: 0 <= i < |fronts| && FalseFrom(m, fronts[i], 1)) <==>
             ((exists i :: 0 <= i < |init| && FalseFrom(m, init[i], 1)) || FalseFrom(m, c, 1)) by {
        if i :| 0 <= i < |fronts| && FalseFrom(m, fronts[i], 1) {
          if i < |init| { assert FalseFrom(m, init[i], 1); }
        }
        if i :| 0 <= i < |init| && FalseFrom(m, init[i], 1) {
          assert FalseFrom(m, fronts[i], 1);
        }
        if FalseFrom(m, c, 1) { assert FalseFrom(m, fronts[|fronts| - 1], 1); }
      }
    }
  }

  // ---------------------------------------------------------------- one elimination

  /** Every resolvent of the two sides is a tautology or represented. */
  ghost predicate PairDone(db: Db, p: Clause, q: Clause, v: nat) {
    Clash(p, q, v) || Represented(db, Resolvent(p, q, v))
  }

  lemma ClashCarries(m: Model, p: Clause, q: Clause, v: nat)
    requires Clash(p, q, v)
    requires forall k :: 0 <= k < |p| && p[k].v != v ==> p[k].v < |m| && ValueOf(m, p[k]) == False
    ensures exists k :: 0 <= k < |q| && q[k].v != v && q[k].v < |m| && ValueOf(m, q[k]) == True
  {
    var i, j :| 0 <= i < |q| && 0 <= j < |p| && q[i].v != v && p[j] == q[i].Neg();
    assert ValueOf(m, p[j]) == False && ValueOf(m, q[i]) == True;
  }

  /** A true resolvent whose literals from `p` are false is true through a literal of `q`. */
  lemma ResolventSplit(m: Model, a: Clause, b: Clause, p: Clause, q: Clause, v: nat)
    requires !Clash(a, b, v) && ((a == p && b == q) || (a == q && b == p)) && MTrue(m, Resolvent(a, b, v))
    requires forall k :: 0 <= k < |p| && p[k].v != v ==> p[k].v < |m| && ValueOf(m, p[k]) == False
    ensures exists k :: 0 <= k < |q| && q[k].v != v && q[k].v < |m| && ValueOf(m, q[k]) == True
  {
    ResolventLits(a, b, v);
    var r := Resolvent(a, b, v);
    var k :| 0 <= k < |r| && r[k].v < |m| && ValueOf(m, r[k]) == True;
    assert r[k] in r && r[k].v != v;
    var x := r[k];
    assert forall i :: 0 <= i < |p| ==> p[i] != x;
    var j :| 0 <= j < |q| && q[j] == x;
  }

  ghost predicate Readable(db: Db, p: Clause, v: nat) {
    forall k :: 0 <= k < |p| ==> p[k].v < db.n == |db.eliminated| && (p[k].v != v ==> !db.eliminated[p[k].v])
  }

  lemma ResolventTrue(db: Db, m: Model, a: Clause, b: Clause, v: nat)
    requires !Clash(a, b, v) && Represented(db, Resolvent(a, b, v)) && Total(m, db.eliminated) && DbTrue(m, db)
    requires Readable(db, a, v) && Readable(db, b, v)
    ensures MTrue(m, Resolvent(a, b, v))
  {
    ResolventLits(a, b, v);
    var r := Resolvent(a, b, v);
    hide Clash, Represented, DbTrue, Total, Resolvent;
    forall k | 0 <= k < |r| ensures r[k].v < db.n == |db.eliminated| && !db.eliminated[r[k].v] {
      assert r[k] in r;
    }
    RepresentedTrue(m, db, r);
  }

  /** If the literals of `p` other than those on `v` are false, one of `q`'s is true. */
  lemma ResolventCarries(db: Db, m: Model, p: Clause, q: Clause, v: nat)
    requires PairDone(db, p, q, v) || PairDone(db, q, p, v)
    requires Total(m, db.eliminated) && DbTrue(m, db) && Readable(db, p, v) && Readable(db, q, v)
    requires forall k :: 0 <= k < |p| && p[k].v != v ==> p[k].v < |m| && ValueOf(m, p[k]) == False
    ensures exists k :: 0 <= k < |q| && q[k].v != v && q[k].v < |m| && ValueOf(m, q[k]) == True
  {
    hide Clash, Represented, DbTrue, Total, Readable, Resolvent;
    ClashSym(p, q, v);
    if Clash(p, q, v) {
      ClashCarries(m, p, q, v);
    } else if PairDone(db, p, q, v) {
      ResolventTrue(db, m, p, q, v);
      ResolventSplit(m, p, q, p, q, v);
    } else {
      ResolventTrue(db, m, q, p, v);
      ResolventSplit(m, q, p, p, q, v);
    }
  }

  /** The clauses of `rs` contain `w` and nothing else on its variable. */
  ghost predicate OneSide(db: Db, rs: seq<nat>, w: Lit) {
    forall i :: 0 <= i < |rs| ==> Live(db, rs[i]) && w in db.ca[rs[i]]
  }

  /** `fronts` are the clauses `rs` with `w` brought to the front. */
  ghost predicate Fronts(db: Db, rs: seq<nat>, fronts: seq<Clause>, w: Lit) {
    && |fronts| == |rs|
    && forall i :: 0 <= i < |rs| ==>
         && rs[i] < |db.ca| && SameLits(db.ca[rs[i]], fronts[i]) && DistinctVars(fronts[i], 0)
         && |fronts[i]| > 0 && fronts[i][0] == w
  }

  /** `t` is `s` with `v` eliminated: its clauses, `stored` and `others`, are gone, all resolvents
      are represented. */
  ghost predicate Eliminates(s: Db, t: Db, v: nat, stored: seq<nat>, others: seq<nat>, w: Lit) {
    && DbShape(s) && DbShape(t) && NoneEliminated(s, -1) && v < s.n == t.n && w.v == v
    && t.eliminated == s.eliminated[v := true] && !s.eliminated[v] && s.assigns[v] == Undef
    && |s.ca| <= |t.ca| && (forall r :: 0 <= r < |s.ca| ==> t.ca[r] == s.ca[r])
    && OneSide(s, stored, w) && OneSide(s, others, w.Neg())
    && (forall r :: Live(s, r) ==> Live(t, r) || r in stored || r in others)
    && (forall r, k :: Live(s, r) && r !in stored && r !in others && 0 <= k < |s.ca[r]| ==> s.ca[r][k].v != v)
    && (forall u :: 0 <= u < s.n && s.assigns[u] != Undef ==> t.assigns[u] == s.assigns[u])
    && (forall i, j :: 0 <= i < |stored| && 0 <= j < |others| ==>
          PairDone(t, s.ca[stored[i]], s.ca[others[j]], v) || PairDone(t, s.ca[others[j]], s.ca[stored[i]], v))
  }

  lemma FrontSide(s: Db, rs: seq<nat>, fronts: seq<Clause>, w: Lit)
    requires DbShape(s) && OneSide(s, rs, w) && Fronts(s, rs, fronts, w)
    ensures Side(fronts, w, s.n)
  {
    forall i | 0 <= i < |fronts|
      ensures forall k :: 1 <= k < |fronts[i]| ==> fronts[i][k].v < s.n && fronts[i][k].v != w.v
    {
      assert Live(s, rs[i]) && Stored(s.n, s.ca[rs[i]]);
      forall k | 1 <= k < |fronts[i]| ensures fronts[i][k].v < s.n && fronts[i][k].v != w.v {
        assert fronts[i][k] in s.ca[rs[i]];
      }
    }
  }

  /** `FalseFrom` the front position means that the clause needs its front literal. */
  lemma FrontFalse(s: Db, m: Model, c: Clause, d: Clause, w: Lit)
    requires SameLits(c, d) && DistinctVars(d, 0) && |d| > 0 && d[0] == w && FalseFrom(m, d, 1)
    ensures forall k :: 0 <= k < |c| && c[k].v != w.v ==> c[k].v < |m| && ValueOf(m, c[k]) == False
  {
    forall k | 0 <= k < |c| && c[k].v != w.v ensures c[k].v < |m| && ValueOf(m, c[k]) == False {
      var j :| 0 <= j < |d| && d[j] == c[k];
      assert j >= 1;
    }
  }

  /** After the walk every clause of `s` is true: the stored ones were repaired, the others hold by
      the default or through a resolvent, and the rest do not mention `v`. */
  lemma WalkedClause(s: Db, t: Db, v: nat, stored: seq<nat>, others: seq<nat>, w: Lit, fronts: seq<Clause>, m: Model, r: nat)
    requires Eliminates(s, t, v, stored, others, w) && Fronts(s, stored, fronts, w)
    requires Total(m, t.eliminated) && DbTrue(m, t) && Live(s, r)
    ensures MTrue(Rebuilt(fronts, m[v := Lifted(w.Neg())]), s.ca[r])
  {
    FrontSide(s, stored, fronts, w);
    var m0 := m[v := Lifted(w.Neg())];
    SegmentWalk(fronts, w, m, m0);
    var m2 := Rebuilt(fronts, m0);
    assert forall u :: 0 <= u < |m| && u != v ==> m2[u] == m[u];
    if r in stored {
      var i :| 0 <= i < |stored| && stored[i] == r;
      StoredTrue(s, t, v, stored, others, w, fronts, m, m2, i);
    } else if r in others {
      var j :| 0 <= j < |others| && others[j] == r;
      OtherTrue(s, t, v, stored, others, w, fronts, m, m2, j);
    } else {
      UntouchedTrue(s, t, v, m, m2, r);
    }
  }

  /** A live clause of `s` without `v` that is live in `t`; one with `v` would be ruled out by `t`. */
  lemma UntouchedTrue(s: Db, t: Db, v: nat, m: Model, m2: Model, r: nat)
    requires DbShape(s) && Live(s, r) && r < |t.ca| && t.ca[r] == s.ca[r] && DbTrue(m, t) && |m2| == |m|
    requires Live(t, r)
    requires forall u :: 0 <= u < |m| && u != v ==> m2[u] == m[u]
    requires forall k :: 0 <= k < |s.ca[r]| ==> s.ca[r][k].v != v
    ensures MTrue(m2, s.ca[r])
  {
    var k :| 0 <= k < |t.ca[r]| && t.ca[r][k].v < |m| && ValueOf(m, t.ca[r][k]) == True;
    assert ValueOf(m2, s.ca[r][k]) == True;
  }

  lemma StoredTrue(s: Db, t: Db, v: nat, stored: seq<nat>, others: seq<nat>, w: Lit, fronts: seq<Clause>, m: Model, m2: Model, i: nat)
    requires Eliminates(s, t, v, stored, others, w) && Fronts(s, stored, fronts, w) && i < |stored|
    requires Total(m, t.eliminated) && |m| == s.n
    requires m2 == if exists i :: 0 <= i < |fronts| && FalseFrom(m, fronts[i], 1) then m[v := Lifted(w)] else m[v := Lifted(w.Neg())]
    ensures MTrue(m2, s.ca[stored[i]])
  {
    var c := s.ca[stored[i]];
    assert Live(s, stored[i]) && w in c;
    if m2[v] == Lifted(w) {
      var k :| 0 <= k < |c| && c[k] == w;
      assert ValueOf(m2, c[k]) == True;
    } else {
      assert !FalseFrom(m, fronts[i], 1);
      var j := FrontTrue(s, t, v, stored, others, w, fronts, m, i);
      assert ValueOf(m2, c[j]) == True;
    }
  }

  /** A front whose other literals are not all false has a true one, on another variable. */
  lemma FrontTrue(s: Db, t: Db, v: nat, stored: seq<nat>, others: seq<nat>, w: Lit, fronts: seq<Clause>, m: Model, i: nat) returns (j: nat)
    requires Eliminates(s, t, v, stored, others, w) && Fronts(s, stored, fronts, w) && i < |stored|
    requires Total(m, t.eliminated) && |m| == s.n && !FalseFrom(m, fronts[i], 1)
    ensures stored[i] < |s.ca| && j < |s.ca[stored[i]]|
    ensures s.ca[stored[i]][j].v < |m| && s.ca[stored[i]][j].v != v && ValueOf(m, s.ca[stored[i]][j]) == True
  {
    var c, d := s.ca[stored[i]], fronts[i];
    assert Live(s, stored[i]);
    var k :| 1 <= k < |d| && !(d[k].v < |m| && ValueOf(m, d[k]) == False);
    assert d[k] in c && d[k].v != d[0].v;
    j :| 0 <= j < |c| && c[j] == d[k];
    assert c[j].v < s.n && !s.eliminated[c[j].v];
    assert m[c[j].v] != Undef;
  }

  lemma OtherTrue(s: Db, t: Db, v: nat, stored: seq<nat>, others: seq<nat>, w: Lit, fronts: seq<Clause>, m: Model, m2: Model, j: nat)
    requires Eliminates(s, t, v, stored, others, w) && Fronts(s, stored, fronts, w) && j < |others|
    requires Total(m, t.eliminated) && DbTrue(m, t)
    requires m2 == if exists i :: 0 <= i < |fronts| && FalseFrom(m, fronts[i], 1) then m[v := Lifted(w)] else m[v := Lifted(w.Neg())]
    ensures MTrue(m2, s.ca[others[j]])
  {
    hide Eliminates, Fronts, DbTrue, Total;
    OtherHolds(s, t, v, stored, others, w, j);
    TotalSize(m, t.eliminated);
    var q := s.ca[others[j]];
    if i :| 0 <= i < |fronts| && FalseFrom(m, fronts[i], 1) {
      OtherCarried(s, t, v, stored, others, w, fronts, m, i, j);
      var k :| 0 <= k < |q| && q[k].v != v && q[k].v < |m| && ValueOf(m, q[k]) == True;
      assert ValueOf(m2, q[k]) == True;
    } else {
      var k :| 0 <= k < |q| && q[k] == w.Neg();
      assert ValueOf(m2, q[k]) == True;
    }
  }

  lemma TotalSize(m: Model, eliminated: seq<bool>)
    requires Total(m, eliminated)
    ensures |m| == |eliminated|
  {
  }

  lemma OtherHolds(s: Db, t: Db, v: nat, stored: seq<nat>, others: seq<nat>, w: Lit, j: nat)
    requires Eliminates(s, t, v, stored, others, w) && j < |others|
    ensures others[j] < |s.ca| && w.Neg() in s.ca[others[j]] && w.v == v < t.n && |t.eliminated| == t.n
  {
    assert Live(s, others[j]);
  }

  /** If a stored clause has only its front literal left, its resolvent with the other clause makes
      that one true. */
  lemma OtherCarried(s: Db, t: Db, v: nat, stored: seq<nat>, others: seq<nat>, w: Lit, fronts: seq<Clause>, m: Model, i: nat, j: nat)
    requires Eliminates(s, t, v, stored, others, w) && Fronts(s, stored, fronts, w) && i < |fronts| && j < |others|
    requires Total(m, t.eliminated) && DbTrue(m, t) && FalseFrom(m, fronts[i], 1)
    ensures others[j] < |s.ca|
    ensures exists k :: 0 <= k < |s.ca[others[j]]| && s.ca[others[j]][k].v != v && s.ca[others[j]][k].v < |m| &&
                        ValueOf(m, s.ca[others[j]][k]) == True
  {
    hide DbTrue;
    assert Live(s, others[j]) && Live(s, stored[i]);
    FrontFalse(s, m, s.ca[stored[i]], fronts[i], w);
    ResolventCarries(t, m, s.ca[stored[i]], s.ca[others[j]], v);
  }

  /** The new segment of the stack carries models of `t` back to models of `s`. */
  lemma EliminationRebuilds(F: seq<Clause>, s: Db, t: Db, v: nat, stored: seq<nat>, others: seq<nat>, w: Lit, fronts: seq<Clause>, stack: seq<Clause>)
    requires Rebuilds(F, s, stack) && Eliminates(s, t, v, stored, others, w) && Fronts(s, stored, fronts, w)
    ensures Rebuilds(F, t, stack + fronts + [[w.Neg()]])
  {
    forall m: Model | Total(m, t.eliminated) && DbTrue(m, t)
      ensures AllTrue(Rebuilt(stack + fronts + [[w.Neg()]], m), F)
    {
      var m0 := m[v := Lifted(w.Neg())];
      assert Repaired(m, [w.Neg()]) == m0;
      assert (stack + fronts + [[w.Neg()]])[..|stack + fronts|] == stack + fronts;
      assert Rebuilt(stack + fronts + [[w.Neg()]], m) == Rebuilt(stack + fronts, m0);
      RebuiltAppend(stack, fronts, m0);
      var m2 := Rebuilt(fronts, m0);
      FrontSide(s, stored, fronts, w);
      SegmentWalk(fronts, w, m, m0);
      forall r | Live(s, r) ensures MTrue(m2, s.ca[r]) {
        WalkedClause(s, t, v, stored, others, w, fronts, m, r);
      }
      assert Total(m2, s.eliminated);
      assert DbTrue(m2, s);
    }
  }
}
