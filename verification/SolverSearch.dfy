/** Learning, backjumping and the progress of the search. */
module SolverSearch {
  import opened Logic
  import opened SolverState
  import opened SolverWatches
  import opened SolverAnalyze
  import opened SolverMinimize

  // ---------------------------------------------------------------- what the clauses stand for

  ghost predicate SatAll(A: Assignment, s: State) {
    && (forall r :: 0 <= r < |s.ca| ==> Sat(A, s.ca[r]))
    && (forall i :: 0 <= i < |s.trail| && s.trail[i].v < |s.vardata| && Level(s, s.trail[i].v) == 0 ==> Holds(A, s.trail[i]))
  }

  /** Nothing of the formula was lost: whatever satisfies the stored clauses and level 0 is a model. */
  ghost predicate Complete(F: seq<Clause>, s: State) {
    forall A: Assignment :: SatAll(A, s) ==> Models(A, F)
  }

  /** The assignment on the trail. */
  ghost function TrailModel(assigns: seq<LBool>): Assignment {
    iset v: nat | v < |assigns| && assigns[v] == True
  }

  lemma TrailHolds(s: State, q: Lit)
    requires TrailOk(s) && On(s, q)
    ensures Holds(TrailModel(s.assigns), q)
  {
  }

  /** Once every variable is assigned and nothing is left to propagate, the trail is a model. */
  lemma FullTrailModels(F: seq<Clause>, s: State)
    requires Inv(s) && Complete(F, s) && forall v :: 0 <= v < s.n ==> s.assigns[v] != Undef
    requires forall cr :: 0 <= cr < |s.ca| ==> NotUnitNorFalse(s, s.ca[cr])
    ensures Models(TrailModel(s.assigns), F)
  {
    var A := TrailModel(s.assigns);
    forall r | 0 <= r < |s.ca| ensures Sat(A, s.ca[r]) {
      var c := s.ca[r];
      assert ClauseShape(s.n, c) && NotUnitNorFalse(s, c);
      var m: int;
      if k :| 0 <= k < |c| && On(s, c[k]) {
        m := k;
      } else {
        var j, k :| 0 <= j < k < |c| && !On(s, c[j].Neg()) && !On(s, c[k].Neg());
        m := j;
        OnValue(s, c[j]);
      }
      TrailHolds(s, c[m]);
    }
    forall i | 0 <= i < |s.trail| ensures Holds(A, s.trail[i]) {
      assert On(s, s.trail[i]);
      TrailHolds(s, s.trail[i]);
    }
  }

  /** A clause that is false at level 0 refutes the formula. */
  lemma ConflictAtRoot(F: seq<Clause>, s: State, confl: int)
    requires Inv(s) && Sound(F, s) && Conflict(s, confl) && |s.trailLim| == 0
    ensures !Satisfiable(F)
  {
    if Satisfiable(F) {
      var A: Assignment :| Models(A, F);
      var c := s.ca[confl];
      assert Entails(F, c);
      var k :| 0 <= k < |c| && Holds(A, c[k]);
      assert On(s, c[k].Neg());
      LevelBound(s, c[k].Neg());
      LevelZeroHolds(F, s, A, s.pos[c[k].v]);
    }
  }

  // ---------------------------------------------------------------- soundness and completeness are kept

  lemma ExtendsSound(F: seq<Clause>, s: State, t: State)
    requires Extends(s, t) && Sound(F, s)
    ensures Sound(F, t)
  {
    forall r | 0 <= r < |t.ca| ensures Entails(F, t.ca[r]) {
      forall A: Assignment | Models(A, F) ensures Sat(A, t.ca[r]) {
        assert Entails(F, s.ca[r]);
        SatSubset(A, s.ca[r], t.ca[r]);
      }
    }
    forall i | 0 <= i < |t.trail| && t.trail[i].v < |t.vardata| && Level(t, t.trail[i].v) == 0 && Reason(t, t.trail[i].v) == CREF_UNDEF
      ensures Entails(F, [t.trail[i]])
    {
      if i < |s.trail| {
        assert t.trail[i] == t.trail[..|s.trail|][i] == s.trail[i];
      }
    }
  }

  lemma ExtendsComplete(F: seq<Clause>, s: State, t: State)
    requires Extends(s, t) && Complete(F, s)
    ensures Complete(F, t)
  {
    forall A: Assignment | SatAll(A, t) ensures Models(A, F) {
      forall r | 0 <= r < |s.ca| ensures Sat(A, s.ca[r]) {
        assert SameLits(s.ca[r], t.ca[r]);
        SatSubset(A, t.ca[r], s.ca[r]);
      }
      forall i | 0 <= i < |s.trail| && Level(s, s.trail[i].v) == 0 ensures Holds(A, s.trail[i]) {
        assert t.trail[i] == t.trail[..|s.trail|][i] == s.trail[i];
      }
      assert SatAll(A, s);
    }
  }

  lemma SameComplete(F: seq<Clause>, s: State, t: State)
    requires Complete(F, s) && t == s.(ca := t.ca) && SameClauses(s.ca, t.ca)
    ensures Complete(F, t)
  {
    forall A: Assignment | SatAll(A, t) ensures Models(A, F) {
      forall r | 0 <= r < |s.ca| ensures Sat(A, s.ca[r]) {
        assert SameLits(s.ca[r], t.ca[r]);
        SatSubset(A, t.ca[r], s.ca[r]);
      }
      assert SatAll(A, s);
    }
  }

  /** Backjumping keeps all of level 0. */
  lemma CancelMeaning(F: seq<Clause>, s: State, level: nat)
    requires Inv(s) && level < |s.trailLim| && Sound(F, s) && Complete(F, s)
    ensures Sound(F, Cancelled(s, level)) && Complete(F, Cancelled(s, level))
  {
    var t := Cancelled(s, level);
    forall A: Assignment | SatAll(A, t) ensures Models(A, F) {
      forall i | 0 <= i < |s.trail| && Level(s, s.trail[i].v) == 0 ensures Holds(A, s.trail[i]) {
        assert On(s, s.trail[i]);
        CancelLevels(s, level, s.trail[i]);
        assert t.trail[i] == s.trail[i];
      }
      assert SatAll(A, s);
    }
  }

  ghost function AddClauseTo(s: State, c: Clause): State {
    s.(ca := s.ca + [c])
  }

  lemma AddMeaning(F: seq<Clause>, s: State, c: Clause)
    requires Sound(F, s) && Complete(F, s) && Entails(F, c)
    ensures Sound(F, AddClauseTo(s, c)) && Complete(F, AddClauseTo(s, c))
  {
    var t := AddClauseTo(s, c);
    forall A: Assignment | SatAll(A, t) ensures Models(A, F) {
      forall r | 0 <= r < |s.ca| ensures Sat(A, s.ca[r]) {
        assert t.ca[r] == s.ca[r];
      }
      assert SatAll(A, s);
    }
  }

  lemma EnqueueMeaning(F: seq<Clause>, s: State, p: Lit, from: int)
    requires Inv(s) && CanEnqueue(s, p, from) && Sound(F, s) && Complete(F, s)
    requires from == CREF_UNDEF && |s.trailLim| == 0 ==> Entails(F, [p])
    ensures Sound(F, Enqueue(s, p, from)) && Complete(F, Enqueue(s, p, from))
  {
    var t := Enqueue(s, p, from);
    forall i | 0 <= i < |s.trail| ensures t.trail[i] == s.trail[i] && s.trail[i].v != p.v {
      assert s.assigns[s.trail[i].v] == Lifted(s.trail[i]);
    }
    forall i | 0 <= i < |t.trail| && Level(t, t.trail[i].v) == 0 && Reason(t, t.trail[i].v) == CREF_UNDEF
      ensures Entails(F, [t.trail[i]])
    {
    }
    forall A: Assignment | SatAll(A, t) ensures Models(A, F) {
      assert SatAll(A, s);
    }
  }

  lemma NewLevelMeaning(F: seq<Clause>, s: State)
    requires Sound(F, s) && Complete(F, s)
    ensures Sound(F, NewLevel(s)) && Complete(F, NewLevel(s))
  {
    forall A: Assignment | SatAll(A, NewLevel(s)) ensures Models(A, F) {
      assert SatAll(A, s);
    }
  }

  // ---------------------------------------------------------------- learning

  /** After the backjump the learnt clause is unit: its first literal is unassigned, the others are
      still false. */
  lemma UnitAfterBackjump(s: State, out: Clause, bt: nat)
    requires Inv(s) && Asserting(s, out) && bt < |s.trailLim|
    requires forall k :: 1 <= k < |out| ==> LevelOf(s, out[k]) <= bt
    ensures
      var t := Cancelled(s, bt);
      && out[0].v < t.n && ValueOf(t.assigns, out[0]) == Undef
      && (forall k :: 1 <= k < |out| ==> On(t, out[k].Neg()))
      && (forall k :: 0 <= k < |out| ==> out[k].v < t.n)
  {
    var t := Cancelled(s, bt);
    CancelLevels(s, bt, out[0].Neg());
    CancelKeeps(s, bt);
    OnValue(t, out[0]);
    CancelOn(s, bt, out[0]);
    forall k | 1 <= k < |out| ensures On(t, out[k].Neg()) {
      CancelLevels(s, bt, out[k].Neg());
    }
  }

  lemma LearntCanEnqueue(t: State, out: Clause)
    requires Inv(t) && |out| >= 2 && DistinctVars(out, 0) && out[0].v < t.n && ValueOf(t.assigns, out[0]) == Undef
    requires forall k :: 0 <= k < |out| ==> out[k].v < t.n
    requires forall k :: 1 <= k < |out| ==> On(t, out[k].Neg())
    ensures Inv(AddClauseTo(t, out)) && CanEnqueue(AddClauseTo(t, out), out[0], |t.ca|)
  {
    var u := AddClauseTo(t, out);
    assert ClauseShape(t.n, out);
    forall i | 0 <= i < |u.trail| ensures ReasonAt(u, i) && LevelAt(u, i) {
      assert ReasonAt(t, i) && LevelAt(t, i);
      var r := Reason(t, t.trail[i].v);
      if r != CREF_UNDEF {
        forall k | 0 <= k < |u.ca[r]| && u.ca[r][k] != u.trail[i] ensures FalseBefore(u, u.ca[r][k], i) {
          assert FalseBefore(t, t.ca[r][k], i);
        }
      }
    }
    forall k | 0 <= k < |out| && out[k] != out[0] ensures FalseBefore(u, out[k], |u.trail|) {
      assert On(t, out[k].Neg());
    }
  }

  lemma ExcusedAdd(t: State, u: State, c: Clause, k: nat)
    requires u == t.(ca := u.ca) && k < |c| && Excused(t, c, k)
    ensures Excused(u, c, k)
  {
    var m :| 0 <= m < |c| && On(t, c[m]) && LevelOf(t, c[m]) <= LevelOf(t, c[k]);
    assert On(u, c[m]) && LevelOf(u, c[m]) <= LevelOf(u, c[k]);
  }

  /** The learnt clause is excused for its watched false literal, which is of the level the solver
      jumped back to. */
  lemma LearntSem(t: State, out: Clause)
    requires |out| >= 2 && Inv(AddClauseTo(t, out)) && CanEnqueue(AddClauseTo(t, out), out[0], |t.ca|)
    requires WatchSem(t, |t.trail|) && Inv(t)
    requires On(t, out[1].Neg()) && LevelOf(t, out[1]) == |t.trailLim|
    ensures WatchSem(Enqueue(AddClauseTo(t, out), out[0], |t.ca|), |t.trail|)
  {
    var u := AddClauseTo(t, out);
    var w := Enqueue(u, out[0], |t.ca|);
    assert w.ca == t.ca + [out];
    forall cr, k | 0 <= cr < |w.ca| && 0 <= k < 2 && k < |w.ca[cr]| && FalseBefore(w, w.ca[cr][k], |t.trail|)
      ensures Excused(w, w.ca[cr], k)
    {
      EnqueueOn(u, out[0], |t.ca|, w.ca[cr][k]);
      assert FalseBefore(t, w.ca[cr][k], |t.trail|);
      if cr < |t.ca| {
        assert Excused(t, t.ca[cr], k);
        ExcusedAdd(t, u, t.ca[cr], k);
        ExcusedMono(u, out[0], |t.ca|, t.ca[cr], k);
      } else {
        EnqueueOn(u, out[0], |t.ca|, out[0]);
        assert out[1].v != out[0].v;
        assert On(w, w.ca[cr][0]) && LevelOf(w, w.ca[cr][0]) <= LevelOf(w, w.ca[cr][k]);
      }
    }
  }

  // ---------------------------------------------------------------- attaching a clause

  lemma AttachedListed(w: WatchTable, cr: nat, c: Clause, l: Lit, r: nat)
    requires |c| >= 2 && c[0].Neg() in w && c[1].Neg() in w && c[0].Neg() != c[1].Neg()
    requires (l in w && Listed(w[l], r)) || (r == cr && (l == c[0].Neg() || l == c[1].Neg()))
    ensures l in AttachedTo(w, cr, c) && Listed(AttachedTo(w, cr, c)[l], r)
  {
    var w': WatchTable := AttachedTo(w, cr, c);
    if l in w && Listed(w[l], r) {
      var m :| 0 <= m < |w[l]| && w[l][m].cref == r;
      assert w'[l][m].cref == r;
    } else {
      assert w'[l][|w[l]|].cref == r;
    }
  }

  lemma AttachLongShape(n: nat, ca: seq<Clause>, c: Clause, w: WatchTable)
    requires LongShape(n, ca, w) && ClauseShape(n, c) && |c| > 2
    ensures c[0].Neg() in w && c[1].Neg() in w && c[0].Neg() != c[1].Neg()
    ensures LongShape(n, ca + [c], AttachedTo(w, |ca|, c))
  {
    var ca' := ca + [c];
    assert c[0].Neg().v < n && c[1].Neg().v < n && c[0].v != c[1].v;
    var w' := AttachedTo(w, |ca|, c);
    forall l, k | l in w && 0 <= k < |w[l]| ensures LongWatcher(ca', l, w[l][k]) && w[l][k].cref < |ca| {
      assert LongWatcher(ca, l, w[l][k]);
    }
    AttachedWatchers(ca', w, |ca|, c);
    forall r, k | 0 <= r < |ca'| && |ca'[r]| > 2 && 0 <= k < 2
      ensures ca'[r][k].Neg() in w' && Listed(w'[ca'[r][k].Neg()], r)
    {
      AttachedListed(w, |ca|, c, ca'[r][k].Neg(), r);
    }
    assert Keyed(n, w');
  }

  lemma AttachedWatchers(ca: seq<Clause>, w: WatchTable, cr: nat, c: Clause)
    requires |c| > 2 && c[0].Neg() in w && c[1].Neg() in w && c[0].Neg() != c[1].Neg()
    requires cr < |ca| && ca[cr] == c
    requires forall l, k :: l in w && 0 <= k < |w[l]| ==> LongWatcher(ca, l, w[l][k]) && w[l][k].cref != cr
    requires forall l, j, k :: l in w && 0 <= j < k < |w[l]| ==> w[l][j].cref != w[l][k].cref
    ensures
      var w' := AttachedTo(w, cr, c);
      && (forall l, k :: l in w' && 0 <= k < |w'[l]| ==> LongWatcher(ca, l, w'[l][k]))
      && (forall l, j, k :: l in w' && 0 <= j < k < |w'[l]| ==> w'[l][j].cref != w'[l][k].cref)
  {
    var w' := AttachedTo(w, cr, c);
    assert c[0] in c && c[1] in c;
    forall l, k | l in w' && 0 <= k < |w'[l]| ensures LongWatcher(ca, l, w'[l][k]) {
      if k < |w[l]| {
        assert w'[l][k] == w[l][k];
      }
    }
    forall l, j, k | l in w' && 0 <= j < k < |w'[l]| ensures w'[l][j].cref != w'[l][k].cref {
      assert w'[l][j] == w[l][j];
    }
  }

  lemma AttachBinShape(n: nat, ca: seq<Clause>, c: Clause, w: WatchTable)
    requires BinShape(n, ca, w) && ClauseShape(n, c) && |c| == 2
    ensures c[0].Neg() in w && c[1].Neg() in w && c[0].Neg() != c[1].Neg()
    ensures BinShape(n, ca + [c], AttachedTo(w, |ca|, c))
  {
    var ca' := ca + [c];
    assert c[0].Neg().v < n && c[1].Neg().v < n && c[0].v != c[1].v;
    assert c == [c[0], c[1]];
    var w' := AttachedTo(w, |ca|, c);
    forall l, k | l in w && 0 <= k < |w[l]| ensures BinWatcher(ca', l, w[l][k]) && w'[l][k] == w[l][k] {
      assert BinWatcher(ca, l, w[l][k]);
    }
    forall l, k | l in w' && 0 <= k < |w'[l]| ensures BinWatcher(ca', l, w'[l][k]) {
    }
    forall r, k | 0 <= r < |ca'| && |ca'[r]| == 2 && 0 <= k < 2
      ensures ca'[r][k].Neg() in w' && Listed(w'[ca'[r][k].Neg()], r)
    {
      var l := ca'[r][k].Neg();
      if r < |ca| {
        assert Listed(w[l], r);
        var m :| 0 <= m < |w[l]| && w[l][m].cref == r;
        assert w'[l][m].cref == r;
      } else {
        assert w'[l][|w[l]|].cref == r;
      }
    }
  }

  /** Clause `c`, with reference `cr`, on the lists of the complements of its first two literals. */
  ghost function AttachedTo(w: WatchTable, cr: nat, c: Clause): WatchTable
    requires |c| >= 2 && c[0].Neg() in w && c[1].Neg() in w && c[0].Neg() != c[1].Neg()
  {
    w[c[0].Neg() := w[c[0].Neg()] + [Watcher(cr, c[1])]][c[1].Neg() := w[c[1].Neg()] + [Watcher(cr, c[0])]]
  }

  lemma OtherLongShape(n: nat, ca: seq<Clause>, c: Clause, w: WatchTable)
    requires LongShape(n, ca, w) && |c| <= 2
    ensures LongShape(n, ca + [c], w)
  {
    forall l, k | l in w && 0 <= k < |w[l]| ensures LongWatcher(ca + [c], l, w[l][k]) {
      assert LongWatcher(ca, l, w[l][k]);
    }
  }

  lemma OtherBinShape(n: nat, ca: seq<Clause>, c: Clause, w: WatchTable)
    requires BinShape(n, ca, w) && |c| != 2
    ensures BinShape(n, ca + [c], w)
  {
    forall l, k | l in w && 0 <= k < |w[l]| ensures BinWatcher(ca + [c], l, w[l][k]) {
      assert BinWatcher(ca, l, w[l][k]);
    }
  }

  // ---------------------------------------------------------------- progress

  /** Position `i` of the trail as a digit: 2 implied, 1 decision, 0 beyond the end. */
  ghost function Digit(s: State, i: nat): nat {
    if i >= |s.trail| then 0 else if i in s.trailLim then 1 else 2
  }

  /** The first `k` positions of the trail read as a number in base 3. */
  ghost function Rank(s: State, k: nat): nat {
    if k == 0 then 0 else 3 * Rank(s, k - 1) + Digit(s, k - 1)
  }

  ghost function Pow3(k: nat): nat {
    if k == 0 then 1 else 3 * Pow3(k - 1)
  }

  lemma {:induction false} RankBound(s: State, k: nat)
    ensures Rank(s, k) < Pow3(k)
  {
    if k > 0 { RankBound(s, k - 1); }
  }

  lemma {:induction false} RankMono(s: State, t: State, k: nat)
    requires forall i :: 0 <= i < k ==> Digit(s, i) <= Digit(t, i)
    ensures Rank(s, k) <= Rank(t, k)
  {
    if k > 0 { RankMono(s, t, k - 1); }
  }

  /** The first difference decides. */
  lemma {:induction false} RankGrows(s: State, t: State, j: nat, k: nat)
    requires j < k && Digit(s, j) < Digit(t, j) && forall i :: 0 <= i < j ==> Digit(s, i) <= Digit(t, i)
    ensures Rank(s, k) < Rank(t, k)
  {
    if j == k - 1 {
      RankMono(s, t, j);
    } else {
      RankGrows(s, t, j, k - 1);
    }
  }

  lemma PropagationProgress(s: State, t: State, k: nat)
    requires Extends(s, t) && LevelOk(s)
    ensures Rank(s, k) <= Rank(t, k)
  {
    RankMono(s, t, k);
  }

  /** A backjump turns the decision it undoes last into an implied literal. */
  lemma BackjumpProgress(s: State, bt: nat, u: State)
    requires Inv(s) && bt < |s.trailLim| && TrailOk(u) && u.n == s.n
    requires u.trailLim == s.trailLim[..bt] && |u.trail| == s.trailLim[bt] + 1
    ensures Rank(s, s.n) < Rank(u, s.n)
  {
    var k := s.trailLim[bt];
    TrailBound(u);
    assert k !in u.trailLim;
    assert s.trailLim[bt] in s.trailLim;
    forall i | 0 <= i < k ensures Digit(s, i) == Digit(u, i) {
      if i in s.trailLim {
        var j :| 0 <= j < |s.trailLim| && s.trailLim[j] == i;
        assert j < bt && u.trailLim[j] == i;
      }
    }
    RankGrows(s, u, k, s.n);
  }

  lemma DecisionProgress(s: State, u: State)
    requires TrailOk(u) && u.n == s.n && |u.trail| == |s.trail| + 1 && u.trailLim == s.trailLim + [|s.trail|]
    requires forall k :: 0 <= k < |s.trailLim| ==> s.trailLim[k] <= |s.trail|
    ensures Rank(s, s.n) < Rank(u, s.n)
  {
    TrailBound(u);
    assert u.trailLim[|s.trailLim|] == |s.trail|;
    forall i | 0 <= i < |s.trail| ensures Digit(s, i) == Digit(u, i) {
      if i in s.trailLim {
        var j :| 0 <= j < |s.trailLim| && s.trailLim[j] == i;
        assert u.trailLim[j] == i;
      }
    }
    RankGrows(s, u, |s.trail|, s.n);
  }
}
