/** Adding variables and clauses to the solver. */
module SolverInput {
  import opened Logic
  import opened SolverState
  import opened SolverWatches
  import opened SolverAnalyze
  import opened SolverMinimize
  import opened SolverSearch
  import opened ClauseCleaning

  lemma RootHolds(F: seq<Clause>, s: State, A: Assignment, q: Lit)
    requires Inv(s) && Sound(F, s) && |s.trailLim| == 0 && Models(A, F) && On(s, q)
    ensures Holds(A, q)
  {
    LevelBound(s, q);
    LevelZeroHolds(F, s, A, s.pos[q.v]);
  }

  lemma ModelsPrefix(A: Assignment, F: seq<Clause>, c: Clause)
    requires Models(A, F + [c])
    ensures Models(A, F) && Sat(A, c)
  {
    ModelsAppend(A, F, c);
  }

  lemma SoundMore(F: seq<Clause>, s: State, c: Clause)
    requires Sound(F, s)
    ensures Sound(F + [c], s)
  {
    forall A: Assignment | Models(A, F + [c]) ensures Models(A, F) {
      ModelsPrefix(A, F, c);
    }
    forall r | 0 <= r < |s.ca| ensures Entails(F + [c], s.ca[r]) {
      assert Entails(F, s.ca[r]);
    }
    forall i | 0 <= i < |s.trail| && s.trail[i].v < |s.vardata| && Level(s, s.trail[i].v) == 0 && Reason(s, s.trail[i].v) == CREF_UNDEF
      ensures Entails(F + [c], [s.trail[i]])
    {
      assert Entails(F, [s.trail[i]]);
    }
  }

  /** An obsolete clause needs not be stored. */
  lemma SkipObsolete(F: seq<Clause>, s: State, ps: Clause)
    requires Inv(s) && Sound(F, s) && Complete(F, s) && |s.trailLim| == 0 && Obsolete(s.assigns, ps)
    ensures Sound(F + [ps], s) && Complete(F + [ps], s)
  {
    SoundMore(F, s, ps);
    forall A: Assignment | SatAll(A, s) ensures Models(A, F + [ps]) {
      assert Models(A, F);
      assert Sat(A, ps) by {
        if i :| 0 <= i < |ps| && ps[i].v < |s.assigns| && ValueOf(s.assigns, ps[i]) == True {
          OnValue(s, ps[i]);
          LevelBound(s, ps[i]);
          assert s.trail[s.pos[ps[i].v]] == ps[i];
          assert Holds(A, ps[i]);
        } else {
          var i, j :| 0 <= i < |ps| && 0 <= j < |ps| && ps[i] == ps[j].Neg();
          assert Holds(A, ps[i]) || Holds(A, ps[j]);
        }
      }
      ModelsAppend(A, F, ps);
    }
  }

  /** The cleaned clause follows from the given one and level 0, and implies it. */
  lemma CleanedMeaning(F: seq<Clause>, s: State, ps: Clause, ks: Clause)
    requires Inv(s) && Sound(F, s) && |s.trailLim| == 0 && Cleaned(s.assigns, ps, ks)
    ensures Entails(F + [ps], ks)
    ensures forall A: Assignment :: Sat(A, ks) ==> Sat(A, ps)
  {
    forall A: Assignment | Models(A, F + [ps]) ensures Sat(A, ks) {
      ModelsPrefix(A, F, ps);
      var i :| 0 <= i < |ps| && Holds(A, ps[i]);
      if ps[i] in ks {
        SatMember(A, ks, ps[i]);
      } else {
        OnValue(s, ps[i]);
        RootHolds(F, s, A, ps[i].Neg());
        assert false;
      }
    }
    forall A: Assignment | Sat(A, ks) ensures Sat(A, ps) {
      SatSubset(A, ks, ps);
    }
  }

  lemma StoreCleaned(F: seq<Clause>, s: State, ps: Clause, ks: Clause)
    requires Inv(s) && Sound(F, s) && Complete(F, s) && |s.trailLim| == 0 && Cleaned(s.assigns, ps, ks)
    ensures Sound(F + [ps], AddClauseTo(s, ks)) && Complete(F + [ps], AddClauseTo(s, ks))
  {
    CleanedMeaning(F, s, ps, ks);
    SoundMore(F, s, ps);
    var t := AddClauseTo(s, ks);
    forall r | 0 <= r < |t.ca| ensures Entails(F + [ps], t.ca[r]) {
      if r < |s.ca| { assert t.ca[r] == s.ca[r]; }
    }
    forall A: Assignment | SatAll(A, t) ensures Models(A, F + [ps]) {
      forall r | 0 <= r < |s.ca| ensures Sat(A, s.ca[r]) {
        assert t.ca[r] == s.ca[r];
      }
      assert SatAll(A, s);
      assert t.ca[|s.ca|] == ks;
      ModelsAppend(A, F, ps);
    }
  }

  lemma StoreUnit(F: seq<Clause>, s: State, ps: Clause, p: Lit)
    requires Inv(s) && Sound(F, s) && Complete(F, s) && |s.trailLim| == 0 && Cleaned(s.assigns, ps, [p])
    ensures CanEnqueue(s, p, CREF_UNDEF)
    ensures Sound(F + [ps], Enqueue(s, p, CREF_UNDEF)) && Complete(F + [ps], Enqueue(s, p, CREF_UNDEF))
  {
    CleanedMeaning(F, s, ps, [p]);
    SoundMore(F, s, ps);
    assert [p][0] == p;
    var t := Enqueue(s, p, CREF_UNDEF);
    forall i | 0 <= i < |s.trail| ensures t.trail[i] == s.trail[i] && s.trail[i].v != p.v {
      assert s.assigns[s.trail[i].v] == Lifted(s.trail[i]);
    }
    forall A: Assignment | SatAll(A, t) ensures Models(A, F + [ps]) {
      assert SatAll(A, s);
      assert t.trail[|s.trail|] == p && Holds(A, p);
      assert Sat(A, [p]) by { assert Holds(A, [p][0]); }
      ModelsAppend(A, F, ps);
    }
  }

  lemma EmptyCleaned(F: seq<Clause>, s: State, ps: Clause)
    requires Inv(s) && Sound(F, s) && |s.trailLim| == 0 && Cleaned(s.assigns, ps, [])
    ensures !Satisfiable(F + [ps])
  {
    CleanedMeaning(F, s, ps, []);
    assert forall A: Assignment :: !Sat(A, []);
  }

  /** A clause whose literals are all unassigned may be attached. */
  lemma StoredInv(s: State, ks: Clause, upTo: int)
    requires Inv(s) && WatchSem(s, upTo) && |ks| >= 2 && DistinctVars(ks, 0)
    requires forall k :: 0 <= k < |ks| ==> ks[k].v < s.n && |s.assigns| == s.n && ValueOf(s.assigns, ks[k]) == Undef
    ensures Inv(AddClauseTo(s, ks)) && WatchSem(AddClauseTo(s, ks), upTo) && ClauseShape(s.n, ks)
  {
    var t := AddClauseTo(s, ks);
    forall i | 0 <= i < |t.trail| ensures ReasonAt(t, i) && LevelAt(t, i) {
      assert ReasonAt(s, i) && LevelAt(s, i);
      var r := Reason(s, s.trail[i].v);
      if r != CREF_UNDEF {
        forall k | 0 <= k < |t.ca[r]| && t.ca[r][k] != t.trail[i] ensures FalseBefore(t, t.ca[r][k], i) {
          assert FalseBefore(s, s.ca[r][k], i);
        }
      }
    }
    StoredSem(s, ks, upTo);
  }

  lemma StoredSem(s: State, ks: Clause, upTo: int)
    requires Inv(s) && WatchSem(s, upTo)
    requires forall k :: 0 <= k < |ks| ==> ks[k].v < s.n && |s.assigns| == s.n && ValueOf(s.assigns, ks[k]) == Undef
    ensures WatchSem(AddClauseTo(s, ks), upTo)
  {
    var t := AddClauseTo(s, ks);
    forall k | 0 <= k < |ks| ensures !On(s, ks[k].Neg()) {
      OnValue(s, ks[k]);
    }
    forall cr, k | 0 <= cr < |t.ca| && 0 <= k < 2 && k < |t.ca[cr]| && FalseBefore(t, t.ca[cr][k], upTo)
      ensures Excused(t, t.ca[cr], k)
    {
      assert FalseBefore(s, t.ca[cr][k], upTo);
      assert t.ca[cr] == s.ca[cr];
      ExcusedAdd(s, t, s.ca[cr], k);
    }
  }

  // ---------------------------------------------------------------- newVar

  ghost function WithVar(s: State): State {
    s.(n := s.n + 1, assigns := s.assigns + [Undef], vardata := s.vardata + [VarData(CREF_UNDEF, 0)], pos := s.pos + [0])
  }

  lemma WithVarOn(s: State, q: Lit)
    requires TrailOk(s)
    ensures On(WithVar(s), q) <==> On(s, q)
    ensures On(s, q) ==> WithVar(s).pos[q.v] == s.pos[q.v]
  {
  }

  lemma WithVarInv(s: State)
    requires Inv(s)
    ensures Inv(WithVar(s)) && (Decided(s) ==> Decided(WithVar(s)))
  {
    var t := WithVar(s);
    forall r | 0 <= r < |t.ca| ensures ClauseShape(t.n, t.ca[r]) {
      assert ClauseShape(s.n, s.ca[r]);
    }
    forall i | 0 <= i < |t.trail| ensures t.trail[i].v < |t.vardata| && ReasonAt(t, i) && LevelAt(t, i) {
      assert ReasonAt(s, i) && LevelAt(s, i);
      var r := Reason(s, s.trail[i].v);
      if r != CREF_UNDEF {
        forall k | 0 <= k < |t.ca[r]| && t.ca[r][k] != t.trail[i] ensures FalseBefore(t, t.ca[r][k], i) {
          assert FalseBefore(s, s.ca[r][k], i);
          WithVarOn(s, s.ca[r][k].Neg());
        }
      }
    }
  }

  lemma WithVarSem(s: State, upTo: int)
    requires Inv(s) && WatchSem(s, upTo)
    ensures WatchSem(WithVar(s), upTo)
  {
    var t := WithVar(s);
    forall cr, k | 0 <= cr < |t.ca| && 0 <= k < 2 && k < |t.ca[cr]| && FalseBefore(t, t.ca[cr][k], upTo)
      ensures Excused(t, t.ca[cr], k)
    {
      var c := s.ca[cr];
      WithVarOn(s, c[k].Neg());
      assert FalseBefore(s, c[k], upTo);
      var m :| 0 <= m < |c| && On(s, c[m]) && LevelOf(s, c[m]) <= LevelOf(s, c[k]);
      WithVarOn(s, c[m]);
      assert On(t, c[m]) && LevelOf(t, c[m]) <= LevelOf(t, c[k]);
    }
  }

  lemma WithVarMeaning(F: seq<Clause>, s: State)
    requires Inv(s) && Sound(F, s) && Complete(F, s)
    ensures Sound(F, WithVar(s)) && Complete(F, WithVar(s))
  {
    var t := WithVar(s);
    forall A: Assignment | SatAll(A, t) ensures Models(A, F) {
      assert SatAll(A, s);
    }
  }

  ghost function TableWithVar(w: WatchTable, v: nat): WatchTable {
    w[Lit(v, false) := []][Lit(v, true) := []]
  }

  lemma TableWithVarShape(n: nat, ca: seq<Clause>, w: WatchTable, bw: WatchTable)
    requires LongShape(n, ca, w) && BinShape(n, ca, bw) && forall r :: 0 <= r < |ca| ==> ClauseShape(n, ca[r])
    ensures LongShape(n + 1, ca, TableWithVar(w, n)) && BinShape(n + 1, ca, TableWithVar(bw, n))
  {
    forall p: Lit | p.v < n + 1 ensures p in TableWithVar(w, n) && p in TableWithVar(bw, n) {
      if p.v == n { assert p == Lit(n, false) || p == Lit(n, true); }
    }
    forall cr, k | 0 <= cr < |ca| && 0 <= k < 2 ensures ca[cr][k].Neg().v != n {
      assert ClauseShape(n, ca[cr]);
    }
  }
}
