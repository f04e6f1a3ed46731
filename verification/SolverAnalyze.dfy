/** Conflict analysis: what the marks in `seen` stand for, and why the learnt clause follows
    from the formula. */
module SolverAnalyze {
  import opened Logic
  import opened FiniteSets
  import opened SolverState
  import opened SolverWatches

  // ---------------------------------------------------------------- what the formula entails

  ghost predicate ClausesEntailed(F: seq<Clause>, s: State) {
    forall r :: 0 <= r < |s.ca| ==> Entails(F, s.ca[r])
  }

  /** Level-0 literals without a reason are unit consequences of the formula. */
  ghost predicate UnitsEntailed(F: seq<Clause>, s: State) {
    forall i :: 0 <= i < |s.trail| && s.trail[i].v < |s.vardata| && Level(s, s.trail[i].v) == 0 && Reason(s, s.trail[i].v) == CREF_UNDEF ==>
      Entails(F, [s.trail[i]])
  }

  ghost predicate Sound(F: seq<Clause>, s: State) {
    ClausesEntailed(F, s) && UnitsEntailed(F, s)
  }

  lemma SatUnit(A: Assignment, p: Lit)
    ensures Sat(A, [p]) <==> Holds(A, p)
  {
    if Holds(A, p) { assert Holds(A, [p][0]); }
  }

  lemma EarlierLevelZero(s: State, i: nat, j: nat)
    requires Inv(s) && j <= i < |s.trail| && Level(s, s.trail[i].v) == 0
    ensures Level(s, s.trail[j].v) == 0
  {
    assert LevelAt(s, i) && LevelAt(s, j);
    assert |s.trailLim| > 0 ==> forall k :: 0 <= k < |s.trailLim| ==> s.trailLim[0] <= s.trailLim[k];
  }

  /** A model of the formula agrees with the whole of level 0. */
  lemma {:induction false} LevelZeroHolds(F: seq<Clause>, s: State, A: Assignment, i: nat)
    requires Inv(s) && Sound(F, s) && Models(A, F) && i < |s.trail| && Level(s, s.trail[i].v) == 0
    ensures Holds(A, s.trail[i])
  {
    var p := s.trail[i];
    var r := Reason(s, p.v);
    if r == CREF_UNDEF {
      assert Entails(F, [p]);
      SatUnit(A, p);
    } else {
      assert ReasonAt(s, i);
      var c := s.ca[r];
      assert Entails(F, c);
      var k :| 0 <= k < |c| && Holds(A, c[k]);
      if c[k] != p {
        assert FalseBefore(s, c[k], i);
        EarlierLevelZero(s, i, s.pos[c[k].v]);
        LevelZeroHolds(F, s, A, s.pos[c[k].v]);
      }
    }
  }

  // ---------------------------------------------------------------- resolution on the trail

  /** Marked variables are assigned above level 0. */
  ghost predicate SeenOk(s: State, seen: seq<bool>) {
    && |seen| == s.n == |s.vardata| == |s.pos|
    && forall v :: 0 <= v < s.n && seen[v] ==> s.pos[v] < |s.trail| && s.trail[s.pos[v]].v == v && Level(s, v) > 0
  }

  /** `A` contradicts some trail literal that is marked: it satisfies the clause that the marks
      stand for. */
  ghost predicate Violates(s: State, seen: seq<bool>, A: Assignment) {
    exists i :: 0 <= i < |s.trail| && s.trail[i].v < |seen| && seen[s.trail[i].v] && !Holds(A, s.trail[i])
  }

  /** Every model of `F` contradicts a marked literal or the pivot `p`. */
  ghost predicate Derived(F: seq<Clause>, s: State, seen: seq<bool>, p: Lit) {
    forall A: Assignment :: Models(A, F) ==> Violates(s, seen, A) || !Holds(A, p)
  }

  /** As `Derived`, without a pivot. */
  ghost predicate Refuted(F: seq<Clause>, s: State, seen: seq<bool>) {
    forall A: Assignment :: Models(A, F) ==> Violates(s, seen, A)
  }

  ghost predicate Marks(s: State, seen: seq<bool>, q: Lit) {
    q.v < |s.vardata| && q.v < |seen| && (Level(s, q.v) == 0 || seen[q.v])
  }

  ghost predicate StillMarked(a: seq<bool>, b: seq<bool>) {
    |a| == |b| && forall v :: 0 <= v < |a| && a[v] ==> b[v]
  }

  lemma ViolatesMono(s: State, a: seq<bool>, b: seq<bool>, A: Assignment)
    requires StillMarked(a, b) && Violates(s, a, A)
    ensures Violates(s, b, A)
  {
  }

  /** Resolving with a clause: `from` is 0 for the conflict clause and 1 for the reason of `p`. */
  lemma Resolve(F: seq<Clause>, s: State, seen0: seq<bool>, seen: seq<bool>, c: Clause, from: nat, p: Lit)
    requires Inv(s) && Sound(F, s) && Entails(F, c) && |seen| == s.n && StillMarked(seen0, seen)
    requires from <= 1 && (from == 1 ==> |c| > 0 && c[0] == p && Derived(F, s, seen0, p))
    requires forall k :: from <= k < |c| ==> On(s, c[k].Neg()) && Marks(s, seen, c[k])
    ensures Refuted(F, s, seen)
  {
    forall A: Assignment | Models(A, F) ensures Violates(s, seen, A) {
      var k :| 0 <= k < |c| && Holds(A, c[k]);
      if k < from {
        ViolatesMono(s, seen0, seen, A);
      } else {
        var i := s.pos[c[k].v];
        assert On(s, c[k].Neg()) && s.trail[i] == c[k].Neg();
        if Level(s, c[k].v) == 0 {
          LevelZeroHolds(F, s, A, i);
          assert false;
        }
        assert seen[s.trail[i].v] && !Holds(A, s.trail[i]);
      }
    }
  }

  /** Taking `p` off the marks makes it the pivot. */
  lemma Pivot(F: seq<Clause>, s: State, seen: seq<bool>, p: Lit)
    requires TrailOk(s) && Refuted(F, s, seen) && On(s, p) && |seen| == s.n
    ensures Derived(F, s, seen[p.v := false], p)
  {
    forall A: Assignment | Models(A, F) ensures Violates(s, seen[p.v := false], A) || !Holds(A, p) {
      assert Violates(s, seen, A);
      var i :| 0 <= i < |s.trail| && s.trail[i].v < |seen| && seen[s.trail[i].v] && !Holds(A, s.trail[i]);
      if s.trail[i].v != p.v {
        assert seen[p.v := false][s.trail[i].v];
      }
    }
  }

  // ---------------------------------------------------------------- the main loop of `analyze`

  /** The marked variables of the current level. */
  ghost function Open(s: State, seen: seq<bool>): (r: set<nat>)
    requires |seen| == |s.vardata|
    ensures forall v :: v in r <==> 0 <= v < |seen| && seen[v] && Level(s, v) == |s.trailLim|
  {
    set v | v in Below(|seen|) && seen[v] && Level(s, v) == |s.trailLim|
  }

  /** A literal of the learnt clause under construction: false, marked, below the current level. */
  ghost predicate LearntLit(s: State, seen: seq<bool>, q: Lit) {
    && q.v < |seen| && q.v < |s.vardata| && On(s, q.Neg()) && seen[q.v]
    && 0 < Level(s, q.v) < |s.trailLim|
  }

  ghost predicate HasVar(c: Clause, from: int, to: int, v: nat) {
    exists k :: 0 <= from <= k < to <= |c| && c[k].v == v
  }

  /** `out[1..]` are the marked literals below the current level, `pathC` counts those of the
      current level, none of which lies after trail position `index`. */
  ghost predicate Analyzing(s: State, seen: seq<bool>, out: Clause, pathC: int, index: int) {
    && SeenOk(s, seen)
    && (forall v :: 0 <= v < s.n && seen[v] && Level(s, v) == |s.trailLim| ==> s.pos[v] <= index)
    && pathC == |Open(s, seen)|
    && |out| >= 1
    && (forall k :: 1 <= k < |out| ==> LearntLit(s, seen, out[k]))
    && DistinctVars(out, 1)
    && (forall v :: 0 <= v < s.n && seen[v] && Level(s, v) < |s.trailLim| ==> HasVar(out, 1, |out|, v))
  }

  lemma StartAnalyzing(s: State, seen: seq<bool>, out: Clause, index: int)
    requires Inv(s) && |seen| == s.n && |out| == 1 && forall v :: 0 <= v < s.n ==> !seen[v]
    ensures Analyzing(s, seen, out, 0, index)
  {
    assert Open(s, seen) == {};
  }

  /** Marking a literal of the current level. */
  lemma MarkCurrent(s: State, seen: seq<bool>, out: Clause, pathC: int, index: int, q: Lit)
    requires Inv(s) && Analyzing(s, seen, out, pathC, index)
    requires On(s, q.Neg()) && !seen[q.v] && s.pos[q.v] <= index
    requires 0 < Level(s, q.v) == |s.trailLim|
    ensures Analyzing(s, seen[q.v := true], out, pathC + 1, index)
  {
    hide Inv;
    var seen' := seen[q.v := true];
    assert Open(s, seen') == Open(s, seen) + {q.v};
    forall k | 1 <= k < |out| ensures LearntLit(s, seen', out[k]) {
      assert LearntLit(s, seen, out[k]);
    }
  }

  /** Marking a literal of an earlier level, which joins the learnt clause. */
  lemma MarkEarlier(s: State, seen: seq<bool>, out: Clause, pathC: int, index: int, q: Lit)
    requires Inv(s) && Analyzing(s, seen, out, pathC, index)
    requires On(s, q.Neg()) && !seen[q.v] && 0 < Level(s, q.v) < |s.trailLim|
    ensures Analyzing(s, seen[q.v := true], out + [q], pathC, index)
  {
    hide Inv;
    var seen', out' := seen[q.v := true], out + [q];
    assert Open(s, seen') == Open(s, seen);
    forall v | 0 <= v < s.n && seen'[v] && Level(s, v) < |s.trailLim| ensures HasVar(out', 1, |out'|, v) {
      if v == q.v {
        assert out'[|out|].v == v;
      } else {
        HasVarAppend(out, q, v);
      }
    }
    forall k | 1 <= k < |out'| ensures LearntLit(s, seen', out'[k]) {
      if k < |out| { assert LearntLit(s, seen, out[k]); }
    }
  }

  lemma HasVarAppend(out: Clause, q: Lit, v: nat)
    requires HasVar(out, 1, |out|, v)
    ensures HasVar(out + [q], 1, |out| + 1, v)
  {
    var k :| 1 <= k < |out| && out[k].v == v;
    assert (out + [q])[k].v == v;
  }

  /** A marked variable of the current level lies between the start of the level and `index`. */
  lemma OpenPos(s: State, seen: seq<bool>, out: Clause, pathC: int, index: int, v: nat)
    requires Inv(s) && Analyzing(s, seen, out, pathC, index) && |s.trailLim| > 0 && v in Open(s, seen)
    ensures v < s.n && s.trailLim[|s.trailLim| - 1] <= s.pos[v] <= index && s.pos[v] < |s.trail| && s.trail[s.pos[v]].v == v
  {
    assert LevelAt(s, s.pos[v]);
  }

  /** The next literal to resolve on belongs to the current level, and has a reason unless it is the
      only marked one left there. */
  lemma SelectLevel(s: State, seen: seq<bool>, out: Clause, pathC: int, index: int, i: nat)
    requires Inv(s) && Analyzing(s, seen, out, pathC, index) && pathC > 0 && |s.trailLim| > 0
    requires i <= index < |s.trail| && seen[s.trail[i].v] && forall m :: i < m <= index ==> !seen[s.trail[m].v]
    ensures Level(s, s.trail[i].v) == |s.trailLim|
    ensures pathC > 1 ==> Reason(s, s.trail[i].v) != CREF_UNDEF
  {
    var v :| v in Open(s, seen);
    OpenPos(s, seen, out, pathC, index, v);
    TopLevel(s, i);
    assert LevelAt(s, i);
    if pathC > 1 {
      var rest := Open(s, seen) - {s.trail[i].v};
      assert |rest| > 0;
      var u :| u in rest;
      OpenPos(s, seen, out, pathC, index, u);
    }
  }

  lemma SelectStep(s: State, seen: seq<bool>, out: Clause, pathC: int, index: int, i: nat)
    requires Inv(s) && Analyzing(s, seen, out, pathC, index)
    requires i <= index < |s.trail| && seen[s.trail[i].v] && forall m :: i < m <= index ==> !seen[s.trail[m].v]
    requires Level(s, s.trail[i].v) == |s.trailLim|
    ensures On(s, s.trail[i]) && Analyzing(s, seen[s.trail[i].v := false], out, pathC - 1, i - 1)
  {
    var p := s.trail[i];
    assert On(s, p);
    hide Inv;
    var seen' := seen[p.v := false];
    assert Open(s, seen') == Open(s, seen) - {p.v};
    forall u | 0 <= u < s.n && seen'[u] && Level(s, u) == |s.trailLim| ensures s.pos[u] <= i - 1 {
      assert s.trail[s.pos[u]].v == u;
    }
    forall k | 1 <= k < |out| ensures LearntLit(s, seen', out[k]) {
      assert LearntLit(s, seen, out[k]);
    }
  }

  lemma TopLevel(s: State, i: nat)
    requires Inv(s) && |s.trailLim| > 0 && s.trailLim[|s.trailLim| - 1] <= i < |s.trail|
    ensures Level(s, s.trail[i].v) == |s.trailLim|
  {
    assert LevelAt(s, i);
    var l := Level(s, s.trail[i].v);
    assert forall k :: 0 <= k < |s.trailLim| ==> s.trailLim[k] <= s.trailLim[|s.trailLim| - 1];
  }

  // ---------------------------------------------------------------- minimisation

  /** Variable `v` has a reason whose other literals are marked or of level 0. */
  ghost predicate Closed(s: State, seen: seq<bool>, v: nat)
    requires v < |s.vardata|
  {
    var r := Reason(s, v);
    0 <= r < |s.ca| && forall k :: 0 <= k < |s.ca[r]| && s.ca[r][k].v != v ==> Marks(s, seen, s.ca[r][k])
  }

  lemma ClosedMono(s: State, a: seq<bool>, b: seq<bool>, v: nat)
    requires v < |s.vardata| && StillMarked(a, b) && Closed(s, a, v)
    ensures Closed(s, b, v)
  {
    var r := Reason(s, v);
    forall k | 0 <= k < |s.ca[r]| && s.ca[r][k].v != v ensures Marks(s, b, s.ca[r][k]) {
      assert Marks(s, a, s.ca[r][k]);
    }
  }

  /** If a model contradicts no kept literal, it agrees with every marked trail literal, because
      each mark is kept or closed. */
  lemma {:induction false} MarkedHold(F: seq<Clause>, s: State, seen: seq<bool>, out: Clause, A: Assignment, i: nat)
    requires Inv(s) && Sound(F, s) && Models(A, F) && SeenOk(s, seen) && !Sat(A, out)
    requires forall k :: 1 <= k < |out| ==> LearntLit(s, seen, out[k])
    requires forall v :: 0 <= v < s.n && seen[v] ==> HasVar(out, 1, |out|, v) || Closed(s, seen, v)
    requires i < |s.trail| && s.trail[i].v < |seen| && seen[s.trail[i].v]
    ensures Holds(A, s.trail[i])
  {
    var p := s.trail[i];
    if HasVar(out, 1, |out|, p.v) {
      var k :| 1 <= k < |out| && out[k].v == p.v;
      assert LearntLit(s, seen, out[k]);
      assert out[k].Neg() == p && !Holds(A, out[k]);
    } else {
      assert ReasonAt(s, i);
      var c := s.ca[Reason(s, p.v)];
      assert Entails(F, c);
      var k :| 0 <= k < |c| && Holds(A, c[k]);
      if c[k] != p {
        var j := s.pos[c[k].v];
        assert FalseBefore(s, c[k], i);
        assert s.trail[j] == c[k].Neg() && c[k].v != p.v;
        assert Marks(s, seen, c[k]);
        if Level(s, c[k].v) == 0 {
          LevelZeroHolds(F, s, A, j);
        } else {
          MarkedHold(F, s, seen, out, A, j);
        }
      }
    }
  }

  /** The clause of the kept literals is entailed. */
  lemma MinimizedEntailed(F: seq<Clause>, s: State, seen: seq<bool>, out: Clause, p: Lit)
    requires Inv(s) && Sound(F, s) && SeenOk(s, seen) && Derived(F, s, seen, p)
    requires |out| >= 1 && out[0] == p.Neg()
    requires forall k :: 1 <= k < |out| ==> LearntLit(s, seen, out[k])
    requires forall v :: 0 <= v < s.n && seen[v] ==> HasVar(out, 1, |out|, v) || Closed(s, seen, v)
    ensures Entails(F, out)
  {
    forall A: Assignment | Models(A, F) ensures Sat(A, out) {
      if !Sat(A, out) {
        assert !Holds(A, out[0]);
        assert Violates(s, seen, A);
        var i :| 0 <= i < |s.trail| && s.trail[i].v < |seen| && seen[s.trail[i].v] && !Holds(A, s.trail[i]);
        MarkedHold(F, s, seen, out, A, i);
      }
    }
  }

  /** The variables not yet marked; the measure of `litRedundant`. */
  ghost function Unseen(seen: seq<bool>): (r: set<nat>)
    ensures forall v :: v in r <==> 0 <= v < |seen| && !seen[v]
  {
    set v | v in Below(|seen|) && !seen[v]
  }

  lemma UnseenStep(seen: seq<bool>, v: nat)
    requires v < |seen| && !seen[v]
    ensures |Unseen(seen[v := true])| == |Unseen(seen)| - 1
  {
    assert Unseen(seen[v := true]) == Unseen(seen) - {v};
  }

  // ---------------------------------------------------------------- exchanging binary literals

  /** The literals of a binary clause may be exchanged: it stays a reason, watched and entailed. */
  lemma SwapBinary(s: State, cr: nat)
    requires Inv(s) && cr < |s.ca| && |s.ca[cr]| == 2
    ensures
      var d := SwapAt(s.ca[cr], 0, 1);
      var s' := WithClause(s, cr, d);
      Inv(s') && SameClauses(s.ca, s'.ca)
  {
    var d := SwapAt(s.ca[cr], 0, 1);
    var s' := WithClause(s, cr, d);
    assert ClauseShape(s.n, s.ca[cr]);
    assert d[0] == s.ca[cr][1] && d[1] == s.ca[cr][0];
    forall i | 0 <= i < |s.trail| ensures ReasonAt(s', i) && LevelAt(s', i) {
      assert ReasonAt(s, i) && LevelAt(s, i);
      var r := Reason(s, s.trail[i].v);
      if r != CREF_UNDEF {
        forall k | 0 <= k < |s'.ca[r]| && s'.ca[r][k] != s.trail[i] ensures FalseBefore(s', s'.ca[r][k], i) {
          var k' := if r == cr then 1 - k else k;
          assert FalseBefore(s, s.ca[r][k'], i);
        }
      }
    }
  }

  lemma SwapBinaryWatch(s: State, cr: nat, upTo: int, w: WatchTable, bw: WatchTable)
    requires Inv(s) && cr < |s.ca| && |s.ca[cr]| == 2
    requires WatchSem(s, upTo) && LongShape(s.n, s.ca, w) && BinShape(s.n, s.ca, bw)
    ensures
      var s' := WithClause(s, cr, SwapAt(s.ca[cr], 0, 1));
      WatchSem(s', upTo) && LongShape(s.n, s'.ca, w) && BinShape(s.n, s'.ca, bw)
  {
    var d := SwapAt(s.ca[cr], 0, 1);
    var ca' := s.ca[cr := d];
    assert ClauseShape(s.n, s.ca[cr]);
    SwapReorders(s.n, s.ca[cr], 0, 1);
    ReorderSem(s, cr, d, upTo);
    forall l, k | l in w && 0 <= k < |w[l]| ensures LongWatcher(ca', l, w[l][k]) {
      assert LongWatcher(s.ca, l, w[l][k]);
    }
    forall l, k | l in bw && 0 <= k < |bw[l]| ensures BinWatcher(ca', l, bw[l][k]) {
      assert BinWatcher(s.ca, l, bw[l][k]);
      if bw[l][k].cref == cr {
        assert d == [s.ca[cr][1], s.ca[cr][0]];
      }
    }
    forall r, k | 0 <= r < |ca'| && |ca'[r]| == 2 && 0 <= k < 2
      ensures ca'[r][k].Neg() in bw && Listed(bw[ca'[r][k].Neg()], r)
    {
      var k' := if r == cr then 1 - k else k;
      assert ca'[r][k] == s.ca[r][k'];
    }
  }

  lemma SoundSame(F: seq<Clause>, s: State, s': State)
    requires Sound(F, s) && SameClauses(s.ca, s'.ca) && s' == s.(ca := s'.ca)
    ensures Sound(F, s')
  {
    forall r | 0 <= r < |s'.ca| ensures Entails(F, s'.ca[r]) {
      forall A: Assignment | Models(A, F) ensures Sat(A, s'.ca[r]) {
        assert Entails(F, s.ca[r]);
        SatSubset(A, s.ca[r], s'.ca[r]);
      }
    }
  }

  lemma ClosedSame(s: State, s': State, seen: seq<bool>, v: nat)
    requires v < |s.vardata| && SameClauses(s.ca, s'.ca) && s' == s.(ca := s'.ca) && Closed(s, seen, v)
    ensures Closed(s', seen, v)
  {
    var r := Reason(s, v);
    forall k | 0 <= k < |s'.ca[r]| && s'.ca[r][k].v != v ensures Marks(s', seen, s'.ca[r][k]) {
      var j :| 0 <= j < |s.ca[r]| && s.ca[r][j] == s'.ca[r][k];
      assert Marks(s, seen, s.ca[r][j]);
    }
  }

  /** The reason of a literal, in front of which the literal stands. */
  lemma ReasonFacts(s: State, p: Lit)
    requires Inv(s) && On(s, p) && Reason(s, p.v) != CREF_UNDEF
    ensures 0 <= Reason(s, p.v) < |s.ca|
    ensures IsReason(s, s.ca[Reason(s, p.v)], p, s.pos[p.v]) && ClauseShape(s.n, s.ca[Reason(s, p.v)])
    ensures |s.assigns| == |s.vardata| == |s.pos| == s.n
    ensures ValueOf(s.assigns, p) == True
    ensures |s.ca[Reason(s, p.v)]| == 2 && s.ca[Reason(s, p.v)][0] != p ==> ValueOf(s.assigns, s.ca[Reason(s, p.v)][0]) == False
  {
    assert ReasonAt(s, s.pos[p.v]);
    var c := s.ca[Reason(s, p.v)];
    assert ClauseShape(s.n, c);
    if c[0] != p {
      assert FalseBefore(s, c[0], s.pos[p.v]);
      OnValue(s, c[0]);
    }
  }
}
