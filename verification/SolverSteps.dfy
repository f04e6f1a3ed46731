/** The steps of the solver's methods, as lemmas on states: what one step keeps and what it adds. */
module SolverSteps {
  import opened Logic
  import opened SolverState
  import opened SolverWatches
  import opened SolverAnalyze
  import opened SolverMinimize
  import opened SolverSearch
  import opened SolverInput
  import opened ClauseCleaning

  lemma ExtendsTrans(s: State, t: State, u: State)
    requires Extends(s, t) && Extends(t, u)
    ensures Extends(s, u)
  {
    forall i | 0 <= i < |s.trail|
      ensures s.trail[i] == t.trail[i] == u.trail[i]
    {
      assert s.trail[i] == t.trail[..|s.trail|][i];
      assert t.trail[i] == u.trail[..|t.trail|][i];
    }
    assert u.trail[..|s.trail|] == s.trail;
    forall r | 0 <= r < |s.ca| ensures SameLits(s.ca[r], u.ca[r]) {
      SameLitsTrans(s.ca[r], t.ca[r], u.ca[r]);
    }
    forall i | |s.trail| <= i < |u.trail| ensures u.trail[i].v < s.n && u.vardata[u.trail[i].v].reason != CREF_UNDEF {
      if i < |t.trail| {
        assert u.trail[i] == u.trail[..|t.trail|][i] == t.trail[i];
      }
    }
  }

  lemma SizesKept(s: State, t: State)
    requires Extends(s, t)
    ensures |s.ca| == |t.ca| && forall r :: 0 <= r < |s.ca| ==> |s.ca[r]| == |t.ca[r]|
  {
  }

  ghost predicate LongClause(ca: seq<Clause>, cr: int) {
    0 <= cr < |ca| && |ca[cr]| > 2
  }

  /** When a binary clause is found false, its other literal is still in the queue: otherwise the
      clause would have been excused then. */
  lemma BinaryConflictEarly(s: State, qh: nat, cr: nat)
    requires Inv(s) && WatchSem(s, qh) && cr < |s.ca| && |s.ca[cr]| == 2 && Falsified(s, s.ca[cr])
    ensures qh + 1 < |s.trail|
  {
    var c := s.ca[cr];
    assert ClauseShape(s.n, c);
    assert forall m :: 0 <= m < 2 ==> On(s, c[m].Neg()) && !On(s, c[m]);
    assert !Excused(s, c, 0) && !Excused(s, c, 1);
    assert !FalseBefore(s, c[0], qh) && !FalseBefore(s, c[1], qh);
    assert c[0].v != c[1].v;
  }

  lemma TrailFits(s: State)
    requires Inv(s)
    ensures |s.trail| <= s.n
  {
    TrailBound(s);
  }

  lemma LevelStartKept(s: State, t: State, u: State, qh: nat)
    requires Extends(s, t) && Extends(t, u) && qh < |s.trail|
    ensures CurrentLevelStart(u) == CurrentLevelStart(t) == CurrentLevelStart(s)
    ensures |s.trail| <= |t.trail| <= |u.trail|
  {
  }

  lemma BlockerDischarge(s: State, w: WatchTable, p: Lit, qh: nat, i: nat, j: nat)
    requires Inv(s) && AtHead(s, p, qh) && p in w && j <= i < |w[p]| && LongShape(s.n, s.ca, Live(w, p, i, j))
    requires PropSem(s, p, qh, Crefs(w[p][i..])) && On(s, w[p][i].blocker)
    ensures PropSem(s, p, qh, Crefs(w[p][i + 1..]))
  {
    VisitFacts(s, w, p, i, j);
    CrefsTail(w[p], i);
    var c := s.ca[w[p][i].cref];
    var m :| 0 <= m < |c| && c[m] == w[p][i].blocker;
    Discharge(s, p, qh, Crefs(w[p][i..]), Crefs(w[p][i + 1..]), w[p][i].cref, m);
  }

  lemma SameSelf(s: State)
    ensures SameClauses(s.ca, s.ca)
  {
  }

  lemma SwapWith(s: State, cr: nat)
    requires cr < |s.ca| && |s.ca[cr]| >= 2
    ensures WithClause(s, cr, SwapAt(s.ca[cr], 0, 1)) == s.(ca := s.ca[cr := SwapAt(s.ca[cr], 0, 1)])
    ensures CurrentLevelStart(WithClause(s, cr, SwapAt(s.ca[cr], 0, 1))) == CurrentLevelStart(s)
  {
  }

  lemma ReasonSize(s: State, p: Lit)
    requires Inv(s) && On(s, p) && Reason(s, p.v) != CREF_UNDEF && 0 <= Reason(s, p.v) < |s.ca|
    ensures |s.ca[Reason(s, p.v)]| >= 2 && s.ca[Reason(s, p.v)][0].v < |s.assigns|
  {
    assert ClauseShape(s.n, s.ca[Reason(s, p.v)]);
  }

  lemma ReasonFront(s: State, p: Lit)
    requires Inv(s) && On(s, p) && Reason(s, p.v) != CREF_UNDEF && 0 <= Reason(s, p.v) < |s.ca|
    requires ValueOf(s.assigns, s.ca[Reason(s, p.v)][0]) != False || |s.ca[Reason(s, p.v)]| != 2
    ensures s.ca[Reason(s, p.v)][0] == p
  {
    ReasonFacts(s, p);
  }

  lemma WithinSelf(seen: seq<bool>)
    ensures StillMarked(seen, seen)
  {
  }

  lemma MarkSizes(s: State, seen: seq<bool>, out: Clause, pathC: int, index: int, q: Lit)
    requires Inv(s) && Analyzing(s, seen, out, pathC, index) && On(s, q.Neg())
    ensures |seen| == |s.vardata| == |s.pos| == s.n && q.v < s.n
    ensures Level(s, q.v) <= |s.trailLim|
  {
    LevelBound(s, q.Neg());
  }

  lemma MarkedNow(s: State, seen0: seq<bool>, seen: seq<bool>, seen': seq<bool>, q: Lit, c: Clause, from: nat, j: nat)
    requires StillMarked(seen0, seen) && |seen| == |s.vardata| && q.v < |seen| && j < |c| && c[j] == q
    requires forall k :: from <= k < j ==> Marks(s, seen, c[k])
    requires seen' == (if !seen[q.v] && Level(s, q.v) > 0 then seen[q.v := true] else seen)
    ensures StillMarked(seen0, seen') && forall k :: from <= k < j + 1 ==> Marks(s, seen', c[k])
  {
    forall k | from <= k < j ensures Marks(s, seen', c[k]) {
      assert Marks(s, seen, c[k]);
    }
  }

  lemma SameTrans(a: seq<Clause>, b: seq<Clause>, c: seq<Clause>)
    requires SameClauses(a, b) && SameClauses(b, c)
    ensures SameClauses(a, c)
  {
    forall r | 0 <= r < |a| ensures SameLits(a[r], c[r]) {
      SameLitsTrans(a[r], b[r], c[r]);
    }
  }

  lemma SameAnalyzing(F: seq<Clause>, s: State, s': State, seen: seq<bool>, out: Clause, pathC: int, index: int, p: Lit)
    requires Analyzing(s, seen, out, pathC, index) && Derived(F, s, seen, p) && s' == s.(ca := s'.ca)
    ensures Analyzing(s', seen, out, pathC, index) && Derived(F, s', seen, p)
  {
    assert Open(s', seen) == Open(s, seen);
    forall k | 1 <= k < |out| ensures LearntLit(s', seen, out[k]) {
      assert LearntLit(s, seen, out[k]);
    }
    forall A: Assignment | Models(A, F) ensures Violates(s', seen, A) || !Holds(A, p) {
      assert Violates(s, seen, A) || !Holds(A, p);
    }
  }

  lemma ReasonLits(s: State, c: Clause, p: Lit)
    requires Inv(s) && On(s, p) && IsReason(s, c, p, s.pos[p.v]) && ClauseShape(s.n, c) && c[0] == p
    ensures forall k :: 1 <= k < |c| ==> On(s, c[k].Neg()) && s.pos[c[k].v] <= s.pos[p.v] - 1
    ensures |c| >= 2
  {
    forall k | 1 <= k < |c| ensures On(s, c[k].Neg()) && s.pos[c[k].v] <= s.pos[p.v] - 1 {
      assert c[k].v != c[0].v;
      assert FalseBefore(s, c[k], s.pos[p.v]);
    }
  }

  lemma SoundClause(F: seq<Clause>, s: State, cr: nat)
    requires Sound(F, s) && cr < |s.ca|
    ensures Entails(F, s.ca[cr])
  {
  }

  lemma AnalyzingSize(s: State, seen: seq<bool>, out: Clause, pathC: int, index: int)
    requires Inv(s) && Analyzing(s, seen, out, pathC, index)
    ensures |seen| == s.n == |s.vardata| == |s.pos|
    ensures forall i :: 0 <= i < |s.trail| ==> s.trail[i].v < s.n && s.pos[s.trail[i].v] == i
  {
  }

  lemma IndexNonneg(s: State, seen: seq<bool>, out: Clause, pathC: int, index: int)
    requires Inv(s) && Analyzing(s, seen, out, pathC, index) && pathC > 0 && |s.trailLim| > 0
    ensures index >= 0
  {
    var v :| v in Open(s, seen);
    OpenPos(s, seen, out, pathC, index, v);
  }

  lemma PivotAt(F: seq<Clause>, s: State, seen: seq<bool>, i: nat)
    requires Inv(s) && Refuted(F, s, seen) && i < |s.trail| && |seen| == s.n && s.trail[i].v < s.n
    ensures Derived(F, s, seen[s.trail[i].v := false], s.trail[i]) && On(s, s.trail[i])
  {
    Pivot(F, s, seen, s.trail[i]);
  }

  lemma ConflictFacts(F: seq<Clause>, s: State, confl: int, index: int)
    requires Inv(s) && Conflict(s, confl) && index == |s.trail| - 1
    ensures 0 <= confl < |s.ca| && forall k :: 0 <= k < |s.ca[confl]| ==> On(s, s.ca[confl][k].Neg()) && s.pos[s.ca[confl][k].v] <= index
  {
  }

  /** The conflict clause marks a literal of the current level and is itself the clause that the
      marks stand for. */
  lemma ConflictOpen(F: seq<Clause>, s: State, confl: int, seen0: seq<bool>, seen: seq<bool>, out: Clause, pathC: int, index: int)
    requires Inv(s) && Sound(F, s) && Conflict(s, confl) && |s.trailLim| > 0
    requires Analyzing(s, seen, out, pathC, index) && StillMarked(seen0, seen)
    requires forall k :: 0 <= k < |s.ca[confl]| ==> Marks(s, seen, s.ca[confl][k])
    ensures pathC > 0 && Refuted(F, s, seen)
  {
    Resolve(F, s, seen0, seen, s.ca[confl], 0, s.ca[confl][0]);
    var k :| 0 <= k < |s.ca[confl]| && LevelOf(s, s.ca[confl][k]) == |s.trailLim|;
    assert Marks(s, seen, s.ca[confl][k]);
    assert s.ca[confl][k].v in Open(s, seen);
  }

  lemma SeenSame(s: State, s': State, seen: seq<bool>)
    requires SeenOk(s, seen) && s' == s.(ca := s'.ca)
    ensures SeenOk(s', seen)
  {
  }

  lemma SeenSizes(s: State, seen: seq<bool>, q: Lit)
    requires SeenOk(s, seen) && On(s, q.Neg())
    ensures |seen| == s.n == |s.vardata| == |s.pos| && q.v < s.n
  {
  }

  lemma SeenPush(s: State, seen: seq<bool>, q: Lit)
    requires SeenOk(s, seen) && On(s, q.Neg()) && q.v < |seen| && Level(s, q.v) > 0
    ensures SeenOk(s, seen[q.v := true])
  {
  }

  lemma StackTop(s: State, stack: seq<Lit>)
    requires StackOk(s, stack) && |stack| > 0
    ensures var u := stack[|stack| - 1]; On(s, u.Neg()) && u.v < |s.vardata| && Reason(s, u.v) != CREF_UNDEF
  {
  }

  lemma StartSearch(s: State, seen: seq<bool>, p: Lit, toclear: seq<Lit>)
    requires SeenOk(s, seen) && On(s, p.Neg()) && Reason(s, p.v) != CREF_UNDEF
    ensures Pending(s, seen, seen, [p], p.v, -1) && StackOk(s, [p]) && Logged(seen, seen, toclear, |toclear|)
    ensures toclear[..|toclear|] == toclear
  {
    assert HasVar([p], 0, 1, p.v) by {
      assert [p][0].v == p.v;
    }
  }

  /** Everything marked is on the list of marks to take back. */
  ghost predicate Covered(seen: seq<bool>, toclear: seq<Lit>) {
    && (forall v :: 0 <= v < |seen| && seen[v] ==> HasVar(toclear, 0, |toclear|, v))
    && (forall k :: 0 <= k < |toclear| ==> toclear[k].v < |seen|)
  }

  lemma MinimizingSeen(s: State, seen: seq<bool>, rest: Clause)
    requires Minimizing(s, seen, rest)
    ensures SeenOk(s, seen)
  {
  }

  lemma OnSame(s: State, s': State, q: Lit)
    requires On(s, q.Neg()) && s' == s.(ca := s'.ca)
    ensures On(s', q.Neg())
  {
  }

  /** A finished search has closed its root and every new mark. */
  lemma SearchDone(s: State, seen0: seq<bool>, seen: seq<bool>, q: Lit, rest: Clause, toclear: seq<Lit>, top: nat)
    requires q.v < |s.vardata| && Pending(s, seen0, seen, [], q.v, -1) && Logged(seen0, seen, toclear, top)
    requires Minimizing(s, seen0, rest) && SeenOk(s, seen) && Covered(seen0, toclear[..top])
    ensures Closed(s, seen, q.v) && Minimizing(s, seen, rest) && StillMarked(seen0, seen) && Covered(seen, toclear)
  {
    assert forall v :: !HasVar([], 0, 0, v);
    MinimizingGrow(s, seen0, seen, rest);
    forall v | 0 <= v < |seen| && seen[v] ensures HasVar(toclear, 0, |toclear|, v) {
      if seen0[v] {
        assert HasVar(toclear[..top], 0, top, v);
        var k :| 0 <= k < top && toclear[..top][k].v == v;
        assert toclear[k].v == v;
      } else {
        assert HasVar(toclear, top, |toclear|, v);
      }
    }
    forall k | 0 <= k < |toclear| ensures toclear[k].v < |seen| {
      if k < top { assert toclear[..top][k] == toclear[k]; }
    }
  }

  lemma RestLit(s: State, seen: seq<bool>, rest: Clause, k: nat)
    requires Minimizing(s, seen, rest) && 1 <= k < |rest|
    ensures rest[k].v < |s.vardata| && On(s, rest[k].Neg())
  {
    assert LearntLit(s, seen, rest[k]);
  }

  /** A literal that was closed at first still is, and it is marked. */
  lemma StillClosed(s: State, t: State, seen0: seq<bool>, seen: seq<bool>, rest: Clause, j: nat)
    requires Minimizing(t, seen, rest) && 1 <= j < |rest| && rest[j].v < |s.vardata| && Closed(s, seen0, rest[j].v)
    requires StillMarked(seen0, seen) && t == s.(ca := t.ca) && SameClauses(s.ca, t.ca)
    ensures Closed(t, seen, rest[j].v) && Marks(t, seen, rest[j])
  {
    ClosedMono(s, seen0, seen, rest[j].v);
    ClosedSame(s, t, seen, rest[j].v);
    assert LearntLit(t, seen, rest[j]);
  }

  lemma WithinTrans(a: seq<bool>, b: seq<bool>, c: seq<bool>)
    requires StillMarked(a, b) && StillMarked(b, c)
    ensures StillMarked(a, c)
  {
  }

  lemma RestLits(s: State, seen: seq<bool>, rest: Clause)
    requires Minimizing(s, seen, rest)
    ensures forall k :: 1 <= k < |rest| ==> rest[k].v < |s.vardata| && rest[k] in rest[1..]
  {
    forall k | 1 <= k < |rest| ensures rest[k].v < |s.vardata| && rest[k] in rest[1..] {
      assert LearntLit(s, seen, rest[k]);
      assert rest[1..][k - 1] == rest[k];
    }
  }

  lemma RestSteps(out: Clause, i: nat, j: nat)
    requires j <= i < |out|
    ensures j < |out[..j] + out[i..]| && (out[..j] + out[i..])[j] == out[i]
    ensures out[j := out[i]][..j + 1] + out[j := out[i]][i + 1..] == out[..j] + out[i..]
    ensures out[..j] + out[i + 1..] == Without(out[..j] + out[i..], j)
  {
  }

  lemma FinishUip(s: State, seen: seq<bool>, out: Clause, index: int, p: Lit)
    requires Inv(s) && Analyzing(s, seen, out, 0, index) && On(s, p) && Minimizing(s, seen, out)
    ensures |out| >= 1 && Minimizing(s, seen, out[0 := p.Neg()]) && Covered(seen, out[0 := p.Neg()])
  {
    var d := out[0 := p.Neg()];
    forall k | 1 <= k < |d| ensures LearntLit(s, seen, d[k]) {
      assert LearntLit(s, seen, out[k]);
    }
    forall v | 0 <= v < s.n && seen[v] ensures HasVar(d, 1, |d|, v) {
      assert v !in Open(s, seen);
      assert s.trail[s.pos[v]].v == v;
      LevelBound(s, s.trail[s.pos[v]]);
      assert HasVar(out, 1, |out|, v);
      var k :| 1 <= k < |out| && out[k].v == v;
      assert d[k].v == v;
    }
    forall k | 0 <= k < |d| ensures d[k].v < |seen| {
      if k > 0 { assert LearntLit(s, seen, d[k]); }
    }
  }

  lemma SamePivot(s: State, s': State, p: Lit)
    requires On(s, p) && p.v < |s.vardata| && s' == s.(ca := s'.ca)
    ensures On(s', p) && Level(s', p.v) == Level(s, p.v)
  {
  }

  lemma SeenSize(s: State, seen: seq<bool>)
    requires SeenOk(s, seen)
    ensures |seen| == s.n
  {
  }

  /** Every unassigned decision variable is a candidate. */
  ghost predicate HeapOk(assigns: seq<LBool>, decision: seq<bool>, heap: set<nat>, n: nat) {
    && |assigns| == n && |decision| == n
    && (forall v :: v in heap ==> v < n)
    && forall v :: 0 <= v < n && decision[v] && assigns[v] == Undef ==> v in heap
  }

  lemma HeapAssign(a: seq<LBool>, b: seq<LBool>, decision: seq<bool>, heap: set<nat>, n: nat, p: Lit)
    requires HeapOk(a, decision, heap, n) && p.v < n && b == a[p.v := Lifted(p)]
    ensures HeapOk(b, decision, heap, n)
  {
  }

  lemma HeapRelease(a: seq<LBool>, decision: seq<bool>, heap: set<nat>, n: nat, x: nat)
    requires HeapOk(a, decision, heap, n) && x < n
    ensures |decision| == n && HeapOk(a[x := Undef], decision, if decision[x] then heap + {x} else heap, n)
  {
  }

  lemma LearntShape(t: State, out: Clause)
    requires |out| >= 2 && DistinctVars(out, 0) && forall k :: 0 <= k < |out| ==> out[k].v < t.n
    ensures ClauseShape(t.n, out)
  {
  }

  lemma SameRank(s: State, t: State, k: nat)
    requires t == s.(ca := t.ca)
    ensures Rank(s, k) == Rank(t, k)
  {
    if k > 0 { SameRank(s, t, k - 1); }
  }

  lemma UnitWhenCancelled(s: State, out: Clause, bt: nat)
    requires Inv(s) && Asserting(s, out) && bt < |s.trailLim|
    requires |out| == 1 ==> bt == 0
    requires |out| > 1 ==> bt == LevelOf(s, out[1]) && forall k :: 1 <= k < |out| ==> LevelOf(s, out[k]) <= bt
    ensures s.trailLim[bt] <= |s.trail| && |s.assigns| == |s.pos| == s.n && |out| >= 1 && DistinctVars(out, 0)
    ensures
      var t := Cancelled(s, bt);
      && (forall k :: 0 <= k < |out| ==> out[k].v < t.n)
      && |t.assigns| == t.n && ValueOf(t.assigns, out[0]) == Undef
      && (forall k :: 1 <= k < |out| ==> On(t, out[k].Neg()))
      && (|out| > 1 ==> LevelOf(t, out[1]) == |t.trailLim|)
  {
    UnitAfterBackjump(s, out, bt);
  }

  lemma BackjumpSem(s: State, bt: nat, upTo: int)
    requires Inv(s) && bt < |s.trailLim| && upTo == CurrentLevelStart(s) && WatchSem(s, upTo)
    ensures WatchSem(Cancelled(s, bt), s.trailLim[bt])
  {
    CancelSem(s, bt, upTo);
  }

  lemma BackjumpStart(s: State, bt: nat)
    requires Inv(s) && bt < |s.trailLim|
    ensures CurrentLevelStart(Cancelled(s, bt)) <= |Cancelled(s, bt).trail| == s.trailLim[bt]
    ensures |Cancelled(s, bt).trailLim| == bt && Cancelled(s, bt).ca == s.ca
  {
  }

  lemma RootCanEnqueue(t: State, p: Lit)
    requires Inv(t) && |t.trailLim| == 0 && p.v < t.n && |t.assigns| == t.n && ValueOf(t.assigns, p) == Undef
    ensures CanEnqueue(t, p, CREF_UNDEF)
  {
  }

  lemma RootSem(t: State, p: Lit)
    requires Inv(t) && CanEnqueue(t, p, CREF_UNDEF) && WatchSem(t, |t.trail|) && |t.trailLim| == 0
    ensures WatchSem(Enqueue(t, p, CREF_UNDEF), |t.trail|)
    ensures CurrentLevelStart(Enqueue(t, p, CREF_UNDEF)) == 0
  {
    EnqueueSem(t, p, CREF_UNDEF, |t.trail|);
  }

  lemma BackjumpRank(s: State, bt: nat, u: State, p: Lit)
    requires Inv(s) && bt < |s.trailLim| && Inv(u) && u.n == s.n
    requires u.trailLim == s.trailLim[..bt] && s.trailLim[bt] <= |s.trail| && u.trail == s.trail[..s.trailLim[bt]] + [p]
    ensures Rank(s, s.n) < Rank(u, s.n)
  {
    BackjumpProgress(s, bt, u);
  }

  lemma NewLevelSem(s: State)
    requires Inv(s) && WatchSem(s, |s.trail|)
    ensures WatchSem(NewLevel(s), |s.trail|)
    ensures CurrentLevelStart(NewLevel(s)) == |s.trail|
  {
    var t := NewLevel(s);
    forall cr, k | 0 <= cr < |t.ca| && 0 <= k < 2 && k < |t.ca[cr]| && FalseBefore(t, t.ca[cr][k], |s.trail|)
      ensures Excused(t, t.ca[cr], k)
    {
      assert FalseBefore(s, s.ca[cr][k], |s.trail|);
      var m :| 0 <= m < |s.ca[cr]| && On(s, s.ca[cr][m]) && LevelOf(s, s.ca[cr][m]) <= LevelOf(s, s.ca[cr][k]);
      assert On(t, t.ca[cr][m]);
    }
  }

  lemma DecisionCanEnqueue(t: State, p: Lit)
    requires Inv(t) && |t.trailLim| > 0 && t.trailLim[|t.trailLim| - 1] == |t.trail|
    requires p.v < t.n && |t.assigns| == t.n && t.assigns[p.v] == Undef
    ensures CanEnqueue(t, p, CREF_UNDEF)
  {
  }

  lemma DecisionRank(s: State, u: State)
    requires Inv(s) && Inv(u) && u.n == s.n && |u.trail| == |s.trail| + 1 && u.trailLim == s.trailLim + [|s.trail|]
    ensures Rank(s, s.n) < Rank(u, s.n)
  {
    DecisionProgress(s, u);
  }

  lemma AssignsSize(s: State)
    requires Inv(s)
    ensures |s.assigns| == s.n
  {
  }

  /** Propagation keeps what the search relies on. */
  lemma PropagateKeeps(F: seq<Clause>, s: State, t: State, decision: seq<bool>, heap: set<nat>)
    requires Inv(s) && Inv(t) && Decided(s) && Extends(s, t) && Sound(F, s) && Complete(F, s) && HeapOk(s.assigns, decision, heap, s.n)
    ensures Decided(t) && Sound(F, t) && Complete(F, t) && HeapOk(t.assigns, decision, heap, t.n)
    ensures Rank(s, s.n) <= Rank(t, s.n) && |t.assigns| == t.n
  {
    ExtendsSound(F, s, t);
    ExtendsComplete(F, s, t);
    PropagationProgress(s, t, s.n);
    forall v | 0 <= v < s.n && s.assigns[v] != Undef ensures t.assigns[v] != Undef {
      assert On(s, s.trail[s.pos[v]]);
      ExtendsOn(s, t, s.trail[s.pos[v]]);
    }
  }

  lemma RestartKeeps(F: seq<Clause>, s: State)
    requires Inv(s) && Sound(F, s) && Complete(F, s) && WatchSem(s, |s.trail|)
    ensures |s.trailLim| > 0 ==>
              var t := Cancelled(s, 0);
              Inv(t) && Decided(t) && Sound(F, t) && Complete(F, t) && WatchSem(t, |t.trail|) && CurrentLevelStart(t) == 0
              && s.trailLim[0] <= |s.trail| && |s.assigns| == |s.pos|
  {
    if |s.trailLim| > 0 {
      CancelKeeps(s, 0);
      CancelMeaning(F, s, 0);
      CancelSem(s, 0, |s.trail|);
    }
  }

  lemma TrueResult(F: seq<Clause>, s: State, decision: seq<bool>)
    requires Inv(s) && Complete(F, s) && |decision| == s.n
    requires forall cr :: 0 <= cr < |s.ca| ==> NotUnitNorFalse(s, s.ca[cr])
    requires |s.assigns| == s.n && forall v :: 0 <= v < s.n && decision[v] ==> s.assigns[v] != Undef
    ensures (forall v :: 0 <= v < s.n ==> decision[v]) ==> Models(TrailModel(s.assigns), F)
  {
    if forall v :: 0 <= v < s.n ==> decision[v] {
      FullTrailModels(F, s);
    }
  }

  lemma NewVarKeeps(assigns: seq<LBool>, decision: seq<bool>, heap: set<nat>, perm: seq<nat>, flag: nat, n: nat, dvar: bool)
    requires HeapOk(assigns, decision, heap, n) && StampsOk(perm, flag, n)
    ensures HeapOk(assigns + [Undef], decision + [dvar], if dvar then heap + {n} else heap, n + 1) && StampsOk(perm + [0], flag, n + 1)
    ensures |decision| == n
  {
  }

  lemma HeapSizes(assigns: seq<LBool>, decision: seq<bool>, heap: set<nat>, n: nat)
    requires HeapOk(assigns, decision, heap, n)
    ensures |assigns| == |decision| == n
  {
  }

  lemma TrailPart(s: State)
    requires Inv(s)
    ensures TrailOk(s)
  {
  }

  /** The literals of a closed variable's reason are marked, in whatever order they are. */
  lemma ClosedMarks(s: State, t: State, seen: seq<bool>, v: nat, c: Clause)
    requires v < |s.vardata| && Closed(s, seen, v) && SameClauses(s.ca, t.ca) && t == s.(ca := t.ca)
    requires 0 <= Reason(s, v) < |t.ca| && c == t.ca[Reason(s, v)] && |c| > 0 && c[0].v == v && DistinctVars(c, 0)
    ensures forall k :: 1 <= k < |c| ==> Marks(t, seen, c[k])
  {
    ClosedSame(s, t, seen, v);
    forall k | 1 <= k < |c| ensures c[k].v != v {
      assert c[0].v != c[k].v;
    }
  }

  lemma ClosedReason(s: State, seen: seq<bool>, v: nat)
    ensures v < |s.vardata| && Closed(s, seen, v) ==> Reason(s, v) != CREF_UNDEF
  {
  }

  lemma MarkedLit(s: State, seen: seq<bool>, q: Lit)
    ensures Marks(s, seen, q) ==> q.v < |s.vardata| && q.v < |seen| && (Level(s, q.v) == 0 || seen[q.v])
  {
  }

  lemma LitsSelf(c: Clause)
    ensures SameLits(c, c)
  {
  }

  lemma SwapSame(out: Clause, out0: Clause, i: nat, l: nat)
    requires SameLits(out, out0) && i < |out| && l < |out|
    ensures SameLits(SwapAt(out, i, l), out0)
  {
    var d := SwapAt(out, i, l);
    forall k | 0 <= k < |out0| ensures out0[k] in d {
      var m :| 0 <= m < |out| && out[m] == out0[k];
      assert d[if m == i then l else if m == l then i else m] == out[m];
    }
  }

  lemma NoneDropped(out: Clause, perm: seq<nat>, flag: nat)
    requires |Demoted(out, perm, flag)| == 0 && |out| >= 1 && forall k :: 0 <= k < |out| ==> out[k].v < |perm|
    ensures forall x :: x in out <==> x in out && (x == out[0] || perm[x.v] == flag)
  {
    forall k | 1 <= k < |out| ensures perm[out[k].v] == flag {
      assert k !in Demoted(out, perm, flag);
    }
  }

  lemma StampedMeaning(out: Clause, perm: seq<nat>, flag: nat, bw: WatchTable)
    requires |out| >= 1 && out[0].Neg() in bw && StampedRest(out, perm, flag, bw[out[0].Neg()], |bw[out[0].Neg()]|)
    requires forall k :: 0 <= k < |out| ==> out[k].v < |perm|
    ensures forall x :: x in out && x != out[0] ==> (perm[x.v] == flag <==> !Implied(bw, out[0].Neg(), x.Neg()))
  {
    forall x | x in out && x != out[0] ensures perm[x.v] == flag <==> !Implied(bw, out[0].Neg(), x.Neg()) {
      var k :| 0 <= k < |out| && out[k] == x;
    }
  }

  lemma TrailFacts(s: State)
    requires Inv(s)
    ensures |s.assigns| == |s.pos| == s.n && forall k :: 0 <= k < |s.trailLim| ==> s.trailLim[k] <= |s.trail|
    ensures forall i :: 0 <= i < |s.trail| ==> s.trail[i].v < s.n && s.pos[s.trail[i].v] == i && s.assigns[s.trail[i].v] != Undef
    ensures forall v :: 0 <= v < s.n && s.assigns[v] != Undef ==> s.pos[v] < |s.trail| && s.trail[s.pos[v]].v == v
  {
  }

  lemma ShapeClauses(s: State)
    requires Inv(s)
    ensures forall r :: 0 <= r < |s.ca| ==> ClauseShape(s.n, s.ca[r])
    ensures |s.assigns| == |s.vardata| == |s.pos| == s.n
  {
  }

  lemma CleanedFacts(s: State, ps: Clause, ks: Clause)
    requires |s.assigns| == s.n && Cleaned(s.assigns, ps, ks)
    ensures DistinctVars(ks, 0)
    ensures forall k :: 0 <= k < |ks| ==> ks[k].v < s.n && |s.assigns| == s.n && ValueOf(s.assigns, ks[k]) == Undef
  {
  }

  lemma UnitFacts(s: State, ps: Clause, p: Lit)
    requires |s.assigns| == s.n && Cleaned(s.assigns, ps, [p])
    ensures p.v < s.n && |s.assigns| == s.n && ValueOf(s.assigns, p) == Undef
  {
    assert [p][0] == p;
  }

  lemma SameLevel(s: State, t: State)
    requires Extends(s, t)
    ensures t.trailLim == s.trailLim && t.n == s.n
  {
  }

  lemma SameLevelStart(s: State, s': State)
    requires s'.trailLim == s.trailLim
    ensures CurrentLevelStart(s') == CurrentLevelStart(s)
  {
  }

  lemma UnitDischarge(s: State, p: Lit, qh: nat, ws: seq<Watcher>, i: nat, cr: nat)
    requires Inv(s) && AtHead(s, p, qh) && i < |ws| && ws[i].cref == cr && cr < |s.ca| && |s.ca[cr]| > 2
    requires CanEnqueue(s, s.ca[cr][0], cr) && PropSem(s, p, qh, Crefs(ws[i..]))
    ensures
      var s' := Enqueue(s, s.ca[cr][0], cr);
      && AtHead(s', p, qh) && PropSem(s', p, qh, Crefs(ws[i + 1..])) && WatchSem(s', qh)
      && s'.ca == s.ca && s'.trailLim == s.trailLim
  {
    CrefsTail(ws, i);
    EnqueueProp(s, p, qh, Crefs(ws[i..]), s.ca[cr][0], cr);
    EnqueueOn(s, s.ca[cr][0], cr, s.ca[cr][0]);
    EnqueueKeeps(s, s.ca[cr][0], cr);
    Discharge(Enqueue(s, s.ca[cr][0], cr), p, qh, Crefs(ws[i..]), Crefs(ws[i + 1..]), cr, 0);
  }

  lemma PropWatch(s: State, p: Lit, qh: nat, pend: set<nat>)
    ensures PropSem(s, p, qh, pend) ==> WatchSem(s, qh)
  {
  }

  lemma SwapStep(s: State, s': State, p: Lit, qh: nat, i: nat, j: nat, cr: nat, w: WatchTable, bw: WatchTable)
    requires Inv(s) && AtHead(s, p, qh) && p in w && j <= i < |w[p]| && w[p][i].cref == cr
    requires LongShape(s.n, s.ca, Live(w, p, i, j)) && BinShape(s.n, s.ca, bw)
    requires PropSem(s, p, qh, Crefs(w[p][i..]))
    requires cr < |s.ca| && |s.ca[cr]| > 2
    requires s' == if s.ca[cr][0] == p.Neg() then WithClause(s, cr, SwapAt(s.ca[cr], 0, 1)) else s
    ensures Inv(s') && AtHead(s', p, qh) && Extends(s, s') && CurrentLevelStart(s') == CurrentLevelStart(s)
    ensures LongShape(s.n, s'.ca, Live(w, p, i, j)) && BinShape(s.n, s'.ca, bw)
    ensures PropSem(s', p, qh, Crefs(w[p][i..])) && WatchSem(s', qh)
    ensures s'.ca[cr][1] == p.Neg() && |s'.ca| == |s.ca| && |s'.ca[cr]| == |s.ca[cr]|
    ensures s'.n == s.n && s'.assigns == s.assigns
  {
    hide Extends, LongShape, BinShape, PropSem, Crefs, WatchSem;
    ExtendsSelf(s);
    VisitFacts(s, w, p, i, j);
    PropWatch(s', p, qh, Crefs(w[p][i..]));
    if s.ca[cr][0] == p.Neg() {
      var d := SwapAt(s.ca[cr], 0, 1);
      SwapReorders(s.n, s.ca[cr], 0, 1);
      assert On(s, p) && !On(s, p.Neg());
      ReorderInv(s, cr, d);
      CrefsTail(w[p], i);
      ReorderProp(s, p, qh, Crefs(w[p][i..]), cr, d);
      SwapShape(s.n, s.ca, Live(w, p, i, j), cr);
      BinFrame(s.n, s.ca, bw, cr, d);
      ReorderedSame(s, s, cr, d);
    }
  }

  lemma MoveExtends(s0: State, s: State, cr: nat, k: nat)
    requires Extends(s0, s) && Inv(s) && cr < |s.ca| && 1 < k < |s.ca[cr]|
    ensures Extends(s0, WithClause(s, cr, SwapAt(s.ca[cr], 1, k)))
  {
    SwapReorders(s.n, s.ca[cr], 1, k);
    ReorderedSame(s0, s, cr, SwapAt(s.ca[cr], 1, k));
  }

  lemma MoveStep(s: State, p: Lit, qh: nat, i: nat, j: nat, cr: nat, k: nat, w: WatchTable, bw: WatchTable)
    requires Inv(s) && AtHead(s, p, qh) && p in w && j <= i < |w[p]| && w[p][i].cref == cr
    requires LongShape(s.n, s.ca, Live(w, p, i, j)) && BinShape(s.n, s.ca, bw)
    requires PropSem(s, p, qh, Crefs(w[p][i..]))
    requires cr < |s.ca| && 2 <= k < |s.ca[cr]| && s.ca[cr][1] == p.Neg()
    requires !On(s, s.ca[cr][0]) && !On(s, s.ca[cr][k].Neg())
    ensures
      var d := SwapAt(s.ca[cr], 1, k);
      var s' := WithClause(s, cr, d);
      var q := d[1].Neg();
      && q in w && q != p && d[0] == s.ca[cr][0]
      && (var w' := w[q := w[q] + [Watcher(cr, d[0])]];
          && Inv(s') && AtHead(s', p, qh) && CurrentLevelStart(s') == CurrentLevelStart(s)
          && LongShape(s.n, s'.ca, Live(w', p, i + 1, j)) && BinShape(s.n, s'.ca, bw)
          && WatchSem(s', qh) && w'[p] == w[p]
          && PropSem(s', p, qh, Crefs(w'[p][i + 1..])))
  {
    VisitFacts(s, w, p, i, j);
    var c := s.ca[cr];
    var d := SwapAt(c, 1, k);
    var q := c[k].Neg();
    var s' := WithClause(s, cr, d);
    var pend := Crefs(w[p][i..]);
    assert On(s, p);
    assert q != p;
    SwapReorders(s.n, c, 1, k);
    ReorderInv(s, cr, d);
    CrefsTail(w[p], i);
    ReorderProp(s, p, qh, pend, cr, d);
    assert d[0] != p.Neg() && d[1] != p.Neg();
    Unwatch(s', p, qh, pend, Crefs(w[p][i + 1..]), cr);
    MoveLive(s.n, s.ca, w, p, i, j, cr, k);
    BinFrame(s.n, s.ca, bw, cr, d);
  }

  lemma MoveLive(n: nat, ca: seq<Clause>, w: WatchTable, p: Lit, i: nat, j: nat, cr: nat, k: nat)
    requires p in w && j <= i < |w[p]| && w[p][i].cref == cr && LongShape(n, ca, Live(w, p, i, j))
    requires cr < |ca| && ClauseShape(n, ca[cr]) && ca[cr][1] == p.Neg() && 2 <= k < |ca[cr]| && ca[cr][k].Neg() != p
    ensures ca[cr][k].Neg() in w
    ensures var q := ca[cr][k].Neg();
            LongShape(n, ca[cr := SwapAt(ca[cr], 1, k)], Live(w[q := w[q] + [Watcher(cr, ca[cr][0])]], p, i + 1, j))
  {
    var q := ca[cr][k].Neg();
    assert Live(w, p, i, j)[p][j] == w[p][i];
    MoveShape(n, ca, Live(w, p, i, j), p, j, cr, k);
    LiveMove(w, p, i, j, q, Watcher(cr, ca[cr][0]));
  }

  // ---------------------------------------------------------------- glue over hidden predicates

  lemma ValueOnTrail(s: State, q: Lit)
    requires Inv(s) && q.v < s.n
    ensures |s.assigns| == s.n
    ensures On(s, q) <==> ValueOf(s.assigns, q) == True
    ensures On(s, q.Neg()) <==> ValueOf(s.assigns, q) == False
  {
    OnValue(s, q);
  }

  lemma HeadValue(s: State, p: Lit, qh: nat)
    requires Inv(s) && AtHead(s, p, qh)
    ensures p.v < s.n && |s.assigns| == s.n && On(s, p) && ValueOf(s.assigns, p) == True && ValueOf(s.assigns, p.Neg()) == False
  {
  }

  lemma HeadConflict(s: State, p: Lit, qh: nat, cr: nat)
    requires Inv(s) && AtHead(s, p, qh) && cr < |s.ca| && Falsified(s, s.ca[cr]) && p.Neg() in s.ca[cr]
    ensures exists k :: 0 <= k < |s.ca[cr]| && LevelOf(s, s.ca[cr][k]) == |s.trailLim|
  {
    var k :| 0 <= k < |s.ca[cr]| && s.ca[cr][k] == p.Neg();
    assert LevelOf(s, s.ca[cr][k]) == |s.trailLim|;
  }

  lemma ExtendsAfterEnqueue(s0: State, s: State, p: Lit, from: nat)
    requires Inv(s) && Extends(s0, s) && CanEnqueue(s, p, from)
    ensures Extends(s0, Enqueue(s, p, from))
  {
    ExtendsEnqueue(s0, s, p, from);
  }

  lemma EnqueuedIsOn(s: State, p: Lit, from: int)
    requires Inv(s) && CanEnqueue(s, p, from)
    ensures On(Enqueue(s, p, from), p)
    ensures Enqueue(s, p, from).ca == s.ca
  {
    EnqueueOn(s, p, from, p);
  }

  lemma BinDischarge(s: State, p: Lit, qh: nat, longs: set<nat>, wbin: seq<Watcher>, k: nat, bw: WatchTable)
    requires Inv(s) && AtHead(s, p, qh) && k < |wbin| && p in bw && bw[p] == wbin
    requires PropSem(s, p, qh, longs + Crefs(wbin[k..])) && BinShape(s.n, s.ca, bw)
    requires On(s, wbin[k].blocker)
    ensures PropSem(s, p, qh, longs + Crefs(wbin[k + 1..]))
  {
    BinFacts(s, bw, p, k);
    CrefsTail(wbin, k);
    var c := s.ca[wbin[k].cref];
    var m := if c[0] == wbin[k].blocker then 0 else 1;
    Discharge(s, p, qh, longs + Crefs(wbin[k..]), longs + Crefs(wbin[k + 1..]), wbin[k].cref, m);
  }

  lemma PropSemWatch(s: State, p: Lit, qh: nat, pend: set<nat>)
    requires PropSem(s, p, qh, pend)
    ensures WatchSem(s, qh)
  {
  }

  lemma NoCrefs(ws: seq<Watcher>, k: nat)
    requires k == |ws|
    ensures Crefs(ws[k..]) == {}
  {
    assert forall cr :: !Listed(ws[k..], cr);
  }
}
