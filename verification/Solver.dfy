/** The CDCL kernel: the solver object and its propagation, conflict analysis and search. */
module CdclSolver {
  import opened Logic
  import opened SolverState
  import opened SolverWatches
  import opened SolverAnalyze
  import opened SolverMinimize
  import opened SolverSearch
  import opened SolverInput
  import opened ClauseCleaning
  import opened SolverSteps

  class Solver {
    var nVars: nat
    const ccminMode: int                 // 2: recursive minimisation, 1: local, else none
    const lbSizeMinimizingClause: nat    // limits for the resolution with binary clauses
    const lbLBDMinimizingClause: nat
    const phaseSaving: nat               // 2: full, 1: limited to the last level, 0: none
    var ca: seq<Clause>            // the clause store, by clause reference
    var assigns: seq<LBool>
    var vardata: seq<VarData>
    var trail: seq<Lit>
    var trailLim: seq<nat>
    var qhead: nat
    var watches: WatchTable
    var watchesBin: WatchTable
    var seen: seq<bool>
    var analyzeStack: seq<Lit>
    var analyzeToclear: seq<Lit>
    var permDiff: seq<nat>         // stamps, to be compared with `myFlag`
    var myFlag: nat
    var decision: seq<bool>        // the variables that may be decided
    var polarity: seq<bool>        // saved phases
    var orderHeap: set<nat>        // candidates for the next decision
    var learnts: seq<nat>
    ghost var pos: seq<nat>        // trail position of each assigned variable
    ghost var formula: seq<Clause> // the clauses the solver was given

    ghost function S(): State
      reads this
    {
      State(nVars, ca, assigns, vardata, trail, trailLim, pos)
    }

    /** The stored clauses, both watch tables and the propagated prefix of the trail agree. */
    ghost predicate Ready()
      reads this
    {
      && Inv(S())
      && LongShape(nVars, ca, watches) && BinShape(nVars, ca, watchesBin)
      && CurrentLevelStart(S()) <= qhead <= |trail|
      && WatchSem(S(), qhead)
    }

    /** The state between two watcher visits of `PropagateLong`. */
    ghost predicate Visiting(p: Lit, qh: nat, i: nat, j: nat)
      reads this
    {
      && Inv(S()) && AtHead(S(), p, qh) && CurrentLevelStart(S()) <= qh
      && p in watches && j <= i <= |watches[p]|
      && LongShape(nVars, ca, Live(watches, p, i, j)) && BinShape(nVars, ca, watchesBin)
      && WatchSem(S(), qh)
    }

    /** What holds when a conflict has been found: only the levels below the current one are
        still known to be fully propagated. */
    ghost predicate AfterConflict()
      reads this
    {
      && Inv(S()) && LongShape(nVars, ca, watches) && BinShape(nVars, ca, watchesBin)
      && qhead <= |trail| && WatchSem(S(), CurrentLevelStart(S()))
    }

    /** Conflict analysis leaves the solver in this state throughout. */
    ghost predicate Settled()
      reads this
    {
      AfterConflict() && Sound(formula, S())
    }

    method UncheckedEnqueue(p: Lit, from: int)
      requires Inv(S()) && CanEnqueue(S(), p, from)
      modifies `assigns, `vardata, `trail, `pos
      ensures S() == Enqueue(old(S()), p, from)
      ensures Inv(S()) && Decided(S())
    {
      ghost var s := S();
      EnqueueKeeps(s, p, from);
      assigns := assigns[p.v := Lifted(p)];
      vardata := vardata[p.v := VarData(from, |trailLim|)];
      trail := trail + [p];
      pos := pos[p.v := |trail| - 1];
      assert S() == Enqueue(s, p, from);
    }

    method PropagateBinary(p: Lit, ghost qh: nat) returns (confl: int)
      requires Inv(S()) && AtHead(S(), p, qh) && BinShape(nVars, ca, watchesBin) && WatchSem(S(), qh)
      modifies `assigns, `vardata, `trail, `pos
      ensures Inv(S()) && AtHead(S(), p, qh) && WatchSem(S(), qh) && Extends(old(S()), S())
      ensures confl == CREF_UNDEF ==> PropSem(S(), p, qh, LongClauses(ca))
      ensures confl != CREF_UNDEF ==> Conflict(S(), confl) && 0 <= confl < |ca| && |ca[confl]| == 2 && qh + 1 < |trail|
    {
      hide Inv, AtHead, BinShape, WatchSem, PropSem, Extends, Crefs, LongClauses, CanEnqueue, Falsified, Enqueue;
      confl := CREF_UNDEF;
      ghost var s0 := S();
      ghost var longs := LongClauses(ca);
      StartBinary(s0, p, qh, watchesBin);
      ExtendsSelf(s0);
      var wbin := watchesBin[p];
      var k := 0;
      assert wbin[0..] == wbin;
      while k < |wbin|
        invariant 0 <= k <= |wbin| && ca == old(ca)
        invariant Inv(S()) && AtHead(S(), p, qh) && PropSem(S(), p, qh, longs + Crefs(wbin[k..])) && Extends(s0, S())
        invariant WatchSem(S(), qh)
      {
        ghost var s := S();
        var imp := wbin[k].blocker;
        BinFacts(s, watchesBin, p, k);
        HeadValue(s, p, qh);
        CrefsTail(wbin, k);
        ValueOnTrail(s, imp);
        if ValueOf(assigns, imp) == False {
          confl := wbin[k].cref;
          AllFalse(s, confl);
          HeadConflict(s, p, qh, confl);
          BinaryConflictEarly(s, qh, confl);
          return;
        }
        if ValueOf(assigns, imp) == Undef {
          UnitReason(s, wbin[k].cref, imp);
          EnqueueProp(s, p, qh, longs + Crefs(wbin[k..]), imp, wbin[k].cref);
          ExtendsAfterEnqueue(s0, s, imp, wbin[k].cref);
          UncheckedEnqueue(imp, wbin[k].cref);
          EnqueuedIsOn(s, imp, wbin[k].cref);
        }
        BinDischarge(S(), p, qh, longs, wbin, k, watchesBin);
        PropSemWatch(S(), p, qh, longs + Crefs(wbin[k + 1..]));
        k := k + 1;
      }
      NoCrefs(wbin, k);
      assert longs + Crefs(wbin[k..]) == longs;
    }

    /** Visits the watcher at `i` of the list of `p`, whose blocker is not true; `j` is the end of
        the kept part of the list. */
    method VisitWatch(p: Lit, ghost qh: nat, i: nat, j: nat) returns (confl: int, j': nat)
      requires Visiting(p, qh, i, j) && i < |watches[p]| && ValidBlocker(p, i)
      requires PropSem(S(), p, qh, Crefs(watches[p][i..]))
      modifies `ca, `assigns, `vardata, `trail, `pos, `watches
      ensures p in watches && |watches[p]| == |old(watches)[p]|
      ensures Visiting(p, qh, i + 1, j') && j <= j' && Extends(old(S()), S())
      ensures confl == CREF_UNDEF ==> PropSem(S(), p, qh, Crefs(watches[p][i + 1..]))
      ensures confl != CREF_UNDEF ==> Conflict(S(), confl) && LongClause(ca, confl)
    {
      hide Inv, AtHead, LongShape, BinShape, WatchSem, PropSem, Extends, Crefs, Live, CurrentLevelStart, WithClause, SwapAt, Conflict;
      confl := CREF_UNDEF;
      j' := j;
      ghost var s0 := S();
      var cr, blocker := watches[p][i].cref, watches[p][i].blocker;
      VisitFacts(s0, watches, p, i, j);
      FalseLitInFront(p, qh, i, j, cr);
      VisitFacts(S(), watches, p, i, j);
      var first := ca[cr][0];
      var w := Watcher(cr, first);
      ValueOnTrail(S(), first);
      if first != blocker && ValueOf(assigns, first) == True {
        CrefsTail(watches[p], i);
        Discharge(S(), p, qh, Crefs(watches[p][i..]), Crefs(watches[p][i + 1..]), cr, 0);
        j' := KeepWatch(p, qh, i, j, w);
        return;
      }
      var k := FindWatch(cr);
      if k < |ca[cr]| {
        ValueOnTrail(S(), ca[cr][k]);
        MoveWatch(p, qh, i, j, cr, k, s0);
      } else {
        confl, j' := UnitClause(p, qh, i, j, w, s0);
      }
    }

    /** Makes sure that the false literal `~p` is at index 1 of the visited clause. */
    method FalseLitInFront(p: Lit, ghost qh: nat, ghost i: nat, ghost j: nat, cr: nat)
      requires Visiting(p, qh, i, j) && i < |watches[p]| && watches[p][i].cref == cr
      requires PropSem(S(), p, qh, Crefs(watches[p][i..]))
      requires cr < |ca| && |ca[cr]| > 2
      modifies `ca
      ensures Visiting(p, qh, i, j) && Extends(old(S()), S())
      ensures PropSem(S(), p, qh, Crefs(watches[p][i..]))
      ensures |ca| == |old(ca)| && |ca[cr]| == |old(ca[cr])| && ca[cr][1] == p.Neg()
    {
      hide Inv, AtHead, LongShape, BinShape, WatchSem, PropSem, Extends, Crefs, Live, CurrentLevelStart, SwapAt;
      ghost var s0 := S();
      var falseLit := p.Neg();
      if ca[cr][0] == falseLit {
        ca := ca[cr := SwapAt(ca[cr], 0, 1)];
      }
      SwapStep(s0, S(), p, qh, i, j, cr, watches, watchesBin);
    }

    /** The first index from 2 on whose literal is not false; the clause size if there is none. */
    method FindWatch(cr: nat) returns (k: nat)
      requires cr < |ca| && |ca[cr]| >= 2 && forall m :: 0 <= m < |ca[cr]| ==> ca[cr][m].v < |assigns|
      ensures 2 <= k <= |ca[cr]|
      ensures forall m :: 2 <= m < k ==> ValueOf(assigns, ca[cr][m]) == False
      ensures k < |ca[cr]| ==> ValueOf(assigns, ca[cr][k]) != False
    {
      k := 2;
      while k < |ca[cr]| && ValueOf(assigns, ca[cr][k]) == False
        invariant 2 <= k <= |ca[cr]|
        invariant forall m :: 2 <= m < k ==> ValueOf(assigns, ca[cr][m]) == False
      {
        k := k + 1;
      }
    }

    /** Watches `ca[cr][k]` in place of `~p`. */
    method MoveWatch(p: Lit, ghost qh: nat, ghost i: nat, ghost j: nat, cr: nat, k: nat, ghost s0: State)
      requires Visiting(p, qh, i, j) && i < |watches[p]| && watches[p][i].cref == cr
      requires PropSem(S(), p, qh, Crefs(watches[p][i..])) && Extends(s0, S())
      requires cr < |ca| && 2 <= k < |ca[cr]| && ca[cr][1] == p.Neg()
      requires !On(S(), ca[cr][0]) && !On(S(), ca[cr][k].Neg())
      modifies `ca, `watches
      ensures p in watches && watches[p] == old(watches)[p]
      ensures Visiting(p, qh, i + 1, j) && Extends(s0, S())
      ensures PropSem(S(), p, qh, Crefs(watches[p][i + 1..]))
    {
      hide Inv, AtHead, LongShape, BinShape, WatchSem, PropSem, Extends, Crefs, Live, CurrentLevelStart, On;
      ghost var s := S();
      MoveStep(s, p, qh, i, j, cr, k, watches, watchesBin);
      MoveExtends(s0, s, cr, k);
      ca := ca[cr := SwapAt(ca[cr], 1, k)];
      var l := ca[cr][1].Neg();
      watches := watches[l := watches[l] + [Watcher(cr, ca[cr][0])]];
      assert S() == WithClause(s, cr, SwapAt(s.ca[cr], 1, k));
    }

    /** No new watch was found: the clause is unit under the assignment, or falsified. */
    method UnitClause(p: Lit, ghost qh: nat, i: nat, j: nat, w: Watcher, ghost s0: State) returns (confl: int, j': nat)
      requires Visiting(p, qh, i, j) && i < |watches[p]| && w.cref == watches[p][i].cref
      requires PropSem(S(), p, qh, Crefs(watches[p][i..])) && Extends(s0, S())
      requires w.cref < |ca| && |ca[w.cref]| > 2 && ca[w.cref][0] == w.blocker && ca[w.cref][1] == p.Neg()
      requires w.blocker.v < |assigns| && !On(S(), w.blocker)
      requires forall m :: 2 <= m < |ca[w.cref]| ==> ca[w.cref][m].v < |assigns| && ValueOf(assigns, ca[w.cref][m]) == False
      modifies `assigns, `vardata, `trail, `pos, `watches
      ensures p in watches && |watches[p]| == |old(watches)[p]| && j' == j + 1
      ensures Visiting(p, qh, i + 1, j') && Extends(s0, S())
      ensures confl == CREF_UNDEF ==> PropSem(S(), p, qh, Crefs(watches[p][i + 1..]))
      ensures confl != CREF_UNDEF ==> Conflict(S(), confl) && LongClause(ca, confl)
    {
      hide Inv, AtHead, LongShape, BinShape, WatchSem, PropSem, Extends, Crefs, CanEnqueue, Falsified, Enqueue, Live, CurrentLevelStart, On;
      confl := CREF_UNDEF;
      ghost var ws := watches[p];
      ghost var s := S();
      HeadValue(s, p, qh);
      ValueOnTrail(s, w.blocker);
      j' := KeepWatch(p, qh, i, j, w);
      assert watches[p][i + 1..] == ws[i + 1..];
      if ValueOf(assigns, w.blocker) == False {
        confl := w.cref;
        AllFalse(s, w.cref);
        HeadConflict(s, p, qh, w.cref);
      } else {
        UnitReason(s, w.cref, w.blocker);
        UnitDischarge(s, p, qh, ws, i, w.cref);
        ExtendsAfterEnqueue(s0, s, w.blocker, w.cref);
        UncheckedEnqueue(w.blocker, w.cref);
        SameLevelStart(s, S());
      }
    }

    /** Visits all clauses longer than two literals that watch `~p`. */
    method PropagateLong(p: Lit, ghost qh: nat) returns (confl: int)
      requires Inv(S()) && AtHead(S(), p, qh) && CurrentLevelStart(S()) <= qh
      requires LongShape(nVars, ca, watches) && BinShape(nVars, ca, watchesBin)
      requires PropSem(S(), p, qh, LongClauses(ca))
      modifies `ca, `assigns, `vardata, `trail, `pos, `watches, `qhead
      ensures Inv(S()) && AtHead(S(), p, qh) && Extends(old(S()), S())
      ensures LongShape(nVars, ca, watches) && BinShape(nVars, ca, watchesBin)
      ensures confl == CREF_UNDEF ==> WatchSem(S(), qh + 1) && qhead == old(qhead)
      ensures confl != CREF_UNDEF ==> Conflict(S(), confl) && WatchSem(S(), qh) && qhead == |trail| && LongClause(ca, confl)
    {
      hide Inv, AtHead, LongShape, BinShape, WatchSem, PropSem, Extends, Crefs, Live, CurrentLevelStart, Conflict, LongClauses, On;
      confl := CREF_UNDEF;
      ghost var s0 := S();
      StartLong(s0, p, qh, watches);
      PropSemWatch(s0, p, qh, LongClauses(ca));
      ExtendsSelf(s0);
      LiveEnds(watches, p);
      var i: nat, j: nat, end := 0, 0, |watches[p]|;
      assert watches[p][0..] == watches[p];
      while i != end
        invariant Visiting(p, qh, i, j) && i <= end == |watches[p]| && Extends(s0, S())
        invariant confl == CREF_UNDEF ==> PropSem(S(), p, qh, Crefs(watches[p][i..])) && qhead == old(qhead)
        invariant confl != CREF_UNDEF ==> Conflict(S(), confl) && qhead == |trail| && LongClause(ca, confl)
        decreases end - i
      {
        if confl != CREF_UNDEF {
          // copy the remaining watches
          j := CopyWatch(p, qh, i, j);
        } else {
          VisitFacts(S(), watches, p, i, j);
          ValueOnTrail(S(), watches[p][i].blocker);
          if ValueOf(assigns, watches[p][i].blocker) == True {
            BlockerDischarge(S(), watches, p, qh, i, j);
            j := CopyWatch(p, qh, i, j);
          } else {
            ghost var s := S();
            confl, j := VisitWatch(p, qh, i, j);
            ExtendsTrans(s0, s, S());
            if confl != CREF_UNDEF {
              qhead := |trail|;
            }
          }
        }
        i := i + 1;
      }
      if confl == CREF_UNDEF {
        NoCrefs(watches[p], end);
        Finish(S(), p, qh);
      }
      LiveEnds(watches, p);
      watches := watches[p := watches[p][..j]];
    }

    /** `*j++ = *i++` */
    method CopyWatch(p: Lit, ghost qh: nat, i: nat, j: nat) returns (j': nat)
      requires Visiting(p, qh, i, j) && i < |watches[p]|
      modifies `watches
      ensures Visiting(p, qh, i + 1, j') && |watches[p]| == |old(watches)[p]|
      ensures watches[p][i + 1..] == old(watches)[p][i + 1..]
    {
      hide Inv, AtHead, LongShape, BinShape, WatchSem, Live;
      LiveKeep(watches, p, i, j);
      watches := watches[p := watches[p][j := watches[p][i]]];
      j' := j + 1;
    }

    /** Propagates all enqueued literals; returns a falsified clause or `CREF_UNDEF`. The queue is empty
        afterwards unless the conflict is in a binary clause; in that case it never is. */
    method Propagate() returns (confl: int)
      requires Ready()
      modifies `ca, `assigns, `vardata, `trail, `pos, `watches, `qhead
      ensures Extends(old(S()), S())
      ensures confl == CREF_UNDEF ==>
                Ready() && qhead == |trail| && forall cr :: 0 <= cr < |ca| ==> NotUnitNorFalse(S(), ca[cr])
      ensures confl != CREF_UNDEF ==> AfterConflict() && Conflict(S(), confl)
      ensures qhead < |trail| <==> 0 <= confl < |ca| && |ca[confl]| == 2
      ensures (forall cr :: 0 <= cr < |old(ca)| ==> |old(ca)[cr]| > 2) ==> qhead == |trail|
    {
      hide Inv, AtHead, LongShape, BinShape, WatchSem, PropSem, Extends, Conflict, NotUnitNorFalse;
      confl := CREF_UNDEF;
      ghost var s0 := S();
      ExtendsSelf(s0);
      TrailFits(s0);
      while qhead < |trail|
        invariant confl == CREF_UNDEF && Ready() && Extends(s0, S()) && |trail| <= nVars
        invariant CurrentLevelStart(S()) == CurrentLevelStart(s0)
        decreases nVars - qhead
      {
        ghost var qh := qhead;
        HeadLevel(S(), qh);
        var p := trail[qhead];
        qhead := qhead + 1;
        ghost var s := S();
        confl := PropagateBinary(p, qh);
        ExtendsTrans(s0, s, S());
        ghost var t := S();
        if confl == CREF_UNDEF {
          confl := PropagateLong(p, qh);
          ExtendsTrans(s0, t, S());
        }
        LevelStartKept(s, t, S(), qh);
        TrailFits(S());
        if confl != CREF_UNDEF {
          SizesKept(s0, S());
          WatchSemMono(S(), CurrentLevelStart(S()), qh);
          return;
        }
      }
      Fixpoint(S());
    }

    /** Brings the literal implied by a binary reason clause to the front. */
    method FrontReason(p: Lit)
      requires Settled() && On(S(), p) && Reason(S(), p.v) != CREF_UNDEF
      modifies `ca
      ensures Settled() && SameClauses(old(ca), ca)
      ensures 0 <= Reason(S(), p.v) < |ca| && ca[Reason(S(), p.v)][0] == p
      ensures IsReason(S(), ca[Reason(S(), p.v)], p, pos[p.v]) && ClauseShape(nVars, ca[Reason(S(), p.v)])
    {
      hide Inv, LongShape, BinShape, WatchSem, Sound, SameClauses, CurrentLevelStart, WithClause, IsReason, ClauseShape;
      ghost var s := S();
      ReasonFacts(s, p);
      SameSelf(s);
      var cr := vardata[p.v].reason;
      ReasonSize(s, p);
      if |ca[cr]| == 2 && ValueOf(assigns, ca[cr][0]) == False {
        SwapBinary(s, cr);
        SwapBinaryWatch(s, cr, CurrentLevelStart(s), watches, watchesBin);
        SwapWith(s, cr);
        SoundSame(formula, s, WithClause(s, cr, SwapAt(s.ca[cr], 0, 1)));
        ca := ca[cr := SwapAt(ca[cr], 0, 1)];
        assert S() == WithClause(s, cr, SwapAt(s.ca[cr], 0, 1));
      }
      ReasonFacts(S(), p);
      ReasonFront(S(), p);
    }

    /** Marks the literals of clause `cr` from index `from` on. */
    method MarkClause(cr: nat, from: nat, out0: Clause, pathC0: int, ghost index: int) returns (out: Clause, pathC: int)
      requires Inv(S()) && Analyzing(S(), seen, out0, pathC0, index) && cr < |ca|
      requires forall k :: from <= k < |ca[cr]| ==> On(S(), ca[cr][k].Neg()) && pos[ca[cr][k].v] <= index
      requires |trailLim| > 0 && from <= |ca[cr]|
      modifies `seen
      ensures Analyzing(S(), seen, out, pathC, index) && StillMarked(old(seen), seen) && pathC0 <= pathC
      ensures forall k :: from <= k < |ca[cr]| ==> Marks(S(), seen, ca[cr][k])
    {
      hide Inv, Analyzing, Marks, StillMarked, On;
      out, pathC := out0, pathC0;
      WithinSelf(seen);
      for j := from to |ca[cr]|
        invariant Analyzing(S(), seen, out, pathC, index) && StillMarked(old(seen), seen) && pathC0 <= pathC
        invariant forall k :: from <= k < j ==> Marks(S(), seen, ca[cr][k])
      {
        var q := ca[cr][j];
        ghost var was := seen;
        MarkSizes(S(), seen, out, pathC, index, q);
        if !seen[q.v] {
          if vardata[q.v].level > 0 {
            seen := seen[q.v := true];
            if vardata[q.v].level >= |trailLim| {
              MarkCurrent(S(), was, out, pathC, index, q);
              pathC := pathC + 1;
            } else {
              MarkEarlier(S(), was, out, pathC, index, q);
              out := out + [q];
            }
          }
        }
        MarkedNow(S(), old(seen), was, seen, q, ca[cr], from, j);
      }
    }

    /** The last marked trail position at or below `index0`. */
    method FindMarked(index0: int, ghost out: Clause, ghost pathC: int) returns (index: nat)
      requires Inv(S()) && Analyzing(S(), seen, out, pathC, index0) && pathC > 0 && |trailLim| > 0 && index0 < |trail|
      ensures index <= index0 && trail[index].v < |seen| && seen[trail[index].v]
      ensures forall m :: index < m <= index0 ==> trail[m].v < |seen| && !seen[trail[m].v]
    {
      ghost var v :| v in Open(S(), seen);
      OpenPos(S(), seen, out, pathC, index0, v);
      index := index0;
      while !seen[trail[index].v]
        invariant pos[v] <= index <= index0
        invariant forall m :: index < m <= index0 ==> !seen[trail[m].v]
        decreases index
      {
        index := index - 1;
      }
    }

    /** Resolves with the reason of `p`, whose mark was just taken away. */
    method ResolveReason(p: Lit, out0: Clause, pathC0: int, index: int) returns (out: Clause, pathC: int)
      requires Settled() && On(S(), p) && Reason(S(), p.v) != CREF_UNDEF && index + 1 == pos[p.v] && |trailLim| > 0
      requires Analyzing(S(), seen, out0, pathC0, index) && Derived(formula, S(), seen, p)
      modifies `ca, `seen
      ensures Settled() && SameClauses(old(ca), ca)
      ensures Analyzing(S(), seen, out, pathC, index) && Refuted(formula, S(), seen) && pathC0 <= pathC
    {
      hide Inv, LongShape, BinShape, WatchSem, Sound, SameClauses, CurrentLevelStart, IsReason, Analyzing, Marks, StillMarked, Derived, Refuted, ClauseShape;
      ghost var s, was := S(), seen;
      FrontReason(p);
      SameAnalyzing(formula, s, S(), seen, out0, pathC0, index, p);
      ReasonFacts(S(), p);
      var cr := vardata[p.v].reason;
      ReasonLits(S(), ca[cr], p);
      out, pathC := MarkClause(cr, 1, out0, pathC0, index);
      SoundClause(formula, S(), cr);
      AnalyzingSize(S(), seen, out, pathC, index);
      Resolve(formula, S(), was, seen, ca[cr], 1, p);
    }

    /** Resolves backwards along the trail from the conflict until one literal `p` of the current
        level is left; the marks then stand for the other literals of the clause. */
    method FirstUip(confl: int) returns (out: Clause, p: Lit)
      requires Settled() && Conflict(S(), confl) && |trailLim| > 0
      requires |seen| == nVars && forall v :: 0 <= v < nVars ==> !seen[v]
      modifies `ca, `seen
      ensures Settled() && SameClauses(old(ca), ca)
      ensures Derived(formula, S(), seen, p) && On(S(), p) && p.v < |vardata| && Level(S(), p.v) == |trailLim|
      ensures exists index :: Analyzing(S(), seen, out, 0, index)
    {
      hide Inv, LongShape, BinShape, WatchSem, Sound, SameClauses, CurrentLevelStart, Conflict, Analyzing, Marks, StillMarked, On, Derived, Refuted, Open, Falsified, Closed;
      out := [MkLit(0)];               // leaves room for the asserting literal
      var pathC, index: int := 0, |trail| - 1;
      StartAnalyzing(S(), seen, out, index);
      ConflictFacts(formula, S(), confl, index);
      out, pathC := MarkClause(confl, 0, out, pathC, index);
      ConflictOpen(formula, S(), confl, old(seen), seen, out, pathC, index);
      SameSelf(S());
      while true
        invariant Settled() && SameClauses(old(ca), ca) && pathC > 0 && -1 <= index < |trail|
        invariant Analyzing(S(), seen, out, pathC, index) && Refuted(formula, S(), seen)
        decreases index
      {
        IndexNonneg(S(), seen, out, pathC, index);
        var i: int := FindMarked(index, out, pathC);
        p := trail[i];
        SelectLevel(S(), seen, out, pathC, index, i);
        SelectStep(S(), seen, out, pathC, index, i);
        AnalyzingSize(S(), seen, out, pathC, index);
        PivotAt(formula, S(), seen, i);
        seen := seen[p.v := false];
        pathC, index := pathC - 1, i - 1;
        if pathC == 0 {
          break;
        }
        ghost var was := ca;
        out, pathC := ResolveReason(p, out, pathC, index);
        SameTrans(old(ca), was, ca);
      }
    }

    /** Takes back the marks logged from `top` on. */
    method Unmark(top: nat, ghost seen0: seq<bool>)
      requires Logged(seen0, seen, analyzeToclear, top)
      modifies `seen, `analyzeToclear
      ensures seen == seen0 && analyzeToclear == old(analyzeToclear)[..top]
    {
      for j := top to |analyzeToclear|
        invariant analyzeToclear == old(analyzeToclear) && |seen| == |seen0| && StillMarked(seen0, seen)
        invariant forall v :: 0 <= v < |seen| && seen[v] && !seen0[v] ==> HasVar(analyzeToclear, j, |analyzeToclear|, v)
      {
        seen := seen[analyzeToclear[j].v := false];
      }
      analyzeToclear := analyzeToclear[..top];
    }

    /** Pushes the unmarked literals of the reason of `u`, unless one of them cannot be resolved away. */
    method Expand(u: Lit, abstractLevels: bv32, ghost seen0: seq<bool>, top: nat, ghost root: nat) returns (ok: bool)
      requires Settled() && SeenOk(S(), seen) && On(S(), u.Neg()) && Reason(S(), u.v) != CREF_UNDEF
      requires Pending(S(), seen0, seen, analyzeStack, root, u.v) && StackOk(S(), analyzeStack)
      requires Logged(seen0, seen, analyzeToclear, top)
      modifies `ca, `seen, `analyzeStack, `analyzeToclear
      ensures Settled() && SameClauses(old(ca), ca) && Logged(seen0, seen, analyzeToclear, top)
      ensures |old(analyzeToclear)| <= |analyzeToclear| && analyzeToclear[..|old(analyzeToclear)|] == old(analyzeToclear)
      ensures ok ==> SeenOk(S(), seen) && Pending(S(), seen0, seen, analyzeStack, root, -1) && StackOk(S(), analyzeStack)
      ensures u.v < |vardata| && (old(u.v < |vardata| && Closed(S(), seen, u.v)) ==> ok && analyzeStack == old(analyzeStack))
      ensures 2 * |Unseen(seen)| + |analyzeStack| <= 2 * |Unseen(old(seen))| + |old(analyzeStack)|
    {
      hide Inv, LongShape, BinShape, WatchSem, Sound, SameClauses, CurrentLevelStart, IsReason, SeenOk, Pending, StackOk, Logged, Unseen, Marks, ClauseShape, AbstractLevel, Closed;
      ghost var s, toclear0 := S(), analyzeToclear;
      ReasonFacts(s, u.Neg());
      ghost var closed := Closed(s, seen, u.v);
      FrontReason(u.Neg());
      SearchSame(s, S(), seen0, seen, analyzeStack, root, u.v);
      SeenSame(s, S(), seen);
      ReasonFacts(S(), u.Neg());
      var c := ca[vardata[u.v].reason];
      ReasonLits(S(), c, u.Neg());
      if closed { ClosedMarks(s, S(), seen, u.v, c); }
      label Fronted:
      for i := 1 to |c|
        invariant ca == old@Fronted(ca)
        invariant SeenOk(S(), seen) && Pending(S(), seen0, seen, analyzeStack, root, u.v) && StackOk(S(), analyzeStack)
        invariant Logged(seen0, seen, analyzeToclear, top)
        invariant |toclear0| <= |analyzeToclear| && analyzeToclear[..|toclear0|] == toclear0
        invariant forall k :: 1 <= k < i ==> Marks(S(), seen, c[k])
        invariant closed ==> seen == old(seen) && analyzeStack == old(analyzeStack)
        invariant 2 * |Unseen(seen)| + |analyzeStack| <= 2 * |Unseen(old(seen))| + |old(analyzeStack)|
      {
        var q := c[i];
        SeenSizes(S(), seen, q);
        if closed { MarkedLit(S(), seen, q); }
        ghost var was := seen;
        if !seen[q.v] {
          if vardata[q.v].level > 0 {
            if vardata[q.v].reason != CREF_UNDEF && (AbstractLevel(vardata[q.v].level) & abstractLevels) != 0 {
              SearchPush(S(), seen0, seen, analyzeStack, root, u.v, q);
              LoggedPush(seen0, seen, analyzeToclear, top, q);
              SeenPush(S(), seen, q);
              UnseenStep(seen, q.v);
              seen := seen[q.v := true];
              analyzeStack := analyzeStack + [q];
              analyzeToclear := analyzeToclear + [q];
            } else {
              return false;
            }
          }
        }
        WithinSelf(was);
        MarkedNow(S(), was, was, seen, q, c, 1, i);
      }
      SearchClose(S(), seen0, seen, analyzeStack, root, u, c);
      ok := true;
    }

    /** Whether `p` follows from the marked literals through reasons alone. `abstractLevels` cuts the
        search short at levels that cannot help. */
    method LitRedundant(p: Lit, abstractLevels: bv32) returns (redundant: bool)
      requires Settled() && SeenOk(S(), seen) && On(S(), p.Neg()) && Reason(S(), p.v) != CREF_UNDEF
      modifies `ca, `seen, `analyzeStack, `analyzeToclear
      ensures Settled() && SameClauses(old(ca), ca) && SeenOk(S(), seen)
      ensures !redundant ==> seen == old(seen) && analyzeToclear == old(analyzeToclear)
      ensures old(p.v < |vardata| && Closed(S(), seen, p.v)) ==> redundant
      ensures redundant ==> Logged(old(seen), seen, analyzeToclear, |old(analyzeToclear)|)
                            && analyzeToclear[..|old(analyzeToclear)|] == old(analyzeToclear)
                            && Pending(S(), old(seen), seen, [], p.v, -1)
    {
      hide Inv, LongShape, BinShape, WatchSem, Sound, SameClauses, CurrentLevelStart, IsReason, SeenOk, Pending, StackOk, Logged, Unseen, Marks, ClauseShape, AbstractLevel, Closed;
      ghost var s0, seen0, toclear0 := S(), seen, analyzeToclear;
      ReasonFacts(s0, p.Neg());
      ghost var closed := Closed(s0, seen, p.v);
      analyzeStack := [p];
      var top := |analyzeToclear|;
      StartSearch(S(), seen, p, analyzeToclear);
      SameSelf(S());
      while |analyzeStack| > 0
        invariant Settled() && SameClauses(s0.ca, ca) && SeenOk(S(), seen)
        invariant Pending(S(), seen0, seen, analyzeStack, p.v, -1) && StackOk(S(), analyzeStack)
        invariant Logged(seen0, seen, analyzeToclear, top) && top <= |analyzeToclear| && analyzeToclear[..top] == toclear0
        invariant closed && analyzeStack != [] ==> analyzeStack == [p] && S() == s0 && seen == seen0
        decreases 2 * |Unseen(seen)| + |analyzeStack|
      {
        var u := analyzeStack[|analyzeStack| - 1];
        SearchPop(S(), seen0, seen, analyzeStack, p.v);
        StackTop(S(), analyzeStack);
        analyzeStack := analyzeStack[..|analyzeStack| - 1];
        ghost var was, log := ca, analyzeToclear;
        redundant := Expand(u, abstractLevels, seen0, top, p.v);
        SameTrans(s0.ca, was, ca);
        assert analyzeToclear[..top] == analyzeToclear[..|log|][..top];
        if !redundant {
          Unmark(top, seen0);
          SeenSame(s0, S(), seen0);
          return;
        }
      }
      redundant := true;
      assert analyzeStack == [];
    }

    /** Whether the reason of `q` consists of marked literals and literals of level 0. */
    method LocallyRedundant(q: Lit) returns (redundant: bool)
      requires Inv(S()) && SeenOk(S(), seen) && On(S(), q.Neg()) && Reason(S(), q.v) != CREF_UNDEF
      ensures redundant ==> q.v < |vardata| && Closed(S(), seen, q.v)
      ensures q.v < |vardata| && Closed(S(), seen, q.v) && Marks(S(), seen, q) ==> redundant
    {
      ReasonFacts(S(), q.Neg());
      var c := ca[vardata[q.v].reason];
      var first := if |c| == 2 then 0 else 1;
      for k := first to |c|
        invariant forall m :: first <= m < k ==> Marks(S(), seen, c[m])
      {
        if !seen[c[k].v] && vardata[c[k].v].level > 0 {
          return false;
        }
      }
      return true;
    }

    /** Whether literal `q` of the learnt clause can be dropped. */
    method Redundant(q: Lit, abstractLevels: bv32, ghost rest: Clause, ghost p: Lit) returns (redundant: bool)
      requires Settled() && Minimizing(S(), seen, rest) && Derived(formula, S(), seen, p) && Covered(seen, analyzeToclear)
      requires On(S(), q.Neg()) && q.v < |vardata|
      modifies `ca, `seen, `analyzeStack, `analyzeToclear
      ensures Settled() && SameClauses(old(ca), ca)
      ensures Minimizing(S(), seen, rest) && Derived(formula, S(), seen, p) && Covered(seen, analyzeToclear)
      ensures redundant ==> Closed(S(), seen, q.v)
      ensures StillMarked(old(seen), seen)
      ensures old(Closed(S(), seen, q.v)) && Marks(old(S()), old(seen), q) ==> redundant
    {
      hide Inv, LongShape, BinShape, WatchSem, Sound, SameClauses, CurrentLevelStart, SeenOk, Pending, Logged, Minimizing, Derived, Covered, Closed, On;
      ghost var s, seen0, toclear0 := S(), seen, analyzeToclear;
      MinimizingSeen(s, seen, rest);
      SameSelf(s);
      WithinSelf(seen);
      if vardata[q.v].reason == CREF_UNDEF {
        ClosedReason(s, seen, q.v);
        redundant := false;
      } else if ccminMode == 2 {
        redundant := LitRedundant(q, abstractLevels);
        OnSame(s, S(), q);
        MinimizingSame(s, S(), seen0, rest);
        if redundant {
          SearchDone(S(), seen0, seen, q, rest, analyzeToclear, |toclear0|);
          DerivedMono(formula, s, S(), seen0, seen, p);
        } else {
          WithinSelf(seen);
          DerivedMono(formula, s, S(), seen0, seen, p);
        }
      } else {
        redundant := LocallyRedundant(q);
      }
    }

    /** The levels of `out[1..]`, as a filter. */
    method LevelFilter(out: Clause) returns (abstractLevels: bv32)
      requires Minimizing(S(), seen, out) && |out| >= 1
    {
      hide Minimizing, AbstractLevel;
      abstractLevels := 0;
      for i := 1 to |out| {
        RestLit(S(), seen, out, i);
        abstractLevels := abstractLevels | AbstractLevel(vardata[out[i].v].level);
      }
    }

    /** Drops redundant literals of the learnt clause, compacting it in place. No literal stays whose
        reason consists of marked literals, unless minimisation is switched off. */
    method Minimize(out0: Clause, ghost p: Lit) returns (out: Clause)
      requires Settled() && Minimizing(S(), seen, out0) && Derived(formula, S(), seen, p) && Covered(seen, analyzeToclear)
      requires |out0| >= 1
      modifies `ca, `seen, `analyzeStack, `analyzeToclear
      ensures Settled() && SameClauses(old(ca), ca)
      ensures Minimizing(S(), seen, out) && Derived(formula, S(), seen, p) && Covered(seen, analyzeToclear)
      ensures |out| >= 1 && out[0] == out0[0]
      ensures ccminMode != 1 && ccminMode != 2 ==> out == out0
      ensures forall k :: 1 <= k < |out| ==> out[k] in out0[1..] && out[k].v < |vardata|
      ensures ccminMode == 1 || ccminMode == 2 ==>
                forall k :: 1 <= k < |out| ==> out[k].v < |vardata| && !Closed(old(S()), old(seen), out[k].v)
    {
      hide Inv, LongShape, BinShape, WatchSem, Sound, SameClauses, CurrentLevelStart, Minimizing, Derived, Covered, Closed, AbstractLevel, StillMarked, Marks;
      ghost var s, seen0 := S(), seen;
      WithinSelf(seen);
      RestLits(s, seen, out0);
      out := out0;
      SameSelf(S());
      if ccminMode != 1 && ccminMode != 2 {
        return;
      }
      var abstractLevels := LevelFilter(out);
      var i, j := 1, 1;
      assert out[..1] + out[1..] == out;
      while i < |out|
        invariant 1 <= j <= i <= |out| && out[0] == out0[0]
        invariant Settled() && SameClauses(old(ca), ca) && Covered(seen, analyzeToclear)
        invariant Minimizing(S(), seen, out[..j] + out[i..]) && Derived(formula, S(), seen, p)
        invariant StillMarked(seen0, seen) && S() == s.(ca := ca) && |out| == |out0|
        invariant forall k :: i <= k < |out| ==> out[k] == out0[k]
        invariant forall k :: 1 <= k < j ==> out[k] in out0[1..] && !Closed(s, seen0, out[k].v)
      {
        ghost var rest, was := out[..j] + out[i..], ca;
        RestLit(S(), seen, rest, j);
        RestSteps(out, i, j);
        ghost var now := seen;
        if Closed(s, seen0, out[i].v) { StillClosed(s, S(), seen0, seen, rest, j); }
        var redundant := Redundant(out[i], abstractLevels, rest, p);
        WithinTrans(seen0, now, seen);
        SameTrans(old(ca), was, ca);
        if redundant {
          RestLit(S(), seen, rest, j);
          MinimizingDrop(S(), seen, rest, j);
        } else {
          out := out[j := out[i]];
          j := j + 1;
        }
        i := i + 1;
      }
      assert out[..j] + out[i..] == out[..j];
      out := out[..j];
    }

    /** The number of distinct levels in a clause. */
    method ComputeLbd(out: Clause) returns (lbd: nat)
      requires forall k :: 0 <= k < |out| ==> out[k].v < |vardata|
      ensures lbd == |LevelSet(vardata, out, |out|)|
    {
      var levels: set<nat> := {};
      for i := 0 to |out|
        invariant levels == LevelSet(vardata, out, i)
      {
        levels := levels + {vardata[out[i].v].level};
      }
      lbd := |levels|;
    }

    /** Stamps the variables of `out[1..]` with a fresh flag. */
    method StampVars(out: Clause)
      requires StampsOk(permDiff, myFlag, nVars) && DistinctVars(out, 0) && forall k :: 0 <= k < |out| ==> out[k].v < nVars
      requires |out| >= 1
      modifies `permDiff, `myFlag
      ensures StampsOk(permDiff, myFlag, nVars) && myFlag > 0
      ensures forall v :: 0 <= v < nVars && permDiff[v] == myFlag ==> HasVar(out, 1, |out|, v)
      ensures Demoted(out, permDiff, myFlag) == {}
    {
      myFlag := myFlag + 1;
      for i := 1 to |out|
        invariant StampsOk(permDiff, myFlag, nVars) && myFlag == old(myFlag) + 1
        invariant forall v :: 0 <= v < nVars && permDiff[v] == myFlag ==> HasVar(out, 1, i, v)
        invariant forall k :: 1 <= k < i ==> permDiff[out[k].v] == myFlag
      {
        ghost var was := permDiff;
        permDiff := permDiff[out[i].v := myFlag];
        forall v | 0 <= v < nVars && permDiff[v] == myFlag ensures HasVar(out, 1, i + 1, v) {
          if v == out[i].v {
            assert out[i].v == v;
          } else {
            assert was[v] == myFlag && HasVar(out, 1, i, v);
          }
        }
      }
    }

    /** Takes the stamp from every literal that a binary clause of `out[0]` can remove. */
    method DemoteByBinary(out: Clause) returns (nb: nat)
      requires Settled() && Asserting(S(), out) && StampsOk(permDiff, myFlag, nVars) && myFlag > 0
      requires forall v :: 0 <= v < nVars && permDiff[v] == myFlag ==> HasVar(out, 1, |out|, v)
      requires Demoted(out, permDiff, myFlag) == {}
      modifies `permDiff
      ensures StampsOk(permDiff, myFlag, nVars)
      ensures nb == |Demoted(out, permDiff, myFlag)| && AllRemovable(formula, out, permDiff, myFlag)
      ensures out[0].Neg() in watchesBin
      ensures StampedRest(out, permDiff, myFlag, watchesBin[out[0].Neg()], |watchesBin[out[0].Neg()]|)
    {
      hide Inv, LongShape, BinShape, WatchSem, Sound, CurrentLevelStart, Asserting, AllRemovable, Demoted, StampedRest, On;
      AssertingSize(S(), out);
      AssertingVars(S(), out);
      var p := out[0].Neg();
      BinKey(S(), out, watchesBin);
      var wbin := watchesBin[p];
      nb := 0;
      NoneRemovable(formula, out, permDiff, myFlag);
      NothingBlocked(out, permDiff, myFlag, wbin);
      TrailPart(S());
      for k := 0 to |wbin|
        invariant StampedRest(out, permDiff, myFlag, wbin, k)
        invariant StampsOk(permDiff, myFlag, nVars) && nb == |Demoted(out, permDiff, myFlag)|
        invariant AllRemovable(formula, out, permDiff, myFlag)
        invariant forall v :: 0 <= v < nVars && permDiff[v] == myFlag ==> HasVar(out, 1, |out|, v)
      {
        var imp := wbin[k].blocker;
        BinFacts(S(), watchesBin, p, k);
        ValueOnTrail(S(), imp);
        StampedStep(S(), out, permDiff, myFlag, wbin, k);
        if permDiff[imp.v] == myFlag && ValueOf(assigns, imp) == True {
          BinRemovable(formula, S(), out, permDiff, myFlag, watchesBin, k);
          nb := nb + 1;
          permDiff := permDiff[imp.v := myFlag - 1];
        }
      }
    }

    /** Moves the `nb` literals without stamp to the end and cuts them off. */
    method DropDemoted(out0: Clause, nb: nat) returns (out: Clause)
      requires Asserting(S(), out0) && Entails(formula, out0)
      requires nb == |Demoted(out0, permDiff, myFlag)| && AllRemovable(formula, out0, permDiff, myFlag) && |permDiff| == nVars
      requires forall k :: 0 <= k < |out0| ==> out0[k].v < nVars
      ensures Asserting(S(), out) && Entails(formula, out) && out[0] == out0[0]
      ensures forall x :: x in out <==> x in out0 && (x == out0[0] || permDiff[x.v] == myFlag)
    {
      hide Asserting, Entails, AllRemovable, Demoted, SameLits;
      out := out0;
      AssertingSize(S(), out);
      LitsSelf(out);
      DemotedFew(out, permDiff, myFlag);
      var i, l := 1, |out| - 1;
      while i < |out| - nb
        invariant |out| == |out0| && nb < |out| && 1 <= i <= l + 1 <= |out| && |out| - 1 - l <= nb
        invariant Asserting(S(), out) && Entails(formula, out) && AllRemovable(formula, out, permDiff, myFlag)
        invariant nb == |Demoted(out, permDiff, myFlag)|
        invariant out[0] == out0[0] && SameLits(out, out0)
        invariant forall k :: 0 <= k < |out| ==> out[k].v < nVars
        invariant forall k :: 1 <= k < i ==> k !in Demoted(out, permDiff, myFlag)
        invariant forall k :: l < k < |out| ==> k in Demoted(out, permDiff, myFlag)
        decreases l + |out| - i
      {
        DemotedAt(out, permDiff, myFlag, i);
        if permDiff[out[i].v] != myFlag {
          DemotedRoom(out, permDiff, myFlag, i, l);
          DemotedSwap(out, permDiff, myFlag, i, l);
          DemotedElsewhere(out, permDiff, myFlag, i, l);
          SwapAsserting(formula, S(), out, permDiff, myFlag, i, l);
          SwapSame(out, out0, i, l);
          out := SwapAt(out, i, l);
          l := l - 1;
        } else {
          i := i + 1;
        }
      }
      DemotedSuffix(out, permDiff, myFlag, nb);
      CutAsserting(formula, S(), out, permDiff, myFlag, nb);
      KeptExactly(out0, out, permDiff, myFlag, nb);
      out := out[..|out| - nb];
    }

    /** Removes literals by resolution with the binary clauses of the asserting literal: if the clause
        spans few levels, exactly those whose complement such a clause implies. */
    method MinimisationWithBinaryResolution(out0: Clause) returns (out: Clause)
      requires Settled() && Asserting(S(), out0) && Entails(formula, out0) && StampsOk(permDiff, myFlag, nVars)
      requires forall k :: 0 <= k < |out0| ==> out0[k].v < |vardata|
      modifies `permDiff, `myFlag
      ensures Asserting(S(), out) && Entails(formula, out) && StampsOk(permDiff, myFlag, nVars)
      ensures |out0| >= 1 && |LevelSet(vardata, out0, |out0|)| > lbLBDMinimizingClause ==> out == out0
      ensures |out0| >= 1 && |LevelSet(vardata, out0, |out0|)| <= lbLBDMinimizingClause ==>
                forall x :: x in out <==> x in out0 && (x == out0[0] || !Implied(watchesBin, out0[0].Neg(), x.Neg()))
    {
      hide Inv, LongShape, BinShape, WatchSem, Sound, CurrentLevelStart, Asserting, AllRemovable, Demoted, Entails, LevelSet, StampedRest, Implied;
      out := out0;
      AssertingVars(S(), out);
      var lbd := ComputeLbd(out);
      if lbd <= lbLBDMinimizingClause {
        StampVars(out);
        var nb := DemoteByBinary(out);
        AssertingSize(S(), out);
        if nb > 0 {
          out := DropDemoted(out, nb);
        } else {
          NoneDropped(out, permDiff, myFlag);
        }
        StampedMeaning(out0, permDiff, myFlag, watchesBin);
      }
    }

    /** Puts a literal of the highest remaining level at index 1 and returns that level. */
    method SelectBacktrack(out0: Clause) returns (out: Clause, btlevel: nat)
      requires Inv(S()) && Asserting(S(), out0) && Entails(formula, out0)
      ensures |trailLim| > 0 ==> btlevel < |trailLim|
      ensures Asserting(S(), out) && Entails(formula, out) && |out| == |out0|
      ensures |out| == 1 ==> btlevel == 0
      ensures |out| > 1 ==> btlevel == LevelOf(S(), out[1]) && forall k :: 1 <= k < |out| ==> LevelOf(S(), out[k]) <= btlevel
    {
      hide Inv, Entails;
      out := out0;
      AssertingVars(S(), out);
      if |out| == 1 {
        btlevel := 0;
      } else {
        var maxI := 1;
        for i := 2 to |out|
          invariant 1 <= maxI < i
          invariant forall k :: 1 <= k < i ==> vardata[out[k].v].level <= vardata[out[maxI].v].level
        {
          if vardata[out[i].v].level > vardata[out[maxI].v].level {
            maxI := i;
          }
        }
        SwapClause(formula, S(), out, 1, maxI);
        out := SwapAt(out, 1, maxI);
        btlevel := vardata[out[1].v].level;
      }
    }

    /** Clears the marks. */
    method ClearSeen()
      requires Covered(seen, analyzeToclear)
      modifies `seen
      ensures |seen| == |old(seen)| && forall v :: 0 <= v < |seen| ==> !seen[v]
    {
      for j := 0 to |analyzeToclear|
        invariant |seen| == |old(seen)|
        invariant forall v :: 0 <= v < |seen| && seen[v] ==> HasVar(analyzeToclear, j, |analyzeToclear|, v)
      {
        seen := seen[analyzeToclear[j].v := false];
      }
    }

    /** Analyzes a conflict above level 0. The learnt clause follows from the formula, is false on the
        trail, has one literal of the current level, at index 0, and one of the highest level of the
        others at index 1. */
    method Analyze(confl: int) returns (out: Clause, btlevel: nat)
      requires Settled() && Conflict(S(), confl) && |trailLim| > 0
      requires |seen| == nVars && forall v :: 0 <= v < nVars ==> !seen[v]
      requires StampsOk(permDiff, myFlag, nVars)
      modifies `ca, `seen, `analyzeStack, `analyzeToclear, `permDiff, `myFlag
      ensures Settled() && SameClauses(old(ca), ca) && StampsOk(permDiff, myFlag, nVars)
      ensures Entails(formula, out) && Asserting(S(), out) && btlevel < |trailLim|
      ensures |out| == 1 ==> btlevel == 0
      ensures |out| > 1 ==> btlevel == LevelOf(S(), out[1]) && forall k :: 1 <= k < |out| ==> LevelOf(S(), out[k]) <= btlevel
      ensures |seen| == nVars && forall v :: 0 <= v < nVars ==> !seen[v]
    {
      hide Inv, LongShape, BinShape, WatchSem, Sound, SameClauses, CurrentLevelStart, Conflict, Analyzing, Derived, Minimizing, Covered, Asserting, Entails, StampsOk, On, LevelOf;
      var p;
      out, p := FirstUip(confl);
      ghost var index :| Analyzing(S(), seen, out, 0, index);
      StartMinimizing(S(), seen, out, index);
      FinishUip(S(), seen, out, index, p);
      out := out[0 := p.Neg()];
      analyzeToclear := out;
      ghost var s1 := S();
      out := Minimize(out, p);
      SameTrans(old(ca), s1.ca, ca);
      SamePivot(s1, S(), p);
      MinimizedAsserting(formula, S(), seen, out, p);
      MinimizingSeen(S(), seen, out);
      SeenSize(S(), seen);
      AssertingVars(S(), out);
      if |out| <= lbSizeMinimizingClause {
        out := MinimisationWithBinaryResolution(out);
      }
      out, btlevel := SelectBacktrack(out);
      ClearSeen();
    }

    /** What `Search` keeps from one round to the next. */
    ghost predicate Searching()
      reads this
    {
      && Ready() && Decided(S()) && Sound(formula, S()) && Complete(formula, S())
      && HeapOk(assigns, decision, orderHeap, nVars)
      && |polarity| == nVars
      && |seen| == nVars && (forall v :: 0 <= v < nVars ==> !seen[v])
      && StampsOk(permDiff, myFlag, nVars)
    }

    /** Undoes all assignments above `level`. */
    method CancelUntil(level: nat)
      requires Inv(S()) && HeapOk(assigns, decision, orderHeap, nVars) && |polarity| == nVars
      modifies `assigns, `trail, `trailLim, `qhead, `orderHeap, `polarity
      ensures level < |old(trailLim)| ==> S() == Cancelled(old(S()), level) && qhead == |trail|
      ensures level >= |old(trailLim)| ==> S() == old(S()) && qhead == old(qhead) && polarity == old(polarity)
      ensures HeapOk(assigns, decision, orderHeap, nVars) && |polarity| == nVars
      ensures level < |old(trailLim)| ==> forall v :: 0 <= v < nVars ==>
                polarity[v] == if old(assigns[v]) != Undef && pos[v] >= old(SavedFrom(trailLim[level])) then old(trail[pos[v]].neg)
                               else old(polarity[v])
    {
      hide Inv, HeapOk;
      if |trailLim| > level {
        ghost var s := S();
        TrailFacts(s);
        Unassign(trailLim[level]);
        qhead := trailLim[level];
        trail := trail[..trailLim[level]];
        trailLim := trailLim[..level];
        assert assigns == Cancelled(s, level).assigns;
      }
    }

    /** Where on the trail the phases begin that a backjump to `start` saves. */
    ghost function SavedFrom(start: nat): nat
      requires trailLim != []
      reads this
    {
      if phaseSaving > 1 then start
      else if phaseSaving == 0 then |trail|
      else if trailLim[|trailLim| - 1] < start then start
      else trailLim[|trailLim| - 1] + 1
    }

    /** Unassigns the trail literals from position `start` on, last first, and saves their phases. */
    method Unassign(start: nat)
      requires trailLim != [] && start <= |trail| && HeapOk(assigns, decision, orderHeap, nVars) && |polarity| == |pos| == |assigns| == nVars
      requires forall i :: 0 <= i < |trail| ==> trail[i].v < |assigns| == nVars && pos[trail[i].v] == i && assigns[trail[i].v] != Undef
      requires forall v :: 0 <= v < nVars && assigns[v] != Undef ==> pos[v] < |trail| && trail[pos[v]].v == v
      modifies `assigns, `orderHeap, `polarity
      ensures |assigns| == |old(assigns)| && HeapOk(assigns, decision, orderHeap, nVars) && |polarity| == nVars
      ensures forall v :: 0 <= v < nVars ==>
                polarity[v] == if old(assigns[v]) != Undef && pos[v] >= SavedFrom(start) then trail[pos[v]].neg else old(polarity[v])
      ensures forall v :: 0 <= v < nVars ==>
                assigns[v] == if old(assigns[v]) != Undef && pos[v] >= start then Undef else old(assigns[v])
    {
      hide HeapOk;
      ghost var from := SavedFrom(start);
      var c := |trail| - 1;
      while c >= start
        invariant start - 1 <= c < |trail| && |polarity| == nVars && |assigns| == |old(assigns)|
        invariant HeapOk(assigns, decision, orderHeap, nVars)
        invariant forall v :: 0 <= v < nVars ==>
                    assigns[v] == if old(assigns[v]) != Undef && pos[v] > c then Undef else old(assigns[v])
        invariant forall v :: 0 <= v < nVars ==>
                    polarity[v] == if old(assigns[v]) != Undef && pos[v] > c && pos[v] >= from then trail[pos[v]].neg
                                   else old(polarity[v])
        decreases c
      {
        var x := trail[c].v;
        HeapRelease(assigns, decision, orderHeap, nVars, x);
        assigns := assigns[x := Undef];
        if phaseSaving > 1 || (phaseSaving == 1 && c > trailLim[|trailLim| - 1]) {
          polarity := polarity[x := trail[c].neg];
        }
        if decision[x] {
          orderHeap := orderHeap + {x};
        }
        c := c - 1;
      }
    }

    /** Puts the last stored clause on the watch lists of its first two literals. */
    method AttachClause(cr: nat)
      requires cr + 1 == |ca| && ClauseShape(nVars, ca[cr])
      requires LongShape(nVars, ca[..cr], watches) && BinShape(nVars, ca[..cr], watchesBin)
      modifies `watches, `watchesBin
      ensures LongShape(nVars, ca, watches) && BinShape(nVars, ca, watchesBin)
    {
      hide LongShape, BinShape;
      var c := ca[cr];
      assert ca == ca[..cr] + [c];
      if |c| == 2 {
        AttachBinShape(nVars, ca[..cr], c, watchesBin);
        OtherLongShape(nVars, ca[..cr], c, watches);
        watchesBin := watchesBin[c[0].Neg() := watchesBin[c[0].Neg()] + [Watcher(cr, c[1])]];
        watchesBin := watchesBin[c[1].Neg() := watchesBin[c[1].Neg()] + [Watcher(cr, c[0])]];
      } else {
        AttachLongShape(nVars, ca[..cr], c, watches);
        OtherBinShape(nVars, ca[..cr], c, watchesBin);
        watches := watches[c[0].Neg() := watches[c[0].Neg()] + [Watcher(cr, c[1])]];
        watches := watches[c[1].Neg() := watches[c[1].Neg()] + [Watcher(cr, c[0])]];
      }
    }

    /** Adds the learnt clause after the backjump and enqueues its first literal. */
    method LearnClause(out: Clause)
      requires Ready() && qhead == |trail| && Sound(formula, S()) && Complete(formula, S()) && Entails(formula, out)
      requires |out| >= 2 && DistinctVars(out, 0) && forall k :: 0 <= k < |out| ==> out[k].v < nVars
      requires |assigns| == nVars && ValueOf(assigns, out[0]) == Undef
      requires forall k :: 1 <= k < |out| ==> On(S(), out[k].Neg())
      requires LevelOf(S(), out[1]) == |trailLim|
      modifies `ca, `learnts, `watches, `watchesBin, `assigns, `vardata, `trail, `pos
      ensures Ready() && Decided(S()) && Sound(formula, S()) && Complete(formula, S())
      ensures trail == old(trail) + [out[0]] && trailLim == old(trailLim) && assigns == old(assigns)[out[0].v := Lifted(out[0])]
    {
      hide Inv, LongShape, BinShape, WatchSem, Sound, Complete, CanEnqueue, Decided, Entails, DistinctVars, On, ClauseShape;
      ghost var t := S();
      LearntShape(t, out);
      LearntCanEnqueue(t, out);
      LearntSem(t, out);
      AddMeaning(formula, t, out);
      EnqueueMeaning(formula, AddClauseTo(t, out), out[0], |t.ca|);
      var cr := |ca|;
      ca := ca + [out];
      learnts := learnts + [cr];
      assert ca[..cr] == t.ca;
      AttachClause(cr);
      assert S() == AddClauseTo(t, out);
      SameLevelStart(AddClauseTo(t, out), t);
      UncheckedEnqueue(out[0], cr);
    }

    /** Backjumps to level `bt`, after which the learnt clause is unit. */
    method Backjump(out: Clause, bt: nat)
      requires Settled() && Complete(formula, S()) && Asserting(S(), out) && bt < |trailLim|
      requires |out| == 1 ==> bt == 0
      requires |out| > 1 ==> bt == LevelOf(S(), out[1]) && forall k :: 1 <= k < |out| ==> LevelOf(S(), out[k]) <= bt
      requires HeapOk(assigns, decision, orderHeap, nVars) && |polarity| == nVars
      modifies `assigns, `trail, `trailLim, `qhead, `orderHeap, `polarity
      ensures Ready() && qhead == |trail| && Sound(formula, S()) && Complete(formula, S())
      ensures HeapOk(assigns, decision, orderHeap, nVars) && |polarity| == nVars
      ensures |out| >= 1 && DistinctVars(out, 0) && |trailLim| == bt
      ensures forall k :: 0 <= k < |out| ==> out[k].v < nVars
      ensures |assigns| == nVars && ValueOf(assigns, out[0]) == Undef
      ensures forall k :: 1 <= k < |out| ==> On(S(), out[k].Neg())
      ensures |out| > 1 ==> LevelOf(S(), out[1]) == |trailLim|
      ensures old(trailLim)[bt] <= |old(trail)| && trail == old(trail)[..old(trailLim)[bt]] && trailLim == old(trailLim)[..bt]
    {
      hide Inv, LongShape, BinShape, WatchSem, Sound, Complete, Asserting, HeapOk, LevelOf, On, DistinctVars;
      ghost var s := S();
      UnitWhenCancelled(s, out, bt);
      CancelKeeps(s, bt);
      CancelMeaning(formula, s, bt);
      BackjumpSem(s, bt, CurrentLevelStart(s));
      BackjumpStart(s, bt);
      CancelUntil(bt);
    }

    /** Enqueues the learnt unit at level 0. */
    method LearnUnit(p: Lit)
      requires Ready() && qhead == |trail| && |trailLim| == 0 && Sound(formula, S()) && Complete(formula, S()) && Entails(formula, [p])
      requires p.v < nVars && |assigns| == nVars && ValueOf(assigns, p) == Undef
      modifies `assigns, `vardata, `trail, `pos
      ensures Ready() && Decided(S()) && Sound(formula, S()) && Complete(formula, S())
      ensures trail == old(trail) + [p] && assigns == old(assigns)[p.v := Lifted(p)]
    {
      hide Inv, LongShape, BinShape, WatchSem, Sound, Complete, CanEnqueue, Entails;
      ghost var t := S();
      RootCanEnqueue(t, p);
      EnqueueMeaning(formula, t, p, CREF_UNDEF);
      RootSem(t, p);
      UncheckedEnqueue(p, CREF_UNDEF);
    }

    /** The conflict branch of `search`: analysis, backjump and assertion of the learnt clause. */
    method ResolveConflict(confl: int)
      requires Settled() && Complete(formula, S()) && Conflict(S(), confl) && |trailLim| > 0 && Bookkeeping()
      modifies this
      ensures Searching() && formula == old(formula) && decision == old(decision) && nVars == old(nVars)
      ensures Rank(old(S()), nVars) < Rank(S(), nVars)
    {
      hide Inv, LongShape, BinShape, WatchSem, Sound, Complete, Decided, Entails, SameClauses, Asserting, Conflict, Rank, HeapOk, StampsOk, LevelOf, On, DistinctVars;
      ghost var s0 := S();
      var out, bt := Analyze(confl);
      ghost var s := S();
      SameComplete(formula, s0, s);
      SameRank(s0, s, nVars);
      Backjump(out, bt);
      ghost var a := assigns;
      if |out| == 1 {
        assert out == [out[0]];
        LearnUnit(out[0]);
      } else {
        LearnClause(out);
      }
      HeapAssign(a, assigns, decision, orderHeap, nVars, out[0]);
      BackjumpRank(s, bt, S(), out[0]);
    }

    ghost predicate Bookkeeping()
      reads this
    {
      && HeapOk(assigns, decision, orderHeap, nVars)
      && |polarity| == nVars
      && |seen| == nVars && (forall v :: 0 <= v < nVars ==> !seen[v])
      && StampsOk(permDiff, myFlag, nVars)
    }

    /** The next decision: an unassigned decision variable, with its saved phase. Which candidate the
        heap yields is left open, as is whether a random one is tried first. */
    method PickBranchLit() returns (found: bool, next: Lit)
      requires HeapOk(assigns, decision, orderHeap, nVars) && |polarity| == nVars
      modifies `orderHeap
      ensures found ==> next.v < nVars && assigns[next.v] == Undef && decision[next.v]
                        && HeapOk(assigns[next.v := Lifted(next)], decision, orderHeap, nVars)
      ensures !found ==> forall v :: 0 <= v < nVars && decision[v] ==> assigns[v] != Undef
    {
      next := MkLit(0);
      if * {
        if orderHeap != {} {
          var v :| v in orderHeap;
          if assigns[v] == Undef && decision[v] {
            return true, MkLit(v, polarity[v]);
          }
        }
      }
      while orderHeap != {}
        invariant HeapOk(assigns, decision, orderHeap, nVars)
        decreases |orderHeap|
      {
        var v :| v in orderHeap;
        orderHeap := orderHeap - {v};
        if assigns[v] == Undef && decision[v] {
          return true, MkLit(v, polarity[v]);
        }
      }
      found := false;
    }

    /** Opens a decision level with `next`. */
    method Decide(next: Lit)
      requires Ready() && qhead == |trail| && Decided(S()) && Sound(formula, S()) && Complete(formula, S())
      requires next.v < nVars && |assigns| == nVars && assigns[next.v] == Undef
      modifies `assigns, `vardata, `trail, `trailLim, `pos
      ensures Ready() && Decided(S()) && Sound(formula, S()) && Complete(formula, S())
      ensures S() == Enqueue(NewLevel(old(S())), next, CREF_UNDEF)
      ensures Rank(old(S()), nVars) < Rank(S(), nVars)
    {
      hide Inv, LongShape, BinShape, WatchSem, Sound, Complete, CanEnqueue, Rank;
      ghost var s := S();
      NewLevelKeeps(s);
      NewLevelMeaning(formula, s);
      NewLevelSem(s);
      DecisionCanEnqueue(NewLevel(s), next);
      EnqueueMeaning(formula, NewLevel(s), next, CREF_UNDEF);
      EnqueueSem(NewLevel(s), next, CREF_UNDEF, |trail|);
      trailLim := trailLim + [|trail|];
      assert S() == NewLevel(s);
      UncheckedEnqueue(next, CREF_UNDEF);
      DecisionRank(s, S());
    }

    /** What an answer of the search means. */
    ghost predicate Answer(result: LBool)
      reads this
    {
      && (result == False ==> !Satisfiable(formula))
      && (result == True ==>
            && |assigns| == |decision| == nVars
            && (forall v :: 0 <= v < nVars && decision[v] ==> assigns[v] != Undef)
            && ((forall v :: 0 <= v < nVars ==> decision[v]) ==> Models(TrailModel(assigns), formula)))
      && (result == Undef ==> Searching() && |trailLim| == 0)
    }

    /** After a propagation without conflict: restart, answer or decide. */
    method DecideOrAnswer() returns (done: bool, result: LBool)
      requires Searching() && qhead == |trail| && forall cr :: 0 <= cr < |ca| ==> NotUnitNorFalse(S(), ca[cr])
      modifies this
      ensures formula == old(formula) && decision == old(decision) && nVars == old(nVars)
      ensures if done then Answer(result) else Searching() && Rank(old(S()), nVars) < Rank(S(), nVars)
    {
      hide Inv, LongShape, BinShape, WatchSem, Sound, Complete, Conflict, Rank, HeapOk, StampsOk, Satisfiable, Models, NotUnitNorFalse, TrailModel, CurrentLevelStart, Extends;
      AssignsSize(S());
      HeapSizes(assigns, decision, orderHeap, nVars);
      if * {
        RestartKeeps(formula, S());
        CancelUntil(0);
        return true, Undef;
      }
      var found, next := PickBranchLit();
      if !found {
        TrueResult(formula, S(), decision);
        return true, True;
      }
      Decide(next);
      return false, Undef;
    }

    /** One round of the search: propagate, then resolve the conflict or decide. */
    method Round() returns (done: bool, result: LBool)
      requires Searching()
      modifies this
      ensures formula == old(formula) && decision == old(decision) && nVars == old(nVars)
      ensures if done then Answer(result) else Searching() && Rank(old(S()), nVars) < Rank(S(), nVars)
    {
      hide Inv, LongShape, BinShape, WatchSem, Sound, Complete, Conflict, Rank, HeapOk, StampsOk, Satisfiable, Models, NotUnitNorFalse, TrailModel, CurrentLevelStart, Extends;
      ghost var s := S();
      var confl := Propagate();
      PropagateKeeps(formula, s, S(), decision, orderHeap);
      if confl != CREF_UNDEF {
        if |trailLim| == 0 {
          ConflictAtRoot(formula, S(), confl);
          return true, False;
        }
        ResolveConflict(confl);
        return false, Undef;
      }
      done, result := DecideOrAnswer();
    }

    /** Searches for a model. `Undef` is a restart; otherwise the answer is final. */
    method Search() returns (result: LBool)
      requires Searching()
      modifies this
      ensures formula == old(formula) && decision == old(decision) && nVars == old(nVars)
      ensures Answer(result)
    {
      hide Inv, LongShape, BinShape, WatchSem, Sound, Complete, Rank, HeapOk, StampsOk, Answer, Pow3, Decided;
      while true
        invariant Searching() && formula == old(formula) && decision == old(decision) && nVars == old(nVars)
        decreases Pow3(nVars) - Rank(S(), nVars)
      {
        RankBound(S(), nVars);
        var done;
        done, result := Round();
        if done { return; }
        RankBound(S(), nVars);
      }
    }

    /** A solver without variables and clauses. */
    constructor (ccminMode: int, lbSizeMinimizingClause: nat, lbLBDMinimizingClause: nat, phaseSaving: nat)
      ensures Searching() && formula == [] && S() == State(0, [], [], [], [], [], [])
    {
      this.ccminMode := ccminMode;
      this.lbSizeMinimizingClause := lbSizeMinimizingClause;
      this.lbLBDMinimizingClause := lbLBDMinimizingClause;
      this.phaseSaving := phaseSaving;
      nVars, ca, assigns, vardata, trail, trailLim, qhead := 0, [], [], [], [], [], 0;
      watches, watchesBin := map[], map[];
      seen, analyzeStack, analyzeToclear, permDiff, myFlag := [], [], [], [], 0;
      decision, polarity, orderHeap, learnts := [], [], {}, [];
      pos, formula := [], [];
    }

    /** Creates a variable, which may be decided if `dvar`; `sign` is its initial phase. */
    method NewVar(sign: bool, dvar: bool) returns (v: nat)
      requires Searching()
      modifies this
      ensures Searching() && formula == old(formula) && trailLim == old(trailLim)
      ensures v == old(nVars) && nVars == v + 1 && |decision| == nVars && decision == old(decision) + [dvar]
      ensures S() == WithVar(old(S()))
    {
      hide Inv, LongShape, BinShape, WatchSem, CurrentLevelStart, Sound, Complete, HeapOk, StampsOk, Decided;
      v := nVars;
      NewVarKeeps(assigns, decision, orderHeap, permDiff, myFlag, nVars, dvar);
      GrowTables();
      GrowVariable(v, sign, dvar);
    }

    /** Appends the new variable to the tables of the search. */
    method GrowVariable(v: nat, sign: bool, dvar: bool)
      requires Ready() && Decided(S()) && Sound(formula, S()) && Complete(formula, S())
      requires nVars == v + 1 && |polarity| == |seen| == |decision| == v && forall x :: 0 <= x < v ==> !seen[x]
      requires HeapOk(assigns, decision + [dvar], if dvar then orderHeap + {v} else orderHeap, nVars)
      requires StampsOk(permDiff + [0], myFlag, nVars)
      modifies `seen, `permDiff, `polarity, `decision, `orderHeap
      ensures Searching() && decision == old(decision) + [dvar]
    {
      hide Inv, LongShape, BinShape, WatchSem, CurrentLevelStart, Sound, Complete, HeapOk, StampsOk, Decided;
      seen := seen + [false];
      permDiff := permDiff + [0];
      polarity := polarity + [sign];
      decision := decision + [dvar];
      if dvar {
        orderHeap := orderHeap + {v};
      }
    }

    /** Makes room for a variable in the watch tables and the assignment. */
    method GrowTables()
      requires Ready() && Decided(S()) && Sound(formula, S()) && Complete(formula, S())
      modifies `nVars, `watches, `watchesBin, `assigns, `vardata, `pos
      ensures Ready() && Decided(S()) && Sound(formula, S()) && Complete(formula, S())
      ensures nVars == old(nVars) + 1 && assigns == old(assigns) + [Undef] && S() == WithVar(old(S()))
    {
      hide Inv, LongShape, BinShape, WatchSem, Sound, Complete, CurrentLevelStart, Decided;
      ghost var s := S();
      WithVarInv(s);
      WithVarSem(s, qhead);
      WithVarMeaning(formula, s);
      ShapeClauses(s);
      TableWithVarShape(nVars, ca, watches, watchesBin);
      SameLevelStart(s, WithVar(s));
      watches := watches[MkLit(nVars, false) := []][MkLit(nVars, true) := []];
      watchesBin := watchesBin[MkLit(nVars, false) := []][MkLit(nVars, true) := []];
      nVars := nVars + 1;
      assigns := assigns + [Undef];
      vardata := vardata + [VarData(CREF_UNDEF, 0)];
      pos := pos + [0];
      assert S() == WithVar(s);
    }

    /** Adds a clause at level 0; `ok` is false if the formula has become unsatisfiable. */
    method AddClause(ps: Clause) returns (ok: bool)
      requires Searching() && |trailLim| == 0 && forall k :: 0 <= k < |ps| ==> ps[k].v < nVars
      modifies this
      ensures formula == old(formula) + [ps] && nVars == old(nVars) && decision == old(decision)
      ensures ok ==> Searching() && |trailLim| == 0
      ensures !ok ==> !Satisfiable(formula)
      ensures Clean(old(assigns), ps) && |ps| >= 2 ==> ok && exists ks :: SameLits(ps, ks) && S() == AddClauseTo(old(S()), ks)
    {
      hide Inv, LongShape, BinShape, WatchSem, Sound, Complete, CanEnqueue, Cleaned, Obsolete, Clean, HeapOk, StampsOk, Conflict, Satisfiable, CurrentLevelStart, ClauseShape, Extends;
      ghost var s, F := S(), formula;
      AssignsSize(s);
      var obsolete, ks := CleanClause(assigns, ps);
      if Clean(assigns, ps) {
        CleanStays(assigns, ps, ks);
      }
      formula := formula + [ps];
      if obsolete {
        SkipObsolete(F, s, ps);
        return true;
      }
      if |ks| == 0 {
        EmptyCleaned(F, s, ps);
        return false;
      } else if |ks| == 1 {
        assert ks == [ks[0]];
        ok := AddUnit(F, ps, ks[0]);
      } else {
        CleanedFacts(s, ps, ks);
        StoreCleaned(F, s, ps, ks);
        StoredInv(s, ks, qhead);
        SameLevelStart(s, AddClauseTo(s, ks));
        var cr := |ca|;
        ca := ca + [ks];
        assert ca[..cr] == s.ca;
        AttachClause(cr);
        assert S() == AddClauseTo(s, ks);
        ok := true;
      }
    }

    /** Adds the unit clause that is left of `ps` and propagates it. */
    method AddUnit(ghost F: seq<Clause>, ghost ps: Clause, p: Lit) returns (ok: bool)
      requires Ready() && Decided(S()) && Sound(F, S()) && Complete(F, S()) && Bookkeeping()
      requires |trailLim| == 0 && Cleaned(assigns, ps, [p]) && formula == F + [ps]
      modifies `ca, `assigns, `vardata, `trail, `pos, `watches, `qhead
      ensures ok ==> Searching()
      ensures !ok ==> !Satisfiable(formula)
    {
      hide Inv, LongShape, BinShape, WatchSem, Sound, Complete, CanEnqueue, Cleaned, HeapOk, StampsOk, Conflict, Satisfiable, ClauseShape, Extends, NotUnitNorFalse;
      ghost var s := S();
      StoreUnit(F, s, ps, p);
      EnqueueSem(s, p, CREF_UNDEF, qhead);
      UnitFacts(s, ps, p);
      HeapAssign(assigns, assigns[p.v := Lifted(p)], decision, orderHeap, nVars, p);
      UncheckedEnqueue(p, CREF_UNDEF);
      ghost var t := S();
      var confl := Propagate();
      PropagateKeeps(formula, t, S(), decision, orderHeap);
      SameLevel(t, S());
      if confl != CREF_UNDEF {
        ConflictAtRoot(formula, S(), confl);
        return false;
      }
      ok := true;
    }

    ghost predicate ValidBlocker(p: Lit, i: nat)
      requires p in watches && i < |watches[p]|
      reads this
    {
      !On(S(), watches[p][i].blocker)
    }

    /** `*j++ = w`, the cursor `i` having been advanced. */
    method KeepWatch(p: Lit, ghost qh: nat, i: nat, j: nat, w: Watcher) returns (j': nat)
      requires Visiting(p, qh, i, j) && i < |watches[p]|
      requires w.cref == watches[p][i].cref && w.cref < |ca| && w.blocker in ca[w.cref]
      modifies `watches
      ensures watches == old(watches)[p := old(watches)[p][j := w]] && j' == j + 1
      ensures Visiting(p, qh, i + 1, j')
    {
      hide Inv, AtHead, LongShape, BinShape, WatchSem, PropSem, Live;
      LiveRenew(watches, p, i, j, w);
      BlockerShape(nVars, ca, Live(watches, p, i, j), p, j, w.blocker);
      watches := watches[p := watches[p][j := w]];
      j' := j + 1;
    }
  }

  /** A run after which the queue is not empty: propagating the first decision makes the clauses `-1 2` and
      `-1 -2` clash while two literals have not been propagated. */
  method QueueNotEmpty() returns (s: Solver, confl: int)
    ensures fresh(s) && Conflict(s.S(), confl) && s.qhead < |s.trail|
  {
    hide Inv, LongShape, BinShape, WatchSem, Sound, Complete, HeapOk, StampsOk, CurrentLevelStart, SameLits, Satisfiable, Decided, Variables, NotUnitNorFalse, Conflict, Extends;
    s := ThreeVars();
    ghost var c0 := Store(s, Lit(1, false), []);
    assert [] + [c0] == [c0];
    ghost var c1 := Store(s, Lit(2, false), [c0]);
    assert [c0] + [c1] == [c0, c1];
    ghost var c2 := Store(s, Lit(1, true), [c0, c1]);
    assert [c0, c1] + [c2] == [c0, c1, c2];
    ghost var before := DecideFirst(s, [c0, c1, c2]);
    confl := s.Propagate();
    SizesKept(before, s.S());
    MustClash(before, s.S());
  }

  /** Adds the clause of `-1` and `q`. */
  method Store(s: Solver, q: Lit, ghost ca: seq<Clause>) returns (ghost c: Clause)
    requires s.Searching() && s.S() == Variables(3, ca) && 1 <= q.v < 3
    modifies s
    ensures s.Searching() && s.S() == Variables(3, ca + [c]) && SameLits([Lit(0, true), q], c)
  {
    hide Inv, LongShape, BinShape, WatchSem, Sound, Complete, HeapOk, StampsOk, CurrentLevelStart, SameLits, Satisfiable, Decided;
    var ps := [Lit(0, true), q];
    assert Clean(s.assigns, ps);
    ghost var t := s.S();
    var ok := s.AddClause(ps);
    c :| SameLits(ps, c) && s.S() == AddClauseTo(t, c);
  }

  method DecideFirst(s: Solver, ghost ca: seq<Clause>) returns (ghost before: State)
    requires s.Searching() && s.S() == Variables(3, ca)
    modifies s
    ensures s.Ready() && before == s.S() && before.ca == ca && before.n == 3 && before.trail == [Lit(0, false)]
  {
    hide Inv, LongShape, BinShape, WatchSem, Sound, Complete, HeapOk, StampsOk, Satisfiable, Decided;
    s.Decide(Lit(0, false));
    before := s.S();
  }

  method ThreeVars() returns (s: Solver)
    ensures fresh(s) && s.Searching() && s.S() == Variables(3, [])
  {
    hide Inv, LongShape, BinShape, WatchSem, Sound, Complete, HeapOk, StampsOk, CurrentLevelStart, Satisfiable, Decided;
    s := new Solver(2, 30, 6, 2);
    for i := 0 to 3
      invariant fresh(s) && s.Searching() && s.S() == Variables(i, [])
    {
      var _ := s.NewVar(true, true);
    }
  }

  /** A solver state with `n` unassigned variables. */
  ghost function Variables(n: nat, ca: seq<Clause>): State {
    State(n, ca, seq(n, _ => Undef), seq(n, _ => VarData(CREF_UNDEF, 0)), [], [], seq(n, _ => 0))
  }

  lemma MustClash(s: State, t: State)
    requires Extends(s, t) && s.trail == [Lit(0, false)] && |s.ca| == 3 && s.n == 3 && Inv(t)
    requires SameLits([Lit(0, true), Lit(1, false)], s.ca[0]) && SameLits([Lit(0, true), Lit(1, true)], s.ca[2]) && SameLits([Lit(0, true), Lit(2, false)], s.ca[1])
    ensures forall confl :: Conflict(t, confl) ==> 0 <= confl < |t.ca| && |t.ca[confl]| == 2
    ensures !(NotUnitNorFalse(t, t.ca[0]) && NotUnitNorFalse(t, t.ca[2]))
    ensures t.trail[0] == Lit(0, false)
  {
    assert t.trail[0] == s.trail[0] && On(t, Lit(0, false));
    assert !On(t, Lit(0, true)) && Lit(0, true).Neg() == Lit(0, false);
    SameLitsTrans([Lit(0, true), Lit(1, false)], s.ca[0], t.ca[0]);
    SameLitsTrans([Lit(0, true), Lit(1, true)], s.ca[2], t.ca[2]);
    ForcedBy(t, t.ca[0], Lit(1, false));
    ForcedBy(t, t.ca[2], Lit(1, true));
  }

  lemma ForcedBy(t: State, c: Clause, q: Lit)
    requires SameLits([Lit(0, true), q], c) && On(t, Lit(0, false)) && !On(t, Lit(0, true))
    ensures NotUnitNorFalse(t, c) ==> On(t, q)
  {
    var d := [Lit(0, true), q];
    assert d[0] in c && d[1] in c;
    assert Lit(0, true).Neg() == Lit(0, false);
    forall m | 0 <= m < |c| ensures c[m] == d[0] || c[m] == q {
      assert c[m] in d;
    }
  }
}
