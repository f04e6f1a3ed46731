/** Minimisation of the learnt clause: the depth-first search of `litRedundant` and the final
    resolution with binary clauses. */
module SolverMinimize {
  import opened Logic
  import opened FiniteSets
  import opened SolverState
  import opened SolverWatches
  import opened SolverAnalyze

  /** The level filter `1 << (level & 31)` of `litRedundant`. */
  function AbstractLevel(level: nat): bv32 {
    (1 as bv32) << (level % 32)
  }

  // ---------------------------------------------------------------- litRedundant

  /** `toclear[top..]` lists the variables marked since `seen0`. */
  ghost predicate Logged(seen0: seq<bool>, seen: seq<bool>, toclear: seq<Lit>, top: nat) {
    && StillMarked(seen0, seen) && top <= |toclear|
    && (forall k :: top <= k < |toclear| ==> toclear[k].v < |seen| && !seen0[toclear[k].v])
    && (forall v :: 0 <= v < |seen| && seen[v] && !seen0[v] ==> HasVar(toclear, top, |toclear|, v))
  }

  ghost predicate StackOk(s: State, stack: seq<Lit>) {
    forall k :: 0 <= k < |stack| ==>
      On(s, stack[k].Neg()) && stack[k].v < |s.vardata| && Reason(s, stack[k].v) != CREF_UNDEF
  }

  /** Every variable marked since `seen0`, and the root of the search, waits on the stack, is the
      one being expanded (`u`), or is closed. */
  ghost predicate Pending(s: State, seen0: seq<bool>, seen: seq<bool>, stack: seq<Lit>, root: nat, u: int) {
    && |seen0| == |seen| == |s.vardata|
    && forall v :: 0 <= v < |seen| && ((seen[v] && !seen0[v]) || v == root) && v != u ==>
         HasVar(stack, 0, |stack|, v) || Closed(s, seen, v)
  }

  lemma SearchPop(s: State, seen0: seq<bool>, seen: seq<bool>, stack: seq<Lit>, root: nat)
    requires |stack| > 0 && Pending(s, seen0, seen, stack, root, -1) && StackOk(s, stack)
    ensures Pending(s, seen0, seen, stack[..|stack| - 1], root, stack[|stack| - 1].v)
    ensures StackOk(s, stack[..|stack| - 1])
  {
    var rest := stack[..|stack| - 1];
    forall v | 0 <= v < |seen| && ((seen[v] && !seen0[v]) || v == root) && v != stack[|stack| - 1].v
      ensures HasVar(rest, 0, |rest|, v) || Closed(s, seen, v)
    {
      if HasVar(stack, 0, |stack|, v) {
        var k :| 0 <= k < |stack| && stack[k].v == v;
        assert rest[k].v == v;
      }
    }
  }

  lemma SearchPush(s: State, seen0: seq<bool>, seen: seq<bool>, stack: seq<Lit>, root: nat, u: nat, q: Lit)
    requires Pending(s, seen0, seen, stack, root, u) && StackOk(s, stack)
    requires q.v < |seen| && !seen[q.v] && On(s, q.Neg()) && Reason(s, q.v) != CREF_UNDEF
    ensures Pending(s, seen0, seen[q.v := true], stack + [q], root, u) && StackOk(s, stack + [q])
  {
    var seen', stack' := seen[q.v := true], stack + [q];
    forall v | 0 <= v < |seen'| && ((seen'[v] && !seen0[v]) || v == root) && v != u
      ensures HasVar(stack', 0, |stack'|, v) || Closed(s, seen', v)
    {
      if v == q.v {
        assert stack'[|stack|].v == v;
      } else if HasVar(stack, 0, |stack|, v) {
        var k :| 0 <= k < |stack| && stack[k].v == v;
        assert stack'[k].v == v;
      } else {
        ClosedMono(s, seen, seen', v);
      }
    }
  }

  lemma LoggedPush(seen0: seq<bool>, seen: seq<bool>, toclear: seq<Lit>, top: nat, q: Lit)
    requires Logged(seen0, seen, toclear, top) && q.v < |seen| && !seen[q.v]
    ensures Logged(seen0, seen[q.v := true], toclear + [q], top)
  {
    var seen', toclear' := seen[q.v := true], toclear + [q];
    forall v | 0 <= v < |seen'| && seen'[v] && !seen0[v] ensures HasVar(toclear', top, |toclear'|, v) {
      if v == q.v {
        assert toclear'[|toclear|].v == v;
      } else {
        assert HasVar(toclear, top, |toclear|, v);
        var k :| top <= k < |toclear| && toclear[k].v == v;
        assert toclear'[k].v == v;
      }
    }
  }

  lemma SearchClose(s: State, seen0: seq<bool>, seen: seq<bool>, stack: seq<Lit>, root: nat, p: Lit, c: Clause)
    requires Pending(s, seen0, seen, stack, root, p.v) && p.v < |s.vardata|
    requires 0 <= Reason(s, p.v) < |s.ca| && c == s.ca[Reason(s, p.v)] && |c| > 0 && c[0].v == p.v
    requires forall k :: 1 <= k < |c| ==> Marks(s, seen, c[k])
    ensures Pending(s, seen0, seen, stack, root, -1)
  {
    assert Closed(s, seen, p.v);
  }

  lemma SearchSame(s: State, s': State, seen0: seq<bool>, seen: seq<bool>, stack: seq<Lit>, root: nat, u: int)
    requires Pending(s, seen0, seen, stack, root, u) && StackOk(s, stack) && s' == s.(ca := s'.ca) && SameClauses(s.ca, s'.ca)
    ensures Pending(s', seen0, seen, stack, root, u) && StackOk(s', stack)
  {
    forall v | 0 <= v < |seen| && Closed(s, seen, v) ensures Closed(s', seen, v) {
      ClosedSame(s, s', seen, v);
    }
  }

  // ---------------------------------------------------------------- the clause being minimised

  /** `rest` are the literals kept so far and those still to be examined: every mark is one of them
      or closed. */
  ghost predicate Minimizing(s: State, seen: seq<bool>, rest: Clause) {
    && SeenOk(s, seen)
    && (forall k :: 1 <= k < |rest| ==> LearntLit(s, seen, rest[k]))
    && DistinctVars(rest, 1)
    && (forall v :: 0 <= v < s.n && seen[v] ==> HasVar(rest, 1, |rest|, v) || Closed(s, seen, v))
  }

  ghost function Without(c: Clause, j: nat): Clause
    requires j < |c|
  {
    c[..j] + c[j + 1..]
  }

  lemma StartMinimizing(s: State, seen: seq<bool>, out: Clause, index: int)
    requires Inv(s) && Analyzing(s, seen, out, 0, index)
    ensures Minimizing(s, seen, out)
  {
    forall v | 0 <= v < s.n && seen[v] ensures HasVar(out, 1, |out|, v) {
      assert v !in Open(s, seen);
      assert s.trail[s.pos[v]].v == v;
      LevelBound(s, s.trail[s.pos[v]]);
    }
  }

  /** New marks that are closed do not disturb the clause. */
  lemma MinimizingGrow(s: State, seen0: seq<bool>, seen: seq<bool>, rest: Clause)
    requires Minimizing(s, seen0, rest) && StillMarked(seen0, seen) && SeenOk(s, seen)
    requires forall v :: 0 <= v < s.n && seen[v] && !seen0[v] ==> Closed(s, seen, v)
    ensures Minimizing(s, seen, rest)
  {
    forall k | 1 <= k < |rest| ensures LearntLit(s, seen, rest[k]) {
      assert LearntLit(s, seen0, rest[k]);
    }
    forall v | 0 <= v < s.n && seen[v] ensures HasVar(rest, 1, |rest|, v) || Closed(s, seen, v) {
      if seen0[v] && !HasVar(rest, 1, |rest|, v) {
        ClosedMono(s, seen0, seen, v);
      }
    }
  }

  /** A closed literal may be dropped. */
  lemma MinimizingDrop(s: State, seen: seq<bool>, rest: Clause, j: nat)
    requires Minimizing(s, seen, rest) && 1 <= j < |rest| && rest[j].v < |s.vardata| && Closed(s, seen, rest[j].v)
    ensures Minimizing(s, seen, Without(rest, j))
  {
    var d := Without(rest, j);
    assert forall k :: 0 <= k < |d| ==> d[k] == rest[if k < j then k else k + 1];
    forall k | 1 <= k < |d| ensures LearntLit(s, seen, d[k]) {
      assert LearntLit(s, seen, rest[if k < j then k else k + 1]);
    }
    forall v | 0 <= v < s.n && seen[v] ensures HasVar(d, 1, |d|, v) || Closed(s, seen, v) {
      if HasVar(rest, 1, |rest|, v) && v != rest[j].v {
        var k :| 1 <= k < |rest| && rest[k].v == v;
        assert d[if k < j then k else k - 1].v == v;
      }
    }
  }

  lemma MinimizingSame(s: State, s': State, seen: seq<bool>, rest: Clause)
    requires Minimizing(s, seen, rest) && s' == s.(ca := s'.ca) && SameClauses(s.ca, s'.ca)
    ensures Minimizing(s', seen, rest)
  {
    forall k | 1 <= k < |rest| ensures LearntLit(s', seen, rest[k]) {
      assert LearntLit(s, seen, rest[k]);
    }
    forall v | 0 <= v < s.n && seen[v] ensures HasVar(rest, 1, |rest|, v) || Closed(s', seen, v) {
      if Closed(s, seen, v) {
        ClosedSame(s, s', seen, v);
      }
    }
  }

  lemma DerivedMono(F: seq<Clause>, s: State, s': State, seen0: seq<bool>, seen: seq<bool>, p: Lit)
    requires Derived(F, s, seen0, p) && StillMarked(seen0, seen) && s' == s.(ca := s'.ca)
    ensures Derived(F, s', seen, p)
  {
    forall A: Assignment | Models(A, F) ensures Violates(s', seen, A) || !Holds(A, p) {
      if Violates(s, seen0, A) {
        ViolatesMono(s, seen0, seen, A);
        assert Violates(s', seen, A);
      }
    }
  }

  /** The clause is false on the trail, with `p`'s complement as its only literal of the current level. */
  ghost predicate Asserting(s: State, out: Clause) {
    && |out| >= 1
    && (forall k :: 0 <= k < |out| ==> out[k].v < |s.vardata| && On(s, out[k].Neg()))
    && (forall k :: 1 <= k < |out| ==> 0 < Level(s, out[k].v) < |s.trailLim|)
    && Level(s, out[0].v) == |s.trailLim|
    && DistinctVars(out, 0)
  }

  lemma MinimizedAsserting(F: seq<Clause>, s: State, seen: seq<bool>, out: Clause, p: Lit)
    requires Inv(s) && Sound(F, s) && Minimizing(s, seen, out) && Derived(F, s, seen, p)
    requires |out| >= 1 && out[0] == p.Neg() && On(s, p) && Level(s, p.v) == |s.trailLim| && |s.trailLim| > 0
    ensures Asserting(s, out) && Entails(F, out)
  {
    MinimizedEntailed(F, s, seen, out, p);
    forall k | 0 <= k < |out| ensures out[k].v < |s.vardata| && On(s, out[k].Neg()) {
      if k > 0 {
        assert LearntLit(s, seen, out[k]);
      }
    }
    forall j, k | 0 <= j < k < |out| ensures out[j].v != out[k].v {
      assert LearntLit(s, seen, out[k]);
    }
  }

  // ---------------------------------------------------------------- binary resolution

  /** Literal `out[k]` is marked for removal: resolving with the binary clause of `out[0]` and its
      complement removes it. */
  ghost predicate Removable(F: seq<Clause>, out0: Lit, q: Lit) {
    Entails(F, [out0, q.Neg()])
  }

  ghost function Demoted(out: Clause, perm: seq<nat>, flag: nat): (r: set<nat>)
    ensures forall k :: k in r <==> 1 <= k < |out| && (out[k].v < |perm| ==> perm[out[k].v] != flag)
  {
    set k | k in Below(|out|) && 1 <= k && (out[k].v < |perm| ==> perm[out[k].v] != flag)
  }

  lemma DemoteStep(out: Clause, perm: seq<nat>, flag: nat, k: nat, w: nat)
    requires DistinctVars(out, 0) && 1 <= k < |out| && out[k].v < |perm| && perm[out[k].v] == flag && w != flag
    ensures Demoted(out, perm[out[k].v := w], flag) == Demoted(out, perm, flag) + {k}
    ensures |Demoted(out, perm[out[k].v := w], flag)| == |Demoted(out, perm, flag)| + 1
  {
  }

  lemma DemotedSwap(out: Clause, perm: seq<nat>, flag: nat, i: nat, l: nat)
    requires 1 <= i <= l < |out| && i in Demoted(out, perm, flag)
    ensures |Demoted(SwapAt(out, i, l), perm, flag)| == |Demoted(out, perm, flag)|
    ensures l in Demoted(SwapAt(out, i, l), perm, flag)
  {
    var d := Demoted(out, perm, flag);
    var d' := Demoted(SwapAt(out, i, l), perm, flag);
    if l in d {
      assert d' == d;
    } else {
      assert d' == d - {i} + {l};
    }
  }

  /** Once the first `|out| - nb` literals are all kept ones, the `nb` demoted are exactly the rest. */
  lemma DemotedSuffix(out: Clause, perm: seq<nat>, flag: nat, nb: nat)
    requires nb < |out| && |Demoted(out, perm, flag)| == nb
    requires forall k :: 1 <= k < |out| - nb ==> k !in Demoted(out, perm, flag)
    ensures forall k :: |out| - nb <= k < |out| ==> k in Demoted(out, perm, flag)
  {
    var tail := Below(|out|) - Below(|out| - nb);
    assert Below(|out| - nb) <= Below(|out|);
    assert |tail| == nb;
    assert Demoted(out, perm, flag) <= tail;
    SubsetSize(Demoted(out, perm, flag), tail);
  }

  lemma DemotedFew(out: Clause, perm: seq<nat>, flag: nat)
    requires |out| >= 1
    ensures |Demoted(out, perm, flag)| < |out|
  {
    assert Demoted(out, perm, flag) <= Below(|out|) - {0};
    SubsetSize(Demoted(out, perm, flag), Below(|out|) - {0});
  }

  /** With the last `m` positions known to be demoted and another demoted one before them, `m` is
      below the number of demoted positions. */
  lemma DemotedRoom(out: Clause, perm: seq<nat>, flag: nat, i: nat, l: nat)
    requires 1 <= i <= l < |out| && i in Demoted(out, perm, flag)
    requires forall k :: l < k < |out| ==> k in Demoted(out, perm, flag)
    ensures |out| - 1 - l < |Demoted(out, perm, flag)|
  {
    var tail := Below(|out|) - Below(l + 1);
    assert Below(l + 1) <= Below(|out|);
    assert tail + {i} <= Demoted(out, perm, flag);
    SubsetSize(tail + {i}, Demoted(out, perm, flag));
  }

  /** Dropping removable literals keeps the clause entailed. */
  lemma RemovedEntailed(F: seq<Clause>, out: Clause, kept: Clause)
    requires Entails(F, out) && |kept| >= 1 && |out| >= 1 && kept[0] == out[0]
    requires forall k :: 0 <= k < |out| ==> out[k] in kept || Removable(F, out[0], out[k])
    ensures Entails(F, kept)
  {
    forall A: Assignment | Models(A, F) ensures Sat(A, kept) {
      var k :| 0 <= k < |out| && Holds(A, out[k]);
      if out[k] in kept {
        SatMember(A, kept, out[k]);
      } else {
        assert Sat(A, [out[0], out[k].Neg()]);
        assert Holds(A, kept[0]);
      }
    }
  }

  lemma AssertingSubset(s: State, out: Clause, kept: Clause)
    requires Asserting(s, out) && |kept| >= 1 && kept[0] == out[0] && DistinctVars(kept, 0)
    requires forall k :: 1 <= k < |kept| ==> kept[k] in out[1..]
    ensures Asserting(s, kept)
  {
    forall k | 1 <= k < |kept| ensures kept[k].v < |s.vardata| && On(s, kept[k].Neg()) && 0 < Level(s, kept[k].v) < |s.trailLim| {
      var j :| 0 <= j < |out[1..]| && out[1..][j] == kept[k];
      assert out[j + 1] == kept[k];
    }
  }

  /** The levels of the first `k` literals. */
  ghost function LevelSet(vardata: seq<VarData>, out: Clause, k: nat): set<nat>
    requires k <= |out| && forall i :: 0 <= i < |out| ==> out[i].v < |vardata|
  {
    if k == 0 then {} else LevelSet(vardata, out, k - 1) + {vardata[out[k - 1].v].level}
  }

  /** No stamp is ahead of the flag. */
  ghost predicate StampsOk(perm: seq<nat>, flag: nat, n: nat) {
    |perm| == n && forall v :: 0 <= v < n ==> perm[v] <= flag
  }

  ghost predicate AllRemovable(F: seq<Clause>, out: Clause, perm: seq<nat>, flag: nat) {
    forall k :: k in Demoted(out, perm, flag) ==> Removable(F, out[0], out[k])
  }

  lemma NoneRemovable(F: seq<Clause>, out: Clause, perm: seq<nat>, flag: nat)
    requires Demoted(out, perm, flag) == {}
    ensures AllRemovable(F, out, perm, flag)
  {
  }

  lemma BinKey(s: State, out: Clause, bw: WatchTable)
    requires Inv(s) && Asserting(s, out) && BinShape(s.n, s.ca, bw)
    ensures out[0].Neg() in bw && |out| >= 1
  {
    assert On(s, out[0].Neg());
  }

  /** A true blocker of a binary clause of `out[0]` whose variable is stamped is the complement of a
      literal of the clause, and removes it. */
  lemma BinRemovable(F: seq<Clause>, s: State, out: Clause, perm: seq<nat>, flag: nat, bw: WatchTable, k: nat)
    requires Inv(s) && Sound(F, s) && Asserting(s, out) && BinShape(s.n, s.ca, bw) && |perm| == s.n && flag > 0
    requires out[0].Neg() in bw && k < |bw[out[0].Neg()]|
    requires AllRemovable(F, out, perm, flag)
    requires var imp := bw[out[0].Neg()][k].blocker; imp.v < s.n && On(s, imp) && perm[imp.v] == flag && HasVar(out, 1, |out|, imp.v)
    ensures
      var imp := bw[out[0].Neg()][k].blocker;
      var perm' := perm[imp.v := flag - 1];
      && |Demoted(out, perm', flag)| == |Demoted(out, perm, flag)| + 1
      && AllRemovable(F, out, perm', flag)
      && forall v :: 0 <= v < |perm| && perm'[v] == flag ==> perm[v] == flag
  {
    hide *;
    AssertingSize(s, out);
    var p := out[0].Neg();
    var imp := bw[p][k].blocker;
    var m := ComplementAt(s, out, imp);
    BinEntails(F, s, p, bw, k);
    RemovableStep(F, out, perm, flag, m, imp);
  }

  /** One of the first `n` watchers has `q` as its other literal. */
  ghost predicate Blocks(ws: seq<Watcher>, q: Lit, n: nat) {
    exists k :: 0 <= k < n && k < |ws| && ws[k].blocker == q
  }

  /** A binary clause of `p` implies `q`. */
  ghost predicate Implied(bw: WatchTable, p: Lit, q: Lit) {
    p in bw && Blocks(bw[p], q, |bw[p]|)
  }

  /** Exactly the literals whose complement is implied so far have lost their stamp. */
  ghost predicate StampedRest(out: Clause, perm: seq<nat>, flag: nat, ws: seq<Watcher>, n: nat) {
    forall m :: 1 <= m < |out| ==> out[m].v < |perm| && (perm[out[m].v] == flag <==> !Blocks(ws, out[m].Neg(), n))
  }

  lemma StampedStep(s: State, out: Clause, perm: seq<nat>, flag: nat, ws: seq<Watcher>, n: nat)
    requires Asserting(s, out) && TrailOk(s) && StampedRest(out, perm, flag, ws, n) && n < |ws| && flag > 0
    requires ws[n].blocker.v < |perm|
    requires perm[ws[n].blocker.v] == flag ==> HasVar(out, 1, |out|, ws[n].blocker.v)
    ensures var imp := ws[n].blocker;
            StampedRest(out, if perm[imp.v] == flag && On(s, imp) then perm[imp.v := flag - 1] else perm, flag, ws, n + 1)
  {
    hide Inv, TrailOk;
    var imp := ws[n].blocker;
    forall m | 1 <= m < |out|
      ensures Blocks(ws, out[m].Neg(), n + 1) <==> Blocks(ws, out[m].Neg(), n) || out[m].Neg() == imp
      ensures On(s, out[m].Neg())
    {
    }
    if perm[imp.v] == flag && On(s, imp) {
      var m := ComplementAt(s, out, imp);
      forall k | 1 <= k < |out| && k != m ensures out[k].v != imp.v {
      }
    }
  }

  lemma NothingBlocked(out: Clause, perm: seq<nat>, flag: nat, ws: seq<Watcher>)
    requires Demoted(out, perm, flag) == {} && forall k :: 0 <= k < |out| ==> out[k].v < |perm|
    ensures StampedRest(out, perm, flag, ws, 0)
  {
    forall m | 1 <= m < |out| ensures perm[out[m].v] == flag {
      assert m !in Demoted(out, perm, flag);
    }
  }

  /** What the cut leaves: the first literal and those that kept their stamp. */
  lemma KeptExactly(out0: Clause, out: Clause, perm: seq<nat>, flag: nat, nb: nat)
    requires |out| == |out0| > nb && SameLits(out, out0) && out[0] == out0[0]
    requires forall k :: 0 <= k < |out| ==> out[k].v < |perm| && out0[k].v < |perm|
    requires forall k :: 1 <= k < |out| - nb ==> k !in Demoted(out, perm, flag)
    requires forall k :: |out| - nb <= k < |out| ==> k in Demoted(out, perm, flag)
    ensures forall x :: x in out[..|out| - nb] <==> x in out0 && (x == out0[0] || perm[x.v] == flag)
  {
    hide SameLits;
    forall x ensures x in out[..|out| - nb] <==> x in out0 && (x == out0[0] || perm[x.v] == flag) {
      MemberSame(out, out0, x);
      KeptMember(out, perm, flag, nb, x);
    }
  }

  lemma MemberSame(c: Clause, d: Clause, x: Lit)
    requires SameLits(c, d)
    ensures x in c <==> x in d
  {
  }

  lemma KeptMember(out: Clause, perm: seq<nat>, flag: nat, nb: nat, x: Lit)
    requires nb < |out| && forall k :: 0 <= k < |out| ==> out[k].v < |perm|
    requires forall k :: 1 <= k < |out| - nb ==> k !in Demoted(out, perm, flag)
    requires forall k :: |out| - nb <= k < |out| ==> k in Demoted(out, perm, flag)
    ensures x in out ==> x.v < |perm|
    ensures x in out[..|out| - nb] <==> x in out && (x == out[0] || perm[x.v] == flag)
  {
    var kept := out[..|out| - nb];
    if x in kept {
      var j :| 0 <= j < |kept| && kept[j] == x;
      assert out[j] == x && (j > 0 ==> j !in Demoted(out, perm, flag));
    }
    if x in out && perm[x.v] == flag && x != out[0] {
      var j :| 0 <= j < |out| && out[j] == x;
      assert j !in Demoted(out, perm, flag);
      assert kept[j] == x;
    }
    assert kept[0] == out[0];
  }

  lemma ComplementAt(s: State, out: Clause, imp: Lit) returns (m: nat)
    requires Asserting(s, out) && On(s, imp) && HasVar(out, 1, |out|, imp.v)
    ensures 1 <= m < |out| && out[m].Neg() == imp && DistinctVars(out, 0)
  {
    m :| 1 <= m < |out| && out[m].v == imp.v;
    assert On(s, out[m].Neg());
  }

  lemma RemovableStep(F: seq<Clause>, out: Clause, perm: seq<nat>, flag: nat, m: nat, imp: Lit)
    requires DistinctVars(out, 0) && 1 <= m < |out| && out[m].Neg() == imp && imp.v < |perm| && perm[imp.v] == flag && flag > 0
    requires AllRemovable(F, out, perm, flag) && Entails(F, [out[0].Neg().Neg(), imp])
    ensures
      var perm' := perm[imp.v := flag - 1];
      && |Demoted(out, perm', flag)| == |Demoted(out, perm, flag)| + 1
      && AllRemovable(F, out, perm', flag)
      && forall v :: 0 <= v < |perm| && perm'[v] == flag ==> perm[v] == flag
  {
    hide Entails;
    assert out[0].Neg().Neg() == out[0];
    DemoteStep(out, perm, flag, m, flag - 1);
  }

  lemma BinEntails(F: seq<Clause>, s: State, p: Lit, bw: WatchTable, k: nat)
    requires Sound(F, s) && BinShape(s.n, s.ca, bw) && p in bw && k < |bw[p]|
    ensures Entails(F, [p.Neg(), bw[p][k].blocker])
  {
    assert BinWatcher(s.ca, p, bw[p][k]);
    var c := s.ca[bw[p][k].cref];
    assert Entails(F, c);
    forall A: Assignment | Models(A, F) ensures Sat(A, [p.Neg(), bw[p][k].blocker]) {
      SatSubset(A, c, [p.Neg(), bw[p][k].blocker]);
    }
  }

  lemma AssertingSize(s: State, out: Clause)
    requires Asserting(s, out)
    ensures |out| >= 1 && DistinctVars(out, 0)
  {
  }

  lemma AssertingVars(s: State, out: Clause)
    requires Inv(s) && Asserting(s, out)
    ensures |out| >= 1 && DistinctVars(out, 0) && |s.vardata| == s.n && forall k :: 0 <= k < |out| ==> out[k].v < s.n
  {
  }

  lemma DemotedAt(out: Clause, perm: seq<nat>, flag: nat, i: nat)
    requires 1 <= i < |out| && out[i].v < |perm|
    ensures i in Demoted(out, perm, flag) <==> perm[out[i].v] != flag
  {
  }

  lemma DemotedElsewhere(out: Clause, perm: seq<nat>, flag: nat, i: nat, l: nat)
    requires 1 <= i <= l < |out|
    ensures forall k :: k != i && k != l ==> (k in Demoted(SwapAt(out, i, l), perm, flag) <==> k in Demoted(out, perm, flag))
  {
  }

  lemma SwapClause(F: seq<Clause>, s: State, out: Clause, i: nat, l: nat)
    requires Asserting(s, out) && Entails(F, out) && 1 <= i <= l < |out|
    ensures Asserting(s, SwapAt(out, i, l)) && Entails(F, SwapAt(out, i, l)) && |SwapAt(out, i, l)| == |out|
    ensures forall k :: 0 <= k < |out| ==> SwapAt(out, i, l)[k] == out[if k == i then l else if k == l then i else k]
  {
    var d := SwapAt(out, i, l);
    assert forall k :: 0 <= k < |out| ==> d[k] == out[if k == i then l else if k == l then i else k];
    forall A: Assignment | Models(A, F) ensures Sat(A, d) {
      forall k | 0 <= k < |out| ensures out[k] in d {
        assert out[k] == d[if k == i then l else if k == l then i else k];
      }
      SatSubset(A, out, d);
    }
  }

  lemma SwapAsserting(F: seq<Clause>, s: State, out: Clause, perm: seq<nat>, flag: nat, i: nat, l: nat)
    requires Asserting(s, out) && Entails(F, out) && AllRemovable(F, out, perm, flag) && 1 <= i <= l < |out|
    ensures Asserting(s, SwapAt(out, i, l)) && Entails(F, SwapAt(out, i, l)) && AllRemovable(F, SwapAt(out, i, l), perm, flag)
    ensures |SwapAt(out, i, l)| == |out|
    ensures forall k :: 0 <= k < |out| ==> SwapAt(out, i, l)[k] == out[if k == i then l else if k == l then i else k]
  {
    SwapClause(F, s, out, i, l);
  }

  lemma CutAsserting(F: seq<Clause>, s: State, out: Clause, perm: seq<nat>, flag: nat, nb: nat)
    requires Asserting(s, out) && Entails(F, out) && AllRemovable(F, out, perm, flag) && nb < |out|
    requires forall k :: |out| - nb <= k < |out| ==> k in Demoted(out, perm, flag)
    ensures Asserting(s, out[..|out| - nb]) && Entails(F, out[..|out| - nb])
  {
    var kept := out[..|out| - nb];
    forall k | 0 <= k < |out| ensures out[k] in kept || Removable(F, out[0], out[k]) {
      if k < |kept| { assert kept[k] == out[k]; }
    }
    RemovedEntailed(F, out, kept);
    forall k | 1 <= k < |kept| ensures kept[k] in out[1..] {
      assert out[1..][k - 1] == kept[k];
    }
    AssertingSubset(s, out, kept);
  }
}
