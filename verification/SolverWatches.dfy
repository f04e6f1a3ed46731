/** The two-watched-literal scheme: which watch lists a clause is on, and what a false
    watched literal implies. */
module SolverWatches {
  import opened Logic
  import opened SolverState

  datatype Watcher = Watcher(cref: nat, blocker: Lit)

  /** The lists of one watch table, by the literal whose truth triggers a visit. */
  type WatchTable = map<Lit, seq<Watcher>>

  // ---------------------------------------------------------------- structure

  ghost predicate Keyed(n: nat, w: WatchTable) {
    forall p: Lit :: p.v < n ==> p in w
  }

  /** `x`, found on list `l`, is a clause that watches `~l`. */
  ghost predicate LongWatcher(ca: seq<Clause>, l: Lit, x: Watcher) {
    && x.cref < |ca| && |ca[x.cref]| > 2
    && x.blocker in ca[x.cref]
    && (ca[x.cref][0] == l.Neg() || ca[x.cref][1] == l.Neg())
  }

  ghost predicate BinWatcher(ca: seq<Clause>, l: Lit, x: Watcher) {
    && x.cref < |ca|
    && (ca[x.cref] == [l.Neg(), x.blocker] || ca[x.cref] == [x.blocker, l.Neg()])
  }

  ghost predicate Listed(ws: seq<Watcher>, cr: nat) {
    exists k :: 0 <= k < |ws| && ws[k].cref == cr
  }

  /** Clauses longer than two literals are on the lists of their first two literals, once each,
      and on no other. */
  ghost predicate LongShape(n: nat, ca: seq<Clause>, w: WatchTable) {
    && Keyed(n, w)
    && (forall l, k :: l in w && 0 <= k < |w[l]| ==> LongWatcher(ca, l, w[l][k]))
    && (forall l, j, k :: l in w && 0 <= j < k < |w[l]| ==> w[l][j].cref != w[l][k].cref)
    && (forall cr, k :: 0 <= cr < |ca| && |ca[cr]| > 2 && 0 <= k < 2 ==>
          ca[cr][k].Neg() in w && Listed(w[ca[cr][k].Neg()], cr))
  }

  /** Binary clauses are on the lists of both their literals. */
  ghost predicate BinShape(n: nat, ca: seq<Clause>, w: WatchTable) {
    && Keyed(n, w)
    && (forall l, k :: l in w && 0 <= k < |w[l]| ==> BinWatcher(ca, l, w[l][k]))
    && (forall cr, k :: 0 <= cr < |ca| && |ca[cr]| == 2 && 0 <= k < 2 ==>
          ca[cr][k].Neg() in w && Listed(w[ca[cr][k].Neg()], cr))
  }

  // ---------------------------------------------------------------- meaning

  ghost function LevelOf(s: State, q: Lit): nat {
    if q.v < |s.vardata| then Level(s, q.v) else 0
  }

  /** Some literal of `c` is true at a level not above that of its `k`-th literal. */
  ghost predicate Excused(s: State, c: Clause, k: nat)
    requires k < |c|
  {
    exists m :: 0 <= m < |c| && On(s, c[m]) && LevelOf(s, c[m]) <= LevelOf(s, c[k])
  }

  /** Whenever one of the first `upTo` trail literals falsified a watched literal, the clause is
      excused. */
  ghost predicate WatchSem(s: State, upTo: int) {
    forall cr, k :: 0 <= cr < |s.ca| && 0 <= k < 2 && k < |s.ca[cr]| && FalseBefore(s, s.ca[cr][k], upTo) ==>
      Excused(s, s.ca[cr], k)
  }

  /** While `p`, at trail position `qh`, is being propagated: all clauses are excused for earlier
      literals, and those not in `pend` for `p` too. */
  ghost predicate PropSem(s: State, p: Lit, qh: int, pend: set<nat>) {
    && WatchSem(s, qh)
    && forall cr, k :: 0 <= cr < |s.ca| && 0 <= k < 2 && k < |s.ca[cr]| && s.ca[cr][k] == p.Neg() && cr !in pend ==>
         Excused(s, s.ca[cr], k)
  }

  /** `p` is the trail literal at `qh` and belongs to the current level. */
  ghost predicate AtHead(s: State, p: Lit, qh: nat) {
    && qh < |s.trail| && s.trail[qh] == p && p.v < |s.vardata|
    && Level(s, p.v) == |s.trailLim|
  }

  ghost predicate Falsified(s: State, c: Clause) {
    forall k :: 0 <= k < |c| ==> On(s, c[k].Neg())
  }

  /** No literal of the clause is false, except that other literals are true, or at least two are
      not false: the clause is neither falsified nor unit with its last literal unassigned. */
  ghost predicate NotUnitNorFalse(s: State, c: Clause) {
    || (exists m :: 0 <= m < |c| && On(s, c[m]))
    || (exists j, k :: 0 <= j < k < |c| && !On(s, c[j].Neg()) && !On(s, c[k].Neg()))
  }

  /** `confl` refers to a clause all of whose literals are false, one of them at the current level. */
  ghost predicate Conflict(s: State, confl: int) {
    && 0 <= confl < |s.ca| && Falsified(s, s.ca[confl])
    && exists k :: 0 <= k < |s.ca[confl]| && LevelOf(s, s.ca[confl][k]) == |s.trailLim|
  }

  ghost function CurrentLevelStart(s: State): int {
    if |s.trailLim| > 0 then s.trailLim[|s.trailLim| - 1] else 0
  }

  lemma Fixpoint(s: State)
    requires Inv(s) && WatchSem(s, |s.trail|)
    ensures forall cr :: 0 <= cr < |s.ca| ==> NotUnitNorFalse(s, s.ca[cr])
  {
    forall cr | 0 <= cr < |s.ca| ensures NotUnitNorFalse(s, s.ca[cr]) {
      var c := s.ca[cr];
      assert ClauseShape(s.n, c);
      if On(s, c[0].Neg()) {
        assert FalseBefore(s, c[0], |s.trail|);
        assert Excused(s, c, 0);
      } else if On(s, c[1].Neg()) {
        assert FalseBefore(s, c[1], |s.trail|);
        assert Excused(s, c, 1);
      }
    }
  }

  lemma WatchSemMono(s: State, a: int, b: int)
    requires a <= b && WatchSem(s, b)
    ensures WatchSem(s, a)
  {
    forall cr, k | 0 <= cr < |s.ca| && 0 <= k < 2 && k < |s.ca[cr]| && FalseBefore(s, s.ca[cr][k], a)
      ensures Excused(s, s.ca[cr], k)
    {
      assert FalseBefore(s, s.ca[cr][k], b);
    }
  }

  lemma HeadLevel(s: State, qh: nat)
    requires Inv(s) && qh < |s.trail| && CurrentLevelStart(s) <= qh
    ensures AtHead(s, s.trail[qh], qh)
  {
    assert LevelAt(s, qh);
    assert forall k :: 0 <= k < |s.trailLim| ==> s.trailLim[k] <= s.trailLim[|s.trailLim| - 1];
  }

  lemma LevelBound(s: State, q: Lit)
    requires Inv(s) && On(s, q)
    ensures LevelOf(s, q) <= |s.trailLim|
  {
    assert LevelAt(s, s.pos[q.v]);
  }

  // ---------------------------------------------------------------- enqueueing

  lemma ExcusedMono(s: State, p: Lit, from: int, c: Clause, k: nat)
    requires TrailOk(s) && CanEnqueue(s, p, from) && k < |c| && Excused(s, c, k) && On(s, c[k].Neg())
    ensures Excused(Enqueue(s, p, from), c, k)
  {
    var m :| 0 <= m < |c| && On(s, c[m]) && LevelOf(s, c[m]) <= LevelOf(s, c[k]);
    EnqueueOn(s, p, from, c[m]);
    assert c[m].v != p.v && c[k].v != p.v;
  }

  lemma EnqueueSem(s: State, p: Lit, from: int, upTo: int)
    requires Inv(s) && CanEnqueue(s, p, from) && upTo <= |s.trail| && WatchSem(s, upTo)
    ensures WatchSem(Enqueue(s, p, from), upTo)
  {
    var s' := Enqueue(s, p, from);
    forall cr, k | 0 <= cr < |s'.ca| && 0 <= k < 2 && k < |s'.ca[cr]| && FalseBefore(s', s'.ca[cr][k], upTo)
      ensures Excused(s', s'.ca[cr], k)
    {
      EnqueueOn(s, p, from, s.ca[cr][k]);
      ExcusedMono(s, p, from, s.ca[cr], k);
    }
  }

  lemma EnqueueProp(s: State, p: Lit, qh: nat, pend: set<nat>, q: Lit, from: int)
    requires Inv(s) && AtHead(s, p, qh) && PropSem(s, p, qh, pend) && CanEnqueue(s, q, from)
    ensures AtHead(Enqueue(s, q, from), p, qh) && PropSem(Enqueue(s, q, from), p, qh, pend)
  {
    var s' := Enqueue(s, q, from);
    EnqueueSem(s, q, from, qh);
    forall cr, k | 0 <= cr < |s'.ca| && 0 <= k < 2 && k < |s'.ca[cr]| && s'.ca[cr][k] == p.Neg() && cr !in pend
      ensures Excused(s', s'.ca[cr], k)
    {
      assert s.ca[cr][k].Neg() == p && On(s, p);
      ExcusedMono(s, q, from, s.ca[cr], k);
    }
  }

  /** A clause with a true literal may leave the pending set. */
  lemma Discharge(s: State, p: Lit, qh: nat, pend: set<nat>, pend': set<nat>, cr: nat, m: nat)
    requires Inv(s) && AtHead(s, p, qh) && PropSem(s, p, qh, pend)
    requires cr < |s.ca| && m < |s.ca[cr]| && On(s, s.ca[cr][m])
    requires pend <= pend' + {cr}
    ensures PropSem(s, p, qh, pend')
  {
    LevelBound(s, s.ca[cr][m]);
    forall r, k | 0 <= r < |s.ca| && 0 <= k < 2 && k < |s.ca[r]| && s.ca[r][k] == p.Neg() && r !in pend'
      ensures Excused(s, s.ca[r], k)
    {
      if r == cr {
        assert LevelOf(s, s.ca[r][m]) <= LevelOf(s, s.ca[r][k]);
      }
    }
  }

  // ---------------------------------------------------------------- starting and finishing p

  ghost function Crefs(ws: seq<Watcher>): (r: set<nat>)
    ensures forall cr :: cr in r <==> Listed(ws, cr)
  {
    set k | 0 <= k < |ws| :: ws[k].cref
  }

  ghost function LongClauses(ca: seq<Clause>): set<nat> {
    set cr | 0 <= cr < |ca| && |ca[cr]| > 2
  }

  /** Both watch tables at the time `p` is taken from the queue: all its clauses are pending. */
  lemma StartBinary(s: State, p: Lit, qh: nat, bw: WatchTable)
    requires Inv(s) && AtHead(s, p, qh) && WatchSem(s, qh) && BinShape(s.n, s.ca, bw)
    ensures p in bw && PropSem(s, p, qh, LongClauses(s.ca) + Crefs(bw[p]))
  {
    assert p.v < s.n;
    forall cr, k | 0 <= cr < |s.ca| && 0 <= k < 2 && k < |s.ca[cr]| && s.ca[cr][k] == p.Neg()
      ensures cr in LongClauses(s.ca) + Crefs(bw[p])
    {
      assert ClauseShape(s.n, s.ca[cr]) && s.ca[cr][k].Neg() == p;
    }
  }

  lemma StartLong(s: State, p: Lit, qh: nat, w: WatchTable)
    requires Inv(s) && AtHead(s, p, qh) && PropSem(s, p, qh, LongClauses(s.ca)) && LongShape(s.n, s.ca, w)
    ensures p in w && PropSem(s, p, qh, Crefs(w[p]))
  {
    assert p.v < s.n;
    forall cr, k | 0 <= cr < |s.ca| && 0 <= k < 2 && |s.ca[cr]| > 2 && s.ca[cr][k] == p.Neg()
      ensures cr in Crefs(w[p])
    {
      assert s.ca[cr][k].Neg() == p;
    }
  }

  lemma Finish(s: State, p: Lit, qh: nat)
    requires Inv(s) && AtHead(s, p, qh) && PropSem(s, p, qh, {})
    ensures WatchSem(s, qh + 1)
  {
    forall cr, k | 0 <= cr < |s.ca| && 0 <= k < 2 && k < |s.ca[cr]| && FalseBefore(s, s.ca[cr][k], qh + 1)
      ensures Excused(s, s.ca[cr], k)
    {
      var q := s.ca[cr][k];
      if s.pos[q.v] == qh {
        assert q.Neg() == p && q == p.Neg();
      } else {
        assert FalseBefore(s, q, qh);
      }
    }
  }

  // ---------------------------------------------------------------- reordering a clause

  /** `d` holds the literals of `c` in another order. */
  ghost predicate Reordered(c: Clause, d: Clause) {
    && |c| == |d|
    && (forall k :: 0 <= k < |c| ==> c[k] in d)
    && (forall k :: 0 <= k < |d| ==> d[k] in c)
    && (forall j, k :: 0 <= j < k < |d| ==> d[j].v != d[k].v)
  }

  ghost function WithClause(s: State, cr: nat, d: Clause): State
    requires cr < |s.ca|
  {
    s.(ca := s.ca[cr := d])
  }

  /** A clause that is no reason, because its first literal is not true, may be reordered. */
  lemma ReorderInv(s: State, cr: nat, d: Clause)
    requires Inv(s) && cr < |s.ca| && Reordered(s.ca[cr], d)
    requires |d| > 2 && !On(s, s.ca[cr][0])
    ensures Inv(WithClause(s, cr, d))
  {
    var s' := WithClause(s, cr, d);
    assert ClauseShape(s.n, s.ca[cr]);
    assert ClauseShape(s.n, d) by {
      forall k | 0 <= k < |d| ensures d[k].v < s.n {
        var j :| 0 <= j < |d| && s.ca[cr][j] == d[k];
      }
    }
    forall i | 0 <= i < |s.trail| ensures ReasonAt(s', i) && LevelAt(s', i) {
      assert ReasonAt(s, i) && LevelAt(s, i);
      var r := Reason(s, s.trail[i].v);
      if r == cr {
        assert s.ca[cr][0] == s.trail[i] && On(s, s.trail[i]);
        assert false;
      } else if r != CREF_UNDEF {
        forall k | 0 <= k < |s.ca[r]| && s.ca[r][k] != s.trail[i] ensures FalseBefore(s', s.ca[r][k], i) {
          assert FalseBefore(s, s.ca[r][k], i);
        }
      }
    }
  }

  lemma ReorderExcused(s: State, cr: nat, d: Clause, j: nat, k: nat)
    requires cr < |s.ca| && Reordered(s.ca[cr], d) && j < |d| && k < |d| && d[k] == s.ca[cr][j]
    requires Excused(s, s.ca[cr], j)
    ensures Excused(WithClause(s, cr, d), d, k)
  {
    var c := s.ca[cr];
    var m :| 0 <= m < |c| && On(s, c[m]) && LevelOf(s, c[m]) <= LevelOf(s, c[j]);
    var m' :| 0 <= m' < |d| && d[m'] == c[m];
    assert On(WithClause(s, cr, d), d[m']);
  }

  /** Reordering keeps the semantic invariant if each new watched literal was watched before or is
      not false. */
  lemma ReorderSem(s: State, cr: nat, d: Clause, upTo: int)
    requires cr < |s.ca| && Reordered(s.ca[cr], d) && |d| >= 2 && WatchSem(s, upTo)
    requires forall k :: 0 <= k < 2 ==> d[k] == s.ca[cr][0] || d[k] == s.ca[cr][1] || !On(s, d[k].Neg())
    ensures WatchSem(WithClause(s, cr, d), upTo)
  {
    var s' := WithClause(s, cr, d);
    forall r, k | 0 <= r < |s'.ca| && 0 <= k < 2 && k < |s'.ca[r]| && FalseBefore(s', s'.ca[r][k], upTo)
      ensures Excused(s', s'.ca[r], k)
    {
      assert FalseBefore(s, s'.ca[r][k], upTo);
      if r == cr {
        var j := if d[k] == s.ca[cr][0] then 0 else 1;
        assert d[k] == s.ca[cr][j];
        ReorderExcused(s, cr, d, j, k);
      } else {
        assert Excused(s, s.ca[r], k);
        var m :| 0 <= m < |s.ca[r]| && On(s, s.ca[r][m]) && LevelOf(s, s.ca[r][m]) <= LevelOf(s, s.ca[r][k]);
        assert On(s', s'.ca[r][m]);
      }
    }
  }

  lemma ReorderProp(s: State, p: Lit, qh: nat, pend: set<nat>, cr: nat, d: Clause)
    requires cr < |s.ca| && Reordered(s.ca[cr], d) && |d| > 2 && PropSem(s, p, qh, pend) && cr in pend
    requires forall k :: 0 <= k < 2 ==> d[k] == s.ca[cr][0] || d[k] == s.ca[cr][1] || !On(s, d[k].Neg())
    ensures PropSem(WithClause(s, cr, d), p, qh, pend)
  {
    var s' := WithClause(s, cr, d);
    ReorderSem(s, cr, d, qh);
    forall r, k | 0 <= r < |s'.ca| && 0 <= k < 2 && k < |s'.ca[r]| && s'.ca[r][k] == p.Neg() && r !in pend
      ensures Excused(s', s'.ca[r], k)
    {
      assert Excused(s, s.ca[r], k);
      var m :| 0 <= m < |s.ca[r]| && On(s, s.ca[r][m]) && LevelOf(s, s.ca[r][m]) <= LevelOf(s, s.ca[r][k]);
      assert On(s', s'.ca[r][m]);
    }
  }

  /** A clause that no longer watches `~p` may leave the pending set. */
  lemma Unwatch(s: State, p: Lit, qh: nat, pend: set<nat>, pend': set<nat>, cr: nat)
    requires PropSem(s, p, qh, pend) && cr < |s.ca| && |s.ca[cr]| > 2
    requires s.ca[cr][0] != p.Neg() && s.ca[cr][1] != p.Neg()
    requires pend <= pend' + {cr}
    ensures PropSem(s, p, qh, pend')
  {
  }

  // ---------------------------------------------------------------- watch lists in place

  /** The watch table seen through the two cursors of the list of `p`: what was kept so far and
      what is still to be visited. */
  ghost function Live(w: WatchTable, p: Lit, i: nat, j: nat): WatchTable
    requires p in w && j <= i <= |w[p]|
  {
    w[p := w[p][..j] + w[p][i..]]
  }

  function SwapAt(c: Clause, i: nat, j: nat): Clause
    requires i < |c| && j < |c|
  {
    c[i := c[j]][j := c[i]]
  }

  lemma SwapReorders(n: nat, c: Clause, i: nat, j: nat)
    requires ClauseShape(n, c) && i < |c| && j < |c|
    ensures Reordered(c, SwapAt(c, i, j))
  {
    var d := SwapAt(c, i, j);
    forall k | 0 <= k < |c| ensures c[k] in d {
      assert c[k] == d[if k == i then j else if k == j then i else k];
    }
  }

  /** Exchanging the two watched literals, or replacing watch `1` elsewhere, leaves the other
      clauses' watchers in order. */
  lemma LongFrame(ca: seq<Clause>, cr: nat, d: Clause, l: Lit, x: Watcher)
    requires cr < |ca| && LongWatcher(ca, l, x) && Reordered(ca[cr], d)
    requires x.cref == cr ==> d[0] == l.Neg() || d[1] == l.Neg()
    ensures LongWatcher(ca[cr := d], l, x)
  {
    if x.cref == cr {
      var k :| 0 <= k < |d| && ca[cr][k] == x.blocker;
      assert x.blocker in d;
    }
  }

  lemma SwapShape(n: nat, ca: seq<Clause>, w: WatchTable, cr: nat)
    requires LongShape(n, ca, w) && cr < |ca| && ClauseShape(n, ca[cr]) && |ca[cr]| > 2
    ensures LongShape(n, ca[cr := SwapAt(ca[cr], 0, 1)], w)
  {
    var d := SwapAt(ca[cr], 0, 1);
    var ca' := ca[cr := d];
    SwapReorders(n, ca[cr], 0, 1);
    forall l, k | l in w && 0 <= k < |w[l]| ensures LongWatcher(ca', l, w[l][k]) {
      LongFrame(ca, cr, d, l, w[l][k]);
    }
    forall r, k | 0 <= r < |ca'| && |ca'[r]| > 2 && 0 <= k < 2
      ensures ca'[r][k].Neg() in w && Listed(w[ca'[r][k].Neg()], r)
    {
      var k' := if r == cr then 1 - k else k;
      assert ca'[r][k] == ca[r][k'];
    }
  }

  /** Renewing the blocker of a kept watcher. */
  lemma BlockerShape(n: nat, ca: seq<Clause>, w: WatchTable, p: Lit, j: nat, b: Lit)
    requires LongShape(n, ca, w) && p in w && j < |w[p]| && b in ca[w[p][j].cref]
    ensures LongShape(n, ca, w[p := w[p][j := Watcher(w[p][j].cref, b)]])
  {
    var x := Watcher(w[p][j].cref, b);
    var w' := w[p := w[p][j := x]];
    assert LongWatcher(ca, p, w[p][j]);
    forall l, k | l in w' && 0 <= k < |w'[l]| ensures LongWatcher(ca, l, w'[l][k]) {
      assert LongWatcher(ca, l, w[l][k]);
    }
    assert forall l, k :: l in w' && 0 <= k < |w'[l]| ==> w'[l][k].cref == w[l][k].cref;
    forall r, k | 0 <= r < |ca| && |ca[r]| > 2 && 0 <= k < 2
      ensures ca[r][k].Neg() in w' && Listed(w'[ca[r][k].Neg()], r)
    {
      var l := ca[r][k].Neg();
      var m :| 0 <= m < |w[l]| && w[l][m].cref == r;
      assert w'[l][m].cref == r;
    }
  }

  ghost function Moved(w: WatchTable, p: Lit, j: nat, q: Lit, x: Watcher): WatchTable
    requires p in w && j < |w[p]| && q in w && q != p
  {
    w[p := w[p][..j] + w[p][j + 1..]][q := w[q] + [x]]
  }

  lemma MovedEntry(w: WatchTable, p: Lit, j: nat, q: Lit, x: Watcher, l: Lit, k: nat) returns (m: nat)
    requires p in w && j < |w[p]| && q in w && q != p
    requires l in Moved(w, p, j, q, x) && k < |Moved(w, p, j, q, x)[l]|
    ensures l in w
    ensures !(l == q && k == |w[q]|) ==> m < |w[l]| && Moved(w, p, j, q, x)[l][k] == w[l][m]
    ensures l == p ==> m == if k < j then k else k + 1
    ensures l != p ==> m == k
    ensures l == q && k == |w[q]| ==> Moved(w, p, j, q, x)[l][k] == x
  {
    m := if l == p && k >= j then k + 1 else k;
  }

  lemma MovedListed(w: WatchTable, p: Lit, j: nat, q: Lit, x: Watcher, l: Lit, r: nat)
    requires p in w && j < |w[p]| && q in w && q != p
    requires l in w && Listed(w[l], r) && !(l == p && w[p][j].cref == r)
    ensures Listed(Moved(w, p, j, q, x)[l], r)
  {
    var m :| 0 <= m < |w[l]| && w[l][m].cref == r;
    var k := if l == p && m > j then m - 1 else m;
    assert Moved(w, p, j, q, x)[l][k] == w[l][m];
  }

  /** A new watch is chosen: `c[1]`, which is `~p`, changes place with `c[k]`, and the watcher moves
      from the list of `p` to that of the complement of the new watch. */
  lemma MoveShape(n: nat, ca: seq<Clause>, w: WatchTable, p: Lit, j: nat, cr: nat, k: nat)
    requires LongShape(n, ca, w) && p in w && j < |w[p]| && w[p][j].cref == cr
    requires cr < |ca| && ClauseShape(n, ca[cr]) && ca[cr][1] == p.Neg() && 2 <= k < |ca[cr]|
    requires ca[cr][k].Neg() != p
    ensures ca[cr][k].Neg() in w
    ensures LongShape(n, ca[cr := SwapAt(ca[cr], 1, k)], Moved(w, p, j, ca[cr][k].Neg(), Watcher(cr, ca[cr][0])))
  {
    var c := ca[cr];
    var d := SwapAt(c, 1, k);
    var ca' := ca[cr := d];
    var q := c[k].Neg();
    var x := Watcher(cr, c[0]);
    assert q.v < n && q in w;
    var w' := Moved(w, p, j, q, x);
    SwapReorders(n, c, 1, k);
    assert p.Neg().Neg() == p && q.Neg() == d[1] && c[0] in d;
    assert LongWatcher(ca', q, x);
    // `cr` was not on the list of `q`, and is no longer on that of `p`
    forall m | 0 <= m < |w[q]| ensures w[q][m].cref != cr {
      assert LongWatcher(ca, q, w[q][m]);
    }
    forall l, m | l in w' && 0 <= m < |w'[l]| ensures LongWatcher(ca', l, w'[l][m]) {
      var m' := MovedEntry(w, p, j, q, x, l, m);
      if !(l == q && m == |w[q]|) {
        assert LongWatcher(ca, l, w[l][m']);
        if w[l][m'].cref == cr {
          assert l != p;
          assert c[1] == p.Neg() && l.Neg() != p.Neg();
          assert d[0] == l.Neg();
        }
        LongFrame(ca, cr, d, l, w[l][m']);
      }
    }
    forall l, a, b | l in w' && 0 <= a < b < |w'[l]| ensures w'[l][a].cref != w'[l][b].cref {
      var a' := MovedEntry(w, p, j, q, x, l, a);
      var b' := MovedEntry(w, p, j, q, x, l, b);
    }
    MoveListed(n, ca, w, p, j, cr, k);
  }

  lemma MoveListed(n: nat, ca: seq<Clause>, w: WatchTable, p: Lit, j: nat, cr: nat, k: nat)
    requires LongShape(n, ca, w) && p in w && j < |w[p]| && w[p][j].cref == cr
    requires cr < |ca| && ClauseShape(n, ca[cr]) && ca[cr][1] == p.Neg() && 2 <= k < |ca[cr]|
    requires ca[cr][k].Neg() in w && ca[cr][k].Neg() != p
    ensures
      var ca' := ca[cr := SwapAt(ca[cr], 1, k)];
      var w' := Moved(w, p, j, ca[cr][k].Neg(), Watcher(cr, ca[cr][0]));
      forall r, m :: 0 <= r < |ca'| && |ca'[r]| > 2 && 0 <= m < 2 ==>
        ca'[r][m].Neg() in w' && Listed(w'[ca'[r][m].Neg()], r)
  {
    var ca': seq<Clause> := ca[cr := SwapAt(ca[cr], 1, k)];
    var q := ca[cr][k].Neg();
    var x := Watcher(cr, ca[cr][0]);
    var w' := Moved(w, p, j, q, x);
    forall r, m | 0 <= r < |ca'| && |ca'[r]| > 2 && 0 <= m < 2
      ensures ca'[r][m].Neg() in w' && Listed(w'[ca'[r][m].Neg()], r)
    {
      var l := ca'[r][m].Neg();
      if r == cr && m == 1 {
        assert w'[q][|w[q]|] == x;
      } else {
        assert ca'[r][m] == ca[r][m];
        assert r == cr ==> l.Neg() != ca[cr][1] && l != p;
        MovedListed(w, p, j, q, x, l, r);
      }
    }
  }

  // ---------------------------------------------------------------- backjumping and attaching

  lemma CancelSem(s: State, level: nat, upTo: int)
    requires Inv(s) && level < |s.trailLim| && s.trailLim[level] <= upTo && WatchSem(s, upTo)
    ensures WatchSem(Cancelled(s, level), s.trailLim[level])
  {
    var s' := Cancelled(s, level);
    forall cr, k | 0 <= cr < |s'.ca| && 0 <= k < 2 && k < |s'.ca[cr]| && FalseBefore(s', s'.ca[cr][k], s.trailLim[level])
      ensures Excused(s', s'.ca[cr], k)
    {
      var c := s.ca[cr];
      CancelOn(s, level, c[k]);
      CancelOn(s, level, c[k].Neg());
      assert FalseBefore(s, c[k], upTo);
      CancelLevels(s, level, c[k].Neg());
      var m :| 0 <= m < |c| && On(s, c[m]) && LevelOf(s, c[m]) <= LevelOf(s, c[k]);
      CancelLevels(s, level, c[m]);
      assert On(s', s'.ca[cr][m]);
    }
  }

  // ---------------------------------------------------------------- small facts for `propagate`

  lemma ReorderedSame(s: State, t: State, cr: nat, d: Clause)
    requires Extends(s, t) && cr < |t.ca| && Reordered(t.ca[cr], d)
    ensures Extends(s, WithClause(t, cr, d))
  {
    forall r | 0 <= r < |t.ca| ensures SameLits(t.ca[r], t.ca[cr := d][r]) {
    }
    ExtendsClauses(s, t, WithClause(t, cr, d));
  }

  lemma BinFrame(n: nat, ca: seq<Clause>, bw: WatchTable, cr: nat, d: Clause)
    requires BinShape(n, ca, bw) && cr < |ca| && |ca[cr]| > 2 && |d| > 2
    ensures BinShape(n, ca[cr := d], bw)
  {
    forall l, k | l in bw && 0 <= k < |bw[l]| ensures BinWatcher(ca[cr := d], l, bw[l][k]) {
      assert BinWatcher(ca, l, bw[l][k]);
    }
  }

  lemma LiveKeep(w: WatchTable, p: Lit, i: nat, j: nat)
    requires p in w && j <= i < |w[p]|
    ensures Live(w[p := w[p][j := w[p][i]]], p, i + 1, j + 1) == Live(w, p, i, j)
  {
    var w' := w[p := w[p][j := w[p][i]]];
    assert w'[p][..j + 1] + w'[p][i + 1..] == w[p][..j] + w[p][i..];
    assert Live(w', p, i + 1, j + 1)[p] == Live(w, p, i, j)[p];
  }

  lemma LiveRenew(w: WatchTable, p: Lit, i: nat, j: nat, x: Watcher)
    requires p in w && j <= i < |w[p]|
    ensures Live(w[p := w[p][j := x]], p, i + 1, j + 1) == Live(w, p, i, j)[p := Live(w, p, i, j)[p][j := x]]
    ensures p in Live(w, p, i, j) && j < |Live(w, p, i, j)[p]| && Live(w, p, i, j)[p][j] == w[p][i]
  {
    var w' := w[p := w[p][j := x]];
    assert w'[p][..j + 1] + w'[p][i + 1..] == (w[p][..j] + w[p][i..])[j := x];
  }

  lemma LiveMove(w: WatchTable, p: Lit, i: nat, j: nat, q: Lit, x: Watcher)
    requires p in w && j <= i < |w[p]| && q in w && q != p
    ensures p in Live(w, p, i, j) && j < |Live(w, p, i, j)[p]| && Live(w, p, i, j)[p][j] == w[p][i]
    ensures Live(w[q := w[q] + [x]], p, i + 1, j) == Moved(Live(w, p, i, j), p, j, q, x)
  {
    var v := Live(w, p, i, j);
    assert v[p][..j] + v[p][j + 1..] == w[p][..j] + w[p][i + 1..];
  }

  lemma LiveEnds(w: WatchTable, p: Lit)
    requires p in w
    ensures Live(w, p, 0, 0) == w
    ensures forall j :: 0 <= j <= |w[p]| ==> Live(w, p, |w[p]|, j) == w[p := w[p][..j]]
  {
    assert w[p][..0] + w[p][0..] == w[p];
    assert w[p := w[p]] == w;
    forall j | 0 <= j <= |w[p]| ensures Live(w, p, |w[p]|, j) == w[p := w[p][..j]] {
      assert w[p][..j] + w[p][|w[p]|..] == w[p][..j];
    }
  }

  lemma CrefsTail(ws: seq<Watcher>, i: nat)
    requires i < |ws|
    ensures Crefs(ws[i..]) == {ws[i].cref} + Crefs(ws[i + 1..])
  {
    forall cr ensures cr in Crefs(ws[i..]) <==> cr in {ws[i].cref} + Crefs(ws[i + 1..]) {
      if Listed(ws[i..], cr) {
        var k :| 0 <= k < |ws[i..]| && ws[i..][k].cref == cr;
        if k > 0 { assert ws[i + 1..][k - 1].cref == cr; }
      }
      if Listed(ws[i + 1..], cr) {
        var k :| 0 <= k < |ws[i + 1..]| && ws[i + 1..][k].cref == cr;
        assert ws[i..][k + 1].cref == cr;
      }
      assert ws[i..][0].cref == ws[i].cref;
    }
  }

  /** What `propagate` knows of the watcher it is about to visit. */
  lemma VisitFacts(s: State, w: WatchTable, p: Lit, i: nat, j: nat)
    requires Inv(s) && p in w && j <= i < |w[p]| && LongShape(s.n, s.ca, Live(w, p, i, j))
    ensures LongWatcher(s.ca, p, w[p][i]) && ClauseShape(s.n, s.ca[w[p][i].cref])
    ensures |s.assigns| == s.n && w[p][i].blocker.v < s.n
  {
    var v := Live(w, p, i, j);
    assert v[p][j] == w[p][i];
    assert LongWatcher(s.ca, p, v[p][j]);
    var c := s.ca[w[p][i].cref];
    assert ClauseShape(s.n, c);
    var k :| 0 <= k < |c| && c[k] == w[p][i].blocker;
  }

  lemma BinFacts(s: State, bw: WatchTable, p: Lit, k: nat)
    requires Inv(s) && p in bw && k < |bw[p]| && BinShape(s.n, s.ca, bw)
    ensures BinWatcher(s.ca, p, bw[p][k]) && ClauseShape(s.n, s.ca[bw[p][k].cref])
    ensures |s.assigns| == s.n && bw[p][k].blocker.v < s.n && |s.ca[bw[p][k].cref]| == 2
    ensures bw[p][k].blocker.v != p.v
  {
    assert BinWatcher(s.ca, p, bw[p][k]);
    var c := s.ca[bw[p][k].cref];
    assert ClauseShape(s.n, c);
    assert c[0].v != c[1].v;
  }

  /** The clause in which every other literal is false is a reason for `first`. */
  lemma UnitReason(s: State, cr: nat, first: Lit)
    requires Inv(s) && cr < |s.ca| && first.v < s.n && ValueOf(s.assigns, first) == Undef
    requires s.ca[cr][0] == first || (|s.ca[cr]| == 2 && s.ca[cr][1] == first)
    requires forall k :: 0 <= k < |s.ca[cr]| && s.ca[cr][k] != first ==> s.ca[cr][k].v < s.n && ValueOf(s.assigns, s.ca[cr][k]) == False
    ensures CanEnqueue(s, first, cr)
  {
    assert ClauseShape(s.n, s.ca[cr]);
    forall k | 0 <= k < |s.ca[cr]| && s.ca[cr][k] != first ensures FalseBefore(s, s.ca[cr][k], |s.trail|) {
      OnValue(s, s.ca[cr][k]);
    }
  }

  lemma AllFalse(s: State, cr: nat)
    requires Inv(s) && cr < |s.ca|
    requires forall k :: 0 <= k < |s.ca[cr]| ==> s.ca[cr][k].v < s.n && ValueOf(s.assigns, s.ca[cr][k]) == False
    ensures Falsified(s, s.ca[cr])
  {
    forall k | 0 <= k < |s.ca[cr]| ensures On(s, s.ca[cr][k].Neg()) {
      OnValue(s, s.ca[cr][k]);
    }
  }
}
