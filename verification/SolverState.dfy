/** The trail of the CDCL solver: assignments, levels and reasons, as a value on which
    the invariants of `Solver` are stated. */
module SolverState {
  import opened Logic
  import opened FiniteSets

  /** The clause reference that stands for "no clause". */
  const CREF_UNDEF := -1

  datatype VarData = VarData(reason: int, level: nat)

  /** A snapshot of the fields of `Solver` that assignments depend on. `ca[r]` is the clause
      with reference `r`; `pos[v]` is the trail position of an assigned variable `v`. */
  datatype State = State(
    n: nat,
    ca: seq<Clause>,
    assigns: seq<LBool>,
    vardata: seq<VarData>,
    trail: seq<Lit>,
    trailLim: seq<nat>,
    pos: seq<nat>)

  // ---------------------------------------------------------------- invariants

  /** Every stored clause has at least two literals, over distinct variables. */
  ghost predicate ClauseShape(n: nat, c: Clause) {
    && |c| >= 2
    && (forall k :: 0 <= k < |c| ==> c[k].v < n)
    && (forall j, k :: 0 <= j < k < |c| ==> c[j].v != c[k].v)
  }

  ghost predicate Shape(s: State) {
    && |s.assigns| == |s.vardata| == |s.pos| == s.n
    && forall r :: 0 <= r < |s.ca| ==> ClauseShape(s.n, s.ca[r])
  }

  /** Literal `q` is on the trail. */
  ghost predicate On(s: State, q: Lit) {
    q.v < |s.pos| && s.pos[q.v] < |s.trail| && s.trail[s.pos[q.v]] == q
  }

  /** Literal `q` was made false by one of the first `k` trail literals. */
  ghost predicate FalseBefore(s: State, q: Lit, k: int) {
    On(s, q.Neg()) && s.pos[q.v] < k
  }

  /** `assigns` and `trail` say the same, and no variable is on the trail twice. */
  ghost predicate TrailOk(s: State) {
    && |s.assigns| == |s.pos| == s.n
    && (forall i :: 0 <= i < |s.trail| ==> s.trail[i].v < s.n && s.pos[s.trail[i].v] == i)
    && (forall i :: 0 <= i < |s.trail| ==> s.assigns[s.trail[i].v] == Lifted(s.trail[i]))
    && (forall v :: 0 <= v < s.n && s.assigns[v] != Undef ==> s.pos[v] < |s.trail| && s.trail[s.pos[v]].v == v)
  }

  function Level(s: State, v: nat): nat
    requires v < |s.vardata|
  {
    s.vardata[v].level
  }

  function Reason(s: State, v: nat): int
    requires v < |s.vardata|
  {
    s.vardata[v].reason
  }

  /** Trail position `i` lies in the block of its recorded level, and a literal above level 0
      has no reason only if it opens its level. */
  ghost predicate LevelAt(s: State, i: nat)
    requires i < |s.trail| && s.trail[i].v < |s.vardata|
  {
    var l := Level(s, s.trail[i].v);
    && l <= |s.trailLim|
    && (l > 0 ==> s.trailLim[l - 1] <= i)
    && (l < |s.trailLim| ==> i < s.trailLim[l])
    && (Reason(s, s.trail[i].v) == CREF_UNDEF && l > 0 ==> s.trailLim[l - 1] == i)
  }

  ghost predicate LevelOk(s: State) {
    && (forall k :: 0 <= k < |s.trailLim| ==> s.trailLim[k] <= |s.trail|)
    && (forall j, k :: 0 <= j < k < |s.trailLim| ==> s.trailLim[j] < s.trailLim[k])
    && (forall i :: 0 <= i < |s.trail| ==> s.trail[i].v < |s.vardata| && LevelAt(s, i))
  }

  /** Clause `c` is a reason for `p`: it contains `p` in front (or is binary), and all its other
      literals were false before trail position `i`. */
  ghost predicate IsReason(s: State, c: Clause, p: Lit, i: int) {
    && |c| >= 2
    && (c[0] == p || (|c| == 2 && c[1] == p))
    && forall k :: 0 <= k < |c| && c[k] != p ==> FalseBefore(s, c[k], i)
  }

  ghost predicate ReasonAt(s: State, i: nat)
    requires i < |s.trail| && s.trail[i].v < |s.vardata|
  {
    var r := Reason(s, s.trail[i].v);
    r == CREF_UNDEF || (0 <= r < |s.ca| && IsReason(s, s.ca[r], s.trail[i], i))
  }

  ghost predicate ReasonOk(s: State) {
    forall i :: 0 <= i < |s.trail| ==> s.trail[i].v < |s.vardata| && ReasonAt(s, i)
  }

  ghost predicate Inv(s: State) {
    Shape(s) && TrailOk(s) && LevelOk(s) && ReasonOk(s)
  }

  /** Every decision level holds its decision. */
  ghost predicate Decided(s: State) {
    |s.trailLim| > 0 ==> s.trailLim[|s.trailLim| - 1] < |s.trail|
  }

  lemma OnValue(s: State, q: Lit)
    requires TrailOk(s) && q.v < s.n
    ensures On(s, q) <==> ValueOf(s.assigns, q) == True
    ensures On(s, q.Neg()) <==> ValueOf(s.assigns, q) == False
    ensures q.Neg().Neg() == q
  {
  }

  // ---------------------------------------------------------------- uncheckedEnqueue

  ghost function Enqueue(s: State, p: Lit, from: int): State
    requires p.v < |s.assigns| && p.v < |s.vardata| && p.v < |s.pos|
  {
    s.(assigns := s.assigns[p.v := Lifted(p)],
       vardata := s.vardata[p.v := VarData(from, |s.trailLim|)],
       trail := s.trail + [p],
       pos := s.pos[p.v := |s.trail|])
  }

  ghost predicate CanEnqueue(s: State, p: Lit, from: int) {
    && p.v < s.n && |s.assigns| == |s.vardata| == |s.pos| == s.n
    && ValueOf(s.assigns, p) == Undef
    && (from == CREF_UNDEF ==> |s.trailLim| == 0 || s.trailLim[|s.trailLim| - 1] == |s.trail|)
    && (from != CREF_UNDEF ==> 0 <= from < |s.ca| && IsReason(s, s.ca[from], p, |s.trail|))
  }

  lemma EnqueueOn(s: State, p: Lit, from: int, q: Lit)
    requires TrailOk(s) && CanEnqueue(s, p, from)
    ensures On(Enqueue(s, p, from), q) <==> On(s, q) || q == p
    ensures forall k | k <= |s.trail| :: FalseBefore(s, q, k) <==> FalseBefore(Enqueue(s, p, from), q, k)
  {
  }

  lemma EnqueueReasons(s: State, p: Lit, from: int)
    requires Inv(s) && CanEnqueue(s, p, from)
    ensures ReasonOk(Enqueue(s, p, from))
  {
    var s' := Enqueue(s, p, from);
    forall i | 0 <= i < |s'.trail| ensures s'.trail[i].v < |s'.vardata| && ReasonAt(s', i) {
      var r := Reason(s', s'.trail[i].v);
      if i < |s.trail| {
        assert ReasonAt(s, i) && s'.trail[i] == s.trail[i] && s.trail[i].v != p.v;
      }
      if r != CREF_UNDEF {
        var c := s.ca[r];
        forall k | 0 <= k < |c| && c[k] != s'.trail[i] ensures FalseBefore(s', c[k], i) {
          EnqueueOn(s, p, from, c[k]);
          assert FalseBefore(s, c[k], i);
        }
      }
    }
  }

  lemma EnqueueKeeps(s: State, p: Lit, from: int)
    requires Inv(s) && CanEnqueue(s, p, from)
    ensures Inv(Enqueue(s, p, from)) && Decided(Enqueue(s, p, from))
  {
    var s' := Enqueue(s, p, from);
    EnqueueReasons(s, p, from);
    assert TrailOk(s');
    forall i | 0 <= i < |s'.trail| ensures s'.trail[i].v < |s'.vardata| && LevelAt(s', i) {
      if i < |s.trail| {
        assert LevelAt(s, i) && s.trail[i].v != p.v;
      }
    }
  }

  // ---------------------------------------------------------------- newDecisionLevel

  ghost function NewLevel(s: State): State {
    s.(trailLim := s.trailLim + [|s.trail|])
  }

  lemma NewLevelKeeps(s: State)
    requires Inv(s) && Decided(s)
    ensures Inv(NewLevel(s))
  {
    var s' := NewLevel(s);
    forall i | 0 <= i < |s.trail| ensures LevelAt(s', i) && ReasonAt(s', i) {
      assert LevelAt(s, i) && ReasonAt(s, i);
      var r := Reason(s, s.trail[i].v);
      if r != CREF_UNDEF {
        forall k | 0 <= k < |s.ca[r]| && s.ca[r][k] != s.trail[i] ensures FalseBefore(s', s.ca[r][k], i) {
          assert FalseBefore(s, s.ca[r][k], i);
        }
      }
    }
  }

  // ---------------------------------------------------------------- cancelUntil

  ghost function Cancelled(s: State, level: nat): State
    requires level < |s.trailLim| && s.trailLim[level] <= |s.trail| && |s.assigns| == |s.pos|
  {
    s.(assigns := seq(|s.assigns|, v requires 0 <= v < |s.assigns| && |s.assigns| == |s.pos| =>
                        if s.assigns[v] != Undef && s.pos[v] >= s.trailLim[level] then Undef else s.assigns[v]),
       trail := s.trail[..s.trailLim[level]],
       trailLim := s.trailLim[..level])
  }

  lemma CancelOn(s: State, level: nat, q: Lit)
    requires TrailOk(s) && level < |s.trailLim| && s.trailLim[level] <= |s.trail|
    ensures On(Cancelled(s, level), q) <==> On(s, q) && s.pos[q.v] < s.trailLim[level]
    ensures forall k | k <= s.trailLim[level] :: FalseBefore(s, q, k) <==> FalseBefore(Cancelled(s, level), q, k)
  {
  }

  lemma CancelReasons(s: State, level: nat)
    requires Inv(s) && level < |s.trailLim|
    ensures ReasonOk(Cancelled(s, level))
  {
    var s' := Cancelled(s, level);
    forall i | 0 <= i < |s'.trail| ensures s'.trail[i].v < |s'.vardata| && ReasonAt(s', i) {
      assert ReasonAt(s, i) && s'.trail[i] == s.trail[i];
      var r := Reason(s, s.trail[i].v);
      if r != CREF_UNDEF {
        forall k | 0 <= k < |s.ca[r]| && s.ca[r][k] != s.trail[i] ensures FalseBefore(s', s.ca[r][k], i) {
          CancelOn(s, level, s.ca[r][k]);
          assert FalseBefore(s, s.ca[r][k], i);
        }
      }
    }
  }

  lemma CancelKeeps(s: State, level: nat)
    requires Inv(s) && level < |s.trailLim|
    ensures Inv(Cancelled(s, level)) && Decided(Cancelled(s, level))
  {
    var s' := Cancelled(s, level);
    CancelReasons(s, level);
    forall i | 0 <= i < |s'.trail| ensures s'.trail[i].v < |s'.vardata| && LevelAt(s', i) {
      assert LevelAt(s, i);
      var l := Level(s, s.trail[i].v);
      assert l > level ==> s.trailLim[level] <= s.trailLim[l - 1];
    }
  }

  /** Backjumping keeps exactly the literals of level at most `level`. */
  lemma CancelLevels(s: State, level: nat, q: Lit)
    requires Inv(s) && level < |s.trailLim| && On(s, q)
    ensures On(Cancelled(s, level), q) <==> Level(s, q.v) <= level
  {
    assert LevelAt(s, s.pos[q.v]);
    var l := Level(s, q.v);
    if l > level { assert s.trailLim[level] <= s.trailLim[l - 1]; }
    if l < level { assert s.trailLim[l] < s.trailLim[level]; }
  }

  // ---------------------------------------------------------------- what propagation may change

  ghost predicate SameClauses(ca: seq<Clause>, ca': seq<Clause>) {
    |ca| == |ca'| && forall r :: 0 <= r < |ca| ==> SameLits(ca[r], ca'[r])
  }

  /** `t` is `s` after some propagation: the trail grew by literals with reasons, and clauses were
      at most reordered. */
  ghost predicate Extends(s: State, t: State) {
    && t.n == s.n && t.trailLim == s.trailLim
    && |s.trail| <= |t.trail| && t.trail[..|s.trail|] == s.trail
    && |t.vardata| == |s.vardata| == |t.pos| == |s.pos| == |s.assigns| == |t.assigns| == s.n
    && (forall i :: 0 <= i < |s.trail| ==> s.trail[i].v < s.n && t.vardata[s.trail[i].v] == s.vardata[s.trail[i].v])
    && (forall i :: 0 <= i < |s.trail| ==> t.pos[s.trail[i].v] == s.pos[s.trail[i].v])
    && (forall i :: |s.trail| <= i < |t.trail| ==> t.trail[i].v < s.n && t.vardata[t.trail[i].v].reason != CREF_UNDEF)
    && SameClauses(s.ca, t.ca)
  }

  lemma SameLitsTrans(c: Clause, d: Clause, e: Clause)
    requires SameLits(c, d) && SameLits(d, e)
    ensures SameLits(c, e)
  {
  }

  lemma ExtendsSelf(s: State)
    requires Inv(s)
    ensures Extends(s, s)
  {
  }

  lemma ExtendsClauses(s: State, t: State, u: State)
    requires Extends(s, t) && u == t.(ca := u.ca) && SameClauses(t.ca, u.ca)
    ensures Extends(s, u)
  {
    forall r | 0 <= r < |s.ca| ensures SameLits(s.ca[r], u.ca[r]) {
      SameLitsTrans(s.ca[r], t.ca[r], u.ca[r]);
    }
  }

  lemma ExtendsEnqueue(s: State, t: State, p: Lit, from: nat)
    requires Extends(s, t) && TrailOk(t) && CanEnqueue(t, p, from)
    ensures Extends(s, Enqueue(t, p, from))
  {
    var u := Enqueue(t, p, from);
    forall i | 0 <= i < |t.trail| ensures t.trail[i].v != p.v {
      assert t.assigns[t.trail[i].v] == Lifted(t.trail[i]);
    }
    assert forall i :: 0 <= i < |s.trail| ==> s.trail[i] == t.trail[..|s.trail|][i] == t.trail[i];
    assert u.trail[..|s.trail|] == t.trail[..|s.trail|];
  }

  lemma ExtendsOn(s: State, t: State, q: Lit)
    requires Extends(s, t) && On(s, q)
    ensures On(t, q) && t.vardata[q.v] == s.vardata[q.v] && t.pos[q.v] == s.pos[q.v]
  {
    assert t.trail[..|s.trail|][s.pos[q.v]] == t.trail[s.pos[q.v]];
  }

  /** At most `n` literals fit on the trail. */
  lemma TrailBound(s: State)
    requires TrailOk(s)
    ensures |s.trail| <= s.n
  {
    var vs := set i | 0 <= i < |s.trail| :: s.trail[i].v;
    ImageSize(s.trail, |s.trail|);
    assert vs <= Below(s.n);
    SubsetSize(vs, Below(s.n));
  }

  lemma {:induction false} ImageSize(t: seq<Lit>, k: nat)
    requires k <= |t| && forall i, j :: 0 <= i < j < |t| ==> t[i].v != t[j].v
    ensures |set i | 0 <= i < k :: t[i].v| == k
  {
    if k > 0 {
      ImageSize(t, k - 1);
      var a := set i | 0 <= i < k - 1 :: t[i].v;
      assert (set i | 0 <= i < k :: t[i].v) == a + {t[k - 1].v};
      assert t[k - 1].v !in a;
    }
  }
}
