/** The ring of shared clauses as a window on an append-only sequence of words. */
module RingState {
  import opened FiniteSets

  datatype Entry = Entry(origin: nat, lits: seq<nat>)

  const HEADER_SIZE: nat := 3

  // ---------------------------------------------------------------- addresses

  /** The ring slot of the word with absolute address `a`. */
  function Slot(a: nat, maxsize: nat): (s: nat)
    requires maxsize > 0
    ensures s < maxsize
  {
    if a < maxsize then a else Slot(a - maxsize, maxsize)
  }

  function NextIndex(i: nat, maxsize: nat): nat {
    if i + 1 == maxsize then 0 else i + 1
  }

  function AddIndex(i: nat, a: nat, maxsize: nat): nat {
    if i + a >= maxsize then i + a - maxsize else i + a
  }

  lemma {:induction false} SlotAdd(a: nat, b: nat, maxsize: nat)
    requires maxsize > 0 && b <= maxsize
    ensures Slot(a + b, maxsize) == AddIndex(Slot(a, maxsize), b, maxsize)
  {
    if a >= maxsize {
      SlotAdd(a - maxsize, b, maxsize);
    }
  }

  lemma SlotNext(a: nat, maxsize: nat)
    requires maxsize > 0
    ensures Slot(a + 1, maxsize) == NextIndex(Slot(a, maxsize), maxsize)
  {
    SlotAdd(a, 1, maxsize);
  }

  /** Distinct addresses less than a turn apart have distinct slots. */
  lemma SlotDistinct(a: nat, b: nat, maxsize: nat)
    requires maxsize > 0 && a < b < a + maxsize
    ensures Slot(a, maxsize) != Slot(b, maxsize)
  {
    SlotAdd(a, b - a, maxsize);
  }

  // ---------------------------------------------------------------- the sequence of words

  /** The ring shows the words from address `from` on. */
  ghost predicate Window(elems: seq<nat>, flat: seq<nat>, from: nat) {
    && |elems| > 0 && from <= |flat| < from + |elems|
    && forall a :: from <= a < |flat| ==> elems[Slot(a, |elems|)] == flat[a]
  }

  lemma WindowPush(elems: seq<nat>, flat: seq<nat>, from: nat, x: nat)
    requires Window(elems, flat, from) && |flat| + 1 < from + |elems|
    ensures Window(elems[Slot(|flat|, |elems|) := x], flat + [x], from)
  {
    forall a | from <= a < |flat| ensures Slot(a, |elems|) != Slot(|flat|, |elems|) {
      SlotDistinct(a, |flat|, |elems|);
    }
  }

  lemma WindowShrink(elems: seq<nat>, flat: seq<nat>, from: nat, from': nat)
    requires Window(elems, flat, from) && from <= from' <= |flat|
    ensures Window(elems, flat, from')
  {
  }

  lemma WindowUpdate(elems: seq<nat>, flat: seq<nat>, from: nat, a: nat, x: nat)
    requires Window(elems, flat, from) && from <= a < |flat|
    ensures Window(elems[Slot(a, |elems|) := x], flat[a := x], from)
  {
    forall b | from <= b < |flat| && b != a ensures Slot(b, |elems|) != Slot(a, |elems|) {
      if a < b { SlotDistinct(a, b, |elems|); } else { SlotDistinct(b, a, |elems|); }
    }
  }

  // ---------------------------------------------------------------- the sequence of clauses

  /** `starts[k]` is the address of clause `k`; words: size, counter, origin, literals. */
  ghost predicate Encoded(flat: seq<nat>, starts: seq<nat>, log: seq<Entry>) {
    && |starts| == |log| + 1 && starts[0] > 0 && starts[|log|] == |flat|
    && (forall k :: 0 <= k < |log| ==> starts[k + 1] == starts[k] + HEADER_SIZE + |log[k].lits|)
    && (forall k :: 0 <= k <= |log| ==> starts[k] > 0)
    && (forall k :: 0 <= k < |log| ==> EntryAt(flat, starts[k], log[k]))
  }

  ghost predicate EntryAt(flat: seq<nat>, a: nat, e: Entry) {
    && a + HEADER_SIZE + |e.lits| <= |flat|
    && flat[a] == |e.lits| && flat[a + 2] == e.origin
    && forall i :: 0 <= i < |e.lits| ==> flat[a + HEADER_SIZE + i] == e.lits[i]
  }

  lemma {:induction false} StartsGrow(flat: seq<nat>, starts: seq<nat>, log: seq<Entry>, j: nat, k: nat)
    requires Encoded(flat, starts, log) && j <= k <= |log|
    ensures starts[j] <= starts[k] <= |flat| && (j < k ==> starts[j] + HEADER_SIZE <= starts[k])
    decreases |log| - j
  {
    if j < k {
      StartsGrow(flat, starts, log, j + 1, k);
    } else if k < |log| {
      StartsGrow(flat, starts, log, k + 1, |log|);
    }
  }

  /** The threads other than the origin that have not passed clause `k` yet. */
  ghost function Waiting(log: seq<Entry>, cur: seq<nat>, k: nat): (w: set<nat>)
    requires k < |log|
    ensures forall t :: t in w <==> 0 <= t < |cur| && t != log[k].origin && cur[t] <= k
  {
    set t | t in Below(|cur|) && t != log[k].origin && cur[t] <= k
  }

  /** What thread `t` should have been given of the first clauses: those of other threads, in order. */
  ghost function Foreign(log: seq<Entry>, t: nat): seq<Entry> {
    if log == [] then []
    else if log[|log| - 1].origin == t then Foreign(log[..|log| - 1], t)
    else Foreign(log[..|log| - 1], t) + [log[|log| - 1]]
  }

  lemma ForeignStep(log: seq<Entry>, t: nat, k: nat)
    requires k < |log|
    ensures Foreign(log[..k + 1], t) == if log[k].origin == t then Foreign(log[..k], t) else Foreign(log[..k], t) + [log[k]]
  {
    assert log[..k + 1][..k] == log[..k];
  }

  /** Clauses of the thread itself add nothing. */
  lemma {:induction false} ForeignSkip(log: seq<Entry>, t: nat, j: nat, k: nat)
    requires j <= k <= |log| && forall i :: j <= i < k ==> log[i].origin == t
    ensures Foreign(log[..k], t) == Foreign(log[..j], t)
    decreases k - j
  {
    if j < k {
      ForeignSkip(log, t, j, k - 1);
      ForeignStep(log, t, k - 1);
    }
  }

  /** Cursors moved up to `b`. */
  ghost function Raised(cur: seq<nat>, b: nat): seq<nat> {
    seq(|cur|, t requires 0 <= t < |cur| => if cur[t] < b then b else cur[t])
  }

  lemma RaisedWaiting(log: seq<Entry>, cur: seq<nat>, b: nat, k: nat)
    requires b <= k < |log|
    ensures Waiting(log, Raised(cur, b), k) == Waiting(log, cur, k)
  {
  }

  /** The first clause from `from` on that another thread put in, if there is one. */
  ghost function NextForeign(log: seq<Entry>, from: nat, t: nat): (k: nat)
    requires from <= |log|
    ensures from <= k <= |log| && (forall i :: from <= i < k ==> log[i].origin == t)
    ensures k < |log| ==> log[k].origin != t
    decreases |log| - from
  {
    if from < |log| && log[from].origin == t then NextForeign(log, from + 1, t) else from
  }

  lemma RaisedTwice(cur: seq<nat>, a: nat, b: nat)
    requires a <= b
    ensures Raised(Raised(cur, a), b) == Raised(cur, b)
  {
  }

  /** A cursor between the oldest word and the newest is never taken for a stale one. */
  lemma NeverStale(b: nat, a: nat, c: nat, maxsize: nat)
    requires maxsize > 0 && b <= a < c <= b + maxsize
    ensures !Stale(Slot(a, maxsize), Slot(b, maxsize), Slot(c, maxsize))
  {
    SlotAdd(b, a - b, maxsize);
    SlotAdd(b, c - b, maxsize);
  }

  /** The test for a cursor that `last` has overtaken. */
  predicate Stale(thislast: nat, last: nat, first: nat) {
    || (thislast < last && last < first)
    || (first < thislast && thislast < last)
    || (last < first && first < thislast)
  }
}
