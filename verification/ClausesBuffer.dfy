/** The ring buffer through which the solver threads broadcast learnt clauses. */
module SharedRing {
  import opened FiniteSets
  import opened RingState

  // ---------------------------------------------------------------- invariants on values

  /** The counter a clause should have; a single thread never consumes, and its clauses keep 1. */
  ghost function Count(log: seq<Entry>, cur: seq<nat>, k: nat): nat
    requires k < |log|
  {
    if |cur| > 1 then |Waiting(log, cur, k)| else 1
  }

  /** With clause `k` as the oldest, `size` literals fit, and somebody waits for it. */
  ghost predicate StopsAt(flat: seq<nat>, starts: seq<nat>, log: seq<Entry>, cur: seq<nat>, k: nat, size: nat, maxsize: nat)
    requires k < |log| && |starts| > |log|
  {
    Count(log, cur, k) > 0 && |flat| - starts[k] + size + HEADER_SIZE < maxsize
  }

  ghost predicate CountersFrom(flat: seq<nat>, starts: seq<nat>, log: seq<Entry>, cur: seq<nat>, base: nat) {
    && |starts| == |log| + 1
    && forall k :: base <= k < |log| ==> starts[k] + 1 < |flat| && flat[starts[k] + 1] == Count(log, cur, k)
  }

  /** Each cursor is a clause boundary in the ring, and its slot is recorded for its thread. */
  ghost predicate Cursors(starts: seq<nat>, log: seq<Entry>, base: nat, cur: seq<nat>, lastOfThread: seq<nat>, maxsize: nat) {
    && |starts| == |log| + 1 && |cur| == |lastOfThread| && maxsize > 0
    && forall t :: 0 <= t < |cur| ==>
         base <= cur[t] <= |log| && starts[cur[t]] > 0 && lastOfThread[t] == Slot(starts[cur[t]] - 1, maxsize)
  }

  ghost predicate IsSubsequence(a: seq<Entry>, b: seq<Entry>) {
    if b == [] then a == []
    else IsSubsequence(a, b[..|b| - 1]) || (a != [] && a[|a| - 1] == b[|b| - 1] && IsSubsequence(a[..|a| - 1], b[..|b| - 1]))
  }

  /** What the threads have been given: all foreign clauses before the cursor, in order, and in
      removal mode at least no others and none twice. */
  ghost predicate Deliveries(log: seq<Entry>, cur: seq<nat>, delivered: seq<seq<Entry>>, lossless: bool) {
    && |delivered| == |cur|
    && forall t :: 0 <= t < |cur| ==>
         && cur[t] <= |log|
         && IsSubsequence(delivered[t], Foreign(log[..cur[t]], t))
         && (lossless ==> delivered[t] == Foreign(log[..cur[t]], t))
  }

  lemma {:induction false} SubsequenceSelf(a: seq<Entry>)
    ensures IsSubsequence(a, a)
  {
    if a != [] { SubsequenceSelf(a[..|a| - 1]); }
  }

  lemma SubsequenceSkip(a: seq<Entry>, b: seq<Entry>, e: Entry)
    requires IsSubsequence(a, b)
    ensures IsSubsequence(a, b + [e]) && IsSubsequence(a + [e], b + [e])
  {
    assert (b + [e])[..|b|] == b && (a + [e])[..|a|] == a;
  }

  /** Moving a cursor forward without delivering. */
  lemma {:induction false} SubsequenceForward(a: seq<Entry>, log: seq<Entry>, t: nat, j: nat, k: nat)
    requires j <= k <= |log| && IsSubsequence(a, Foreign(log[..j], t))
    ensures IsSubsequence(a, Foreign(log[..k], t))
    decreases k - j
  {
    hide IsSubsequence, Foreign;
    if j < k {
      SubsequenceForward(a, log, t, j, k - 1);
      ForeignStep(log, t, k - 1);
      if log[k - 1].origin != t {
        SubsequenceSkip(a, Foreign(log[..k - 1], t), log[k - 1]);
      }
    }
  }

  ghost function Redirected(list: seq<nat>, a: nat, b: nat): seq<nat> {
    seq(|list|, t requires 0 <= t < |list| => if list[t] == a then b else list[t])
  }

  lemma StartsOf(flat: seq<nat>, starts: seq<nat>, log: seq<Entry>, k: nat)
    requires Encoded(flat, starts, log) && k < |log|
    ensures |starts| == |log| + 1 && 0 < starts[k] && starts[k + 1] == starts[k] + HEADER_SIZE + |log[k].lits| <= |flat|
    ensures starts[k] + 1 < |flat|
  {
    StartsGrow(flat, starts, log, 0, k);
    StartsGrow(flat, starts, log, k + 1, |log|);
  }

  /** The ring shows the header of clause `k` at the slots of its words. */
  lemma WordOf(elems: seq<nat>, flat: seq<nat>, starts: seq<nat>, log: seq<Entry>, k: nat, base: nat)
    requires Encoded(flat, starts, log) && k < |log| && base <= k && Window(elems, flat, starts[base])
    ensures elems[Slot(starts[k], |elems|)] == |log[k].lits|
    ensures elems[Slot(starts[k] + 2, |elems|)] == log[k].origin
    ensures elems[Slot(starts[k] + 1, |elems|)] == flat[starts[k] + 1]
    ensures forall i :: 0 <= i < |log[k].lits| ==> elems[Slot(starts[k] + HEADER_SIZE + i, |elems|)] == log[k].lits[i]
    ensures HEADER_SIZE + |log[k].lits| < |elems| && |flat| < starts[base] + |elems|
  {
    StartsGrow(flat, starts, log, base, k);
    StartsOf(flat, starts, log, k);
    assert EntryAt(flat, starts[k], log[k]);
  }

  lemma CursorsRaised(flat: seq<nat>, starts: seq<nat>, log: seq<Entry>, base: nat, cur: seq<nat>, lastOfThread: seq<nat>, maxsize: nat)
    requires Encoded(flat, starts, log) && base < |log| && Cursors(starts, log, base, cur, lastOfThread, maxsize)
    requires starts[base] > 0 && |flat| < starts[base] + maxsize
    ensures starts[base + 1] > 0
    ensures Cursors(starts, log, base + 1, Raised(cur, base + 1),
                    Redirected(lastOfThread, Slot(starts[base] - 1, maxsize), Slot(starts[base + 1] - 1, maxsize)), maxsize)
  {
    StartsOf(flat, starts, log, base);
    forall t | 0 <= t < |cur| && cur[t] > base ensures Slot(starts[cur[t]] - 1, maxsize) != Slot(starts[base] - 1, maxsize) {
      StartsGrow(flat, starts, log, base, cur[t]);
      SlotDistinct(starts[base] - 1, starts[cur[t]] - 1, maxsize);
    }
  }

  /** The ring is empty exactly when all clauses are removed. */
  lemma RoomLeft(flat: seq<nat>, starts: seq<nat>, log: seq<Entry>, base: nat)
    requires Encoded(flat, starts, log) && base <= |log|
    ensures |starts| == |log| + 1 && starts[base] <= |flat| && (|flat| - starts[base] > 0 <==> base < |log|)
  {
    StartsGrow(flat, starts, log, base, |log|);
  }

  /** The second word of the oldest clause is its counter. */
  lemma CounterShown(elems: seq<nat>, flat: seq<nat>, starts: seq<nat>, log: seq<Entry>, base: nat, from: nat, cur: seq<nat>, maxsize: nat)
    requires Encoded(flat, starts, log) && from <= base < |log| && |elems| == maxsize && Window(elems, flat, starts[base])
    requires CountersFrom(flat, starts, log, cur, from) && starts[base] > 0
    ensures elems[AddIndex(Slot(starts[base] - 1, maxsize), 2, maxsize)] == Count(log, cur, base)
  {
    StartsOf(flat, starts, log, base);
    WordOf(elems, flat, starts, log, base, base);
    SlotAdd(starts[base] - 1, 2, maxsize);
  }

  lemma RaisedCounters(flat: seq<nat>, starts: seq<nat>, log: seq<Entry>, cur: seq<nat>, from: nat, base: nat)
    requires CountersFrom(flat, starts, log, cur, from) && from <= base
    ensures CountersFrom(flat, starts, log, Raised(cur, base), base)
  {
    forall k | base <= k < |log| ensures Count(log, Raised(cur, base), k) == Count(log, cur, k) {
      RaisedWaiting(log, cur, base, k);
    }
  }

  /** Raising the cursors does not change who waits for later clauses. */
  lemma RaisedCounts(log: seq<Entry>, cur: seq<nat>, base: nat)
    ensures forall k :: base <= k < |log| ==> Count(log, Raised(cur, base), k) == Count(log, cur, k)
  {
    forall k | base <= k < |log| ensures Count(log, Raised(cur, base), k) == Count(log, cur, k) {
      RaisedWaiting(log, cur, base, k);
    }
  }

  lemma RaisedCount(log: seq<Entry>, cur: seq<nat>, k: nat)
    requires k < |log|
    ensures Count(log, Raised(cur, k), k) == Count(log, cur, k)
  {
    RaisedWaiting(log, cur, k, k);
  }

  lemma CountersFewer(flat: seq<nat>, starts: seq<nat>, log: seq<Entry>, cur: seq<nat>, base: nat)
    requires CountersFrom(flat, starts, log, cur, base)
    ensures CountersFrom(flat, starts, log, cur, base + 1)
  {
  }

  lemma RaisedSame(flat: seq<nat>, starts: seq<nat>, log: seq<Entry>, base: nat, cur: seq<nat>, lastOfThread: seq<nat>, maxsize: nat)
    requires Cursors(starts, log, base, cur, lastOfThread, maxsize)
    ensures Raised(cur, base) == cur && forall t :: 0 <= t < |cur| ==> base <= cur[t]
  {
  }

  /** Cursors that jump over removed clauses lose nothing if nobody waited for these. */
  lemma RaisedDeliveries(log: seq<Entry>, cur: seq<nat>, delivered: seq<seq<Entry>>, b: nat, lossless: bool)
    requires Deliveries(log, cur, delivered, lossless) && b <= |log|
    requires lossless ==> forall t, k :: 0 <= t < |cur| && cur[t] <= k < b ==> log[k].origin == t
    ensures Deliveries(log, Raised(cur, b), delivered, lossless)
  {
    forall t | 0 <= t < |cur| && cur[t] < b
      ensures IsSubsequence(delivered[t], Foreign(log[..b], t))
      ensures lossless ==> delivered[t] == Foreign(log[..b], t)
    {
      SubsequenceForward(delivered[t], log, t, cur[t], b);
      if lossless {
        ForeignSkip(log, t, cur[t], b);
      }
    }
  }

  /** The words of a new clause. */
  ghost function Words(origin: nat, lits: seq<nat>, nbThreads: nat): (w: seq<nat>)
    ensures |w| == HEADER_SIZE + |lits|
  {
    [|lits|, if nbThreads > 1 then nbThreads - 1 else 1, origin] + lits
  }

  lemma EncodedPush(flat: seq<nat>, starts: seq<nat>, log: seq<Entry>, e: Entry, n: nat)
    requires Encoded(flat, starts, log)
    ensures Encoded(flat + Words(e.origin, e.lits, n), starts + [|flat| + HEADER_SIZE + |e.lits|], log + [e])
  {
    var flat', log' := flat + Words(e.origin, e.lits, n), log + [e];
    forall k | 0 <= k < |log| ensures EntryAt(flat', starts[k], log'[k]) {
      StartsGrow(flat, starts, log, k, |log|);
      assert EntryAt(flat, starts[k], log[k]);
    }
    assert EntryAt(flat', |flat|, e);
  }

  lemma CursorsPush(starts: seq<nat>, log: seq<Entry>, base: nat, cur: seq<nat>, lastOfThread: seq<nat>, maxsize: nat, e: Entry, end: nat)
    requires Cursors(starts, log, base, cur, lastOfThread, maxsize)
    ensures Cursors(starts + [end], log + [e], base, cur, lastOfThread, maxsize)
    ensures forall t :: 0 <= t < |cur| ==> cur[t] <= |log|
  {
  }

  /** A new clause waits for every thread but its origin; the other counts stay. */
  lemma CountPush(log: seq<Entry>, cur: seq<nat>, e: Entry)
    requires e.origin < |cur| && forall t :: 0 <= t < |cur| ==> cur[t] <= |log|
    ensures Count(log + [e], cur, |log|) == if |cur| > 1 then |cur| - 1 else 1
    ensures forall k :: 0 <= k < |log| ==> Count(log + [e], cur, k) == Count(log, cur, k)
  {
    assert Waiting(log + [e], cur, |log|) == Below(|cur|) - {e.origin};
    forall k | 0 <= k < |log| ensures Count(log + [e], cur, k) == Count(log, cur, k) {
      assert Waiting(log + [e], cur, k) == Waiting(log, cur, k);
    }
  }

  lemma CountersPush(flat: seq<nat>, starts: seq<nat>, log: seq<Entry>, cur: seq<nat>, base: nat, e: Entry)
    requires Encoded(flat, starts, log) && CountersFrom(flat, starts, log, cur, base) && base <= |log|
    requires e.origin < |cur| && forall t :: 0 <= t < |cur| ==> cur[t] <= |log|
    requires base < |log| ==> Count(log, cur, base) > 0
    ensures CountersFrom(flat + Words(e.origin, e.lits, |cur|), starts + [|flat| + HEADER_SIZE + |e.lits|], log + [e], cur, base)
    ensures Count(log + [e], cur, base) > 0
  {
    hide Encoded, Count;
    EncodedEnd(flat, starts, log);
    CountPush(log, cur, e);
    var flat', starts' := flat + Words(e.origin, e.lits, |cur|), starts + [|flat| + HEADER_SIZE + |e.lits|];
    assert flat'[|flat| + 1] == Words(e.origin, e.lits, |cur|)[1];
    forall k | base <= k < |log| + 1
      ensures starts'[k] + 1 < |flat'| && flat'[starts'[k] + 1] == Count(log + [e], cur, k)
    {
      if k == |log| {
        assert starts'[k] == |flat|;
      } else {
        assert starts'[k] == starts[k];
      }
    }
  }

  lemma EncodedEnd(flat: seq<nat>, starts: seq<nat>, log: seq<Entry>)
    requires Encoded(flat, starts, log)
    ensures |starts| == |log| + 1 && starts[|log|] == |flat| && forall k :: 0 <= k <= |log| ==> starts[k] > 0
  {
  }

  lemma DeliveriesPush(log: seq<Entry>, cur: seq<nat>, delivered: seq<seq<Entry>>, lossless: bool, e: Entry)
    requires Deliveries(log, cur, delivered, lossless)
    ensures Deliveries(log + [e], cur, delivered, lossless)
  {
    forall t | 0 <= t < |cur| ensures (log + [e])[..cur[t]] == log[..cur[t]] {
    }
  }

  lemma WindowSize(elems: seq<nat>, flat: seq<nat>, from: nat)
    requires Window(elems, flat, from)
    ensures 0 < |elems| && from <= |flat| < from + |elems|
  {
  }

  /** What the ring shows behind a cursor. */
  lemma Looking(elems: seq<nat>, flat: seq<nat>, starts: seq<nat>, log: seq<Entry>, base: nat, k: nat)
    requires Encoded(flat, starts, log) && base <= k <= |log| && Window(elems, flat, starts[base]) && starts[base] > 0
    ensures |elems| > 0 && |starts| == |log| + 1 && starts[k] > 0
    ensures NextIndex(Slot(starts[k] - 1, |elems|), |elems|) == Slot(|flat|, |elems|) <==> k == |log|
    ensures k < |log| ==>
      var at := Slot(starts[k] - 1, |elems|);
      && NextIndex(at, |elems|) < |elems| && elems[NextIndex(at, |elems|)] == |log[k].lits|
      && AddIndex(at, 3, |elems|) < |elems| && elems[AddIndex(at, 3, |elems|)] == log[k].origin
      && AddIndex(at, |log[k].lits| + HEADER_SIZE, |elems|) == Slot(starts[k + 1] - 1, |elems|)
  {
    hide Encoded, Window, Slot;
    StartsGrow(flat, starts, log, base, k);
    RoomLeft(flat, starts, log, k);
    WindowSize(elems, flat, starts[base]);
    EncodedEnd(flat, starts, log);
    SlotNext(starts[k] - 1, |elems|);
    if k < |log| {
      StartsOf(flat, starts, log, k);
      WordOf(elems, flat, starts, log, k, base);
      SlotDistinct(starts[k], |flat|, |elems|);
      SlotAdd(starts[k] - 1, 3, |elems|);
      SlotAdd(starts[k] - 1, |log[k].lits| + HEADER_SIZE, |elems|);
    }
  }

  /** Changing a counter changes nothing else. */
  lemma EncodedUpdate(flat: seq<nat>, starts: seq<nat>, log: seq<Entry>, k: nat, x: nat)
    requires Encoded(flat, starts, log) && k < |log| && starts[k] + 1 < |flat|
    ensures Encoded(flat[starts[k] + 1 := x], starts, log)
  {
    forall j | 0 <= j < |log| ensures EntryAt(flat[starts[k] + 1 := x], starts[j], log[j]) {
      assert EntryAt(flat, starts[j], log[j]);
      if j < k {
        StartsGrow(flat, starts, log, j + 1, k);
      } else if k < j {
        StartsGrow(flat, starts, log, k + 1, j);
      }
    }
  }

  lemma EntryRead(flat: seq<nat>, starts: seq<nat>, log: seq<Entry>, k: nat)
    requires Encoded(flat, starts, log) && k < |log|
    ensures var a := starts[k] + HEADER_SIZE; var n := |log[k].lits|;
            a + n <= |flat| && log[k] == Entry(log[k].origin, flat[a..a + n]) && starts[k + 1] == a + n
  {
    assert EntryAt(flat, starts[k], log[k]);
  }

  lemma CursorOf(starts: seq<nat>, log: seq<Entry>, base: nat, cur: seq<nat>, lastOfThread: seq<nat>, maxsize: nat, t: nat)
    requires Cursors(starts, log, base, cur, lastOfThread, maxsize) && t < |cur|
    ensures |lastOfThread| == |cur| && base <= cur[t] <= |log| && starts[cur[t]] > 0
    ensures lastOfThread[t] == Slot(starts[cur[t]] - 1, maxsize)
  {
  }

  /** No cursor in the ring looks stale, so the repair never applies. */
  lemma CursorFresh(elems: seq<nat>, flat: seq<nat>, starts: seq<nat>, log: seq<Entry>, base: nat, k: nat)
    requires Encoded(flat, starts, log) && base <= k < |log| && Window(elems, flat, starts[base]) && starts[base] > 0
    ensures starts[k] > 0
    ensures !Stale(Slot(starts[k] - 1, |elems|), Slot(starts[base] - 1, |elems|), Slot(|flat|, |elems|))
  {
    StartsGrow(flat, starts, log, base, k);
    StartsGrow(flat, starts, log, k, |log|);
    NeverStale(starts[base] - 1, starts[k] - 1, |flat|, |elems|);
  }

  lemma EverythingSeen(log: seq<Entry>, cur: seq<nat>, delivered: seq<seq<Entry>>, lossless: bool, t: nat)
    requires Deliveries(log, cur, delivered, lossless) && t < |cur|
    ensures |delivered| == |cur|
    ensures cur[t] == |log| && lossless ==> delivered[t] == Foreign(log, t)
  {
    assert log[..|log|] == log;
  }

  lemma NothingTaken(flat: seq<nat>, starts: seq<nat>, log: seq<Entry>, cur: seq<nat>, base: nat, delivered: seq<seq<Entry>>, lossless: bool, t: nat)
    requires CountersFrom(flat, starts, log, cur, base) && Deliveries(log, cur, delivered, lossless) && t < |cur|
    requires cur[t] <= |log| && NextForeign(log, cur[t], t) == |log|
    ensures CountersFrom(flat, starts, log, cur[t := |log|], base)
    ensures base < |log| ==> Count(log, cur[t := |log|], base) == Count(log, cur, base)
    ensures Deliveries(log, cur[t := |log|], delivered, lossless)
  {
    var moved := cur[t := |log|];
    forall k | 0 <= k < |log| ensures Count(log, moved, k) == Count(log, cur, k) {
      assert Waiting(log, moved, k) == Waiting(log, cur, k);
    }
    SubsequenceForward(delivered[t], log, t, cur[t], |log|);
    ForeignSkip(log, t, cur[t], |log|);
  }

  /** Taking a clause: its count loses one, the others keep theirs. */
  lemma TakenCount(log: seq<Entry>, cur: seq<nat>, t: nat, k: nat)
    requires forall i :: 0 <= i < |log| ==> log[i].origin < |cur|
    requires t < |cur| && cur[t] <= k < |log| && k == NextForeign(log, cur[t], t)
    ensures |cur| > 1 && Count(log, cur, k) > 0 && Count(log, cur[t := k + 1], k) == Count(log, cur, k) - 1
    ensures forall j :: 0 <= j < |log| && j != k ==> Count(log, cur[t := k + 1], j) == Count(log, cur, j)
  {
    var moved := cur[t := k + 1];
    assert t in Waiting(log, cur, k);
    assert Waiting(log, moved, k) == Waiting(log, cur, k) - {t};
    forall j | 0 <= j < |log| && j != k ensures Count(log, moved, j) == Count(log, cur, j) {
      assert Waiting(log, moved, j) == Waiting(log, cur, j);
    }
  }

  lemma TakenCounters(flat: seq<nat>, starts: seq<nat>, log: seq<Entry>, cur: seq<nat>, base: nat, t: nat, k: nat)
    requires Encoded(flat, starts, log) && CountersFrom(flat, starts, log, cur, base)
    requires forall i :: 0 <= i < |log| ==> log[i].origin < |cur|
    requires t < |cur| && cur[t] <= k < |log| && base <= k && k == NextForeign(log, cur[t], t)
    ensures |cur| > 1 && starts[k] + 1 < |flat| && flat[starts[k] + 1] > 0
    ensures CountersFrom(flat[starts[k] + 1 := flat[starts[k] + 1] - 1], starts, log, cur[t := k + 1], base)
    ensures Count(log, cur[t := k + 1], k) == flat[starts[k] + 1] - 1
  {
    hide Encoded, Count, NextForeign;
    TakenCount(log, cur, t, k);
    forall j | base <= j < |log| && j != k ensures starts[j] != starts[k] {
      if j < k {
        StartsGrow(flat, starts, log, j, k);
      } else {
        StartsGrow(flat, starts, log, k, j);
      }
    }
  }

  lemma TakenDelivery(log: seq<Entry>, cur: seq<nat>, delivered: seq<seq<Entry>>, lossless: bool, t: nat, k: nat)
    requires Deliveries(log, cur, delivered, lossless) && t < |cur| && cur[t] <= k < |log| && k == NextForeign(log, cur[t], t)
    ensures |delivered| == |cur|
    ensures Deliveries(log, cur[t := k + 1], delivered[t := delivered[t] + [log[k]]], lossless)
  {
    hide Foreign, IsSubsequence, NextForeign;
    SubsequenceForward(delivered[t], log, t, cur[t], k);
    ForeignSkip(log, t, cur[t], k);
    ForeignStep(log, t, k);
    SubsequenceSkip(delivered[t], Foreign(log[..k], t), log[k]);
  }

  /** The clause that was taken is the oldest one exactly if the cursor was at `last`. */
  lemma OldestTaken(elems: seq<nat>, flat: seq<nat>, starts: seq<nat>, log: seq<Entry>, base: nat, k: nat, maxsize: nat)
    requires Encoded(flat, starts, log) && base <= k < |log| && starts[base] > 0
    requires |elems| == maxsize && Window(elems, flat, starts[base])
    ensures starts[k] > 0 && (Slot(starts[base] - 1, maxsize) == Slot(starts[k] - 1, maxsize) <==> base == k)
    ensures starts[k + 1] > 0
  {
    StartsOf(flat, starts, log, k);
    StartsGrow(flat, starts, log, base, k);
    if base < k {
      SlotDistinct(starts[base] - 1, starts[k] - 1, maxsize);
    }
  }

  lemma MovedCount(log: seq<Entry>, cur: seq<nat>, base: nat, t: nat, k: nat)
    requires t < |cur| && cur[t] <= base < k < |log|
    ensures Count(log, cur[t := base + 1], k) == Count(log, cur, k)
  {
    assert Waiting(log, cur[t := base + 1], k) == Waiting(log, cur, k);
  }

  lemma MovedCounters(flat: seq<nat>, starts: seq<nat>, log: seq<Entry>, cur: seq<nat>, base: nat, t: nat)
    requires t < |cur| && cur[t] <= base && CountersFrom(flat, starts, log, cur[t := base + 1], base)
    ensures CountersFrom(flat, starts, log, cur, base + 1)
  {
    forall k | base < k < |log| ensures Count(log, cur[t := base + 1], k) == Count(log, cur, k) {
      MovedCount(log, cur, base, t, k);
    }
  }

  lemma MovedRaised(cur: seq<nat>, t: nat, k: nat, b: nat)
    requires t < |cur| && cur[t] <= k <= b
    ensures Raised(cur[t := k], b) == Raised(cur, b) && Raised(cur, b)[t] == b
  {
  }

  /** A removed clause with count zero is missed only by its own thread. */
  lemma NobodyWaits(log: seq<Entry>, cur: seq<nat>, from: nat, b: nat)
    requires |cur| > 1 && b <= |log| && forall t :: 0 <= t < |cur| ==> from <= cur[t]
    requires forall k :: from <= k < b ==> Count(log, cur, k) == 0
    ensures forall t, k :: 0 <= t < |cur| && cur[t] <= k < b ==> log[k].origin == t
  {
    forall t, k | 0 <= t < |cur| && cur[t] <= k < b ensures log[k].origin == t {
      assert Count(log, cur, k) == 0;
      assert t !in Waiting(log, cur, k);
    }
  }

  class ClausesBuffer {
    const whenFullRemoveOlder: bool
    const nbThreads: nat
    const maxsize: nat
    const elems: array<nat>
    var first: nat
    var last: nat
    var queuesize: nat
    var removedClauses: nat
    var forcedRemovedClauses: nat
    var lastOfThread: seq<nat>
    ghost var flat: seq<nat>                 // all words ever pushed, after `maxsize` dummies
    ghost var starts: seq<nat>
    ghost var log: seq<Entry>                // all clauses ever accepted
    ghost var base: nat                      // the oldest clause in the ring
    ghost var cur: seq<nat>                  // the next clause each thread looks at
    ghost var delivered: seq<seq<Entry>>     // what `GetClause` returned to each thread

    /** Layout: the ring shows the words from the oldest clause on. */
    ghost predicate Layout()
      reads this, elems
    {
      && elems.Length == maxsize > 0 && nbThreads == |cur| > 0
      && Encoded(flat, starts, log) && base <= |log|
      && Window(elems[..], flat, starts[base])
      && first == Slot(|flat|, maxsize) && starts[base] > 0 && last == Slot(starts[base] - 1, maxsize)
      && queuesize == |flat| - starts[base]
      && Cursors(starts, log, base, cur, lastOfThread, maxsize)
      && (forall k :: 0 <= k < |log| ==> log[k].origin < nbThreads)
    }

    ghost predicate Valid()
      reads this, elems
    {
      && Layout() && CountersFrom(flat, starts, log, cur, base)
      && (base < |log| ==> Count(log, cur, base) > 0)
      && Deliveries(log, cur, delivered, !whenFullRemoveOlder)
    }

    constructor (nbThreads: nat, maxsize: nat, whenFullRemoveOlder: bool)
      requires nbThreads > 0 && maxsize > 0
      ensures Valid() && log == [] && base == 0 && this.nbThreads == nbThreads && this.maxsize == maxsize
      ensures this.whenFullRemoveOlder == whenFullRemoveOlder && fresh(elems)
      ensures delivered == seq(nbThreads, t => [])
    {
      this.nbThreads, this.maxsize, this.whenFullRemoveOlder := nbThreads, maxsize, whenFullRemoveOlder;
      elems := new nat[maxsize](i => 0);
      first, last, queuesize, removedClauses, forcedRemovedClauses := 0, maxsize - 1, 0, 0, 0;
      lastOfThread := seq(nbThreads, t => maxsize - 1);
      flat, starts, log, base := seq(maxsize, i => 0), [maxsize], [], 0;
      cur := seq(nbThreads, t => 0);
      delivered := seq(nbThreads, t => []);
      new;
      assert log[..0] == [];
    }

    /** Pushes one word. */
    method NoCheckPush(x: nat)
      requires elems.Length == maxsize > 0 && first == Slot(|flat|, maxsize)
      requires starts != [] && base < |starts| && Window(elems[..], flat, starts[base]) && |flat| + 1 < starts[base] + maxsize
      modifies `first, `flat, elems
      ensures flat == old(flat) + [x] && first == Slot(|flat|, maxsize)
      ensures Window(elems[..], flat, starts[base])
    {
      WindowPush(elems[..], flat, starts[base], x);
      SlotNext(|flat|, maxsize);
      elems[first] := x;
      first := NextIndex(first, maxsize);
      flat := flat + [x];
    }

    /** Removes the oldest clause; cursors that point at it move on. */
    method RemoveOldest()
      requires Layout() && base < |log|
      modifies `last, `queuesize, `removedClauses, `lastOfThread, `base, `cur
      ensures Layout() && base == old(base) + 1 && cur == Raised(old(cur), base)
    {
      hide Encoded, Window, Slot, Cursors;
      StartsOf(flat, starts, log, base);
      WordOf(elems[..], flat, starts, log, base, base);
      SlotNext(starts[base] - 1, maxsize);
      var size := elems[NextIndex(last, maxsize)];
      SlotAdd(starts[base] - 1, size + HEADER_SIZE, maxsize);
      var nextlast := AddIndex(last, size + HEADER_SIZE, maxsize);
      CursorsRaised(flat, starts, log, base, cur, lastOfThread, maxsize);
      RaiseCursors(nextlast);
      AdvanceLast(size + HEADER_SIZE, starts[base] - 1);
      removedClauses := removedClauses + 1;
      WindowShrink(elems[..], flat, starts[base], starts[base + 1]);
      cur := Raised(cur, base + 1);
      base := base + 1;
    }

    /** Moves `last` over `n` words. */
    method AdvanceLast(n: nat, ghost a: nat)
      requires maxsize > 0 && last == Slot(a, maxsize) && n <= queuesize
      modifies `last, `queuesize
      ensures last == Slot(a + n, maxsize) && queuesize == old(queuesize) - n
    {
      for i := 0 to n
        invariant last == Slot(a + i, maxsize) && queuesize == old(queuesize) - i
      {
        SlotNext(a + i, maxsize);
        last := NextIndex(last, maxsize);
        queuesize := queuesize - 1;
      }
    }

    /** Every cursor at `last` moves to `nextlast`. */
    method RaiseCursors(nextlast: nat)
      modifies `lastOfThread
      ensures lastOfThread == Redirected(old(lastOfThread), last, nextlast)
    {
      for i := 0 to |lastOfThread|
        invariant |lastOfThread| == |old(lastOfThread)|
        invariant forall t :: 0 <= t < i ==> lastOfThread[t] == Redirected(old(lastOfThread), last, nextlast)[t]
        invariant forall t :: i <= t < |lastOfThread| ==> lastOfThread[t] == old(lastOfThread)[t]
      {
        if lastOfThread[i] == last {
          lastOfThread := lastOfThread[i := nextlast];
        }
      }
    }

    /** Removes the oldest clause, and those after it that nobody waits for. Nothing is left exactly if
        nobody waits for any clause but the oldest. */
    method RemoveLastClause()
      requires Layout() && base < |log| && CountersFrom(flat, starts, log, cur, base + 1)
      modifies `last, `queuesize, `removedClauses, `lastOfThread, `base, `cur
      ensures Layout() && old(base) < base <= |log| && cur == Raised(old(cur), base)
      ensures forall k :: old(base) < k < base ==> Count(log, old(cur), k) == 0
      ensures base == |log| <==> forall k :: old(base) < k < |log| ==> Count(log, old(cur), k) == 0
      ensures CountersFrom(flat, starts, log, cur, base)
      ensures base < |log| ==> Count(log, cur, base) > 0
    {
      hide *;
      ghost var from := base + 1;
      RemoveOldest();
      RaisedCounters(flat, starts, log, old(cur), from, base);
      var idle := Idle();
      while idle
        invariant Layout() && old(base) < base <= |log| && cur == Raised(old(cur), base)
        invariant CountersFrom(flat, starts, log, cur, base)
        invariant idle <==> base < |log| && Count(log, cur, base) == 0
        invariant forall k :: old(base) < k < base ==> Count(log, old(cur), k) == 0
        decreases |log| - base
      {
        ghost var before := cur;
        RaisedCount(log, old(cur), base);
        RemoveOldest();
        RaisedCounters(flat, starts, log, before, base - 1, base);
        RaisedTwice(old(cur), base - 1, base);
        idle := Idle();
      }
      if base < |log| {
        RaisedCount(log, old(cur), base);
      }
    }

    /** Whether there is an oldest clause and nobody waits for it. */
    method Idle() returns (idle: bool)
      requires Layout() && CountersFrom(flat, starts, log, cur, base)
      ensures Layout()
      ensures base <= |log| && (idle <==> base < |log| && Count(log, cur, base) == 0)
    {
      hide Encoded, Window, Slot, Cursors;
      RoomLeft(flat, starts, log, base);
      if queuesize == 0 { return false; }
      CounterShown(elems[..], flat, starts, log, base, base, cur, maxsize);
      WordOf(elems[..], flat, starts, log, base, base);
      return elems[AddIndex(last, 2, maxsize)] == 0;
    }

    /** Removes clauses until `size` more literals fit; a clause larger than the ring finds nothing left to
        remove. The last removal empties the ring exactly if no later clause would have been a place to
        stop at. */
    method MakeRoom(size: nat) returns (fits: bool)
      requires Valid() && whenFullRemoveOlder
      modifies `last, `queuesize, `removedClauses, `forcedRemovedClauses, `lastOfThread, `base, `cur
      ensures Valid() && (fits <==> size + HEADER_SIZE < maxsize)
      ensures fits ==> queuesize + size + HEADER_SIZE < maxsize
      ensures !fits ==> base == |log|
      ensures old(base) <= base && cur == Raised(old(cur), base)
      ensures old(queuesize) + size + HEADER_SIZE < maxsize ==> base == old(base) && cur == old(cur)
      ensures old(queuesize) + size + HEADER_SIZE >= maxsize ==>
                (base == |log| <==> forall k :: old(base) < k < |log| ==> !StopsAt(flat, starts, log, old(cur), k, size, maxsize))
    {
      hide Encoded, Window, Slot, Cursors, CountersFrom, Deliveries, Count;
      RoomLeft(flat, starts, log, base);
      RaisedSame(flat, starts, log, base, cur, lastOfThread, maxsize);
      while queuesize + size + HEADER_SIZE >= maxsize
        invariant Valid() && old(base) <= base && cur == Raised(old(cur), base)
        invariant old(queuesize) + size + HEADER_SIZE < maxsize ==> base == old(base) && cur == old(cur)
        invariant queuesize > 0 <==> base < |log|
        invariant forall k :: old(base) < k < base ==> !StopsAt(flat, starts, log, old(cur), k, size, maxsize)
        invariant old(base) < base < |log| ==> Count(log, old(cur), base) > 0
        invariant base == old(base) ==> queuesize == old(queuesize)
        decreases |log| - base
      {
        if queuesize == 0 {
          return false;
        }
        ghost var cur0, base0 := cur, base;
        forcedRemovedClauses := forcedRemovedClauses + 1;
        CountersFewer(flat, starts, log, cur, base);
        RemoveLastClause();
        RoomLeft(flat, starts, log, base);
        RaisedTwice(old(cur), base0, base);
        RaisedDeliveries(log, cur0, delivered, base, false);
        RaisedCounts(log, old(cur), base0);
        if base < |log| {
          RaisedCount(log, old(cur), base);
        }
      }
      assert old(base) < base < |log| ==> StopsAt(flat, starts, log, old(cur), base, size, maxsize);
      fits := true;
    }

    /** Pushes the words of one clause. */
    method PushWords(threadId: nat, lits: seq<nat>)
      requires Layout() && queuesize + |lits| + HEADER_SIZE < maxsize
      modifies `first, `flat, elems
      ensures flat == old(flat) + Words(threadId, lits, nbThreads) && first == Slot(|flat|, maxsize)
      ensures Window(elems[..], flat, starts[base])
    {
      hide Encoded, Window, Slot, Cursors;
      RoomLeft(flat, starts, log, base);
      NoCheckPush(|lits|);
      NoCheckPush(if nbThreads > 1 then nbThreads - 1 else 1);
      NoCheckPush(threadId);
      assert lits[..0] == [];
      ghost var header := flat;
      for i := 0 to |lits|
        invariant starts == old(starts) && base == old(base) && base < |starts|
        invariant flat == header + lits[..i] && first == Slot(|flat|, maxsize)
        invariant Window(elems[..], flat, starts[base])
      {
        assert lits[..i + 1] == lits[..i] + [lits[i]];
        NoCheckPush(lits[i]);
      }
      assert lits[..|lits|] == lits;
      assert flat == old(flat) + Words(threadId, lits, nbThreads);
    }

    /** Offers a clause to the other threads. In removal mode a clause larger than the ring ends in the
        removal from an empty ring: `fits` is false. */
    method PushClause(threadId: nat, lits: seq<nat>) returns (ok: bool, fits: bool)
      requires Valid() && threadId < nbThreads
      modifies this, elems
      ensures Valid() && delivered == old(delivered)
      ensures fits <==> !whenFullRemoveOlder || |lits| + HEADER_SIZE < maxsize
      ensures ok <==> fits && (whenFullRemoveOlder || old(queuesize) + |lits| + HEADER_SIZE < maxsize)
      ensures log == if ok then old(log) + [Entry(threadId, lits)] else old(log)
      ensures old(base) <= base && cur == Raised(old(cur), base)
      ensures !whenFullRemoveOlder || old(queuesize) + |lits| + HEADER_SIZE < maxsize ==> base == old(base) && cur == old(cur)
      ensures !fits ==> base == |log|
      ensures whenFullRemoveOlder && old(queuesize) + |lits| + HEADER_SIZE >= maxsize ==>
                (base == |old(log)| <==> forall k :: old(base) < k < |old(log)| ==>
                   !StopsAt(old(flat), old(starts), old(log), old(cur), k, |lits|, maxsize))
    {
      hide Encoded, Window, Slot, Cursors, CountersFrom, Deliveries;
      RaisedSame(flat, starts, log, base, cur, lastOfThread, maxsize);
      if !whenFullRemoveOlder && queuesize + |lits| + HEADER_SIZE >= maxsize {
        return false, true;
      }
      if whenFullRemoveOlder {
        fits := MakeRoom(|lits|);
        if !fits {
          return false, false;
        }
      }
      Append(threadId, lits);
      return true, true;
    }

    method Append(threadId: nat, lits: seq<nat>)
      requires Valid() && threadId < nbThreads && queuesize + |lits| + HEADER_SIZE < maxsize
      modifies `first, `queuesize, `flat, `starts, `log, elems
      ensures Valid() && log == old(log) + [Entry(threadId, lits)]
    {
      hide Encoded, Window, Slot, Cursors, CountersFrom, Deliveries, Count, Words;
      ghost var flat0 := flat;
      EncodedEnd(flat, starts, log);
      PushWords(threadId, lits);
      queuesize := queuesize + |lits| + HEADER_SIZE;
      ghost var e := Entry(threadId, lits);
      EncodedPush(flat0, starts, log, e, nbThreads);
      CursorsPush(starts, log, base, cur, lastOfThread, maxsize, e, |flat|);
      CountersPush(flat0, starts, log, cur, base, e);
      DeliveriesPush(log, cur, delivered, !whenFullRemoveOlder, e);
      starts := starts + [|flat|];
      log := log + [e];
    }

    /** Passes over the clauses the thread put in itself. */
    method SkipOwn(threadId: nat, lastSeen: nat, ghost j: nat) returns (thislast: nat, ghost k: nat)
      requires Layout() && base <= j <= |log| && lastSeen == Slot(starts[j] - 1, maxsize)
      ensures k == NextForeign(log, j, threadId) && thislast == Slot(starts[k] - 1, maxsize)
    {
      hide Encoded, Window, Slot, Cursors;
      thislast, k := lastSeen, j;
      EncodedEnd(flat, starts, log);
      Looking(elems[..], flat, starts, log, base, k);
      while NextIndex(thislast, maxsize) != first && elems[AddIndex(thislast, 3, maxsize)] == threadId
        invariant base <= k <= |log| && NextForeign(log, k, threadId) == NextForeign(log, j, threadId)
        invariant thislast == Slot(starts[k] - 1, maxsize)
        invariant NextIndex(thislast, maxsize) == first <==> k == |log|
        invariant k < |log| ==> AddIndex(thislast, 3, maxsize) < elems.Length
        invariant k < |log| ==> elems[AddIndex(thislast, 3, maxsize)] == log[k].origin
        decreases |log| - k
      {
        Looking(elems[..], flat, starts, log, base, k);
        thislast := AddIndex(thislast, elems[NextIndex(thislast, maxsize)] + HEADER_SIZE, maxsize);
        k := k + 1;
        Looking(elems[..], flat, starts, log, base, k);
      }
    }

    /** Steps to the next word and reads it. */
    method NoCheckPop(index: nat) returns (next: nat, x: nat)
      requires elems.Length == maxsize && index < maxsize
      ensures next == NextIndex(index, maxsize) && next < maxsize && x == elems[next]
    {
      next := NextIndex(index, maxsize);
      x := elems[next];
    }

    /** Reads the literals that follow the word at address `a`. */
    method ReadLits(csize: nat, index: nat, ghost a: nat) returns (next: nat, lits: seq<nat>)
      requires elems.Length == maxsize > 0 && index == Slot(a, maxsize) && starts != [] && base < |starts|
      requires Window(elems[..], flat, starts[base]) && starts[base] <= a && a + csize < |flat|
      ensures next == Slot(a + csize, maxsize) && lits == flat[a + 1..a + 1 + csize]
    {
      hide Slot;
      next, lits := index, [];
      for i := 0 to csize
        invariant next == Slot(a + i, maxsize) && lits == flat[a + 1..a + 1 + i]
      {
        SlotNext(a + i, maxsize);
        var x;
        next, x := NoCheckPop(next);
        lits := lits + [x];
      }
    }

    /** Takes one from the counter of clause `k`, whose size word is at `index`. */
    method CountDown(index: nat, ghost k: nat) returns (zero: bool)
      requires Layout() && base <= k < |log| && index == Slot(starts[k], maxsize)
      requires starts[k] + 1 < |flat| && flat[starts[k] + 1] > 0
      modifies elems, `flat
      ensures Layout() && flat == old(flat)[starts[k] + 1 := old(flat[starts[k] + 1]) - 1]
      ensures zero <==> flat[starts[k] + 1] == 0
    {
      hide Encoded, Window, Slot, Cursors;
      EncodedEnd(flat, starts, log);
      ghost var a: nat := starts[k];
      WordOf(elems[..], flat, starts, log, k, base);
      StartsGrow(flat, starts, log, base, k);
      SlotAdd(a, 1, maxsize);
      SlotNext(a, maxsize);
      WindowUpdate(elems[..], flat, starts[base], a + 1, flat[a + 1] - 1);
      EncodedUpdate(flat, starts, log, k, flat[a + 1] - 1);
      var counter := AddIndex(index, 1, maxsize);
      elems[counter] := elems[counter] - 1;
      flat := flat[a + 1 := flat[a + 1] - 1];
      zero := elems[counter] == 0;
    }

    /** Reads clause `k` and takes one from its counter. */
    method TakeClause(previous: nat, ghost k: nat) returns (thislast: nat, origin: nat, lits: seq<nat>, removeAfter: bool)
      requires Layout() && base <= k < |log| && previous == Slot(starts[k] - 1, maxsize)
      requires starts[k] + 1 < |flat| && flat[starts[k] + 1] > 0
      modifies elems, `flat
      ensures Layout() && flat == old(flat)[starts[k] + 1 := old(flat[starts[k] + 1]) - 1]
      ensures removeAfter <==> flat[starts[k] + 1] == 0
      ensures log[k] == Entry(origin, lits) && thislast == Slot(starts[k + 1] - 1, maxsize)
    {
      hide Encoded, Window, Slot, Cursors;
      EncodedEnd(flat, starts, log);
      ghost var a: nat := starts[k];
      WordOf(elems[..], flat, starts, log, k, base);
      StartsOf(flat, starts, log, k);
      StartsGrow(flat, starts, log, base, k);
      SlotNext(a - 1, maxsize);
      SlotNext(a, maxsize);
      SlotNext(a + 1, maxsize);
      var csize;
      thislast, csize := NoCheckPop(previous);
      removeAfter := CountDown(thislast, k);
      thislast := NextIndex(thislast, maxsize);
      WordOf(elems[..], flat, starts, log, k, base);
      thislast, origin := NoCheckPop(thislast);
      thislast, lits := ReadLits(csize, thislast, a + 2);
      EntryRead(flat, starts, log, k);
    }

    /** The oldest clause has been given to its last reader, whose cursor has not moved yet. */
    method RemoveTaken(threadId: nat)
      requires Layout() && base < |log| && threadId < |cur| && cur[threadId] <= base && |cur| > 1
      requires CountersFrom(flat, starts, log, cur[threadId := base + 1], base)
      requires Count(log, cur[threadId := base + 1], base) == 0
      requires Deliveries(log, cur[threadId := base + 1], delivered, !whenFullRemoveOlder)
      modifies `last, `queuesize, `removedClauses, `lastOfThread, `base, `cur
      ensures Valid() && cur[threadId] == base > old(base)
    {
      hide Encoded, Window, Slot, Cursors, CountersFrom, Deliveries, Count;
      ghost var moved, from := cur[threadId := base + 1], base;
      RaisedSame(flat, starts, log, base, cur, lastOfThread, maxsize);
      MovedCounters(flat, starts, log, cur, base, threadId);
      RemoveLastClause();
      MovedRaised(old(cur), threadId, from + 1, base);
      forall k | from <= k < base ensures Count(log, moved, k) == 0 {
        if k > from { MovedCount(log, old(cur), from, threadId, k); }
      }
      NobodyWaits(log, moved, from, base);
      RaisedDeliveries(log, moved, delivered, base, !whenFullRemoveOlder);
    }

    /** Hands the thread the next clause of another thread, if there is one. */
    method GetClause(threadId: nat) returns (found: bool, threadOrigin: nat, resultClause: seq<nat>)
      requires Valid() && threadId < nbThreads
      modifies this, elems
      ensures Valid() && log == old(log)
      ensures var k := NextForeign(log, old(cur[threadId]), threadId);
              && (found <==> k < |log|)
              && (found ==> log[k] == Entry(threadOrigin, resultClause))
              && (found ==> cur[threadId] > k)
      ensures found ==> delivered == old(delivered)[threadId := old(delivered[threadId]) + [Entry(threadOrigin, resultClause)]]
      ensures !found ==> delivered == old(delivered) && base == old(base) && cur[threadId] == |log|
      ensures !found && !whenFullRemoveOlder ==> delivered[threadId] == Foreign(log, threadId)
    {
      hide Encoded, Window, Slot, Cursors, CountersFrom, Deliveries, Count;
      threadOrigin, resultClause := 0, [];
      CursorOf(starts, log, base, cur, lastOfThread, maxsize, threadId);
      var thislast := lastOfThread[threadId];
      Looking(elems[..], flat, starts, log, base, cur[threadId]);
      EverythingSeen(log, cur, delivered, !whenFullRemoveOlder, threadId);
      if NextIndex(thislast, maxsize) == first { return false, threadOrigin, resultClause; }
      CursorFresh(elems[..], flat, starts, log, base, cur[threadId]);
      if Stale(thislast, last, first) {
        thislast := last;
      }
      ghost var k;
      thislast, k := SkipOwn(threadId, thislast, cur[threadId]);
      Looking(elems[..], flat, starts, log, base, k);
      if NextIndex(thislast, maxsize) == first {
        NothingTaken(flat, starts, log, cur, base, delivered, !whenFullRemoveOlder, threadId);
        SetCursor(threadId, thislast, k);
        EverythingSeen(log, cur, delivered, !whenFullRemoveOlder, threadId);
        return false, threadOrigin, resultClause;
      }
      threadOrigin, resultClause := Deliver(threadId, thislast, k);
      found := true;
    }

    /** Hands over clause `k`; the clause goes if nobody else waits for it and it is the oldest. */
    method Deliver(threadId: nat, previouslast: nat, ghost k: nat) returns (threadOrigin: nat, resultClause: seq<nat>)
      requires Valid() && threadId < nbThreads && cur[threadId] <= k < |log| && k == NextForeign(log, cur[threadId], threadId)
      requires base <= k && previouslast == Slot(starts[k] - 1, maxsize)
      modifies this, elems
      ensures Valid() && log == old(log) && log[k] == Entry(threadOrigin, resultClause) && cur[threadId] > k
      ensures delivered == old(delivered)[threadId := old(delivered[threadId]) + [Entry(threadOrigin, resultClause)]]
    {
      hide Encoded, Window, Slot, Cursors, CountersFrom, Deliveries, Count, NextForeign;
      TakenCounters(flat, starts, log, cur, base, threadId, k);
      TakenCount(log, cur, threadId, k);
      TakenDelivery(log, cur, delivered, !whenFullRemoveOlder, threadId, k);
      var thislast, removeAfter;
      thislast, threadOrigin, resultClause, removeAfter := TakeClause(previouslast, k);
      delivered := delivered[threadId := delivered[threadId] + [log[k]]];
      OldestTaken(elems[..], flat, starts, log, base, k, maxsize);
      if last == previouslast && removeAfter {
        RemoveTaken(threadId);
        thislast := last;
        CursorOf(starts, log, base, cur, lastOfThread, maxsize, threadId);
        SetCursorAgain(threadId, thislast);
      } else {
        SetCursor(threadId, thislast, k + 1);
      }
    }

    /** Records the new cursor of a thread. */
    method SetCursor(threadId: nat, thislast: nat, ghost k: nat)
      requires Layout() && threadId < |cur| && base <= k <= |log| && thislast == Slot(starts[k] - 1, maxsize)
      modifies `lastOfThread, `cur
      ensures Layout() && cur == old(cur)[threadId := k]
    {
      hide Encoded, Window, Slot;
      EncodedEnd(flat, starts, log);
      lastOfThread := lastOfThread[threadId := thislast];
      cur := cur[threadId := k];
    }

    /** Records the slot a cursor has already. */
    method SetCursorAgain(threadId: nat, thislast: nat)
      requires Valid() && threadId < |cur| && thislast == Slot(starts[cur[threadId]] - 1, maxsize)
      modifies `lastOfThread
      ensures Valid()
    {
      hide Encoded, Window, Slot;
      lastOfThread := lastOfThread[threadId := thislast];
    }
  }

  /** In a ring with one clause, room for the next is made by removing it: then nothing is left. */
  method NothingLeft() returns (ring: ClausesBuffer)
    ensures fresh(ring) && ring.Valid() && ring.log == [Entry(0, [2, 4]), Entry(1, [6, 8])] && ring.base == 1
  {
    hide Window, Slot, Cursors, Deliveries, CountersFrom, Count, EntryAt, Raised;
    ring := new ClausesBuffer(2, 8, true);
    var ok, fits := ring.PushClause(0, [2, 4]);
    assert ring.queuesize == 5;
    ok, fits := ring.PushClause(1, [6, 8]);
  }
}
