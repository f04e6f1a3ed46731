/** The pool through which the plain parallel solver's workers exchange clauses. Every method is one
    locked region, so a run is any sequence of calls. */
module SharedPool {
  import opened FiniteSets

  /** A shared clause; `id` names the allocation. */
  datatype Cls = Cls(id: nat, wid: nat, glue: int, count: nat, lits: seq<int>)

  datatype Slot = Null | Ptr(cls: Cls)

  datatype Handed = Nothing | Clause(lits: seq<int>, glue: int)

  const GC_THRESHOLD: nat := 10000

  /** The workers that have gone past slot `i`. */
  ghost function Past(imported: seq<nat>, i: nat): (p: set<nat>)
    ensures forall w :: w in p <==> 0 <= w < |imported| && imported[w] > i
  {
    set w | w in Below(|imported|) && imported[w] > i
  }

  /** The nulled slots are the first ones; every other slot holds the clause produced in that place,
      whose count is the number of workers past it, and too few of them to let it go. */
  ghost predicate Slots(start: seq<Slot>, first: nat, collected: nat, all: seq<Cls>, imported: seq<nat>, limit: int) {
    && first <= |start| && collected + |start| == |all|
    && (forall i :: 0 <= i < first ==> start[i] == Null)
    && (forall i :: first <= i < |start| ==>
          && start[i] == Ptr(all[collected + i].(count := |Past(imported, i)|))
          && |Past(imported, i)| < limit)
    && (forall w :: 0 <= w < |imported| ==> imported[w] <= |start|)
    && (forall id :: 0 <= id < |all| ==> all[id].id == id)
  }

  /** Each clause that has left the pool was freed once or waits to be freed by exactly one worker; no
      clause in the pool was freed. */
  ghost predicate Accounts(freed: multiset<nat>, dead: seq<Slot>, live: nat, added: nat) {
    && live <= added
    && (forall id :: live <= id ==> freed[id] == 0)
    && (forall w :: 0 <= w < |dead| && dead[w].Ptr? ==> dead[w].cls.id < live && freed[dead[w].cls.id] == 0)
    && (forall w, v :: 0 <= w < v < |dead| && dead[w].Ptr? && dead[v].Ptr? ==> dead[w].cls.id != dead[v].cls.id)
    && (forall id :: 0 <= id < live ==> freed[id] == 1 || (freed[id] == 0 && InDead(dead, id)))
  }

  ghost predicate InDead(dead: seq<Slot>, id: nat) {
    exists w :: 0 <= w < |dead| && dead[w].Ptr? && dead[w].cls.id == id
  }

  /** Nobody was handed a clause twice, or one of his own. */
  ghost predicate Fair(handed: seq<seq<nat>>, collected: nat, imported: seq<nat>, all: seq<Cls>) {
    && |handed| == |imported|
    && (forall w, k :: 0 <= w < |handed| && 0 <= k < |handed[w]| ==>
          handed[w][k] < collected + imported[w] && handed[w][k] < |all| && all[handed[w][k]].wid != w)
    && (forall w, j, k :: 0 <= w < |handed| && 0 <= j < k < |handed[w]| ==> handed[w][j] < handed[w][k])
  }

  // ---------------------------------------------------------------- slots

  lemma PastNobody(imported: seq<nat>, n: nat)
    requires forall w :: 0 <= w < |imported| ==> imported[w] <= n
    ensures Past(imported, n) == {}
  {
  }

  /** Later slots have fewer readers. */
  lemma FewerPast(imported: seq<nat>, i: nat, j: nat)
    requires i <= j
    ensures |Past(imported, i)| >= |Past(imported, j)|
  {
    SubsetSize(Past(imported, j), Past(imported, i));
  }

  ghost function Shifted(imported: seq<nat>, k: nat): (r: seq<nat>)
    ensures |r| == |imported|
  {
    seq(|imported|, w requires 0 <= w < |imported| => if k < imported[w] then imported[w] - k else 0)
  }

  lemma ShiftSlots(start: seq<Slot>, first: nat, collected: nat, all: seq<Cls>, imported: seq<nat>, limit: int, k: nat)
    requires Slots(start, first, collected, all, imported, limit) && first <= k <= |start|
    ensures Slots(start[k..], 0, collected + k, all, Shifted(imported, k), limit)
  {
    forall i | 0 <= i < |start| - k ensures Past(Shifted(imported, k), i) == Past(imported, k + i) {
    }
  }

  lemma InPool(start: seq<Slot>, first: nat, collected: nat, all: seq<Cls>, imported: seq<nat>, limit: int, w: nat)
    requires Slots(start, first, collected, all, imported, limit) && w < |imported|
    ensures collected + |start| == |all| && imported[w] <= |start|
  {
  }

  lemma SlotsFirst(start: seq<Slot>, first: nat, collected: nat, all: seq<Cls>, imported: seq<nat>, limit: int)
    requires Slots(start, first, collected, all, imported, limit)
    ensures first <= |start| && collected + |start| == |all|
    ensures forall i :: 0 <= i < |start| ==> (start[i].Ptr? <==> first <= i)
    ensures forall i :: first <= i < |start| ==> start[i].cls == all[collected + i].(count := start[i].cls.count)
    ensures forall i :: first <= i < |start| ==> start[i].cls.id == collected + i
  {
  }

  /** One step of a worker: counts stay right, and the first clause to get enough readers is the first
      live one. */
  lemma StepSlots(start: seq<Slot>, first: nat, collected: nat, all: seq<Cls>, imported: seq<nat>, limit: int, w: nat)
    requires Slots(start, first, collected, all, imported, limit) && w < |imported| && imported[w] < |start|
    ensures var res := imported[w]; var imported' := imported[w := res + 1];
            if start[res] == Null then Slots(start, first, collected, all, imported', limit)
            else var cls := start[res].cls.(count := start[res].cls.count + 1);
                 if cls.count >= limit then res == first && Slots(start[res := Null], first + 1, collected, all, imported', limit)
                 else Slots(start[res := Ptr(cls)], first, collected, all, imported', limit)
  {
    hide Past;
    var res := imported[w];
    PastStep(imported, w);
    if first <= res && |Past(imported[w := res + 1], res)| >= limit {
      FewerPast(imported[w := res + 1], first, res);
    }
  }

  lemma PastStep(imported: seq<nat>, w: nat)
    requires w < |imported|
    ensures var res := imported[w]; var imported' := imported[w := res + 1];
            && (forall i: nat :: i != res ==> Past(imported', i) == Past(imported, i))
            && |Past(imported', res)| == |Past(imported, res)| + 1
  {
    var res := imported[w];
    var imported' := imported[w := res + 1];
    forall i: nat | i != res ensures Past(imported', i) == Past(imported, i) {
    }
    assert w !in Past(imported, res) && Past(imported', res) == Past(imported, res) + {w};
  }

  // ---------------------------------------------------------------- accounts

  lemma DeadFreed(freed: multiset<nat>, dead: seq<Slot>, live: nat, added: nat, w: nat)
    requires Accounts(freed, dead, live, added) && w < |dead| && dead[w].Ptr?
    ensures Accounts(freed + multiset{dead[w].cls.id}, dead[w := Null], live, added)
  {
    var gone := dead[w].cls.id;
    forall id | 0 <= id < live && id != gone && InDead(dead, id) ensures InDead(dead[w := Null], id) {
      var v :| 0 <= v < |dead| && dead[v].Ptr? && dead[v].cls.id == id;
      assert dead[w := Null][v] == dead[v];
    }
  }

  lemma LiveFreed(freed: multiset<nat>, dead: seq<Slot>, live: nat, added: nat)
    requires Accounts(freed, dead, live, added) && live < added
    ensures Accounts(freed + multiset{live}, dead, live + 1, added)
  {
  }

  lemma LiveDead(freed: multiset<nat>, dead: seq<Slot>, live: nat, added: nat, w: nat, slot: Slot)
    requires Accounts(freed, dead, live, added) && live < added && w < |dead| && dead[w] == Null
    requires slot.Ptr? && slot.cls.id == live
    ensures Accounts(freed, dead[w := slot], live + 1, added)
  {
    var dead' := dead[w := slot];
    assert dead'[w] == slot;
    forall id | 0 <= id < live && InDead(dead, id) ensures InDead(dead', id) {
      var v :| 0 <= v < |dead| && dead[v].Ptr? && dead[v].cls.id == id;
      assert dead'[v] == dead[v];
    }
  }

  lemma AllFreed(freed: multiset<nat>, dead: seq<Slot>, added: nat)
    requires Accounts(freed, dead, added, added) && forall w :: 0 <= w < |dead| ==> dead[w] == Null
    ensures forall id :: freed[id] == if 0 <= id < added then 1 else 0
  {
  }

  // ---------------------------------------------------------------- deliveries

  lemma ShiftFair(handed: seq<seq<nat>>, collected: nat, imported: seq<nat>, all: seq<Cls>, k: nat)
    requires Fair(handed, collected, imported, all)
    ensures Fair(handed, collected + k, Shifted(imported, k), all)
  {
  }

  lemma StepFair(handed: seq<seq<nat>>, collected: nat, imported: seq<nat>, all: seq<Cls>, w: nat)
    requires Fair(handed, collected, imported, all) && w < |imported|
    ensures Fair(handed, collected, imported[w := imported[w] + 1], all)
  {
  }

  lemma HandedBefore(handed: seq<seq<nat>>, collected: nat, imported: seq<nat>, all: seq<Cls>, w: nat)
    requires Fair(handed, collected, imported, all) && w < |imported|
    ensures |handed| == |imported| && forall k :: 0 <= k < |handed[w]| ==> handed[w][k] < collected + imported[w]
  {
  }

  lemma HandedFair(handed: seq<seq<nat>>, collected: nat, imported: seq<nat>, all: seq<Cls>, w: nat, id: nat)
    requires Fair(handed, collected, imported, all) && w < |imported| && id < collected + imported[w] && id < |all|
    requires all[id].wid != w && forall k :: 0 <= k < |handed[w]| ==> handed[w][k] < id
    ensures Fair(handed[w := handed[w] + [id]], collected, imported, all)
  {
  }

  /** A collection drops the nulled slots only, or everything: readers get fewer from slot to slot. */
  lemma AllOrNothing(start: seq<Slot>, first: nat, collected: nat, all: seq<Cls>, imported: seq<nat>, limit: int, gclim: nat, i: nat)
    requires Slots(start, first, collected, all, imported, limit) && first <= i < |start|
    requires start[first].cls.count <= gclim
    ensures start[i].Ptr? && start[i].cls.count <= gclim
  {
    FewerPast(imported, first, i);
  }

  class Pool {
    const nconsumers: nat
    const leavebehind: nat
    const gclim: nat
    const nworkers: nat
    var start: seq<Slot>
    var first: nat
    var added: nat
    var collected: nat
    var clsimported: seq<nat>
    var dead: seq<Slot>
    ghost var all: seq<Cls>           // every clause produced, with its count at that time
    ghost var freed: multiset<nat>
    ghost var handed: seq<seq<nat>>   // the clauses each worker was given

    ghost predicate Valid()
      reads this
    {
      && leavebehind < nconsumers && |clsimported| == |dead| == nworkers && added == |all|
      && Slots(start, first, collected, all, clsimported, nconsumers - leavebehind)
      && Accounts(freed, dead, collected + first, added)
      && Fair(handed, collected, clsimported, all)
    }

    constructor (nworkers: nat, nconsumers: nat, gclim: nat)
      requires nconsumers > 0
      ensures Valid() && all == [] && this.nworkers == nworkers && freed == multiset{} && handed == seq(nworkers, w => [])
    {
      this.nworkers, this.nconsumers, this.gclim := nworkers, nconsumers, gclim;
      leavebehind := nconsumers / 4;
      start, first, added, collected := [], 0, 0, 0;
      clsimported := seq(nworkers, w => 0);
      dead := seq(nworkers, w => Null);
      all, freed, handed := [], multiset{}, seq(nworkers, w => []);
    }

    /** Puts a clause into the pool. */
    method ProduceCls(wid: nat, lits: seq<int>, glue: int)
      requires Valid() && wid < nworkers
      modifies this
      ensures Valid() && all == old(all) + [Cls(|old(all)|, wid, glue, 0, lits)]
      ensures clsimported == old(clsimported) && handed == old(handed) && freed == old(freed) && dead == old(dead)
    {
      var cls := Cls(added, wid, glue, 0, lits);
      PastNobody(clsimported, |start|);
      start := start + [Ptr(cls)];
      added := added + 1;
      all := all + [cls];
    }

    /** Frees the clause a worker still holds. */
    method FreeDead(w: nat)
      requires Valid() && w < nworkers
      modifies `dead, `freed
      ensures Valid() && dead == old(dead)[w := Null]
    {
      hide Slots, Fair;
      if dead[w].Ptr? {
        DeadFreed(freed, dead, collected + first, added, w);
        freed := freed + multiset{dead[w].cls.id};
        dead := dead[w := Null];
      }
    }

    /** Frees the clauses at the front that too few workers have read. */
    method DropFront() returns (k: nat)
      requires Valid()
      modifies `start, `freed
      ensures first <= k <= |start| == |old(start)| && Accounts(freed, dead, collected + k, added)
      ensures forall i :: k <= i < |start| ==> start[i] == old(start[i])
      ensures k == if first < |start| && old(start[first].cls.count) > gclim then first else |start|
    {
      hide Accounts, Past, Fair;
      k := first;
      ghost var limit := nconsumers - leavebehind;
      SlotsFirst(start, first, collected, all, clsimported, limit);
      while k < |start| && start[k].cls.count <= gclim
        invariant first <= k <= |start| == |old(start)|
        invariant forall i :: k <= i < |start| ==> start[i] == old(start[i])
        invariant k > first ==> old(start[first].cls.count) <= gclim
        invariant Accounts(freed, dead, collected + k, added)
      {
        LiveFreed(freed, dead, collected + k, added);
        freed := freed + multiset{start[k].cls.id};
        start := start[k := Null];
        k := k + 1;
      }
      if first < k < |start| {
        AllOrNothing(old(start), first, collected, all, clsimported, limit, gclim, k);
      }
    }

    /** Drops the clauses at the front that too few workers have read, and moves the rest down. That
        drops the nulled slots only, or everything. */
    method Gcls()
      requires Valid()
      modifies `start, `first, `collected, `clsimported, `freed
      ensures Valid() && first == 0
      ensures forall w :: 0 <= w < nworkers ==> collected + clsimported[w] >= old(collected + clsimported[w])
      ensures if old(first < |start| && start[first].cls.count > gclim)
              then start == old(start[first..]) && collected == old(collected + first)
              else start == [] && collected == old(collected + |start|)
      ensures clsimported == Shifted(old(clsimported), collected - old(collected))
    {
      hide Slots, Accounts, Fair;
      ghost var was, limit := start, nconsumers - leavebehind;
      SlotsFirst(start, first, collected, all, clsimported, limit);
      var k := DropFront();
      ShiftSlots(was, first, collected, all, clsimported, limit, k);
      ShiftFair(handed, collected, clsimported, all, k);
      MoveCursors(k);
      start := start[k..];
      assert start == was[k..];
      collected := collected + k;
      first := 0;
    }

    /** Takes the dropped slots off every worker's position. */
    method MoveCursors(k: nat)
      modifies `clsimported
      ensures clsimported == Shifted(old(clsimported), k)
    {
      for w := 0 to |clsimported|
        invariant |clsimported| == |old(clsimported)|
        invariant forall v :: 0 <= v < |clsimported| ==>
          clsimported[v] == if v < w then Shifted(old(clsimported), k)[v] else old(clsimported[v])
      {
        clsimported := clsimported[w := if k < clsimported[w] then clsimported[w] - k else 0];
      }
    }

    /** Hands the worker the next clause that another worker produced, if there is one. */
    method ConsumeCls(w: nat) returns (r: Handed, ghost id: nat)
      requires Valid() && w < nworkers
      modifies this
      ensures Valid() && all == old(all)
      ensures collected + clsimported[w] >= old(collected + clsimported[w])
      ensures forall j :: old(collected + clsimported[w]) <= j < id && j < |all| ==>
                all[j].wid == w || j < old(collected + first)
      ensures r == Nothing ==> handed == old(handed) && clsimported[w] == |start| && (id == |all| || start == [])
      ensures r != Nothing ==>
                && old(collected + clsimported[w]) <= id < |all|
                && all[id].wid != w && r == Clause(all[id].lits, all[id].glue)
                && handed == old(handed)[w := old(handed[w]) + [id]]
    {
      hide Slots, Accounts, Fair;
      FreeDead(w);
      InPool(start, first, collected, all, clsimported, nconsumers - leavebehind, w);
      id := collected + clsimported[w];
      while clsimported[w] != |start|
        invariant Valid() && all == old(all) && handed == old(handed) && dead[w] == Null
        invariant id == collected + clsimported[w] >= old(collected + clsimported[w]) || (start == [] && id <= |all|)
        invariant collected + first <= id || collected + first == old(collected + first) || start == []
        invariant forall j :: old(collected + clsimported[w]) <= j < id && j < |all| ==>
                    all[j].wid == w || j < old(collected + first)
        invariant collected + clsimported[w] >= old(collected + clsimported[w])
        decreases |all| - (collected + clsimported[w])
      {
        InPool(start, first, collected, all, clsimported, nconsumers - leavebehind, w);
        HandedBefore(handed, collected, clsimported, all, w);
        var slot := Advance(w);
        InPool(start, first, collected, all, clsimported, nconsumers - leavebehind, w);
        if slot.Ptr? && slot.cls.wid != w {
          r := Clause(slot.cls.lits, slot.cls.glue);
          HandedFair(handed, collected, clsimported, all, w, id);
          handed := handed[w := handed[w] + [id]];
          return;
        }
        id := id + 1;
        FreeDead(w);
      }
      InPool(start, first, collected, all, clsimported, nconsumers - leavebehind, w);
      r := Nothing;
    }

    /** Steps over one slot; a live clause counts the reader and leaves the pool after enough readers. */
    method Advance(w: nat) returns (slot: Slot)
      requires Valid() && w < nworkers && clsimported[w] < |start| && dead[w] == Null
      modifies `start, `first, `collected, `clsimported, `dead, `freed
      ensures Valid() && collected + clsimported[w] > old(collected + clsimported[w])
      ensures forall v :: 0 <= v < nworkers ==> collected + clsimported[v] >= old(collected + clsimported[v])
      ensures collected + clsimported[w] == old(collected + clsimported[w]) + 1 || start == []
      ensures collected + first == old(collected + first) || collected + first <= collected + clsimported[w] || start == []
      ensures slot == Null ==> old(collected + clsimported[w]) < old(collected + first)
      ensures |old(start)| <= GC_THRESHOLD ==> collected == old(collected)
      ensures slot.Ptr? ==> var id := old(collected + clsimported[w]);
                id < |all| && slot.cls == all[id].(count := slot.cls.count)
    {
      hide Fair, Accounts, Slots;
      var res := clsimported[w];
      StepSlots(start, first, collected, all, clsimported, nconsumers - leavebehind, w);
      StepFair(handed, collected, clsimported, all, w);
      SlotsFirst(start, first, collected, all, clsimported, nconsumers - leavebehind);
      clsimported := clsimported[w := res + 1];
      if start[res] == Null { return Null; }
      slot := Ptr(start[res].cls.(count := start[res].cls.count + 1));
      if slot.cls.count + leavebehind >= nconsumers {
        LiveDead(freed, dead, collected + first, added, w, slot);
        start := start[res := Null];
        dead := dead[w := slot];
        first := first + 1;
        if |start| > GC_THRESHOLD && first > |start| / (nconsumers + 1) {
          Gcls();
        }
      } else {
        start := start[res := slot];
      }
    }

    /** Shutdown: frees what the workers still hold and what is left in the pool. */
    method DeleteAll()
      requires Valid()
      modifies `dead, `freed, `start, `first
      ensures forall id :: freed[id] == if 0 <= id < added then 1 else 0
    {
      hide Slots, Accounts, Fair;
      for w := 0 to nworkers
        invariant Valid() && start == old(start) && first == old(first) && forall v :: 0 <= v < w ==> dead[v] == Null
      {
        FreeDead(w);
      }
      SlotsFirst(start, first, collected, all, clsimported, nconsumers - leavebehind);
      FreeRest();
      AllFreed(freed, dead, added);
      start, first := [], 0;
    }

    method FreeRest()
      requires forall i :: 0 <= i < |start| ==> (start[i].Ptr? <==> first <= i)
      requires forall i :: first <= i < |start| ==> start[i].cls.id == collected + i
      requires first <= |start| && collected + |start| == added && Accounts(freed, dead, collected + first, added)
      modifies `freed
      ensures Accounts(freed, dead, added, added)
    {
      hide Accounts;
      for i := first to |start|
        invariant Accounts(freed, dead, collected + i, added)
      {
        if start[i].Ptr? {
          LiveFreed(freed, dead, collected + i, added);
          freed := freed + multiset{start[i].cls.id};
        }
      }
    }
  }
}
