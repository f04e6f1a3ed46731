/** The lock-free clause queue as a system of atomic steps: every read of a shared word and every
    compare-and-swap is one step, and any thread may take the next one. Nodes are never recycled. */
module LockFreeQueue {
  type Clause = nat

  datatype Pointer = Null | To(id: nat)

  datatype Node = Node(clause: Clause, next: Pointer)

  /** Where a thread is, with the locals that are still needed. `Link` to `CountUp` are the steps of
      `addClause`, `GetHead` to `CountDown` those of `getClause`. */
  datatype Pc =
    | Idle
    | ReadTail(node: nat)
    | ReadNext(node: nat, tail: nat)
    | CheckTail(node: nat, tail: nat, next: Pointer)
    | Link(node: nat, tail: nat)
    | HelpTail(node: nat, tail: nat, to: nat)
    | SwingTail(node: nat, tail: nat)
    | CountUp(node: nat)
    | GetHead
    | GetTail(head: nat)
    | GetNext(head: nat, tail: nat)
    | CheckHead(head: nat, tail: nat, next: Pointer, empty: bool)
    | HelpGet(tail: nat, to: nat)
    | ReadClause(head: nat, to: nat)
    | SwingHead(head: nat, to: nat, clause: Clause)
    | CountDown(clause: Clause)

  datatype Call = Add(clause: Clause) | Get

  datatype Event = Event(thread: nat, clause: Clause)

  /** Shared words and threads; the last six fields are histories that no step reads, except that
      a thread notes in `empty` whether the queue was empty when it read the link after the head. */
  datatype State = State(
    nodes: seq<Node>, head: nat, tail: nat, size: int, pcs: seq<Pc>,
    chain: seq<nat>, rank: map<nat, nat>, linked: seq<Event>, taken: seq<Event>,
    added: seq<seq<Clause>>, received: seq<seq<Clause>>)

  /** The clauses in the queue, oldest first. */
  ghost function Contents(s: State): seq<Clause>
    requires |s.taken| <= |s.linked|
  {
    Clauses(s.linked[|s.taken|..])
  }

  ghost function Clauses(events: seq<Event>): (c: seq<Clause>)
    ensures |c| == |events| && forall i :: 0 <= i < |c| ==> c[i] == events[i].clause
  {
    seq(|events|, i requires 0 <= i < |events| => events[i].clause)
  }

  ghost function OfThread(events: seq<Event>, t: nat): seq<Clause> {
    if events == [] then []
    else
      var e := events[|events| - 1];
      OfThread(events[..|events| - 1], t) + if e.thread == t then [e.clause] else []
  }

  lemma OfThreadStep(events: seq<Event>, e: Event, t: nat)
    ensures OfThread(events + [e], t) == OfThread(events, t) + if e.thread == t then [e.clause] else []
  {
    assert (events + [e])[..|events|] == events;
  }

  // ---------------------------------------------------------------- steps

  ghost function Init(threads: nat): State {
    State([Node(0, Null)], 0, 0, 0, seq(threads, t => Idle), [0], map[0 := 0], [], [],
          seq(threads, t => []), seq(threads, t => []))
  }

  ghost predicate Enabled(s: State, t: nat) {
    && t < |s.pcs| == |s.added| == |s.received|
    && match s.pcs[t]
       case ReadNext(_, tail) => tail < |s.nodes|
       case Link(node, tail) => tail < |s.nodes| && node < |s.nodes|
       case GetNext(head, _) => head < |s.nodes| && |s.taken| <= |s.linked|
       case CheckHead(head, tail, next, _) => head == s.head && next.Null? ==> head == tail
       case ReadClause(_, to) => to < |s.nodes|
       case CountUp(node) => node < |s.nodes|
       case _ => true
  }

  /** The next step of thread `t`; an idle thread makes the call. */
  ghost function Next(s: State, t: nat, call: Call): (s': State)
    requires Enabled(s, t)
    ensures |s'.pcs| == |s.pcs|
  {
    match s.pcs[t]
    case Idle =>
      (match call
       case Add(c) => s.(nodes := s.nodes + [Node(c, Null)], pcs := s.pcs[t := ReadTail(|s.nodes|)])
       case Get => s.(pcs := s.pcs[t := GetHead]))
    case ReadTail(node) => s.(pcs := s.pcs[t := ReadNext(node, s.tail)])
    case ReadNext(node, tail) => s.(pcs := s.pcs[t := CheckTail(node, tail, s.nodes[tail].next)])
    case CheckTail(node, tail, next) =>
      s.(pcs := s.pcs[t := if tail != s.tail then ReadTail(node)
                           else if next.Null? then Link(node, tail)
                           else HelpTail(node, tail, next.id)])
    case Link(node, tail) =>
      if s.nodes[tail].next == Null then Linked(s, t, node, tail)
      else s.(pcs := s.pcs[t := ReadTail(node)])
    case HelpTail(node, tail, to) =>
      s.(tail := if s.tail == tail then to else s.tail, pcs := s.pcs[t := ReadTail(node)])
    case SwingTail(node, tail) =>
      s.(tail := if s.tail == tail then node else s.tail, pcs := s.pcs[t := CountUp(node)])
    case CountUp(node) =>
      s.(size := s.size + 1, pcs := s.pcs[t := Idle],
         added := s.added[t := s.added[t] + [s.nodes[node].clause]])
    case GetHead => s.(pcs := s.pcs[t := GetTail(s.head)])
    case GetTail(head) => s.(pcs := s.pcs[t := GetNext(head, s.tail)])
    case GetNext(head, tail) =>
      s.(pcs := s.pcs[t := CheckHead(head, tail, s.nodes[head].next, Contents(s) == [])])
    case CheckHead(head, tail, next, _) =>
      s.(pcs := s.pcs[t := if head != s.head then GetHead
                           else if next.Null? then Idle
                           else if head == tail then HelpGet(tail, next.id)
                           else ReadClause(head, next.id)])
    case HelpGet(tail, to) => s.(tail := if s.tail == tail then to else s.tail, pcs := s.pcs[t := GetHead])
    case ReadClause(head, to) => s.(pcs := s.pcs[t := SwingHead(head, to, s.nodes[to].clause)])
    case SwingHead(head, to, c) =>
      if s.head == head then s.(head := to, taken := s.taken + [Event(t, c)], pcs := s.pcs[t := CountDown(c)])
      else s.(pcs := s.pcs[t := GetHead])
    case CountDown(c) =>
      s.(size := s.size - 1, pcs := s.pcs[t := Idle], received := s.received[t := s.received[t] + [c]])
  }

  /** The node hangs behind the last one. */
  ghost function Linked(s: State, t: nat, node: nat, tail: nat): State
    requires t < |s.pcs| && node < |s.nodes| && tail < |s.nodes|
  {
    s.(nodes := s.nodes[tail := s.nodes[tail].(next := To(node))], pcs := s.pcs[t := SwingTail(node, tail)],
       chain := s.chain + [node], rank := s.rank[node := |s.chain|],
       linked := s.linked + [Event(t, s.nodes[node].clause)])
  }

  // ---------------------------------------------------------------- invariant

  /** The linked nodes form one list; the head is not behind the tail, the tail lags by at most one. */
  ghost predicate ListOk(s: State) {
    && |s.chain| > 0
    && (forall i :: 0 <= i < |s.chain| ==> s.chain[i] < |s.nodes| && s.chain[i] in s.rank && s.rank[s.chain[i]] == i)
    && (forall id :: id in s.rank ==> s.rank[id] < |s.chain| && s.chain[s.rank[id]] == id && id < |s.nodes|)
    && (forall i, j :: 0 <= i && j == i + 1 < |s.chain| ==> s.nodes[s.chain[i]].next == To(s.chain[j]))
    && s.nodes[s.chain[|s.chain| - 1]].next == Null
    && s.head in s.rank && s.tail in s.rank
    && s.rank[s.head] <= s.rank[s.tail] && |s.chain| <= s.rank[s.tail] + 2
  }

  /** `b` is the node after `a`. */
  ghost predicate After(s: State, a: nat, b: nat) {
    a in s.rank && b in s.rank && s.rank[b] == s.rank[a] + 1
  }

  ghost predicate Private(s: State, node: nat) {
    node < |s.nodes| && node !in s.rank && s.nodes[node].next == Null
  }

  /** The node was the tail at some time. */
  ghost predicate WasTail(s: State, tail: nat) {
    tail in s.rank && s.tail in s.rank && s.rank[tail] <= s.rank[s.tail]
  }

  ghost predicate WasHead(s: State, head: nat) {
    head in s.rank && s.head in s.rank && s.rank[head] <= s.rank[s.head]
  }

  /** What the locals of a thread say about the shared state. */
  ghost predicate LocalOk(s: State, pc: Pc) {
    match pc
    case Idle => true
    case ReadTail(node) => Private(s, node)
    case ReadNext(node, tail) => Private(s, node) && WasTail(s, tail)
    case CheckTail(node, tail, next) => Private(s, node) && WasTail(s, tail) && (next.To? ==> After(s, tail, next.id))
    case Link(node, tail) => Private(s, node) && WasTail(s, tail)
    case HelpTail(node, tail, to) => Private(s, node) && After(s, tail, to)
    case SwingTail(node, tail) => After(s, tail, node)
    case CountUp(node) => node in s.rank
    case GetHead => true
    case GetTail(head) => WasHead(s, head)
    case GetNext(head, tail) => WasHead(s, head) && WasTail(s, tail) && s.rank[head] <= s.rank[tail]
    case CheckHead(head, tail, next, empty) =>
      && WasHead(s, head) && WasTail(s, tail) && s.rank[head] <= s.rank[tail]
      && (next.To? ==> After(s, head, next.id)) && (next.Null? ==> empty && head == tail)
    case HelpGet(tail, to) => After(s, tail, to)
    case ReadClause(head, to) => After(s, head, to) && WasTail(s, to)
    case SwingHead(head, to, c) => After(s, head, to) && WasTail(s, to) && to < |s.nodes| && c == s.nodes[to].clause
    case CountDown(c) => true
  }

  /** The node a thread still owns. */
  ghost function Owned(pc: Pc): Pointer {
    match pc
    case ReadTail(node) => To(node)
    case ReadNext(node, _) => To(node)
    case CheckTail(node, _, _) => To(node)
    case Link(node, _) => To(node)
    case HelpTail(node, _, _) => To(node)
    case _ => Null
  }

  ghost predicate ThreadsOk(s: State) {
    && (forall t :: 0 <= t < |s.pcs| ==> LocalOk(s, s.pcs[t]))
    && (forall t, u :: 0 <= t < u < |s.pcs| && Owned(s.pcs[t]).To? ==> Owned(s.pcs[t]) != Owned(s.pcs[u]))
  }

  /** The clause a thread has linked but whose `addClause` has not returned. */
  ghost function Adding(s: State, pc: Pc): seq<Clause> {
    match pc
    case SwingTail(node, _) => if node < |s.nodes| then [s.nodes[node].clause] else []
    case CountUp(node) => if node < |s.nodes| then [s.nodes[node].clause] else []
    case _ => []
  }

  /** The clause a thread has taken but whose `getClause` has not returned. */
  ghost function Getting(pc: Pc): seq<Clause> {
    match pc
    case CountDown(c) => [c]
    case _ => []
  }

  /** Clauses leave in the order they were linked. */
  ghost predicate OrderOk(s: State) {
    && |s.chain| == |s.linked| + 1 && s.head in s.rank && s.rank[s.head] == |s.taken| <= |s.linked|
    && (forall i :: 0 < i < |s.chain| ==> s.chain[i] < |s.nodes| && s.nodes[s.chain[i]].clause == s.linked[i - 1].clause)
    && Clauses(s.taken) == Clauses(s.linked[..|s.taken|])
  }

  /** The calls that returned and those in flight account for all that was linked and taken. */
  ghost predicate AccountsOk(s: State) {
    && |s.pcs| == |s.added| == |s.received|
    && (forall t :: 0 <= t < |s.pcs| ==> s.added[t] + Adding(s, s.pcs[t]) == OfThread(s.linked, t))
    && (forall t :: 0 <= t < |s.pcs| ==> s.received[t] + Getting(s.pcs[t]) == OfThread(s.taken, t))
  }

  ghost function Sum(s: State, n: nat): int
    requires n <= |s.pcs|
  {
    if n == 0 then 0 else Sum(s, n - 1) + |Adding(s, s.pcs[n - 1])| - |Getting(s.pcs[n - 1])|
  }

  /** The size counter misses only the calls in flight. */
  ghost predicate SizeOk(s: State) {
    s.size == |s.linked| - |s.taken| - Sum(s, |s.pcs|)
  }

  ghost predicate Inv(s: State) {
    ListOk(s) && ThreadsOk(s) && OrderOk(s) && AccountsOk(s) && SizeOk(s)
  }

  lemma {:induction false} InitSum(threads: nat, n: nat)
    requires n <= threads
    ensures Sum(Init(threads), n) == 0
  {
    if n > 0 { InitSum(threads, n - 1); }
  }

  lemma InitInv(threads: nat)
    ensures Inv(Init(threads))
  {
    InitSum(threads, threads);
  }

  lemma InvEnabled(s: State, t: nat)
    requires Inv(s) && t < |s.pcs|
    ensures Enabled(s, t)
  {
    assert LocalOk(s, s.pcs[t]);
  }

  // ---------------------------------------------------------------- preservation

  /** What every step leaves true about linked nodes and about the nodes of other threads. */
  ghost predicate Grows(s: State, s': State, t: nat) {
    && |s.nodes| <= |s'.nodes| && |s.pcs| == |s'.pcs| && t < |s.pcs|
    && (forall u :: 0 <= u < |s.pcs| && u != t ==> s'.pcs[u] == s.pcs[u])
    && (forall id :: id in s.rank ==> id in s'.rank && s'.rank[id] == s.rank[id])
    && (forall id :: id in s'.rank ==> id in s.rank || Owned(s.pcs[t]) == To(id))
    && (forall id :: 0 <= id < |s.nodes| ==> s'.nodes[id].clause == s.nodes[id].clause)
    && (forall id :: 0 <= id < |s.nodes| && id !in s.rank ==> s'.nodes[id] == s.nodes[id])
    && s.tail in s.rank && s'.tail in s'.rank && s.rank[s.tail] <= s'.rank[s'.tail]
    && s.head in s.rank && s'.head in s'.rank && s.rank[s.head] <= s'.rank[s'.head]
  }

  lemma OthersKeep(s: State, s': State, t: nat, u: nat)
    requires ListOk(s) && ThreadsOk(s) && Grows(s, s', t) && u < |s.pcs| && u != t
    ensures LocalOk(s', s'.pcs[u])
  {
    var pc := s.pcs[u];
    assert LocalOk(s, pc);
    assert Owned(pc).To? ==> Owned(pc) != Owned(s.pcs[t]);
  }

  /** A thread never touches the clause another one has just linked. */
  lemma OthersAdding(s: State, s': State, t: nat, u: nat)
    requires ListOk(s) && ThreadsOk(s) && Grows(s, s', t) && u < |s.pcs| && u != t
    ensures Adding(s', s'.pcs[u]) == Adding(s, s.pcs[u]) && Getting(s'.pcs[u]) == Getting(s.pcs[u])
  {
    assert LocalOk(s, s.pcs[u]);
  }

  lemma {:induction false} SumStep(s: State, s': State, t: nat, n: nat)
    requires ListOk(s) && ThreadsOk(s) && Grows(s, s', t) && n <= |s.pcs|
    ensures Sum(s', n) - Sum(s, n) ==
            if t < n then |Adding(s', s'.pcs[t])| - |Adding(s, s.pcs[t])| - |Getting(s'.pcs[t])| + |Getting(s.pcs[t])| else 0
  {
    hide LocalOk, Grows, ListOk, ThreadsOk;
    if n > 0 {
      SumStep(s, s', t, n - 1);
      if n - 1 != t {
        GrowsPcs(s, s', t);
        OthersAdding(s, s', t, n - 1);
      }
    }
  }

  lemma GrowsPcs(s: State, s': State, t: nat)
    requires Grows(s, s', t)
    ensures |s.pcs| == |s'.pcs| && t < |s.pcs|
  {
  }

  /** Only the last node of the list has no successor. */
  lemma LastNode(s: State, id: nat)
    requires ListOk(s) && id in s.rank
    ensures id < |s.nodes| && (s.nodes[id].next == Null <==> s.rank[id] == |s.chain| - 1)
    ensures s.nodes[id].next.To? ==> After(s, id, s.nodes[id].next.id)
  {
    var i := s.rank[id];
    assert s.chain[i] == id;
    if i + 1 < |s.chain| { assert s.nodes[s.chain[i]].next == To(s.chain[i + 1]); }
  }

  /** A step that only moves on changes nothing shared. */
  lemma Goto(s: State, t: nat, pc: Pc, size: int, added: seq<seq<Clause>>, received: seq<seq<Clause>>)
    requires ListOk(s) && t < |s.pcs|
    ensures var s' := s.(pcs := s.pcs[t := pc], size := size, added := added, received := received);
            ListOk(s') && Grows(s, s', t)
  {
  }

  /** The tail moves by one node if it is still where the thread saw it. */
  lemma TailMoves(s: State, t: nat, tail: nat, to: nat, pc: Pc)
    requires ListOk(s) && t < |s.pcs| && After(s, tail, to)
    ensures var s' := s.(tail := if s.tail == tail then to else s.tail, pcs := s.pcs[t := pc]);
            ListOk(s') && Grows(s, s', t)
  {
  }

  lemma HeadMoves(s: State, t: nat, to: nat, taken: seq<Event>, pc: Pc)
    requires ListOk(s) && t < |s.pcs| && After(s, s.head, to) && WasTail(s, to)
    ensures var s' := s.(head := to, taken := taken, pcs := s.pcs[t := pc]);
            ListOk(s') && Grows(s, s', t)
  {
  }

  lemma StepList(s: State, t: nat, call: Call)
    requires Inv(s) && t < |s.pcs| && Enabled(s, t)
    ensures ListOk(Next(s, t, call)) && Grows(s, Next(s, t, call), t)
  {
    hide OrderOk, AccountsOk, SizeOk, ThreadsOk, ListOk, Grows, Linked, After, WasTail, WasHead, Private, Contents;
    ThreadOf(s, t);
    var s' := Next(s, t, call);
    Goto(s, t, s'.pcs[t], s'.size, s'.added, s'.received);
    match s.pcs[t]
    case Idle =>
      if call.Add? { NewNode(s, t, call.clause); }
    case Link(node, tail) =>
      if s.nodes[tail].next == Null { LinkList(s, t, node, tail); }
    case HelpTail(_, tail, to) => TailMoves(s, t, tail, to, s'.pcs[t]);
    case SwingTail(to, tail) => TailMoves(s, t, tail, to, s'.pcs[t]);
    case HelpGet(tail, to) => TailMoves(s, t, tail, to, s'.pcs[t]);
    case SwingHead(head, to, c) =>
      if s.head == head { HeadMoves(s, t, to, s'.taken, s'.pcs[t]); }
    case _ =>
  }

  lemma NewNode(s: State, t: nat, c: Clause)
    requires ListOk(s) && t < |s.pcs|
    ensures ListOk(s.(nodes := s.nodes + [Node(c, Null)], pcs := s.pcs[t := ReadTail(|s.nodes|)]))
    ensures Private(s.(nodes := s.nodes + [Node(c, Null)], pcs := s.pcs[t := ReadTail(|s.nodes|)]), |s.nodes|)
    ensures Grows(s, s.(nodes := s.nodes + [Node(c, Null)], pcs := s.pcs[t := ReadTail(|s.nodes|)]), t)
  {
  }

  /** Only the last node has no successor, so the new node becomes the last one. */
  lemma LinkList(s: State, t: nat, node: nat, tail: nat)
    requires ListOk(s) && Private(s, node) && WasTail(s, tail) && s.nodes[tail].next == Null && t < |s.pcs|
    requires s.pcs[t] == Link(node, tail)
    ensures ListOk(Linked(s, t, node, tail)) && Grows(s, Linked(s, t, node, tail), t)
    ensures s.rank[tail] == |s.chain| - 1 && After(Linked(s, t, node, tail), tail, node)
  {
    LastNode(s, tail);
    assert s.chain[s.rank[tail]] == tail;
    LinkGrows(s, t, node, tail);
  }

  lemma LinkGrows(s: State, t: nat, node: nat, tail: nat)
    requires ListOk(s) && Private(s, node) && WasTail(s, tail) && t < |s.pcs| && s.pcs[t] == Link(node, tail)
    ensures Grows(s, Linked(s, t, node, tail), t)
  {
  }

  lemma StepLocalAdd(s: State, t: nat, call: Call)
    requires ListOk(s) && t < |s.pcs| && Enabled(s, t) && LocalOk(s, s.pcs[t])
    requires s.pcs[t].Idle? || s.pcs[t].ReadNext? || s.pcs[t].Link?
    ensures LocalOk(Next(s, t, call), Next(s, t, call).pcs[t])
  {
    hide ListOk, Grows;
    match s.pcs[t]
    case Idle =>
      if call.Add? { NewNode(s, t, call.clause); }
    case ReadNext(node, tail) => LastNode(s, tail);
    case Link(node, tail) =>
      if s.nodes[tail].next == Null { LinkList(s, t, node, tail); }
  }

  lemma StepLocalGet(s: State, t: nat, call: Call)
    requires ListOk(s) && OrderOk(s) && t < |s.pcs| && Enabled(s, t) && LocalOk(s, s.pcs[t])
    requires s.pcs[t].GetTail? || s.pcs[t].GetNext? || s.pcs[t].CheckHead?
    ensures LocalOk(Next(s, t, call), Next(s, t, call).pcs[t])
  {
    hide ListOk, OrderOk, AccountsOk;
    match s.pcs[t]
    case GetTail(head) => HeadTail(s);
    case GetNext(head, tail) => NextRead(s, t, head, tail);
    case CheckHead(head, tail, next, empty) =>
      if next.To? && head != tail { RanksDiffer(s, head, tail); }
  }

  lemma HeadTail(s: State)
    requires ListOk(s)
    ensures s.head in s.rank && s.tail in s.rank && s.rank[s.head] <= s.rank[s.tail]
  {
  }

  lemma RanksDiffer(s: State, a: nat, b: nat)
    requires ListOk(s) && a in s.rank && b in s.rank && a != b
    ensures s.rank[a] != s.rank[b]
  {
    assert s.chain[s.rank[a]] == a && s.chain[s.rank[b]] == b;
  }

  lemma StepLocal(s: State, t: nat, call: Call)
    requires Inv(s) && t < |s.pcs| && Enabled(s, t)
    ensures LocalOk(Next(s, t, call), Next(s, t, call).pcs[t])
  {
    hide SizeOk, ThreadsOk, OrderOk, AccountsOk, ListOk, Grows;
    ThreadOf(s, t);
    HeadTail(s);
    var pc := s.pcs[t];
    if pc.Idle? || pc.ReadNext? || pc.Link? {
      StepLocalAdd(s, t, call);
    } else if pc.GetTail? || pc.GetNext? || pc.CheckHead? {
      StepLocalGet(s, t, call);
    }
    if pc.ReadClause? { LastNode(s, pc.to); }
  }

  /** Without a node after the head the queue is empty at that moment. */
  lemma NextRead(s: State, t: nat, head: nat, tail: nat)
    requires ListOk(s) && OrderOk(s) && t < |s.pcs| && WasHead(s, head) && WasTail(s, tail)
    requires s.rank[head] <= s.rank[tail]
    ensures head < |s.nodes|
    ensures LocalOk(s.(pcs := s.pcs[t := CheckHead(head, tail, s.nodes[head].next, Contents(s) == [])]),
                    CheckHead(head, tail, s.nodes[head].next, Contents(s) == []))
  {
    LastNode(s, head);
    if s.nodes[head].next == Null {
      assert s.rank[tail] == s.rank[head] && s.chain[s.rank[tail]] == tail && s.chain[s.rank[head]] == head;
    }
  }

  lemma StepOwned(s: State, t: nat, call: Call)
    requires Inv(s) && t < |s.pcs| && Enabled(s, t)
    ensures var s' := Next(s, t, call);
            forall a, b :: 0 <= a < b < |s'.pcs| && Owned(s'.pcs[a]).To? ==> Owned(s'.pcs[a]) != Owned(s'.pcs[b])
  {
    hide SizeOk, OrderOk, AccountsOk, ListOk;
    var s' := Next(s, t, call);
    assert Owned(s'.pcs[t]) == Owned(s.pcs[t]) || Owned(s'.pcs[t]) == Null || Owned(s'.pcs[t]) == To(|s.nodes|);
    forall u | 0 <= u < |s.pcs| && Owned(s.pcs[u]).To? ensures Owned(s.pcs[u]).id < |s.nodes| {
      assert LocalOk(s, s.pcs[u]);
    }
  }

  lemma ThreadOf(s: State, t: nat)
    requires ThreadsOk(s) && t < |s.pcs|
    ensures LocalOk(s, s.pcs[t])
  {
  }

  lemma StepThreads(s: State, t: nat, call: Call)
    requires Inv(s) && t < |s.pcs| && Enabled(s, t)
    ensures ThreadsOk(Next(s, t, call))
  {
    hide LocalOk, Grows, ListOk, OrderOk, AccountsOk, SizeOk, Next, Enabled;
    var s' := Next(s, t, call);
    StepList(s, t, call);
    StepLocal(s, t, call);
    StepOwned(s, t, call);
    GrowsPcs(s, s', t);
    forall u | 0 <= u < |s'.pcs| ensures LocalOk(s', s'.pcs[u]) {
      if u != t { OthersKeep(s, s', t, u); }
    }
  }

  // ---------------------------------------------------------------- histories

  /** A step appends at most one event, and that of its own thread. */
  lemma StepEvents(s: State, t: nat, call: Call)
    requires t < |s.pcs| && Enabled(s, t)
    ensures var s' := Next(s, t, call);
            && (s'.linked == s.linked || (s.pcs[t].Link? && s'.linked == s.linked + [Event(t, s.nodes[s.pcs[t].node].clause)]))
            && (s'.taken == s.taken || (s.pcs[t].SwingHead? && s'.taken == s.taken + [Event(t, s.pcs[t].clause)]))
            && |s'.pcs| == |s.pcs| && |s'.added| == |s.added| && |s'.received| == |s.received|
            && (forall u :: 0 <= u < |s.pcs| && u != t ==> s'.added[u] == s.added[u] && s'.received[u] == s.received[u])
  {
  }

  /** The step's own thread: what it has linked is what its calls returned plus the call in flight. */
  lemma SelfAdded(s: State, t: nat, call: Call)
    requires t < |s.pcs| && Enabled(s, t) && LocalOk(s, s.pcs[t]) && ListOk(s)
    requires s.added[t] + Adding(s, s.pcs[t]) == OfThread(s.linked, t)
    ensures var s' := Next(s, t, call); s'.added[t] + Adding(s', s'.pcs[t]) == OfThread(s'.linked, t)
    ensures var s' := Next(s, t, call);
            |Adding(s', s'.pcs[t])| - |Adding(s, s.pcs[t])| == |s'.linked| - |s.linked| - if s.pcs[t].CountUp? then 1 else 0
  {
    hide OfThread;
    match s.pcs[t]
    case Link(node, tail) => OfThreadStep(s.linked, Event(t, s.nodes[node].clause), t);
    case _ =>
  }

  lemma SelfReceived(s: State, t: nat, call: Call)
    requires t < |s.pcs| && Enabled(s, t)
    requires s.received[t] + Getting(s.pcs[t]) == OfThread(s.taken, t)
    ensures var s' := Next(s, t, call); s'.received[t] + Getting(s'.pcs[t]) == OfThread(s'.taken, t)
    ensures var s' := Next(s, t, call);
            |Getting(s'.pcs[t])| - |Getting(s.pcs[t])| == |s'.taken| - |s.taken| - if s.pcs[t].CountDown? then 1 else 0
  {
    hide OfThread;
    match s.pcs[t]
    case SwingHead(head, to, c) => OfThreadStep(s.taken, Event(t, c), t);
    case _ =>
  }

  lemma StepAccounts(s: State, t: nat, call: Call)
    requires Inv(s) && t < |s.pcs| && Enabled(s, t)
    ensures AccountsOk(Next(s, t, call))
  {
    hide Next, OfThread, LocalOk, Grows, ListOk, SizeOk, ThreadsOk, Adding, Getting;
    var s' := Next(s, t, call);
    ThreadOf(s, t);
    StepList(s, t, call);
    StepEvents(s, t, call);
    SelfAdded(s, t, call);
    SelfReceived(s, t, call);
    forall u | 0 <= u < |s.pcs| && u != t
      ensures s'.added[u] + Adding(s', s'.pcs[u]) == OfThread(s'.linked, u)
      ensures s'.received[u] + Getting(s'.pcs[u]) == OfThread(s'.taken, u)
    {
      OthersAdding(s, s', t, u);
      OfThreadStep(s.linked, Event(t, 0), u);
      if s.pcs[t].Link? { OfThreadStep(s.linked, Event(t, s.nodes[s.pcs[t].node].clause), u); }
      if s.pcs[t].SwingHead? { OfThreadStep(s.taken, Event(t, s.pcs[t].clause), u); }
    }
  }

  /** What a step does to the queue: clauses enter at the back and leave at the front. */
  datatype Effect = Enqueue(clause: Clause) | Dequeue(clause: Clause) | Nothing

  ghost function EffectOf(s: State, t: nat): Effect
    requires Enabled(s, t)
  {
    match s.pcs[t]
    case Link(node, tail) => if s.nodes[tail].next == Null then Enqueue(s.nodes[node].clause) else Nothing
    case SwingHead(head, _, c) => if s.head == head then Dequeue(c) else Nothing
    case _ => Nothing
  }

  lemma LinkOrder(s: State, t: nat, node: nat, tail: nat)
    requires ListOk(s) && OrderOk(s) && Private(s, node) && WasTail(s, tail) && t < |s.pcs| && tail < |s.nodes|
    ensures OrderOk(Linked(s, t, node, tail))
  {
    var s' := Linked(s, t, node, tail);
    assert s'.linked[..|s.taken|] == s.linked[..|s.taken|];
  }

  lemma TakeOrder(s: State, s': State, t: nat, to: nat, c: Clause)
    requires ListOk(s) && OrderOk(s) && After(s, s.head, to) && t < |s.pcs| && to < |s.nodes| && c == s.nodes[to].clause
    requires s' == s.(head := to, taken := s.taken + [Event(t, c)], pcs := s.pcs[t := CountDown(c)])
    ensures OrderOk(s')
  {
    assert s.chain[s.rank[to]] == to;
    var n := |s.taken|;
    assert s.linked[..n + 1] == s.linked[..n] + [s.linked[n]];
    forall i | 0 <= i < n + 1 ensures Clauses(s'.taken)[i] == Clauses(s'.linked[..n + 1])[i] {
      if i < n { assert Clauses(s.taken)[i] == Clauses(s.linked[..n])[i]; }
    }
  }

  lemma StepOrder(s: State, t: nat, call: Call)
    requires Inv(s) && t < |s.pcs| && Enabled(s, t)
    ensures OrderOk(Next(s, t, call))
  {
    hide ListOk, ThreadsOk, SizeOk, AccountsOk, OrderOk, Linked;
    ThreadOf(s, t);
    match s.pcs[t]
    case Link(node, tail) =>
      if s.nodes[tail].next == Null { LinkOrder(s, t, node, tail); } else { SameOrder(s, t, Next(s, t, call)); }
    case SwingHead(head, to, c) =>
      if s.head == head { TakeOrder(s, Next(s, t, call), t, to, c); } else { SameOrder(s, t, Next(s, t, call)); }
    case _ => SameOrder(s, t, Next(s, t, call));
  }

  lemma SameOrder(s: State, t: nat, s': State)
    requires OrderOk(s) && s'.chain == s.chain && s'.rank == s.rank && s'.head == s.head
    requires s'.linked == s.linked && s'.taken == s.taken && |s.nodes| <= |s'.nodes|
    requires forall id :: 0 <= id < |s.nodes| ==> s'.nodes[id].clause == s.nodes[id].clause
    ensures OrderOk(s')
  {
  }

  lemma InvStep(s: State, t: nat, call: Call)
    requires Inv(s) && t < |s.pcs| && Enabled(s, t)
    ensures Inv(Next(s, t, call))
  {
    hide Next, LocalOk, Grows, ListOk, ThreadsOk, OrderOk, AccountsOk, SizeOk;
    StepList(s, t, call);
    StepThreads(s, t, call);
    StepOrder(s, t, call);
    StepAccounts(s, t, call);
    StepSize(s, t, call);
  }

  lemma StepSize(s: State, t: nat, call: Call)
    requires Inv(s) && t < |s.pcs| && Enabled(s, t)
    ensures SizeOk(Next(s, t, call))
  {
    hide Next, LocalOk, Grows, ListOk, ThreadsOk, Adding, Getting, OfThread;
    var s' := Next(s, t, call);
    ThreadOf(s, t);
    StepList(s, t, call);
    GrowsPcs(s, s', t);
    SumStep(s, s', t, |s.pcs|);
    SelfAdded(s, t, call);
    SelfReceived(s, t, call);
    SizeMoves(s, t, call);
  }

  lemma SizeMoves(s: State, t: nat, call: Call)
    requires t < |s.pcs| && Enabled(s, t)
    ensures Next(s, t, call).size - s.size == (if s.pcs[t].CountUp? then 1 else 0) - if s.pcs[t].CountDown? then 1 else 0
  {
  }

  // ---------------------------------------------------------------- refinement of a FIFO queue

  /** Every step of every thread acts on the contents as one atomic queue operation or not at all:
      a clause enters at the back, or the oldest one leaves and it is the one handed out. */
  lemma StepRefines(s: State, t: nat, call: Call)
    requires Inv(s) && t < |s.pcs| && Enabled(s, t)
    ensures var s' := Next(s, t, call);
            && |s'.taken| <= |s'.linked|
            && match EffectOf(s, t)
               case Enqueue(c) => Contents(s') == Contents(s) + [c]
               case Dequeue(c) => Contents(s) == [c] + Contents(s') && s'.pcs[t] == CountDown(c)
               case Nothing => Contents(s') == Contents(s)
  {
    hide ListOk, ThreadsOk, AccountsOk, SizeOk, LocalOk;
    var s' := Next(s, t, call);
    StepOrder(s, t, call);
    StepEvents(s, t, call);
    match s.pcs[t]
    case Link(node, tail) =>
      var n := |s.taken|;
      if s.nodes[tail].next == Null {
        assert s'.linked[n..] == s.linked[n..] + [Event(t, s.nodes[node].clause)];
      }
    case SwingHead(head, to, c) =>
      var n := |s.taken|;
      if s.head == head {
        assert Clauses(s'.taken)[n] == Clauses(s'.linked[..n + 1])[n];
        assert s.linked[n..] == [s.linked[n]] + s.linked[n + 1..];
      }
    case _ =>
  }

  /** `getClause` gives up only if the queue was empty when it read the link after the head. */
  lemma FalseOnlyWhenEmpty(s: State, t: nat, call: Call)
    requires Inv(s) && t < |s.pcs| && s.pcs[t].CheckHead? && Enabled(s, t) && Next(s, t, call).pcs[t].Idle?
    ensures s.pcs[t].empty
  {
    ThreadOf(s, t);
  }

  /** A clause handed to one thread is never handed to another: each link of the list is taken by one
      step, and the head only moves forward. */
  lemma HeadForward(s: State, t: nat, call: Call)
    requires Inv(s) && t < |s.pcs| && Enabled(s, t)
    ensures var s' := Next(s, t, call);
            && s.head in s.rank && s'.head in s'.rank && s.tail in s.rank && s'.tail in s'.rank
            && s'.rank[s'.head] == s.rank[s.head] + (if EffectOf(s, t).Dequeue? then 1 else 0)
            && s.rank[s.tail] <= s'.rank[s'.tail] && s'.rank[s'.head] <= s'.rank[s'.tail]
            && |s'.linked| - 1 <= s'.rank[s'.tail] <= |s'.linked|
  {
    hide LocalOk, ThreadsOk, AccountsOk, SizeOk;
    StepList(s, t, call);
    StepOrder(s, t, call);
  }

  // ---------------------------------------------------------------- runs

  datatype Move = Move(thread: nat, call: Call)

  /** A run: any threads in any order. */
  ghost predicate Run(states: seq<State>, moves: seq<Move>, threads: nat) {
    && |states| == |moves| + 1 && states[0] == Init(threads)
    && forall i :: 0 <= i < |moves| ==>
         Enabled(states[i], moves[i].thread) && states[i + 1] == Next(states[i], moves[i].thread, moves[i].call)
  }

  lemma {:induction false} RunInv(states: seq<State>, moves: seq<Move>, threads: nat, n: nat)
    requires Run(states, moves, threads) && n < |states|
    ensures Inv(states[n]) && |states[n].pcs| == threads
  {
    hide Inv, Next, Enabled;
    if n == 0 {
      InitInv(threads);
    } else {
      RunInv(states, moves, threads, n - 1);
      assert states[n] == Next(states[n - 1], moves[n - 1].thread, moves[n - 1].call);
      EnabledThread(states[n - 1], moves[n - 1].thread);
      InvStep(states[n - 1], moves[n - 1].thread, moves[n - 1].call);
    }
  }

  lemma EnabledThread(s: State, t: nat)
    requires Enabled(s, t)
    ensures t < |s.pcs|
  {
  }

  /** In every run the threads are never stuck, and what they have received is a prefix of what was
      linked, in link order, once each; at rest the counter is the number of clauses left. */
  lemma RunFifo(states: seq<State>, moves: seq<Move>, threads: nat, n: nat)
    requires Run(states, moves, threads) && n < |states|
    ensures var s := states[n];
            && |s.taken| <= |s.linked| && Clauses(s.taken) == Clauses(s.linked)[..|s.taken|]
            && |s.pcs| == |s.added| == |s.received| == threads
            && (forall t :: 0 <= t < threads ==> Enabled(s, t))
            && (forall t :: 0 <= t < threads ==> s.added[t] <= OfThread(s.linked, t))
            && (forall t :: 0 <= t < threads ==> s.received[t] <= OfThread(s.taken, t))
            && ((forall t :: 0 <= t < threads ==> s.pcs[t].Idle?) ==>
                  && s.size == |Contents(s)|
                  && (forall t :: 0 <= t < threads ==> s.added[t] == OfThread(s.linked, t))
                  && (forall t :: 0 <= t < threads ==> s.received[t] == OfThread(s.taken, t)))
  {
    hide Run, ListOk, ThreadsOk, Enabled;
    RunInv(states, moves, threads, n);
    var s := states[n];
    forall t | 0 <= t < threads ensures Enabled(s, t) {
      InvEnabled(s, t);
    }
    assert Clauses(s.linked[..|s.taken|]) == Clauses(s.linked)[..|s.taken|];
    forall t | 0 <= t < threads
      ensures s.added[t] <= OfThread(s.linked, t) && s.received[t] <= OfThread(s.taken, t)
    {
      assert s.added[t] + Adding(s, s.pcs[t]) == OfThread(s.linked, t);
      assert s.received[t] + Getting(s.pcs[t]) == OfThread(s.taken, t);
    }
    if forall t :: 0 <= t < threads ==> s.pcs[t].Idle? {
      IdleSum(s, threads);
    }
  }

  lemma {:induction false} IdleSum(s: State, n: nat)
    requires n <= |s.pcs| && forall t :: 0 <= t < n ==> s.pcs[t].Idle?
    ensures Sum(s, n) == 0
  {
    if n > 0 { IdleSum(s, n - 1); }
  }
}
