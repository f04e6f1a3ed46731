/** The cheap test on value changes in the squares: the change in collision cost and missing pairs,
    found from histograms and small differences. */
module LatinSquares {

  // ---------------------------------------------------------------- counting

  ghost function CountIn(s: seq<nat>, x: nat): nat {
    if s == [] then 0 else CountIn(s[..|s| - 1], x) + if s[|s| - 1] == x then 1 else 0
  }

  ghost function One(b: bool): int {
    if b then 1 else 0
  }

  lemma {:induction false} CountUpdate(s: seq<nat>, p: nat, y: nat, x: nat)
    requires p < |s|
    ensures CountIn(s[p := y], x) == CountIn(s, x) - One(s[p] == x) + One(y == x)
  {
    var front := s[..|s| - 1];
    if p < |s| - 1 {
      CountUpdate(front, p, y, x);
      assert s[p := y][..|s| - 1] == front[p := y];
    } else {
      assert s[p := y][..|s| - 1] == front;
    }
  }

  type Square = seq<seq<nat>>

  function SetCell(g: Square, r: nat, c: nat, y: nat): Square
    requires r < |g| && c < |g[r]|
  {
    var row: seq<nat> := g[r][c := y];
    g[r := row]
  }

  ghost function CountGrid(g: Square, x: nat): nat {
    if g == [] then 0 else CountGrid(g[..|g| - 1], x) + CountIn(g[|g| - 1], x)
  }

  lemma {:induction false} GridUpdate(g: Square, r: nat, c: nat, y: nat, x: nat)
    requires r < |g| && c < |g[r]|
    ensures CountGrid(SetCell(g, r, c, y), x) == CountGrid(g, x) - One(g[r][c] == x) + One(y == x)
  {
    var g' := SetCell(g, r, c, y);
    var front := g[..|g| - 1];
    if r < |g| - 1 {
      GridUpdate(front, r, c, y, x);
      assert g'[..|g| - 1] == SetCell(front, r, c, y);
    } else {
      CountUpdate(g[r], c, y, x);
      assert g'[..|g| - 1] == front;
    }
  }

  // ---------------------------------------------------------------- squares

  ghost predicate Shape(sq: seq<Square>, n: nat) {
    && (forall k :: 0 <= k < |sq| ==> |sq[k]| == n)
    && (forall k, r :: 0 <= k < |sq| && 0 <= r < n ==> |sq[k][r]| == n)
    && (forall k, r, c :: 0 <= k < |sq| && 0 <= r < n && 0 <= c < n ==> 1 <= sq[k][r][c] <= n)
  }

  /** A cell of a square and its new value. */
  datatype Change = Change(k: nat, r: nat, c: nat, value: nat)

  ghost predicate Fits(ch: Change, m: nat, n: nat) {
    ch.k < m && ch.r < n && ch.c < n && 1 <= ch.value <= n
  }

  ghost function Put(sq: seq<Square>, n: nat, ch: Change): (r: seq<Square>)
    requires Shape(sq, n) && Fits(ch, |sq|, n)
    ensures Shape(r, n) && |r| == |sq|
    ensures forall k, i, j :: 0 <= k < |sq| && 0 <= i < n && 0 <= j < n ==>
              r[k][i][j] == if k == ch.k && i == ch.r && j == ch.c then ch.value else sq[k][i][j]
  {
    sq[ch.k := SetCell(sq[ch.k], ch.r, ch.c, ch.value)]
  }

  ghost function Applied(sq: seq<Square>, n: nat, changes: seq<Change>): (r: seq<Square>)
    requires Shape(sq, n) && forall i :: 0 <= i < |changes| ==> Fits(changes[i], |sq|, n)
    ensures Shape(r, n) && |r| == |sq|
  {
    if changes == [] then sq else Put(Applied(sq, n, changes[..|changes| - 1]), n, changes[|changes| - 1])
  }

  /** No cell is changed twice. */
  ghost predicate DistinctCells(changes: seq<Change>) {
    forall i, j :: 0 <= i < j < |changes| ==>
      changes[i].k != changes[j].k || changes[i].r != changes[j].r || changes[i].c != changes[j].c
  }

  /** No two changed cells lie on the same position of different squares either. */
  ghost predicate DistinctPositions(changes: seq<Change>) {
    forall i, j :: 0 <= i < j < |changes| ==> changes[i].r != changes[j].r || changes[i].c != changes[j].c
  }

  /** A cell that is not changed keeps its value. */
  lemma {:induction false} Unchanged(sq: seq<Square>, n: nat, changes: seq<Change>, k: nat, r: nat, c: nat)
    requires Shape(sq, n) && forall i :: 0 <= i < |changes| ==> Fits(changes[i], |sq|, n)
    requires k < |sq| && r < n && c < n
    requires forall i :: 0 <= i < |changes| ==> changes[i].k != k || changes[i].r != r || changes[i].c != c
    ensures Applied(sq, n, changes)[k][r][c] == sq[k][r][c]
  {
    if changes != [] {
      Unchanged(sq, n, changes[..|changes| - 1], k, r, c);
    }
  }

  // ---------------------------------------------------------------- rows and columns

  /** Row `l` of square `k`, or its column `l`. */
  ghost function Line(sq: seq<Square>, n: nat, row: bool, k: nat, l: nat): (s: seq<nat>)
    requires Shape(sq, n) && k < |sq| && l < n
    ensures |s| == n
  {
    if row then sq[k][l] else seq(n, i requires 0 <= i < n => sq[k][i][l])
  }

  type Hist = seq<seq<seq<int>>>

  /** How often each value occurs in each line. */
  ghost function LineHist(sq: seq<Square>, n: nat, row: bool): Hist
    requires Shape(sq, n)
  {
    seq(|sq|, k requires 0 <= k < |sq| =>
      seq(n, l requires 0 <= l < n =>
        seq(n, v requires 0 <= v < n => CountIn(Line(sq, n, row, k, l), v + 1) as int)))
  }

  /** A value that occurs x times in a line collides x * (x - 1) / 2 times; a missing value costs one. */
  function Cost(x: int): int {
    x * (x - 1) / 2 + if x == 0 then 1 else 0
  }

  ghost function LineCost(h: seq<int>): int {
    if h == [] then 0 else LineCost(h[..|h| - 1]) + Cost(h[|h| - 1])
  }

  ghost function SquareCost(h: seq<seq<int>>): int {
    if h == [] then 0 else SquareCost(h[..|h| - 1]) + LineCost(h[|h| - 1])
  }

  ghost function TotalCost(h: Hist): int {
    if h == [] then 0 else TotalCost(h[..|h| - 1]) + SquareCost(h[|h| - 1])
  }

  lemma {:induction false} SquareCostUpdate(h: seq<seq<int>>, l: nat, line: seq<int>)
    requires l < |h|
    ensures SquareCost(h[l := line]) == SquareCost(h) - LineCost(h[l]) + LineCost(line)
  {
    var front := h[..|h| - 1];
    if l < |h| - 1 {
      SquareCostUpdate(front, l, line);
      assert h[l := line][..|h| - 1] == front[l := line];
    } else {
      assert h[l := line][..|h| - 1] == front;
    }
  }

  // ---------------------------------------------------------------- differences by line

  /** Per square the changed lines, in order of first change, and the differences of their counts. */
  datatype Deltas = Deltas(changed: seq<seq<nat>>, values: seq<seq<seq<int>>>)

  ghost predicate DeltasOk(d: Deltas, m: nat, n: nat) {
    && |d.changed| == |d.values| == m
    && (forall k :: 0 <= k < m ==> |d.changed[k]| == |d.values[k]|)
    && (forall k, i :: 0 <= k < m && 0 <= i < |d.changed[k]| ==> d.changed[k][i] < n && |d.values[k][i]| == n)
    && (forall k, i, j :: 0 <= k < m && 0 <= i < j < |d.changed[k]| ==> d.changed[k][i] != d.changed[k][j])
  }

  /** The first position of a line, or the length of the list. */
  function Find(list: seq<nat>, l: nat): (i: nat)
    ensures i <= |list| && (i < |list| ==> list[i] == l) && (i == |list| ==> l !in list)
    ensures forall j :: 0 <= j < i ==> list[j] != l
  {
    if list == [] then 0 else if list[0] == l then 0 else 1 + Find(list[1..], l)
  }

  ghost function DeltaAt(d: Deltas, m: nat, n: nat, k: nat, l: nat, v: nat): int
    requires DeltasOk(d, m, n) && k < m && v < n
  {
    var i := Find(d.changed[k], l);
    if i < |d.changed[k]| then d.values[k][i][v] else 0
  }

  ghost predicate HistShape(h: Hist, m: nat, n: nat) {
    && |h| == m && (forall k :: 0 <= k < m ==> |h[k]| == n)
    && (forall k, l :: 0 <= k < m && 0 <= l < n ==> |h[k][l]| == n)
  }

  /** The differences lead from one histogram to the other. */
  ghost predicate Leads(d: Deltas, m: nat, n: nat, before: Hist, after: Hist) {
    && DeltasOk(d, m, n) && HistShape(before, m, n) && HistShape(after, m, n)
    && forall k, l, v :: 0 <= k < m && 0 <= l < n && 0 <= v < n ==>
         after[k][l][v] == before[k][l][v] + DeltaAt(d, m, n, k, l, v)
  }

  /** Adds one to the count of `gain` in a line and takes one from that of `lose`. */
  method AddDelta(d: Deltas, m: nat, n: nat, k: nat, l: nat, gain: nat, lose: nat) returns (d': Deltas)
    requires DeltasOk(d, m, n) && k < m && l < n && gain < n && lose < n
    ensures DeltasOk(d', m, n)
    ensures forall j, i, v :: 0 <= j < m && 0 <= i < n && 0 <= v < n ==>
              DeltaAt(d', m, n, j, i, v) == DeltaAt(d, m, n, j, i, v) +
                if j == k && i == l then One(v == gain) - One(v == lose) else 0
  {
    var index := Find(d.changed[k], l);
    d' := d;
    if index == |d.changed[k]| {
      d' := Deltas(d.changed[k := d.changed[k] + [l]], d.values[k := d.values[k] + [seq(n, _ => 0)]]);
      NewLine(d, m, n, k, l, d');
    }
    ghost var d0 := d';
    var line := d'.values[k][index];
    line := line[gain := line[gain] + 1];
    line := line[lose := line[lose] - 1];
    d' := d'.(values := d'.values[k := d'.values[k][index := line]]);
    forall j, i, v | 0 <= j < m && 0 <= i < n && 0 <= v < n
      ensures DeltaAt(d', m, n, j, i, v) == DeltaAt(d0, m, n, j, i, v) +
                if j == k && i == l then One(v == gain) - One(v == lose) else 0
    {
      var p := Find(d0.changed[j], i);
      assert j == k && p == index && p < |d0.changed[j]| ==> i == l;
    }
  }

  lemma NewLine(d: Deltas, m: nat, n: nat, k: nat, l: nat, d': Deltas)
    requires DeltasOk(d, m, n) && k < m && l < n && l !in d.changed[k]
    requires d' == Deltas(d.changed[k := d.changed[k] + [l]], d.values[k := d.values[k] + [seq(n, _ => 0)]])
    ensures DeltasOk(d', m, n) && Find(d'.changed[k], l) == |d.changed[k]|
    ensures forall j, i, v :: 0 <= j < m && 0 <= i < n && 0 <= v < n ==> DeltaAt(d', m, n, j, i, v) == DeltaAt(d, m, n, j, i, v)
  {
    forall j, i, v | 0 <= j < m && 0 <= i < n && 0 <= v < n ensures DeltaAt(d', m, n, j, i, v) == DeltaAt(d, m, n, j, i, v) {
      if j == k {
        FindPush(d.changed[k], l, i);
      }
    }
    FindPush(d.changed[k], l, l);
  }

  lemma {:induction false} FindPush(list: seq<nat>, l: nat, i: nat)
    requires l !in list
    ensures Find(list + [l], i) == if i == l then |list| else if i in list then Find(list, i) else |list| + 1
  {
    if list != [] {
      assert (list + [l])[1..] == list[1..] + [l];
      FindPush(list[1..], l, i);
    }
  }

  /** The cost change of one line. */
  method SumLine(prev: seq<int>, delta: seq<int>) returns (sum: int)
    requires |prev| == |delta|
    ensures sum == LineCost(Plus(prev, delta)) - LineCost(prev)
  {
    sum := 0;
    for j := 0 to |delta|
      invariant sum == LineCost(Plus(prev, delta)[..j]) - LineCost(prev[..j])
    {
      assert Plus(prev, delta)[..j + 1][..j] == Plus(prev, delta)[..j] && prev[..j + 1][..j] == prev[..j];
      if delta[j] != 0 {
        sum := sum + ((prev[j] + delta[j]) * (prev[j] + delta[j] - 1) / 2 - prev[j] * (prev[j] - 1) / 2);
        sum := sum + ((if prev[j] + delta[j] == 0 then 1 else 0) - if prev[j] == 0 then 1 else 0);
      }
    }
    assert Plus(prev, delta)[..|delta|] == Plus(prev, delta) && prev[..|delta|] == prev;
  }

  ghost function Plus(a: seq<int>, b: seq<int>): (r: seq<int>)
    requires |a| == |b|
    ensures |r| == |a|
  {
    seq(|a|, i requires 0 <= i < |a| => a[i] + b[i])
  }

  /** The lines of a square after the changes of its changed lines. */
  ghost function LinesAfter(changed: seq<nat>, values: seq<seq<int>>, prev: seq<seq<int>>, done: nat): (h: seq<seq<int>>)
    requires done <= |changed| == |values|
    requires forall i :: 0 <= i < |changed| ==> changed[i] < |prev| && |values[i]| == |prev[changed[i]]|
    ensures |h| == |prev|
  {
    seq(|prev|, l requires 0 <= l < |prev| =>
      var i := Find(changed, l);
      if i < done then Plus(prev[l], values[i]) else prev[l])
  }

  lemma LinesAfterStep(changed: seq<nat>, values: seq<seq<int>>, prev: seq<seq<int>>, done: nat)
    requires done < |changed| == |values| && forall a, b :: 0 <= a < b < |changed| ==> changed[a] != changed[b]
    requires forall i :: 0 <= i < |changed| ==> changed[i] < |prev| && |values[i]| == |prev[changed[i]]|
    ensures var l := changed[done];
            && LinesAfter(changed, values, prev, done)[l] == prev[l]
            && LinesAfter(changed, values, prev, done + 1) == LinesAfter(changed, values, prev, done)[l := Plus(prev[l], values[done])]
  {
    FindAt(changed, done);
  }

  /** The cost change of the changed lines of one square. */
  method SumSquare(changed: seq<nat>, values: seq<seq<int>>, prev: seq<seq<int>>) returns (sum: int)
    requires |changed| == |values| && forall a, b :: 0 <= a < b < |changed| ==> changed[a] != changed[b]
    requires forall i :: 0 <= i < |changed| ==> changed[i] < |prev| && |values[i]| == |prev[changed[i]]|
    ensures sum == SquareCost(LinesAfter(changed, values, prev, |changed|)) - SquareCost(prev)
  {
    sum := 0;
    assert LinesAfter(changed, values, prev, 0) == prev;
    for i := 0 to |changed|
      invariant sum == SquareCost(LinesAfter(changed, values, prev, i)) - SquareCost(prev)
    {
      var line := changed[i];
      LinesAfterStep(changed, values, prev, i);
      SquareCostUpdate(LinesAfter(changed, values, prev, i), line, Plus(prev[line], values[i]));
      var s := SumLine(prev[line], values[i]);
      sum := sum + s;
    }
  }

  lemma {:induction false} FindAt(list: seq<nat>, i: nat)
    requires i < |list| && forall a, b :: 0 <= a < b < |list| ==> list[a] != list[b]
    ensures Find(list, list[i]) == i
  {
    if i > 0 { FindAt(list[1..], i - 1); }
  }

  /** The cost change of all changed lines. */
  method SumDeltas(d: Deltas, prev: Hist, ghost m: nat, ghost n: nat, ghost after: Hist) returns (sum: int)
    requires Leads(d, m, n, prev, after)
    ensures sum == TotalCost(after) - TotalCost(prev)
  {
    hide LineCost, SquareCost, DeltaAt;
    sum := 0;
    for k := 0 to |d.changed|
      invariant sum == TotalCost(after[..k]) - TotalCost(prev[..k])
    {
      assert after[..k + 1][..k] == after[..k] && prev[..k + 1][..k] == prev[..k];
      LedSquare(d, prev, m, n, after, k);
      var s := SumSquare(d.changed[k], d.values[k], prev[k]);
      sum := sum + s;
    }
    assert after[..m] == after && prev[..m] == prev;
  }

  lemma LedSquare(d: Deltas, prev: Hist, m: nat, n: nat, after: Hist, k: nat)
    requires Leads(d, m, n, prev, after) && k < m
    ensures LinesAfter(d.changed[k], d.values[k], prev[k], |d.changed[k]|) == after[k]
  {
    var lines := LinesAfter(d.changed[k], d.values[k], prev[k], |d.changed[k]|);
    forall l | 0 <= l < n ensures lines[l] == after[k][l] {
      forall v | 0 <= v < n ensures lines[l][v] == after[k][l][v] {
        assert after[k][l][v] == prev[k][l][v] + DeltaAt(d, m, n, k, l, v);
      }
    }
  }

  // ---------------------------------------------------------------- pairs of values

  type Pairs = seq<seq<int>>

  /** The values of two squares at each position, as one number. */
  ghost function Codes(a: Square, b: Square, n: nat): (g: Square)
    requires |a| == |b| == n && forall r :: 0 <= r < n ==> |a[r]| == |b[r]| == n
    requires forall r, c :: 0 <= r < n && 0 <= c < n ==> a[r][c] >= 1 && b[r][c] >= 1
    ensures |g| == n && forall r :: 0 <= r < n ==> |g[r]| == n
  {
    seq(n, r requires 0 <= r < n => seq(n, c requires 0 <= c < n => Code(a[r][c] - 1, b[r][c] - 1, n)))
  }

  function Code(v1: nat, v2: nat, n: nat): nat {
    v1 * n + v2
  }

  lemma CodeBound(v1: nat, v2: nat, n: nat)
    requires v1 < n && v2 < n
    ensures Code(v1, v2, n) < n * n
  {
    assert (v1 + 1) * n <= n * n;
    assert (v1 + 1) * n == v1 * n + n;
  }

  /** The pair of squares with a given place in the histogram; there are at most three. */
  function PairOf(index: nat): (nat, nat)
    requires index < 3
  {
    if index == 0 then (0, 1) else if index == 1 then (0, 2) else (1, 2)
  }

  /** Where the histogram of two squares is kept. */
  function Place(k1: nat, k2: nat): int {
    k1 + k2 - 1
  }

  ghost predicate OwnPlaces(m: nat) {
    forall k1, k2, j1, j2 :: 0 <= k1 < k2 < m && 0 <= j1 < j2 < m && Place(k1, k2) == Place(j1, j2) ==> k1 == j1 && k2 == j2
  }

  /** Each pair of squares has a histogram of its own exactly if there are at most three squares. */
  lemma PlacesShared(m: nat)
    ensures OwnPlaces(m) <==> m <= 3
  {
    if m > 3 {
      assert Place(0, 3) == Place(1, 2);
    }
  }

  /** How often each pair of values occurs at the same position of two squares. */
  ghost function PairHist(sq: seq<Square>, n: nat): Pairs
    requires Shape(sq, n) && |sq| <= 3
  {
    seq(PairCount(|sq|), i requires 0 <= i < PairCount(|sq|) =>
      seq(n * n, p requires 0 <= p < n * n =>
        CountGrid(Codes(sq[PairOf(i).0], sq[PairOf(i).1], n), p) as int))
  }

  /** The number of pairs of squares. */
  function PairCount(m: nat): nat {
    m * (m - 1) / 2
  }

  lemma {:induction false} PairIndexBound(m: nat, k1: nat, k2: nat)
    requires k1 < k2 < m
    ensures Place(k1, k2) < PairCount(m)
  {
    if k2 < m - 1 {
      PairIndexBound(m - 1, k1, k2);
      assert m * (m - 1) == (m - 1) * (m - 2) + 2 * (m - 1);
    } else if k1 > 0 {
      PairIndexBound(m - 1, k1 - 1, k2 - 1);
      assert m * (m - 1) == (m - 1) * (m - 2) + 2 * (m - 1);
    } else {
      assert m * (m - 1) >= 2 * (m - 1);
    }
  }

  ghost function MissingIn(h: seq<int>): nat {
    if h == [] then 0 else MissingIn(h[..|h| - 1]) + One(h[|h| - 1] == 0)
  }

  /** How many pairs of values occur nowhere. */
  ghost function Missing(h: Pairs): nat {
    if h == [] then 0 else Missing(h[..|h| - 1]) + MissingIn(h[|h| - 1])
  }

  lemma {:induction false} MissingInUpdate(h: seq<int>, p: nat, y: int)
    requires p < |h|
    ensures MissingIn(h[p := y]) == MissingIn(h) - One(h[p] == 0) + One(y == 0)
  {
    var front := h[..|h| - 1];
    if p < |h| - 1 {
      MissingInUpdate(front, p, y);
      assert h[p := y][..|h| - 1] == front[p := y];
    } else {
      assert h[p := y][..|h| - 1] == front;
    }
  }

  ghost function SetPair(h: Pairs, i: nat, p: nat, y: int): (r: Pairs)
    requires i < |h| && p < |h[i]|
    ensures |r| == |h| && (forall j :: 0 <= j < |h| ==> |r[j]| == |h[j]|)
    ensures forall j, q :: 0 <= j < |h| && 0 <= q < |h[j]| ==> r[j][q] == if j == i && q == p then y else h[j][q]
  {
    h[i := h[i][p := y]]
  }

  lemma {:induction false} MissingUpdate(h: Pairs, i: nat, p: nat, y: int)
    requires i < |h| && p < |h[i]|
    ensures Missing(SetPair(h, i, p, y)) == Missing(h) - One(h[i][p] == 0) + One(y == 0)
  {
    var h' := SetPair(h, i, p, y);
    var front := h[..|h| - 1];
    if i < |h| - 1 {
      MissingUpdate(front, i, p, y);
      assert h'[..|h| - 1] == SetPair(front, i, p, y);
    } else {
      MissingInUpdate(h[i], p, y);
      assert h'[..|h| - 1] == front;
    }
  }

  ghost predicate SamePairShape(a: Pairs, b: Pairs) {
    |a| == |b| && forall i :: 0 <= i < |a| ==> |a[i]| == |b[i]|
  }

  ghost function SumPairs(a: Pairs, b: Pairs): (r: Pairs)
    requires SamePairShape(a, b)
    ensures SamePairShape(a, r) && forall i, p :: 0 <= i < |a| && 0 <= p < |a[i]| ==> r[i][p] == a[i][p] + b[i][p]
  {
    seq(|a|, i requires 0 <= i < |a| => Plus(a[i], b[i]))
  }

  /** One pair of values occurs once less and another once more. */
  method MovePair(hist: Pairs, delta: Pairs, i: nat, lose: nat, gain: nat) returns (d': Pairs, sum: int)
    requires SamePairShape(hist, delta) && i < |hist| && lose < |hist[i]| && gain < |hist[i]|
    ensures SamePairShape(hist, d')
    ensures var now := SumPairs(hist, delta); var less := SetPair(now, i, lose, now[i][lose] - 1);
            var next := SetPair(less, i, gain, less[i][gain] + 1);
            && SumPairs(hist, d') == next
            && (now[i][lose] >= 1 && now[i][gain] >= 0 ==> sum == Missing(next) - Missing(now))
  {
    hide Missing;
    sum := 0;
    ghost var now := SumPairs(hist, delta);
    ghost var less := SetPair(now, i, lose, now[i][lose] - 1);
    MissingUpdate(now, i, lose, now[i][lose] - 1);
    MissingUpdate(less, i, gain, less[i][gain] + 1);
    var row := delta[i];
    row := row[lose := row[lose] - 1];
    if row[lose] + hist[i][lose] == 0 { sum := sum + 1; }
    row := row[gain := row[gain] + 1];
    if row[gain] + hist[i][gain] == 1 { sum := sum - 1; }
    d' := delta[i := row];
    SamePairs(SumPairs(hist, d'), SetPair(less, i, gain, less[i][gain] + 1));
  }

  lemma SamePairs(a: Pairs, b: Pairs)
    requires SamePairShape(a, b) && forall i, p :: 0 <= i < |a| && 0 <= p < |a[i]| ==> a[i][p] == b[i][p]
    ensures a == b
  {
    forall i | 0 <= i < |a| ensures a[i] == b[i] {
    }
  }

  /** A change of one cell moves one pair of values per other square. */
  lemma PairHistPut(sq: seq<Square>, n: nat, ch: Change, i: nat, p: nat)
    requires Shape(sq, n) && |sq| <= 3 && Fits(ch, |sq|, n) && i < PairCount(|sq|) && p < n * n
    ensures PairOf(i).0 < PairOf(i).1 < |sq|
    ensures var (k1, k2) := PairOf(i); var a, b := sq[k1][ch.r][ch.c] - 1, sq[k2][ch.r][ch.c] - 1; var v := ch.value - 1;
            PairHist(Put(sq, n, ch), n)[i][p] == PairHist(sq, n)[i][p] +
              if ch.k == k1 then One(p == Code(v, b, n)) - One(p == Code(a, b, n))
              else if ch.k == k2 then One(p == Code(a, v, n)) - One(p == Code(a, b, n)) else 0
  {
    hide Code, Codes, PairCount;
    PairsOfFew(|sq|);
    var (k1, k2) := PairOf(i);
    var sq' := Put(sq, n, ch);
    var code := Code(sq'[k1][ch.r][ch.c] - 1, sq'[k2][ch.r][ch.c] - 1, n);
    CodesPut(sq, n, ch, k1, k2);
    GridUpdate(Codes(sq[k1], sq[k2], n), ch.r, ch.c, code, p);
    CountsOf(sq, n, i, p);
    CountsOf(sq', n, i, p);
  }

  lemma CountsOf(sq: seq<Square>, n: nat, i: nat, p: nat)
    requires Shape(sq, n) && |sq| <= 3 && i < PairCount(|sq|) && p < n * n
    ensures PairOf(i).0 < PairOf(i).1 < |sq|
    ensures |PairHist(sq, n)| == PairCount(|sq|) && |PairHist(sq, n)[i]| == n * n
    ensures PairHist(sq, n)[i][p] == CountGrid(Codes(sq[PairOf(i).0], sq[PairOf(i).1], n), p)
  {
    PairsOfFew(|sq|);
  }

  lemma CodesPut(sq: seq<Square>, n: nat, ch: Change, k1: nat, k2: nat)
    requires Shape(sq, n) && Fits(ch, |sq|, n) && k1 < |sq| && k2 < |sq|
    ensures var sq' := Put(sq, n, ch); var g := Codes(sq[k1], sq[k2], n);
            && g[ch.r][ch.c] == Code(sq[k1][ch.r][ch.c] - 1, sq[k2][ch.r][ch.c] - 1, n)
            && Codes(sq'[k1], sq'[k2], n) == SetCell(g, ch.r, ch.c, Code(sq'[k1][ch.r][ch.c] - 1, sq'[k2][ch.r][ch.c] - 1, n))
  {
    hide Code;
    var sq' := Put(sq, n, ch);
    var g, g' := Codes(sq[k1], sq[k2], n), Codes(sq'[k1], sq'[k2], n);
    var set' := SetCell(g, ch.r, ch.c, Code(sq'[k1][ch.r][ch.c] - 1, sq'[k2][ch.r][ch.c] - 1, n));
    forall r | 0 <= r < n ensures g'[r] == set'[r] {
      forall c | 0 <= c < n ensures g'[r][c] == set'[r][c] {
      }
    }
  }

  lemma PairsOfFew(m: nat)
    requires m <= 3
    ensures PairCount(m) == if m == 3 then 3 else if m == 2 then 1 else 0
  {
  }

  /** The value at a position is one of those counted there. */
  lemma PairOccurs(sq: seq<Square>, n: nat, i: nat, r: nat, c: nat)
    requires Shape(sq, n) && |sq| <= 3 && i < PairCount(|sq|) && r < n && c < n
    ensures PairOf(i).0 < PairOf(i).1 < |sq|
    ensures var (k1, k2) := PairOf(i); var p := Code(sq[k1][r][c] - 1, sq[k2][r][c] - 1, n);
            p < n * n && PairHist(sq, n)[i][p] >= 1
  {
    PairsOfFew(|sq|);
    var (k1, k2) := PairOf(i);
    CodeBound(sq[k1][r][c] - 1, sq[k2][r][c] - 1, n);
    GridHolds(Codes(sq[k1], sq[k2], n), r, c);
  }

  lemma {:induction false} GridHolds(g: Square, r: nat, c: nat)
    requires r < |g| && c < |g[r]|
    ensures CountGrid(g, g[r][c]) >= 1
  {
    if r < |g| - 1 {
      GridHolds(g[..|g| - 1], r, c);
    } else {
      RowHolds(g[r], c);
    }
  }

  lemma {:induction false} RowHolds(s: seq<nat>, c: nat)
    requires c < |s|
    ensures CountIn(s, s[c]) >= 1
  {
    if c < |s| - 1 { RowHolds(s[..|s| - 1], c); }
  }

  ghost predicate PairShape(h: Pairs, m: nat, n: nat) {
    |h| == PairCount(m) && forall i :: 0 <= i < |h| ==> |h[i]| == n * n
  }

  /** The squares as they are when change `ch` is looked at: its position still has the old values. */
  ghost predicate Exact(sq: seq<Square>, n: nat, now: seq<Square>, ch: Change) {
    && Shape(sq, n) && Shape(now, n) && |now| == |sq| <= 3 && Fits(ch, |sq|, n)
    && forall k :: 0 <= k < |sq| ==> now[k][ch.r][ch.c] == sq[k][ch.r][ch.c]
  }

  /** The pairs of values at the changed position before and after the change. */
  ghost predicate MovesPair(sq: seq<Square>, n: nat, ch: Change, k1: nat, k2: nat, lose: nat, gain: nat)
    requires Shape(sq, n) && Fits(ch, |sq|, n)
  {
    && k1 < k2 < |sq| && (ch.k == k1 || ch.k == k2)
    && lose == Code(sq[k1][ch.r][ch.c] - 1, sq[k2][ch.r][ch.c] - 1, n)
    && gain == Code((if ch.k == k1 then ch.value else sq[k1][ch.r][ch.c]) - 1,
                    (if ch.k == k2 then ch.value else sq[k2][ch.r][ch.c]) - 1, n)
  }

  /** The counts after one pair of squares has been updated. */
  lemma PairMoved(sq: seq<Square>, n: nat, now: seq<Square>, ch: Change, i: nat, cur: Pairs, next: Pairs, lose: nat, gain: nat)
    requires Exact(sq, n, now, ch) && i < PairCount(|sq|) && lose < n * n && gain < n * n
    requires PairShape(cur, |sq|, n) && PairShape(next, |sq|, n) && cur[i] == PairHist(now, n)[i]
    requires MovesPair(sq, n, ch, PairOf(i).0, PairOf(i).1, lose, gain)
    requires forall p :: 0 <= p < n * n ==> next[i][p] == cur[i][p] - One(p == lose) + One(p == gain)
    ensures next[i] == PairHist(Put(now, n, ch), n)[i]
    ensures cur[i][lose] >= 1 && cur[i][gain] >= 0
  {
    hide Code, PairCount, Codes, CountGrid;
    PairOccurs(now, n, i, ch.r, ch.c);
    var h := PairHist(Put(now, n, ch), n);
    CountsOf(Put(now, n, ch), n, i, lose);
    CountsOf(now, n, i, gain);
    forall p | 0 <= p < n * n ensures next[i][p] == h[i][p] {
      PairHistPut(now, n, ch, i, p);
    }
  }

  lemma PairStays(sq: seq<Square>, n: nat, now: seq<Square>, ch: Change, i: nat)
    requires Exact(sq, n, now, ch) && i < PairCount(|sq|)
    requires ch.k != PairOf(i).0 && ch.k != PairOf(i).1
    ensures PairHist(Put(now, n, ch), n)[i] == PairHist(now, n)[i]
  {
    hide Code, PairCount, Codes, CountGrid;
    PairsOfFew(|sq|);
    forall p | 0 <= p < n * n ensures PairHist(Put(now, n, ch), n)[i][p] == PairHist(now, n)[i][p] {
      PairHistPut(now, n, ch, i, p);
      CountsOf(now, n, i, p);
      CountsOf(Put(now, n, ch), n, i, p);
    }
    if n > 0 {
      CountsOf(now, n, i, 0);
      CountsOf(Put(now, n, ch), n, i, 0);
    }
  }

  /** A pair of squares (a, b) comes before (k1, k2) in the order of the loops. */
  ghost predicate Before(i: nat, k1: nat, k2: nat) {
    i < 3 && (PairOf(i).0 < k1 || (PairOf(i).0 == k1 && PairOf(i).1 < k2))
  }

  /** The counts while the pairs of squares before (k1, k2) have been updated for the change. */
  ghost predicate Halfway(cur: Pairs, sq: seq<Square>, n: nat, now: seq<Square>, ch: Change, k1: nat, k2: nat) {
    && Exact(sq, n, now, ch) && PairShape(cur, |sq|, n)
    && forall i :: 0 <= i < PairCount(|sq|) && i < 3 ==>
         cur[i] == if Before(i, k1, k2) then PairHist(Put(now, n, ch), n)[i] else PairHist(now, n)[i]
  }

  /** Updates the differences for one pair of squares. */
  method OnePair(sq: seq<Square>, n: nat, ch: Change, hist: Pairs, delta: Pairs, k1: nat, k2: nat,
                 ghost now: seq<Square>, ghost exact: bool) returns (d': Pairs, sum: int)
    requires Shape(sq, n) && Fits(ch, |sq|, n) && k1 < k2 < |sq|
    requires PairShape(hist, |sq|, n) && PairShape(delta, |sq|, n)
    requires exact ==> Halfway(SumPairs(hist, delta), sq, n, now, ch, k1, k2)
    ensures PairShape(d', |sq|, n)
    ensures exact ==> Halfway(SumPairs(hist, d'), sq, n, now, ch, k1, k2 + 1)
    ensures exact ==> sum == Missing(SumPairs(hist, d')) - Missing(SumPairs(hist, delta))
  {
    hide Code, PairHist, Missing, PairCount;
    var index := Place(k1, k2);
    PairIndexBound(|sq|, k1, k2);
    d', sum := delta, 0;
    if k1 == ch.k || k2 == ch.k {
      var old1, old2 := sq[k1][ch.r][ch.c] - 1, sq[k2][ch.r][ch.c] - 1;
      var new1 := if k1 == ch.k then ch.value - 1 else old1;
      var new2 := if k1 == ch.k then old2 else ch.value - 1;
      CodeBound(old1, old2, n);
      CodeBound(new1, new2, n);
      d', sum := MovePair(hist, delta, index, Code(old1, old2, n), Code(new1, new2, n));
      if exact {
        MovedHalfway(sq, n, now, ch, k1, k2, SumPairs(hist, delta), SumPairs(hist, d'), Code(old1, old2, n), Code(new1, new2, n));
      }
    } else if exact {
      StaysHalfway(sq, n, now, ch, k1, k2, SumPairs(hist, delta));
    }
  }

  lemma MovedHalfway(sq: seq<Square>, n: nat, now: seq<Square>, ch: Change, k1: nat, k2: nat, cur: Pairs, next: Pairs, lose: nat, gain: nat)
    requires k1 < k2 < |sq| && Halfway(cur, sq, n, now, ch, k1, k2) && PairShape(next, |sq|, n)
    requires MovesPair(sq, n, ch, k1, k2, lose, gain) && lose < n * n && gain < n * n && Place(k1, k2) < PairCount(|sq|)
    requires var i := Place(k1, k2); var less := SetPair(cur, i, lose, cur[i][lose] - 1); next == SetPair(less, i, gain, less[i][gain] + 1)
    ensures Halfway(next, sq, n, now, ch, k1, k2 + 1)
    ensures cur[Place(k1, k2)][lose] >= 1 && cur[Place(k1, k2)][gain] >= 0
  {
    hide Code, PairHist, PairCount;
    PairsOfFew(|sq|);
    PairMoved(sq, n, now, ch, Place(k1, k2), cur, next, lose, gain);
  }

  lemma StaysHalfway(sq: seq<Square>, n: nat, now: seq<Square>, ch: Change, k1: nat, k2: nat, cur: Pairs)
    requires k1 < k2 < |sq| && Halfway(cur, sq, n, now, ch, k1, k2) && ch.k != k1 && ch.k != k2
    ensures Halfway(cur, sq, n, now, ch, k1, k2 + 1)
  {
    hide Code, PairHist, PairCount;
    PairsOfFew(|sq|);
    PairStays(sq, n, now, ch, Place(k1, k2));
  }

  /** Updates the differences for all pairs of squares and adds up the change in missing pairs. */
  method ChangePairs(sq: seq<Square>, n: nat, ch: Change, hist: Pairs, delta: Pairs,
                     ghost now: seq<Square>, ghost exact: bool) returns (d': Pairs, sum: int)
    requires Shape(sq, n) && Fits(ch, |sq|, n)
    requires PairShape(hist, |sq|, n) && PairShape(delta, |sq|, n)
    requires exact ==> Exact(sq, n, now, ch) && SumPairs(hist, delta) == PairHist(now, n)
    ensures PairShape(d', |sq|, n)
    ensures exact ==> SumPairs(hist, d') == PairHist(Put(now, n, ch), n)
    ensures exact ==> sum == Missing(PairHist(Put(now, n, ch), n)) - Missing(PairHist(now, n))
  {
    hide Missing, Code, PairHist, PairCount;
    d', sum := delta, 0;
    for k1 := 0 to |sq|
      invariant PairShape(d', |sq|, n)
      invariant exact ==> Halfway(SumPairs(hist, d'), sq, n, now, ch, k1, 0)
      invariant exact ==> sum == Missing(SumPairs(hist, d')) - Missing(PairHist(now, n))
    {
      if exact { HalfwayOn(SumPairs(hist, d'), sq, n, now, ch, k1, 0, k1, k1 + 1); }
      for k2 := k1 + 1 to |sq|
        invariant PairShape(d', |sq|, n)
        invariant exact ==> Halfway(SumPairs(hist, d'), sq, n, now, ch, k1, k2)
        invariant exact ==> sum == Missing(SumPairs(hist, d')) - Missing(PairHist(now, n))
      {
        var s;
        d', s := OnePair(sq, n, ch, hist, d', k1, k2, now, exact);
        sum := sum + s;
      }
      if exact { HalfwayOn(SumPairs(hist, d'), sq, n, now, ch, k1, |sq|, k1 + 1, 0); }
    }
    if exact { HalfwayDone(SumPairs(hist, d'), sq, n, now, ch); }
  }

  /** No pair of squares lies between the two places. */
  lemma HalfwayOn(cur: Pairs, sq: seq<Square>, n: nat, now: seq<Square>, ch: Change, k1: nat, k2: nat, j1: nat, j2: nat)
    requires Halfway(cur, sq, n, now, ch, k1, k2)
    requires (j1 == k1 && k2 == 0 && j2 == k1 + 1) || (j1 == k1 + 1 && j2 == 0 && k2 >= |sq|)
    ensures Halfway(cur, sq, n, now, ch, j1, j2)
  {
    PairsOfFew(|sq|);
  }

  lemma HalfwayDone(cur: Pairs, sq: seq<Square>, n: nat, now: seq<Square>, ch: Change)
    requires Halfway(cur, sq, n, now, ch, |sq|, 0)
    ensures cur == PairHist(Put(now, n, ch), n)
  {
    PairsOfFew(|sq|);
  }

  // ---------------------------------------------------------------- the whole test

  /** A change of one cell moves one value in one row and one column. */
  lemma LineHistPut(sq: seq<Square>, n: nat, ch: Change, row: bool, k: nat, l: nat, v: nat)
    requires Shape(sq, n) && Fits(ch, |sq|, n) && k < |sq| && l < n && v < n
    ensures LineHist(Put(sq, n, ch), n, row)[k][l][v] == LineHist(sq, n, row)[k][l][v] +
              if k == ch.k && l == (if row then ch.r else ch.c)
              then One(v == ch.value - 1) - One(v == sq[ch.k][ch.r][ch.c] - 1) else 0
  {
    var sq' := Put(sq, n, ch);
    var s, s' := Line(sq, n, row, k, l), Line(sq', n, row, k, l);
    if k == ch.k && l == (if row then ch.r else ch.c) {
      var p := if row then ch.c else ch.r;
      CountUpdate(s, p, ch.value, v + 1);
      assert s' == s[p := ch.value];
    } else {
      assert s' == s;
    }
  }

  lemma LineHistShape(sq: seq<Square>, n: nat, row: bool)
    requires Shape(sq, n)
    ensures HistShape(LineHist(sq, n, row), |sq|, n)
  {
  }

  lemma LeadsNothing(m: nat, n: nat, h: Hist)
    requires HistShape(h, m, n)
    ensures Leads(Deltas(seq(m, _ => []), seq(m, _ => [])), m, n, h, h)
  {
  }

  /** The differences follow one more change. */
  lemma LeadsStep(d: Deltas, d': Deltas, sq: seq<Square>, n: nat, now: seq<Square>, ch: Change, row: bool)
    requires Shape(sq, n) && Shape(now, n) && |now| == |sq| && Fits(ch, |sq|, n)
    requires Leads(d, |sq|, n, LineHist(sq, n, row), LineHist(now, n, row)) && DeltasOk(d', |sq|, n)
    requires forall j, i, v :: 0 <= j < |sq| && 0 <= i < n && 0 <= v < n ==>
               DeltaAt(d', |sq|, n, j, i, v) == DeltaAt(d, |sq|, n, j, i, v) +
                 if j == ch.k && i == (if row then ch.r else ch.c)
                 then One(v == ch.value - 1) - One(v == now[ch.k][ch.r][ch.c] - 1) else 0
    ensures Leads(d', |sq|, n, LineHist(sq, n, row), LineHist(Put(now, n, ch), n, row))
  {
    hide DeltaAt, LineHist, DeltasOk, One;
    LineHistShape(Put(now, n, ch), n, row);
    forall k, l, v | 0 <= k < |sq| && 0 <= l < n && 0 <= v < n
      ensures LineHist(Put(now, n, ch), n, row)[k][l][v] == LineHist(sq, n, row)[k][l][v] + DeltaAt(d', |sq|, n, k, l, v)
    {
      LineHistPut(now, n, ch, row, k, l, v);
    }
  }

  /** The changes so far, then one more. */
  lemma AppliedStep(sq: seq<Square>, n: nat, changes: seq<Change>, i: nat)
    requires Shape(sq, n) && (forall j :: 0 <= j < |changes| ==> Fits(changes[j], |sq|, n)) && i < |changes|
    requires DistinctCells(changes)
    ensures var now := Applied(sq, n, changes[..i]); var ch := changes[i];
            && Applied(sq, n, changes[..i + 1]) == Put(now, n, ch)
            && now[ch.k][ch.r][ch.c] == sq[ch.k][ch.r][ch.c]
            && (DistinctPositions(changes) ==> forall k :: 0 <= k < |sq| ==> now[k][ch.r][ch.c] == sq[k][ch.r][ch.c])
  {
    hide Put, SetCell, Shape;
    var ch := changes[i];
    ShapeCells(sq, n, ch);
    ShapeCells(Applied(sq, n, changes[..i]), n, ch);
    AppliedOnce(sq, n, changes, i);
    Unchanged(sq, n, changes[..i], ch.k, ch.r, ch.c);
    if DistinctPositions(changes) {
      forall k | 0 <= k < |sq| ensures Applied(sq, n, changes[..i])[k][ch.r][ch.c] == sq[k][ch.r][ch.c] {
        Unchanged(sq, n, changes[..i], k, ch.r, ch.c);
      }
    }
  }

  lemma ShapeCells(sq: seq<Square>, n: nat, ch: Change)
    requires Shape(sq, n) && ch.r < n && ch.c < n
    ensures forall k :: 0 <= k < |sq| ==> ch.r < |sq[k]| && ch.c < |sq[k][ch.r]|
  {
  }

  lemma AppliedOnce(sq: seq<Square>, n: nat, changes: seq<Change>, i: nat)
    requires Shape(sq, n) && (forall j :: 0 <= j < |changes| ==> Fits(changes[j], |sq|, n)) && i < |changes|
    ensures Applied(sq, n, changes[..i + 1]) == Put(Applied(sq, n, changes[..i]), n, changes[i])
  {
    hide Put, Shape;
    assert changes[..i + 1][..i] == changes[..i];
  }

  /** The histograms of the squares. */
  ghost predicate Histograms(sq: seq<Square>, n: nat, rows: Hist, columns: Hist, pairs: Pairs) {
    && Shape(sq, n) && rows == LineHist(sq, n, true) && columns == LineHist(sq, n, false)
    && PairShape(pairs, |sq|, n) && (|sq| <= 3 ==> pairs == PairHist(sq, n))
  }

  /** Whether the changes do not make the squares worse. The first part of the sum is exactly the change
      in collision cost of all rows and columns; the second, for at most three squares and one changed
      cell per position, that in the number of missing pairs of values. */
  method SatisfyPredicateForDomain(sq: seq<Square>, n: nat, changes: seq<Change>, rows: Hist, columns: Hist, pairs: Pairs)
    returns (ok: bool, ghost lineSum: int, ghost pairSum: int)
    requires Histograms(sq, n, rows, columns, pairs) && DistinctCells(changes)
    requires forall i :: 0 <= i < |changes| ==> Fits(changes[i], |sq|, n)
    ensures ok <==> lineSum + pairSum <= 0
    ensures var after := Applied(sq, n, changes);
            lineSum == TotalCost(LineHist(after, n, true)) - TotalCost(LineHist(sq, n, true))
                     + TotalCost(LineHist(after, n, false)) - TotalCost(LineHist(sq, n, false))
    ensures |sq| <= 3 && DistinctPositions(changes) ==>
              pairSum == Missing(PairHist(Applied(sq, n, changes), n)) - Missing(PairHist(sq, n))
  {
    hide LineHist, PairHist, Missing, TotalCost, DeltaAt, DeltasOk, PairCount, Applied, One, DistinctCells, DistinctPositions;
    ghost var exact := |sq| <= 3 && DistinctPositions(changes);
    var sum := 0;
    var dRows := Deltas(seq(|sq|, _ => []), seq(|sq|, _ => []));
    var dColumns := dRows;
    var dPairs: Pairs := seq(|pairs|, i requires 0 <= i < |pairs| => seq(|pairs[i]|, _ => 0));
    StartDomain(sq, n, changes, rows, columns, pairs, dRows, dPairs);
    for i := 0 to |changes|
      invariant Leads(dRows, |sq|, n, rows, LineHist(Applied(sq, n, changes[..i]), n, true))
      invariant Leads(dColumns, |sq|, n, columns, LineHist(Applied(sq, n, changes[..i]), n, false))
      invariant PairShape(dPairs, |sq|, n)
      invariant exact ==> SumPairs(pairs, dPairs) == PairHist(Applied(sq, n, changes[..i]), n)
      invariant exact ==> sum == Missing(PairHist(Applied(sq, n, changes[..i]), n)) - Missing(PairHist(sq, n))
    {
      var ch := changes[i];
      ghost var now := Applied(sq, n, changes[..i]);
      ghost var was, wasColumns := dRows, dColumns;
      AppliedStep(sq, n, changes, i);
      LeadsOk(dRows, |sq|, n, rows, LineHist(now, n, true));
      LeadsOk(dColumns, |sq|, n, columns, LineHist(now, n, false));
      var oldValue := sq[ch.k][ch.r][ch.c];
      dRows := AddDelta(dRows, |sq|, n, ch.k, ch.r, ch.value - 1, oldValue - 1);
      LeadsStep(was, dRows, sq, n, now, ch, true);
      dColumns := AddDelta(dColumns, |sq|, n, ch.k, ch.c, ch.value - 1, oldValue - 1);
      LeadsStep(wasColumns, dColumns, sq, n, now, ch, false);
      var s;
      dPairs, s := ChangePairs(sq, n, ch, pairs, dPairs, now, exact);
      sum := sum + s;
    }
    assert changes[..|changes|] == changes;
    pairSum := sum;
    var r := SumDeltas(dRows, rows, |sq|, n, LineHist(Applied(sq, n, changes), n, true));
    var c := SumDeltas(dColumns, columns, |sq|, n, LineHist(Applied(sq, n, changes), n, false));
    lineSum := r + c;
    sum := sum + r + c;
    ok := sum <= 0;
  }

  lemma LeadsOk(d: Deltas, m: nat, n: nat, before: Hist, after: Hist)
    requires Leads(d, m, n, before, after)
    ensures DeltasOk(d, m, n)
  {
  }

  lemma StartDomain(sq: seq<Square>, n: nat, changes: seq<Change>, rows: Hist, columns: Hist, pairs: Pairs, d: Deltas, dPairs: Pairs)
    requires Histograms(sq, n, rows, columns, pairs) && d == Deltas(seq(|sq|, _ => []), seq(|sq|, _ => []))
    requires forall i :: 0 <= i < |changes| ==> Fits(changes[i], |sq|, n)
    requires |dPairs| == |pairs| && forall i :: 0 <= i < |pairs| ==> dPairs[i] == seq(|pairs[i]|, _ => 0)
    ensures Applied(sq, n, changes[..0]) == sq
    ensures Leads(d, |sq|, n, rows, LineHist(sq, n, true)) && Leads(d, |sq|, n, columns, LineHist(sq, n, false))
    ensures PairShape(dPairs, |sq|, n) && SumPairs(pairs, dPairs) == pairs
  {
    LineHistShape(sq, n, true);
    LineHistShape(sq, n, false);
    LeadsNothing(|sq|, n, rows);
    LeadsNothing(|sq|, n, columns);
    SamePairs(SumPairs(pairs, dPairs), pairs);
  }

  // ---------------------------------------------------------------- setting up the histograms

  ghost function Column(g: Square, n: nat, l: nat): (s: seq<nat>)
    requires |g| == n && l < n && forall r :: 0 <= r < n ==> |g[r]| == n
    ensures |s| == n
  {
    seq(n, i requires 0 <= i < n => g[i][l])
  }

  ghost predicate IsSquare(g: Square, n: nat) {
    && |g| == n && (forall r :: 0 <= r < n ==> |g[r]| == n)
    && forall r, c :: 0 <= r < n && 0 <= c < n ==> 1 <= g[r][c] <= n
  }

  ghost predicate TableShape(h: seq<seq<int>>, n: nat) {
    |h| == n && forall l :: 0 <= l < n ==> |h[l]| == n
  }

  /** The first `i` rows and `j` cells of the next one are counted. */
  ghost predicate Counted(g: Square, n: nat, rows: seq<seq<int>>, columns: seq<seq<int>>, i: nat, j: nat) {
    && IsSquare(g, n) && TableShape(rows, n) && TableShape(columns, n) && i <= n && j <= n && (i == n ==> j == 0)
    && (forall l, v :: 0 <= l < n && 0 <= v < n ==>
          rows[l][v] == if l < i then CountIn(g[l], v + 1) else if l == i then CountIn(g[l][..j], v + 1) else 0)
    && (forall l, v :: 0 <= l < n && 0 <= v < n ==>
          columns[l][v] == CountIn(Column(g, n, l)[..if l < j then i + 1 else i], v + 1))
  }

  lemma CountPrefix(s: seq<nat>, j: nat, x: nat)
    requires j < |s|
    ensures CountIn(s[..j + 1], x) == CountIn(s[..j], x) + One(s[j] == x)
  {
    assert s[..j + 1][..j] == s[..j];
  }

  lemma CountedStep(g: Square, n: nat, rows: seq<seq<int>>, columns: seq<seq<int>>, i: nat, j: nat)
    requires Counted(g, n, rows, columns, i, j) && i < n && j < n
    ensures var v := g[i][j] - 1;
            Counted(g, n, rows[i := rows[i][v := rows[i][v] + 1]], columns[j := columns[j][v := columns[j][v] + 1]], i, j + 1)
  {
    hide CountIn;
    forall x: nat
      ensures CountIn(g[i][..j + 1], x) == CountIn(g[i][..j], x) + One(g[i][j] == x)
      ensures CountIn(Column(g, n, j)[..i + 1], x) == CountIn(Column(g, n, j)[..i], x) + One(g[i][j] == x)
    {
      CountPrefix(g[i], j, x);
      CountPrefix(Column(g, n, j), i, x);
    }
  }

  lemma CountedRow(g: Square, n: nat, rows: seq<seq<int>>, columns: seq<seq<int>>, i: nat)
    requires Counted(g, n, rows, columns, i, n) && i < n
    ensures Counted(g, n, rows, columns, i + 1, 0)
  {
    assert g[i][..n] == g[i];
    if i + 1 < n { assert g[i + 1][..0] == []; }
  }

  /** Counts the values in the rows and columns of one square. */
  method CountSquare(g: Square, n: nat) returns (rows: seq<seq<int>>, columns: seq<seq<int>>)
    requires IsSquare(g, n)
    ensures TableShape(rows, n) && TableShape(columns, n)
    ensures forall l, v :: 0 <= l < n && 0 <= v < n ==>
              rows[l][v] == CountIn(g[l], v + 1) && columns[l][v] == CountIn(Column(g, n, l), v + 1)
  {
    rows := seq(n, _ => seq(n, _ => 0));
    columns := seq(n, _ => seq(n, _ => 0));
    for i := 0 to n
      invariant Counted(g, n, rows, columns, i, 0)
    {
      for j := 0 to n
        invariant Counted(g, n, rows, columns, i, j)
      {
        CountedStep(g, n, rows, columns, i, j);
        var v := g[i][j] - 1;
        columns := columns[j := columns[j][v := columns[j][v] + 1]];
        rows := rows[i := rows[i][v := rows[i][v] + 1]];
      }
      CountedRow(g, n, rows, columns, i);
    }
    forall l | 0 <= l < n ensures Column(g, n, l)[..n] == Column(g, n, l) {
    }
  }

  /** Adds the pairs of values of two squares to a histogram. */
  method CountPairs(a: Square, b: Square, n: nat, h: seq<int>) returns (h': seq<int>)
    requires IsSquare(a, n) && IsSquare(b, n) && |h| == n * n
    ensures |h'| == n * n && forall p :: 0 <= p < n * n ==> h'[p] == h[p] + CountGrid(Codes(a, b, n), p)
  {
    hide Code, CountIn;
    ghost var g := Codes(a, b, n);
    h' := h;
    for i := 0 to n
      invariant |h'| == n * n && forall p :: 0 <= p < n * n ==> h'[p] == h[p] + CountGrid(g[..i], p)
    {
      ghost var was := h';
      CountNothing();
      assert g[i][..0] == [];
      for j := 0 to n
        invariant |h'| == n * n && forall p :: 0 <= p < n * n ==> h'[p] == was[p] + CountIn(g[i][..j], p)
      {
        var code := Code(a[i][j] - 1, b[i][j] - 1, n);
        CodeBound(a[i][j] - 1, b[i][j] - 1, n);
        forall p | 0 <= p < n * n ensures CountIn(g[i][..j + 1], p) == CountIn(g[i][..j], p) + One(code == p) {
          CountPrefix(g[i], j, p);
        }
        h' := h'[code := h'[code] + 1];
      }
      assert g[i][..n] == g[i] && g[..i + 1][..i] == g[..i];
    }
    assert g[..n] == g;
  }

  lemma CountNothing()
    ensures forall p :: CountIn([], p) == 0
  {
  }

  /** Counts everything from the squares. */
  method SetUpHistograms(sq: seq<Square>, n: nat) returns (rows: Hist, columns: Hist, pairs: Pairs)
    requires Shape(sq, n)
    ensures Histograms(sq, n, rows, columns, pairs)
  {
    hide CountIn, PairCount;
    rows, columns := [], [];
    for k := 0 to |sq|
      invariant |rows| == |columns| == k
      invariant forall j :: 0 <= j < k ==> TableShape(rows[j], n) && TableShape(columns[j], n)
      invariant forall j, l, v :: 0 <= j < k && 0 <= l < n && 0 <= v < n ==>
        rows[j][l][v] == CountIn(sq[j][l], v + 1) && columns[j][l][v] == CountIn(Column(sq[j], n, l), v + 1)
    {
      var r, c := CountSquare(sq[k], n);
      rows, columns := rows + [r], columns + [c];
    }
    LineHistShape(sq, n, true);
    LineHistShape(sq, n, false);
    forall j, l | 0 <= j < |sq| && 0 <= l < n
      ensures Line(sq, n, true, j, l) == sq[j][l] && Line(sq, n, false, j, l) == Column(sq[j], n, l)
    {
    }
    SameHist(rows, LineHist(sq, n, true), |sq|, n);
    SameHist(columns, LineHist(sq, n, false), |sq|, n);
    pairs := SetUpPairs(sq, n);
  }

  lemma SameHist(a: Hist, b: Hist, m: nat, n: nat)
    requires HistShape(a, m, n) && HistShape(b, m, n)
    requires forall k, l, v :: 0 <= k < m && 0 <= l < n && 0 <= v < n ==> a[k][l][v] == b[k][l][v]
    ensures a == b
  {
    forall k | 0 <= k < m ensures a[k] == b[k] {
      forall l | 0 <= l < n ensures a[k][l] == b[k][l] {
      }
    }
  }

  /** The histogram of the pairs of squares before (k1, k2). */
  ghost predicate PairsSoFar(pairs: Pairs, sq: seq<Square>, n: nat, k1: nat, k2: nat) {
    && Shape(sq, n) && PairShape(pairs, |sq|, n)
    && (|sq| <= 3 ==> forall i, p :: 0 <= i < PairCount(|sq|) && i < 3 && 0 <= p < n * n ==>
          pairs[i][p] == if Before(i, k1, k2) then PairHist(sq, n)[i][p] else 0)
  }

  method SetUpPairs(sq: seq<Square>, n: nat) returns (pairs: Pairs)
    requires Shape(sq, n)
    ensures PairShape(pairs, |sq|, n) && (|sq| <= 3 ==> pairs == PairHist(sq, n))
  {
    hide CountGrid, Codes, PairCount;
    pairs := seq(PairCount(|sq|), _ => seq(n * n, _ => 0));
    for k1 := 0 to |sq|
      invariant PairsSoFar(pairs, sq, n, k1, 0)
    {
      PairsOn(pairs, sq, n, k1, 0, k1, k1 + 1);
      for k2 := k1 + 1 to |sq|
        invariant PairsSoFar(pairs, sq, n, k1, k2)
      {
        PairIndexBound(|sq|, k1, k2);
        var h := CountPairs(sq[k1], sq[k2], n, pairs[Place(k1, k2)]);
        PairsStep(pairs, sq, n, k1, k2, h);
        pairs := pairs[Place(k1, k2) := h];
      }
      PairsOn(pairs, sq, n, k1, |sq|, k1 + 1, 0);
    }
    if |sq| <= 3 {
      PairsOfFew(|sq|);
      SamePairs(pairs, PairHist(sq, n));
    }
  }

  lemma PairsOn(pairs: Pairs, sq: seq<Square>, n: nat, k1: nat, k2: nat, j1: nat, j2: nat)
    requires PairsSoFar(pairs, sq, n, k1, k2)
    requires (j1 == k1 && k2 == 0 && j2 == k1 + 1) || (j1 == k1 + 1 && j2 == 0 && k2 >= |sq|)
    ensures PairsSoFar(pairs, sq, n, j1, j2)
  {
    hide PairHist;
    if |sq| <= 3 { PairsOfFew(|sq|); }
  }

  lemma PairsStep(pairs: Pairs, sq: seq<Square>, n: nat, k1: nat, k2: nat, h: seq<int>)
    requires PairsSoFar(pairs, sq, n, k1, k2) && k1 < k2 < |sq| && Place(k1, k2) < PairCount(|sq|) && |h| == n * n
    requires forall p :: 0 <= p < n * n ==> h[p] == pairs[Place(k1, k2)][p] + CountGrid(Codes(sq[k1], sq[k2], n), p)
    ensures PairsSoFar(pairs[Place(k1, k2) := h], sq, n, k1, k2 + 1)
  {
    hide CountGrid, Codes, PairCount;
    if |sq| <= 3 { PairsOfFew(|sq|); }
  }
}
