/**
  Capacity matrices, residual matrices, walks and breadth-first levels, and the
  facts about them that the augmenting-path programs rest on: what pushing flow
  along a shortest walk keeps, why levels never fall, and max-flow/min-cut.
 */
module FlowNetwork {
  import opened Integers
  import opened Sums

  type Matrix = seq<seq<int>>

  ghost predicate Square(m: Matrix, n: nat) {
    |m| == n && forall u :: 0 <= u < n ==> |m[u]| == n
  }

  ghost function At(m: Matrix, u: int, v: int): int {
    if 0 <= u < |m| && 0 <= v < |m[u]| then m[u][v] else 0
  }

  ghost function Entries(m: Matrix): (int, int) -> int {
    (u, v) => At(m, u, v)
  }

  ghost predicate Capacities(g: Matrix, n: nat) {
    Square(g, n) && forall u, v :: 0 <= u < n && 0 <= v < n ==> 0 <= At(g, u, v)
  }

  /** No residual capacity can leave the range of an int. */
  ghost predicate FitsInt(g: Matrix, n: nat) {
    forall u, v :: 0 <= u < n && 0 <= v < n && u != v ==> At(g, u, v) + At(g, v, u) <= INT_MAX
  }

  // ---------------------------------------------------------------- flows and cuts

  /** A feasible s-t flow in the textbook sense: within capacities, conserved off s and t. */
  ghost predicate IsFlow(g: Matrix, n: nat, s: int, t: int, h: Matrix) {
    && Square(h, n)
    && (forall u, v :: 0 <= u < n && 0 <= v < n ==> 0 <= At(h, u, v) <= At(g, u, v))
    && (forall u :: 0 <= u < n && u != s && u != t ==>
                      Sum(n, Row(Entries(h), u)) == Sum(n, Column(Entries(h), u)))
  }

  ghost function FlowValue(h: Matrix, n: nat, s: int): int {
    Sum(n, Row(Entries(h), s)) - Sum(n, Column(Entries(h), s))
  }

  ghost predicate IsCut(S: set<int>, n: nat, s: int, t: int) {
    s in S && t !in S && forall u :: u in S ==> 0 <= u < n
  }

  /** F restricted to the pairs that leave S. */
  ghost function Leaving(F: (int, int) -> int, S: set<int>): (int, int) -> int {
    (u, v) => if u in S && v !in S then F(u, v) else 0
  }

  ghost function Inside(F: (int, int) -> int, S: set<int>): (int, int) -> int {
    (u, v) => if u in S && v in S then F(u, v) else 0
  }

  ghost function From(F: (int, int) -> int, S: set<int>): (int, int) -> int {
    (u, v) => if u in S then F(u, v) else 0
  }

  ghost function CutCapacity(g: Matrix, n: nat, S: set<int>): int {
    Sum2(n, n, Leaving(Entries(g), S))
  }

  /** What actually moves from u to v, counting the opposite direction negatively. */
  ghost function Net(h: Matrix): (int, int) -> int {
    (u, v) => At(h, u, v) - At(h, v, u)
  }

  /** Rows of K other than row s vanish on S, so K summed over the rows in S is row s. */
  lemma {:induction false} RowsOfCut(K: (int, int) -> int, m: nat, n: nat, S: set<int>, s: int, value: int)
    requires forall u :: 0 <= u < n && u in S && u != s ==> Sum(n, Row(K, u)) == 0
    requires Sum(n, Row(K, s)) == value && 0 <= s && s in S && m <= n
    ensures Sum2(m, n, From(K, S)) == if s < m then value else 0
  {
    if m > 0 {
      RowsOfCut(K, m - 1, n, S, s, value);
      if m - 1 in S {
        SumEqual(n, Row(From(K, S), m - 1), Row(K, m - 1));
      } else {
        SumZero(n, Row(From(K, S), m - 1));
      }
    }
  }

  /** What leaves the source crosses every cut: an antisymmetric K conserved off s and t. */
  lemma CutCarriesTheFlow(K: (int, int) -> int, n: nat, s: int, t: int, S: set<int>, value: int)
    requires 0 <= s < n && IsCut(S, n, s, t)
    requires forall u, v :: 0 <= u < n && 0 <= v < n ==> K(u, v) == -K(v, u)
    requires forall u :: 0 <= u < n && u != s && u != t ==> Sum(n, Row(K, u)) == 0
    requires Sum(n, Row(K, s)) == value
    ensures Sum2(n, n, Leaving(K, S)) == value
  {
    RowsOfCut(K, n, n, S, s, value);
    Sum2Linear(n, n, Inside(K, S), Leaving(K, S), From(K, S));
    AntisymmetricSumsToZero(n, Inside(K, S));
  }

  lemma NetRow(h: Matrix, n: nat, u: int)
    ensures Sum(n, Row(Net(h), u)) == Sum(n, Row(Entries(h), u)) - Sum(n, Column(Entries(h), u))
  {
    SumLinear(n, Row(Net(h), u), Column(Entries(h), u), Row(Entries(h), u));
  }

  /** Weak duality: no feasible flow exceeds the capacity of any cut. */
  lemma FlowWithinCut(g: Matrix, n: nat, s: int, t: int, h: Matrix, S: set<int>)
    requires Capacities(g, n) && 0 <= s < n && IsFlow(g, n, s, t, h) && IsCut(S, n, s, t)
    ensures FlowValue(h, n, s) <= CutCapacity(g, n, S)
  {
    forall u | 0 <= u < n ensures Sum(n, Row(Net(h), u)) == Sum(n, Row(Entries(h), u)) - Sum(n, Column(Entries(h), u)) {
      NetRow(h, n, u);
    }
    CutCarriesTheFlow(Net(h), n, s, t, S, FlowValue(h, n, s));
    Sum2Monotone(n, n, Leaving(Net(h), S), Leaving(Entries(g), S));
  }

  // ---------------------------------------------------------------- residual matrices

  /** The net flow that turned capacities g into residuals r. */
  ghost function Used(g: Matrix, r: Matrix): (int, int) -> int {
    (u, v) => At(g, u, v) - At(r, u, v)
  }

  /** r is what is left of g after sending a conserved net flow of the given value from s to t. */
  ghost predicate IsResidual(g: Matrix, r: Matrix, n: nat, s: int, t: int, value: int) {
    && Square(r, n)
    && (forall u, v :: 0 <= u < n && 0 <= v < n ==>
          0 <= At(r, u, v) && At(r, u, v) + At(r, v, u) == At(g, u, v) + At(g, v, u))
    && (forall u :: 0 <= u < n && u != s && u != t ==> Sum(n, Row(Used(g, r), u)) == 0)
    && Sum(n, Row(Used(g, r), s)) == value
  }

  /** The feasible flow that a residual matrix stands for. */
  ghost function FlowOf(g: Matrix, r: Matrix, n: nat): (h: Matrix)
    ensures Square(h, n)
  {
    seq(n, u => seq(n, v => if At(g, u, v) > At(r, u, v) then At(g, u, v) - At(r, u, v) else 0))
  }

  /** A residual matrix always stands for a feasible flow of its value. */
  lemma ResidualIsFlow(g: Matrix, r: Matrix, n: nat, s: int, t: int, value: int)
    requires Capacities(g, n) && 0 <= s < n && IsResidual(g, r, n, s, t, value)
    ensures IsFlow(g, n, s, t, FlowOf(g, r, n))
    ensures FlowValue(FlowOf(g, r, n), n, s) == value
  {
    var h := FlowOf(g, r, n);
    forall u, v | 0 <= u < n && 0 <= v < n
      ensures 0 <= At(h, u, v) <= At(g, u, v) && Net(h)(u, v) == Used(g, r)(u, v)
    {
      assert At(h, u, v) == if At(g, u, v) > At(r, u, v) then At(g, u, v) - At(r, u, v) else 0;
      assert At(h, v, u) == if At(g, v, u) > At(r, v, u) then At(g, v, u) - At(r, v, u) else 0;
    }
    forall u | 0 <= u < n
      ensures Sum(n, Row(Used(g, r), u)) == Sum(n, Row(Entries(h), u)) - Sum(n, Column(Entries(h), u))
    {
      NetRow(h, n, u);
      SumEqual(n, Row(Net(h), u), Row(Used(g, r), u));
    }
  }

  /** The value of a residual matrix never exceeds the capacity out of the source. */
  lemma ValueWithinSource(g: Matrix, r: Matrix, n: nat, s: int, t: int, value: int)
    requires 0 <= s < n && IsResidual(g, r, n, s, t, value)
    ensures value <= Sum(n, Row(Entries(g), s))
  {
    SumMonotone(n, Row(Used(g, r), s), Row(Entries(g), s));
  }

  /** Some feasible flow has this value and no feasible flow has a larger one. */
  ghost predicate IsMaxFlowValue(g: Matrix, n: nat, s: int, t: int, value: int) {
    && (exists h :: IsFlow(g, n, s, t, h) && FlowValue(h, n, s) == value)
    && (forall h :: IsFlow(g, n, s, t, h) ==> FlowValue(h, n, s) <= value)
  }

  ghost predicate IsMinCut(g: Matrix, n: nat, s: int, t: int, S: set<int>) {
    && IsCut(S, n, s, t)
    && (forall T :: IsCut(T, n, s, t) ==> CutCapacity(g, n, S) <= CutCapacity(g, n, T))
  }

  /** Max-flow/min-cut: a cut that no residual edge leaves certifies both optima. */
  lemma SaturatedCutIsOptimal(g: Matrix, r: Matrix, n: nat, s: int, t: int, value: int, S: set<int>)
    requires Capacities(g, n) && 0 <= s < n && IsResidual(g, r, n, s, t, value) && IsCut(S, n, s, t)
    requires forall u, v :: 0 <= u < n && 0 <= v < n && u in S && v !in S ==> At(r, u, v) == 0
    ensures CutCapacity(g, n, S) == value
    ensures IsMaxFlowValue(g, n, s, t, value)
    ensures IsMinCut(g, n, s, t, S)
  {
    forall u, v | 0 <= u < n && 0 <= v < n ensures Used(g, r)(u, v) == -Used(g, r)(v, u) {
      assert At(r, u, v) + At(r, v, u) == At(g, u, v) + At(g, v, u);
    }
    CutCarriesTheFlow(Used(g, r), n, s, t, S, value);
    Sum2Equal(n, n, Leaving(Used(g, r), S), Leaving(Entries(g), S));
    ResidualIsFlow(g, r, n, s, t, value);
    forall h | IsFlow(g, n, s, t, h) ensures FlowValue(h, n, s) <= value {
      FlowWithinCut(g, n, s, t, h, S);
    }
    forall T | IsCut(T, n, s, t) ensures CutCapacity(g, n, S) <= CutCapacity(g, n, T) {
      FlowWithinCut(g, n, s, t, FlowOf(g, r, n), T);
    }
  }

  // ---------------------------------------------------------------- walks and levels

  ghost predicate Edge(r: Matrix, n: nat, u: int, v: int) {
    0 <= u < n && 0 <= v < n && At(r, u, v) > 0
  }

  /** A walk over positive entries of r. */
  ghost predicate Walk(r: Matrix, n: nat, w: seq<int>) {
    && |w| > 0
    && (forall i :: 0 <= i < |w| ==> 0 <= w[i] < n)
    && (forall i :: 0 <= i < |w| - 1 ==> Edge(r, n, w[i], w[i + 1]))
  }

  ghost predicate WalkFromTo(r: Matrix, n: nat, w: seq<int>, s: int, v: int) {
    Walk(r, n, w) && w[0] == s && w[|w| - 1] == v
  }

  ghost predicate Step(r: Matrix, n: nat, d: seq<nat>, u: int, v: int)
    requires |d| == n
  {
    Edge(r, n, u, v) && d[u] + 1 == d[v]
  }

  ghost predicate HasPredecessor(r: Matrix, n: nat, d: seq<nat>, v: int)
    requires |d| == n
  {
    exists u :: Step(r, n, d, u, v)
  }

  /** d labels each vertex with its breadth-first level from s, or n when it is unreachable. */
  ghost predicate Levels(r: Matrix, n: nat, s: int, d: seq<nat>) {
    && |d| == n && 0 <= s < n && d[s] == 0
    && (forall v :: 0 <= v < n ==> d[v] <= n)
    && (forall u, v :: Edge(r, n, u, v) && d[u] < n ==> d[v] < n && d[v] <= d[u] + 1)
    && (forall v {:trigger HasPredecessor(r, n, d, v)} ::
          0 <= v < n && v != s && d[v] < n ==> HasPredecessor(r, n, d, v))
  }

  /** No walk from s is shorter than the level of its end. */
  lemma {:induction false} LevelsBoundWalks(r: Matrix, n: nat, s: int, d: seq<nat>, w: seq<int>)
    requires Levels(r, n, s, d) && Walk(r, n, w) && w[0] == s
    ensures d[w[|w| - 1]] < n && d[w[|w| - 1]] <= |w| - 1
    decreases |w|
  {
    if |w| > 1 {
      var k := |w| - 1;
      LevelsBoundWalks(r, n, s, d, w[..k]);
      assert Edge(r, n, w[k - 1], w[k]);
    }
  }

  lemma WalksAreLabelled(r: Matrix, n: nat, s: int, d: seq<nat>, w: seq<int>, i: int)
    requires Levels(r, n, s, d) && Walk(r, n, w) && w[0] == s && 0 <= i < |w|
    ensures 0 <= w[i] < n && d[w[i]] < n
  {
    assert Walk(r, n, w[..i + 1]);
    LevelsBoundWalks(r, n, s, d, w[..i + 1]);
  }

  lemma WalkExtends(r: Matrix, n: nat, w: seq<int>, v: int)
    requires Walk(r, n, w) && Edge(r, n, w[|w| - 1], v)
    ensures Walk(r, n, w + [v])
  {}

  /** Every labelled vertex is reached by a walk of exactly its level. */
  lemma {:induction false} LevelIsReached(r: Matrix, n: nat, s: int, d: seq<nat>, v: int) returns (w: seq<int>)
    requires Levels(r, n, s, d) && 0 <= v < n && d[v] < n
    ensures WalkFromTo(r, n, w, s, v) && |w| == d[v] + 1
    decreases d[v]
  {
    if v == s {
      w := [s];
    } else {
      assert HasPredecessor(r, n, d, v);
      var u :| Step(r, n, d, u, v);
      assert Edge(r, n, u, v) && d[u] < d[v];
      hide Levels, Edge, Step, Walk;
      var w0 := LevelIsReached(r, n, s, d, u);
      WalkExtends(r, n, w0, v);
      w := w0 + [v];
    }
  }

  /** The vertices the levels reach. */
  ghost function Reached(d: seq<nat>, n: nat): (S: set<int>)
    requires |d| == n
    ensures forall v :: v in S <==> 0 <= v < n && d[v] < n
  {
    set v: int | 0 <= v < n && d[v] < n
  }

  // ---------------------------------------------------------------- pushing flow

  ghost function PushEdge(r: Matrix, n: nat, u: int, v: int, p: int): (r': Matrix)
    requires Square(r, n) && 0 <= u < n && 0 <= v < n
    ensures Square(r', n)
  {
    var a := r[u := r[u][v := r[u][v] - p]];
    a[v := a[v][u := a[v][u] + p]]
  }

  /** Sends p along w, last edge first, as the update loop does. */
  ghost function Push(r: Matrix, n: nat, w: seq<int>, p: int): (r': Matrix)
    requires Square(r, n) && forall i :: 0 <= i < |w| ==> 0 <= w[i] < n
    ensures Square(r', n)
    decreases |w|
  {
    var k := |w| - 1;
    if k < 1 then r else Push(PushEdge(r, n, w[k - 1], w[k], p), n, w[..k], p)
  }

  /** A walk that climbs one level at a time from level 0. */
  ghost predicate Climbs(w: seq<int>, n: nat, d: seq<nat>) {
    |d| == n && forall i :: 0 <= i < |w| ==> 0 <= w[i] < n && d[w[i]] == i
  }

  /** Whether (x, y) is an edge of the climbing walk w. */
  ghost predicate On(w: seq<int>, n: nat, d: seq<nat>, x: int, y: int)
    requires |d| == n && 0 <= x < n && 0 <= y < n
  {
    d[x] + 1 < |w| && w[d[x]] == x && d[y] == d[x] + 1 && w[d[y]] == y
  }

  /** Exactly the edges of w lose p, and exactly their reverses gain it. */
  lemma {:induction false} PushAt(r: Matrix, n: nat, w: seq<int>, p: int, d: seq<nat>, x: int, y: int)
    requires Square(r, n) && Climbs(w, n, d) && 0 <= x < n && 0 <= y < n
    ensures At(Push(r, n, w, p), x, y) ==
            At(r, x, y) - (if On(w, n, d, x, y) then p else 0) + (if On(w, n, d, y, x) then p else 0)
    decreases |w|
  {
    var k := |w| - 1;
    if k >= 1 {
      var r1 := PushEdge(r, n, w[k - 1], w[k], p);
      assert d[w[k - 1]] == k - 1 && d[w[k]] == k;
      PushAt(r1, n, w[..k], p, d, x, y);
    }
  }

  lemma PushEdgeRow(r: Matrix, n: nat, u: int, v: int, p: int, x: int)
    requires Square(r, n) && 0 <= u < n && 0 <= v < n && u != v && 0 <= x < n
    ensures Sum(n, Row(Entries(PushEdge(r, n, u, v, p)), x)) ==
            Sum(n, Row(Entries(r), x)) - (if x == u then p else 0) + (if x == v then p else 0)
  {
    var r1 := PushEdge(r, n, u, v, p);
    if x == u {
      SumUpdate(n, Row(Entries(r), x), Row(Entries(r1), x), v, -p);
    } else if x == v {
      SumUpdate(n, Row(Entries(r), x), Row(Entries(r1), x), u, p);
    } else {
      SumEqual(n, Row(Entries(r), x), Row(Entries(r1), x));
    }
  }

  /** Pushing moves residual out of the first vertex's row into the last one's, nowhere else. */
  lemma {:induction false} PushRow(r: Matrix, n: nat, w: seq<int>, p: int, d: seq<nat>, x: int)
    requires Square(r, n) && Climbs(w, n, d) && |w| > 0 && 0 <= x < n
    ensures Sum(n, Row(Entries(Push(r, n, w, p)), x)) ==
            Sum(n, Row(Entries(r), x)) - (if x == w[0] then p else 0) + (if x == w[|w| - 1] then p else 0)
    decreases |w|
  {
    var k := |w| - 1;
    if k >= 1 {
      assert d[w[k - 1]] == k - 1 && d[w[k]] == k;
      PushEdgeRow(r, n, w[k - 1], w[k], p, x);
      PushRow(PushEdge(r, n, w[k - 1], w[k], p), n, w[..k], p, d, x);
    }
  }

  /** p is the least residual on the edges of w. */
  ghost predicate IsBottleneck(r: Matrix, w: seq<int>, p: int) {
    && (forall i :: 0 <= i < |w| - 1 ==> p <= At(r, w[i], w[i + 1]))
    && (exists i :: 0 <= i < |w| - 1 && p == At(r, w[i], w[i + 1]))
  }

  /** One augmentation: a level-climbing s-t walk over positive residuals and its bottleneck. */
  ghost predicate IsAugmentation(r: Matrix, n: nat, s: int, t: int, d: seq<nat>, w: seq<int>, p: int) {
    && Square(r, n) && Levels(r, n, s, d) && WalkFromTo(r, n, w, s, t)
    && s != t && Climbs(w, n, d) && IsBottleneck(r, w, p)
  }

  lemma RowOfUsed(g: Matrix, r: Matrix, n: nat, x: int)
    ensures Sum(n, Row(Used(g, r), x)) == Sum(n, Row(Entries(g), x)) - Sum(n, Row(Entries(r), x))
  {
    SumLinear(n, Row(Used(g, r), x), Row(Entries(r), x), Row(Entries(g), x));
  }

  /** An augmentation keeps the residual invariant and raises the value by at least one. */
  lemma AugmentationKeepsResidual(g: Matrix, r: Matrix, n: nat, s: int, t: int, value: int,
                                  d: seq<nat>, w: seq<int>, p: int)
    requires IsResidual(g, r, n, s, t, value) && IsAugmentation(r, n, s, t, d, w, p)
    ensures p >= 1
    ensures IsResidual(g, Push(r, n, w, p), n, s, t, value + p)
  {
    var r' := Push(r, n, w, p);
    var c :| 0 <= c < |w| - 1 && p == At(r, w[c], w[c + 1]);
    assert Edge(r, n, w[c], w[c + 1]);
    forall u, v | 0 <= u < n && 0 <= v < n
      ensures 0 <= At(r', u, v) && At(r', u, v) + At(r', v, u) == At(g, u, v) + At(g, v, u)
    {
      PushAt(r, n, w, p, d, u, v);
      PushAt(r, n, w, p, d, v, u);
      if On(w, n, d, u, v) {
        assert p <= At(r, w[d[u]], w[d[u] + 1]);
      }
    }
    forall u | 0 <= u < n
      ensures Sum(n, Row(Used(g, r'), u)) ==
              Sum(n, Row(Used(g, r), u)) + (if u == s then p else 0) - (if u == t then p else 0)
    {
      RowOfUsed(g, r, n, u);
      RowOfUsed(g, r', n, u);
      PushRow(r, n, w, p, d, u);
    }
    assert 0 <= w[0] < n;
  }

  // ---------------------------------------------------------------- levels over a run

  /** Residual edges that an augmentation creates lead one level down. */
  ghost predicate NewEdgesGoDown(r: Matrix, r': Matrix, n: nat, d: seq<nat>) {
    |d| == n && forall u, v :: Edge(r', n, u, v) && !Edge(r, n, u, v) ==> d[v] < n && d[u] == d[v] + 1
  }

  lemma AugmentationEdges(r: Matrix, n: nat, s: int, t: int, d: seq<nat>, w: seq<int>, p: int)
    requires IsAugmentation(r, n, s, t, d, w, p) && p >= 1
    ensures NewEdgesGoDown(r, Push(r, n, w, p), n, d)
  {
    forall u, v | Edge(Push(r, n, w, p), n, u, v) && !Edge(r, n, u, v)
      ensures d[v] < n && d[u] == d[v] + 1
    {
      PushAt(r, n, w, p, d, u, v);
      assert On(w, n, d, v, u);
      WalksAreLabelled(r, n, s, d, w, d[v]);
    }
  }

  lemma {:induction false} LevelNeverFallsAt(r: Matrix, r': Matrix, n: nat, s: int, d: seq<nat>, d': seq<nat>, v: int)
    requires Levels(r, n, s, d) && Levels(r', n, s, d') && NewEdgesGoDown(r, r', n, d)
    requires 0 <= v < n
    ensures d[v] <= d'[v]
    decreases d'[v]
  {
    if d'[v] < n && v != s {
      assert HasPredecessor(r', n, d', v);
      var u :| Step(r', n, d', u, v);
      LevelNeverFallsAt(r, r', n, s, d, d', u);
      if !Edge(r, n, u, v) {
        assert d[u] == d[v] + 1;
      }
    }
  }

  /** Edmonds-Karp monotonicity: no vertex comes closer to the source. */
  lemma LevelsNeverFall(r: Matrix, n: nat, s: int, t: int, d: seq<nat>, w: seq<int>, p: int, d': seq<nat>)
    requires IsAugmentation(r, n, s, t, d, w, p) && p >= 1
    requires Levels(Push(r, n, w, p), n, s, d')
    ensures forall v :: 0 <= v < n ==> d[v] <= d'[v]
  {
    AugmentationEdges(r, n, s, t, d, w, p);
    forall v | 0 <= v < n ensures d[v] <= d'[v] {
      LevelNeverFallsAt(r, Push(r, n, w, p), n, s, d, d', v);
    }
  }

  /** The same without levels: every walk after an augmentation is matched by one no longer before it. */
  lemma DistancesNeverDecrease(r: Matrix, n: nat, s: int, t: int, d: seq<nat>, w: seq<int>, p: int, after: seq<int>)
    returns (before: seq<int>)
    requires IsAugmentation(r, n, s, t, d, w, p) && p >= 1
    requires Walk(Push(r, n, w, p), n, after) && after[0] == s
    ensures WalkFromTo(r, n, before, s, after[|after| - 1]) && |before| <= |after|
  {
    AugmentationEdges(r, n, s, t, d, w, p);
    DownwardEdgesGainNothing(r, Push(r, n, w, p), n, s, d, after);
    before := LevelIsReached(r, n, s, d, after[|after| - 1]);
  }

  lemma {:induction false} DownwardEdgesGainNothing(r: Matrix, r': Matrix, n: nat, s: int, d: seq<nat>, w: seq<int>)
    requires Levels(r, n, s, d) && NewEdgesGoDown(r, r', n, d)
    requires Walk(r', n, w) && w[0] == s
    ensures d[w[|w| - 1]] < n && d[w[|w| - 1]] <= |w| - 1
    decreases |w|
  {
    if |w| > 1 {
      var k := |w| - 1;
      DownwardEdgesGainNothing(r, r', n, s, d, w[..k]);
      assert Edge(r', n, w[k - 1], w[k]);
    }
  }

  // ---------------------------------------------------------------- counting augmentations

  /**
    A ledger of saturations: times[u][v] counts how often (u, v) was a bottleneck and
    last[u][v] is the level of u at the latest one.
   */
  ghost predicate Ledger(g: Matrix, r: Matrix, n: nat, d: seq<nat>, times: Matrix, last: Matrix) {
    && |d| == n && Square(times, n) && Square(last, n)
    && (forall u, v :: 0 <= u < n && 0 <= v < n ==> 0 <= At(times, u, v))
    && (forall u, v :: 0 <= u < n && 0 <= v < n && At(times, u, v) > 0 ==>
          && At(g, u, v) + At(g, v, u) > 0
          && 2 * (At(times, u, v) - 1) <= At(last, u, v) <= n - 2
          && At(last, u, v) <= d[u] && At(last, u, v) + 1 <= d[v]
          && (At(r, u, v) > 0 ==> At(last, u, v) + 2 <= d[u]))
  }

  ghost function Set(m: Matrix, n: nat, u: int, v: int, x: int): (m': Matrix)
    requires Square(m, n) && 0 <= u < n && 0 <= v < n
    ensures Square(m', n)
  {
    m[u := m[u][v := x]]
  }

  /** The bottleneck edge of an augmentation is saturated by it. */
  lemma BottleneckIsSaturated(r: Matrix, n: nat, s: int, t: int, d: seq<nat>, w: seq<int>, p: int)
    returns (a: int, b: int)
    requires IsAugmentation(r, n, s, t, d, w, p)
    ensures Edge(r, n, a, b) && d[b] == d[a] + 1 && d[b] < n
    ensures At(Push(r, n, w, p), a, b) == 0
  {
    var c :| 0 <= c < |w| - 1 && p == At(r, w[c], w[c + 1]);
    a, b := w[c], w[c + 1];
    assert Edge(r, n, a, b) && d[a] == c && d[b] == c + 1;
    hide Levels, Walk, IsBottleneck, Push;
    WalksAreLabelled(r, n, s, d, w, c + 1);
    PushAt(r, n, w, p, d, a, b);
  }

  /** Between two saturations of an edge its tail rises by two levels, so the ledger stays lawful. */
  lemma LedgerRecords(g: Matrix, r: Matrix, r': Matrix, n: nat, d: seq<nat>, d': seq<nat>,
                      times: Matrix, last: Matrix, a: int, b: int)
    requires Ledger(g, r, n, d, times, last) && |d'| == n && NewEdgesGoDown(r, r', n, d)
    requires forall v :: 0 <= v < n ==> d[v] <= d'[v]
    requires Edge(r, n, a, b) && d[b] == d[a] + 1 && d[b] < n
    requires At(r', a, b) == 0 && At(g, a, b) + At(g, b, a) > 0
    ensures Ledger(g, r', n, d', Set(times, n, a, b, At(times, a, b) + 1), Set(last, n, a, b, d[a]))
  {
    var times' := Set(times, n, a, b, At(times, a, b) + 1);
    var last' := Set(last, n, a, b, d[a]);
    forall u, v | 0 <= u < n && 0 <= v < n && !(u == a && v == b)
      ensures At(times', u, v) == At(times, u, v) && At(last', u, v) == At(last, u, v)
      ensures At(r', u, v) > 0 && At(r, u, v) <= 0 ==> d[u] == d[v] + 1
    {
      if At(r', u, v) > 0 && At(r, u, v) <= 0 {
        assert Edge(r', n, u, v) && !Edge(r, n, u, v);
      }
    }
    assert At(times', a, b) == At(times, a, b) + 1 && At(last', a, b) == d[a];
  }

  /** One augmentation adds one entry to a lawful ledger. */
  lemma LedgerGrows(g: Matrix, r: Matrix, n: nat, s: int, t: int, value: int, d: seq<nat>, w: seq<int>,
                    p: int, d': seq<nat>, times: Matrix, last: Matrix)
    returns (times': Matrix, last': Matrix)
    requires IsResidual(g, r, n, s, t, value)
    requires IsAugmentation(r, n, s, t, d, w, p) && p >= 1
    requires Levels(Push(r, n, w, p), n, s, d') && Ledger(g, r, n, d, times, last)
    ensures Ledger(g, Push(r, n, w, p), n, d', times', last')
    ensures Sum2(n, n, Entries(times')) == Sum2(n, n, Entries(times)) + 1
  {
    LevelsNeverFall(r, n, s, t, d, w, p, d');
    AugmentationEdges(r, n, s, t, d, w, p);
    var a, b := BottleneckIsSaturated(r, n, s, t, d, w, p);
    assert At(r, a, b) + At(r, b, a) == At(g, a, b) + At(g, b, a) && 0 <= At(r, b, a);
    LedgerRecords(g, r, Push(r, n, w, p), n, d, d', times, last, a, b);
    times' := Set(times, n, a, b, At(times, a, b) + 1);
    last' := Set(last, n, a, b, d[a]);
    SumBumped(n, n, times, times', a, b);
  }

  lemma {:induction false} SumBumped(m: nat, n: nat, x: Matrix, y: Matrix, a: int, b: int)
    requires m <= n && Square(x, n) && Square(y, n) && 0 <= a < n && 0 <= b < n
    requires y == Set(x, n, a, b, At(x, a, b) + 1)
    ensures Sum2(m, n, Entries(y)) == Sum2(m, n, Entries(x)) + if a < m then 1 else 0
  {
    if m > 0 {
      SumBumped(m - 1, n, x, y, a, b);
      if m - 1 == a {
        SumUpdate(n, Row(Entries(x), a), Row(Entries(y), a), b, 1);
      } else {
        SumEqual(n, Row(Entries(x), m - 1), Row(Entries(y), m - 1));
      }
    }
  }

  /** 1 on the ordered pairs with capacity in either direction, so its sum is at most 2|E|. */
  ghost function Usable(g: Matrix): (int, int) -> int {
    (u, v) => if At(g, u, v) + At(g, v, u) > 0 then 1 else 0
  }

  lemma {:induction false} SumWithin(m: nat, n: nat, F: (int, int) -> int, G: (int, int) -> int, k: int)
    requires forall u, v :: 0 <= u < m && 0 <= v < n ==> 2 * F(u, v) <= k * G(u, v)
    ensures 2 * Sum2(m, n, F) <= k * Sum2(m, n, G)
  {
    if m > 0 {
      SumWithin(m - 1, n, F, G, k);
      RowWithin(n, Row(F, m - 1), Row(G, m - 1), k);
    }
  }

  lemma {:induction false} RowWithin(n: nat, f: int -> int, g: int -> int, k: int)
    requires forall v :: 0 <= v < n ==> 2 * f(v) <= k * g(v)
    ensures 2 * Sum(n, f) <= k * Sum(n, g)
  {
    if n > 0 { RowWithin(n - 1, f, g, k); }
  }

  /** A lawful ledger holds at most n/2 saturations per usable pair. */
  lemma LedgerIsBounded(g: Matrix, r: Matrix, n: nat, d: seq<nat>, times: Matrix, last: Matrix)
    requires Ledger(g, r, n, d, times, last)
    ensures 2 * Sum2(n, n, Entries(times)) <= n * Sum2(n, n, Usable(g))
  {
    forall u, v | 0 <= u < n && 0 <= v < n ensures 2 * Entries(times)(u, v) <= n * Usable(g)(u, v) {
      assert 0 <= At(times, u, v);
    }
    SumWithin(n, n, Entries(times), Usable(g), n);
  }
}
