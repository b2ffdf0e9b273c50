/**
  The augmenting-path programs: breadth-first search over the residual matrix, the
  augmentation loop, the maximum flow, the depth-first marking and the minimum cut.
 */
module FordFulkerson {
  import opened Integers
  import opened Sums
  import opened FlowNetwork

  /** The value of a two-dimensional array. */
  ghost function Rows(a: array2<int>): (m: Matrix)
    reads a
    ensures |m| == a.Length0 && forall u :: 0 <= u < a.Length0 ==> |m[u]| == a.Length1
    ensures forall u, v :: 0 <= u < a.Length0 && 0 <= v < a.Length1 ==> m[u][v] == a[u, v]
  {
    seq(a.Length0, u requires 0 <= u < a.Length0 reads a =>
      seq(a.Length1, v requires 0 <= v < a.Length1 reads a => a[u, v]))
  }

  lemma RowsEqual(a: array2<int>, m: Matrix, n: nat)
    requires a.Length0 == n && a.Length1 == n && Square(m, n)
    requires forall u, v :: 0 <= u < n && 0 <= v < n ==> a[u, v] == At(m, u, v)
    ensures Rows(a) == m
  {
    forall u | 0 <= u < n ensures Rows(a)[u] == m[u] {
      forall v | 0 <= v < n ensures Rows(a)[u][v] == m[u][v] {
        assert a[u, v] == At(m, u, v);
      }
    }
  }

  lemma EntryOf(a: array2<int>, u: int, v: int)
    requires a.Length0 == a.Length1 && 0 <= u < a.Length0 && 0 <= v < a.Length0
    ensures At(Rows(a), u, v) == a[u, v] && (Edge(Rows(a), a.Length0, u, v) <==> a[u, v] > 0)
  {}

  // ---------------------------------------------------------------- breadth-first search

  ghost predicate Distinct(q: seq<int>) {
    forall i, j :: 0 <= i < j < |q| ==> q[i] != q[j]
  }

  /** Distinct numbers below n: at most n of them. */
  lemma {:induction false} DistinctIsShort(q: seq<int>, n: nat)
    requires Distinct(q) && forall i :: 0 <= i < |q| ==> 0 <= q[i] < n
    ensures |q| <= n
  {
    var first := if |q| > 0 then q[0] else 0;
    if n > 0 {
      if exists k :: 0 <= k < |q| && q[k] == n - 1 {
        var k :| 0 <= k < |q| && q[k] == n - 1;
        DistinctIsShort(q[..k] + q[k + 1..], n - 1);
      } else {
        DistinctIsShort(q, n - 1);
      }
    }
  }

  /** parent holds, for every labelled vertex but s, a predecessor one level up. */
  ghost predicate ParentTree(r: Matrix, n: nat, s: int, d: seq<nat>, parent: seq<int>) {
    && |d| == n && |parent| == n && 0 <= s < n && parent[s] == -1
    && (forall v :: 0 <= v < n && v != s && d[v] < n ==> 0 <= parent[v] < n && Step(r, n, d, parent[v], v))
  }

  /** Out-neighbours of u among the first k vertices are labelled, at most one level below u. */
  ghost predicate Scanned(r: Matrix, n: nat, d: seq<nat>, u: int, k: int)
  {
    |d| == n && 0 <= u < n &&
    forall v :: 0 <= v < k && Edge(r, n, u, v) ==> d[v] < n && d[v] <= d[u] + 1
  }

  /** The search so far: seen lists the labelled vertices in the order they were queued. */
  ghost predicate Searching(n: nat, s: int, d: seq<nat>, seen: seq<int>) {
    && |d| == n && 0 <= s < n && d[s] == 0
    && Distinct(seen)
    && (forall i :: 0 <= i < |seen| ==> 0 <= seen[i] < n && d[seen[i]] <= i && d[seen[i]] < n)
    && (forall v :: 0 <= v < n && v !in seen ==> d[v] == n)
    && (forall i, j :: 0 <= i <= j < |seen| ==> d[seen[i]] <= d[seen[j]])
  }

  /** No queued vertex lies more than one level below the one at position k. */
  ghost predicate NearFront(n: nat, d: seq<nat>, seen: seq<int>, k: int) {
    && |d| == n && 0 <= k < |seen| && 0 <= seen[k] < n
    && (forall i :: 0 <= i < |seen| ==> 0 <= seen[i] < n && d[seen[i]] <= d[seen[k]] + 1)
  }

  /** Queuing an unlabelled vertex one level below the vertex at position k, the last level being at most that. */
  lemma Queued(n: nat, s: int, d: seq<nat>, seen: seq<int>, k: int, v: int)
    requires Searching(n, s, d, seen) && NearFront(n, d, seen, k) && 0 <= v < n && d[v] == n
    ensures d[seen[k]] + 1 < n && v !in seen
    ensures Searching(n, s, d[v := d[seen[k]] + 1], seen + [v])
    ensures NearFront(n, d[v := d[seen[k]] + 1], seen + [v], k)
  {
    DistinctIsShort(seen + [v], n);
  }

  ghost predicate Marked(n: nat, d: seq<nat>, visited: seq<bool>) {
    |d| == n && |visited| == n && forall v :: 0 <= v < n ==> (visited[v] <==> d[v] < n)
  }

  ghost predicate AllScanned(r: Matrix, n: nat, d: seq<nat>, done: seq<int>) {
    forall i :: 0 <= i < |done| ==> Scanned(r, n, d, done[i], n)
  }

  /** d' labels more vertices than d and relabels none. */
  ghost predicate Extends(n: nat, d: seq<nat>, d': seq<nat>) {
    |d| == n && |d'| == n && forall v :: 0 <= v < n && d[v] < n ==> d'[v] == d[v]
  }

  lemma StillScanned(r: Matrix, n: nat, d: seq<nat>, d': seq<nat>, done: seq<int>)
    requires AllScanned(r, n, d, done) && Extends(n, d, d')
    requires forall i :: 0 <= i < |done| ==> 0 <= done[i] < n && d[done[i]] < n
    ensures AllScanned(r, n, d', done)
  {
    forall i | 0 <= i < |done| ensures Scanned(r, n, d', done[i], n) {
      assert Scanned(r, n, d, done[i], n);
    }
  }

  /** Hanging the unlabelled v below u keeps the tree. */
  lemma TreeGrows(r: Matrix, n: nat, s: int, d: seq<nat>, parent: seq<int>, u: int, v: int)
    requires ParentTree(r, n, s, d, parent) && Edge(r, n, u, v) && d[u] + 1 < n && d[v] == n && v != s
    ensures ParentTree(r, n, s, d[v := d[u] + 1], parent[v := u])
  {
    var d', parent' := d[v := d[u] + 1], parent[v := u];
    forall x | 0 <= x < n && x != s && d'[x] < n
      ensures 0 <= parent'[x] < n && Step(r, n, d', parent'[x], x)
    {
      if x != v { assert Step(r, n, d, parent[x], x); }
    }
  }

  /**
    Halfway through the row of u, the vertex at position k of seen: the columns below v are done.
    d0 is the labelling the scan started from.
   */
  ghost predicate Scanning(r: Matrix, n: nat, s: int, u: int, v: int, d0: seq<nat>, d: seq<nat>, seen: seq<int>, k: int,
                           visited: seq<bool>, parent: seq<int>) {
    && Searching(n, s, d, seen) && NearFront(n, d, seen, k) && seen[k] == u
    && Marked(n, d, visited) && ParentTree(r, n, s, d, parent)
    && Scanned(r, n, d, u, v) && Extends(n, d0, d)
  }

  lemma ScannedGrows(r: Matrix, n: nat, d0: seq<nat>, d: seq<nat>, visited: seq<bool>, u: int, v: int)
    requires Scanned(r, n, d, u, v) && d[u] + 1 < n && 0 <= v < n && d[v] == n
    requires Extends(n, d0, d) && Marked(n, d, visited)
    ensures Scanned(r, n, d[v := d[u] + 1], u, v + 1)
    ensures Extends(n, d0, d[v := d[u] + 1]) && Marked(n, d[v := d[u] + 1], visited[v := true])
  {
    hide Edge;
  }

  lemma ScanTakes(r: Matrix, n: nat, s: int, u: int, v: int, d0: seq<nat>, d: seq<nat>, seen: seq<int>, k: int,
                  visited: seq<bool>, parent: seq<int>)
    requires Scanning(r, n, s, u, v, d0, d, seen, k, visited, parent) && Edge(r, n, u, v) && !visited[v]
    ensures |d| == n && 0 <= u < n && 0 <= v < n
    ensures Scanning(r, n, s, u, v + 1, d0, d[v := d[u] + 1], seen + [v], k, visited[v := true], parent[v := u])
  {
    assert d[v] == n && v != s && 0 <= v < n && |parent| == n by { hide Scanned, NearFront, Extends; }
    hide Searching, ParentTree, Scanned, Extends, At;
    Queued(n, s, d, seen, k, v);
    TreeGrows(r, n, s, d, parent, u, v);
    ScannedGrows(r, n, d0, d, visited, u, v);
  }

  lemma ScanSkips(r: Matrix, n: nat, s: int, u: int, v: int, d0: seq<nat>, d: seq<nat>, seen: seq<int>, k: int,
                  visited: seq<bool>, parent: seq<int>)
    requires Scanning(r, n, s, u, v, d0, d, seen, k, visited, parent) && 0 <= v < n
    requires At(r, u, v) > 0 ==> visited[v]
    ensures Scanning(r, n, s, u, v + 1, d0, d, seen, k, visited, parent)
  {
    assert d[v] < n ==> d[v] <= d[u] + 1 by {
      hide ParentTree, Scanned, Extends, Marked;
      SeenNearFront(n, s, d, seen, k, v);
    }
    hide Searching, NearFront, ParentTree, Extends, At;
  }

  lemma SeenNearFront(n: nat, s: int, d: seq<nat>, seen: seq<int>, k: int, v: int)
    requires Searching(n, s, d, seen) && NearFront(n, d, seen, k) && 0 <= v < n
    ensures d[v] < n ==> d[v] <= d[seen[k]] + 1
  {
    if d[v] < n {
      var i :| 0 <= i < |seen| && seen[i] == v;
    }
  }

  /** The scan of one row: queues the unvisited successors of u, the vertex at position k of seen. */
  method ScanRow(rGraph: array2<int>, u: nat, visited: array<bool>, parent: array<int>, queue: seq<int>,
                 ghost r: Matrix, ghost n: nat, ghost s: int, ghost d: seq<nat>, ghost seen: seq<int>, ghost k: int)
    returns (q: seq<int>, ghost d': seq<nat>, ghost added: seq<int>)
    requires rGraph.Length0 == rGraph.Length1 == parent.Length == visited.Length == n && u < n && r == Rows(rGraph)
    requires Scanning(r, n, s, u, 0, d, d, seen, k, visited[..], parent[..])
    modifies visited, parent
    ensures q == queue + added
    ensures Scanning(r, n, s, u, n, d, d', seen + added, k, visited[..], parent[..])
  {
    hide *;
    q, d', added := queue, d, [];
    assert seen + added == seen;
    for v := 0 to parent.Length
      invariant q == queue + added
      invariant Scanning(r, n, s, u, v, d, d', seen + added, k, visited[..], parent[..])
    {
      assert visited[..][v] == visited[v];
      EntryOf(rGraph, u, v);
      ScanLength(r, n, s, u, v, d, d', seen + added, k, visited[..], parent[..]);
      if !visited[v] && rGraph[u, v] > 0 {
        ghost var parent0, visited0 := parent[..], visited[..];
        ScanTakes(r, n, s, u, v, d, d', seen + added, k, visited0, parent0);
        q := q + [v];
        parent[v] := u;
        visited[v] := true;
        assert parent[..] == parent0[v := u] && visited[..] == visited0[v := true];
        assert seen + added + [v] == seen + (added + [v]);
        d' := d'[v := d'[u] + 1];
        added := added + [v];
      } else {
        ScanSkips(r, n, s, u, v, d, d', seen + added, k, visited[..], parent[..]);
      }
    }
  }

  /** The state between two rows: done are the scanned vertices, q the queue. */
  ghost predicate Search(r: Matrix, n: nat, s: int, d: seq<nat>, done: seq<int>, q: seq<int>,
                         visited: seq<bool>, parent: seq<int>) {
    && Searching(n, s, d, done + q) && Marked(n, d, visited) && ParentTree(r, n, s, d, parent)
    && AllScanned(r, n, d, done) && (|q| > 0 ==> NearFront(n, d, done + q, |done|))
  }

  /** A search whose queue is empty has labelled everything with its level. */
  lemma SearchIsComplete(r: Matrix, n: nat, s: int, d: seq<nat>, done: seq<int>, visited: seq<bool>, parent: seq<int>)
    requires Search(r, n, s, d, done, [], visited, parent)
    ensures Levels(r, n, s, d) && ParentTree(r, n, s, d, parent)
    ensures |visited| == |d| == n && forall v :: 0 <= v < n ==> (visited[v] <==> d[v] < n)
  {
    assert done + [] == done;
    forall v | 0 <= v < n ensures d[v] <= n {
      if v in done {}
    }
    forall u, v | Edge(r, n, u, v) && d[u] < n ensures d[v] < n && d[v] <= d[u] + 1 {
      var i :| 0 <= i < |done| && done[i] == u;
      assert Scanned(r, n, d, done[i], n);
    }
    forall v | 0 <= v < n && v != s && d[v] < n ensures HasPredecessor(r, n, d, v) {
      assert Step(r, n, d, parent[v], v);
    }
  }

  lemma SearchStarts(r: Matrix, n: nat, s: nat, visited: seq<bool>, parent: seq<int>) returns (d: seq<nat>)
    requires s < n && |visited| == n && |parent| == n && parent[s] == -1
    requires forall v :: 0 <= v < n ==> (visited[v] <==> v == s)
    ensures |d| == n && Search(r, n, s, d, [], [s], visited, parent)
  {
    d := seq(n, v => if v == s then 0 else n);
    assert [] + [s] == [s];
  }

  lemma ScanStarts(r: Matrix, n: nat, s: int, d: seq<nat>, done: seq<int>, q: seq<int>, visited: seq<bool>,
                   parent: seq<int>)
    requires Search(r, n, s, d, done, q, visited, parent) && |q| > 0
    ensures 0 <= q[0] < n && |done| < n
    ensures Scanning(r, n, s, q[0], 0, d, d, done + q, |done|, visited, parent)
  {
    assert (done + q)[|done|] == q[0];
    DistinctIsShort(done + q, n);
  }

  lemma FrontMoves(n: nat, s: int, d: seq<nat>, seen: seq<int>, k: int)
    requires Searching(n, s, d, seen) && NearFront(n, d, seen, k) && k + 1 < |seen|
    ensures NearFront(n, d, seen, k + 1)
  {
    assert d[seen[k]] <= d[seen[k + 1]];
  }

  lemma RowIsDone(r: Matrix, n: nat, s: int, d: seq<nat>, d': seq<nat>, done: seq<int>, q: seq<int>, u: int)
    requires Searching(n, s, d, done + q) && AllScanned(r, n, d, done) && Extends(n, d, d') && Scanned(r, n, d', u, n)
    ensures AllScanned(r, n, d', done + [u])
  {
    hide Scanned;
    forall i | 0 <= i < |done| ensures 0 <= done[i] < n && d[done[i]] < n {
      assert (done + q)[i] == done[i];
    }
    StillScanned(r, n, d, d', done);
  }

  lemma ScanEnds(r: Matrix, n: nat, s: int, d: seq<nat>, d': seq<nat>, done: seq<int>, q: seq<int>, added: seq<int>,
                 visited: seq<bool>, parent: seq<int>, visited': seq<bool>, parent': seq<int>)
    requires Search(r, n, s, d, done, q, visited, parent) && |q| > 0
    requires Scanning(r, n, s, q[0], n, d, d', done + q + added, |done|, visited', parent')
    ensures Search(r, n, s, d', done + [q[0]], q[1..] + added, visited', parent')
  {
    hide Searching, NearFront, ParentTree, Marked, AllScanned, Scanned, Extends;
    var seen := done + q + added;
    var done', q' := done + [q[0]], q[1..] + added;
    assert done' + q' == seen;
    RowIsDone(r, n, s, d, d', done, q, q[0]);
    if |q'| > 0 { FrontMoves(n, s, d', seen, |done|); }
  }

  /** Labels every vertex s reaches with its level and fills parent; true iff t is among them. */
  method Bfs(rGraph: array2<int>, s: nat, t: nat, parent: array<int>) returns (found: bool, ghost d: seq<nat>)
    requires rGraph.Length0 == rGraph.Length1 == parent.Length && s < parent.Length && t < parent.Length
    modifies parent
    ensures |d| == parent.Length
    ensures Levels(Rows(rGraph), parent.Length, s, d)
    ensures ParentTree(Rows(rGraph), parent.Length, s, d, parent[..])
    ensures found <==> d[t] < parent.Length
  {
    hide Search, Scanning, Levels, ParentTree;
    ghost var n, r := parent.Length, Rows(rGraph);
    var visited := new bool[parent.Length](_ => false);
    var q: seq<int> := [s];
    visited[s] := true;
    parent[s] := -1;
    d := SearchStarts(r, n, s, visited[..], parent[..]);
    ghost var done: seq<int> := [];
    while |q| > 0
      invariant |d| == n && Search(r, n, s, d, done, q, visited[..], parent[..])
      decreases n - |done|
    {
      ghost var q0, d0, visited0, parent0 := q, d, visited[..], parent[..];
      ScanStarts(r, n, s, d, done, q, visited0, parent0);
      var u := q[0];
      ghost var added;
      q, d, added := ScanRow(rGraph, u, visited, parent, q[1..], r, n, s, d, done + q, |done|);
      ScanEnds(r, n, s, d0, d, done, q0, added, visited0, parent0, visited[..], parent[..]);
      ScanLength(r, n, s, u, n, d0, d, done + q0 + added, |done|, visited[..], parent[..]);
      done := done + [u];
    }
    SearchIsComplete(r, n, s, d, done, visited[..], parent[..]);
    found := visited[t];
    assert found == visited[..][t];
  }

  lemma ScanLength(r: Matrix, n: nat, s: int, u: int, v: int, d0: seq<nat>, d: seq<nat>, seen: seq<int>, k: int,
                  visited: seq<bool>, parent: seq<int>)
    requires Scanning(r, n, s, u, v, d0, d, seen, k, visited, parent)
    ensures |d| == n
  {}

  // ---------------------------------------------------------------- the augmentation loop

  /** Stepping along parent from the end of w runs back over w. */
  ghost predicate Follows(w: seq<int>, parent: seq<int>) {
    forall i :: 1 <= i < |w| ==> 0 <= w[i] < |parent| && parent[w[i]] == w[i - 1]
  }

  /** The walk read off a parent array, from s down to v. */
  ghost function Chain(r: Matrix, n: nat, s: int, d: seq<nat>, parent: seq<int>, v: int): (w: seq<int>)
    requires ParentTree(r, n, s, d, parent) && d[s] == 0 && 0 <= v < n && d[v] < n
    requires forall x :: 0 <= x < n && d[x] == 0 ==> x == s
    ensures |w| == d[v] + 1 && WalkFromTo(r, n, w, s, v) && Climbs(w, n, d) && Follows(w, parent)
    decreases d[v]
  {
    if v == s then [s] else Chain(r, n, s, d, parent, parent[v]) + [v]
  }

  /** Level 0 is the source alone, so chains end where the loops over parent stop. */
  lemma OnlySourceAtLevelZero(r: Matrix, n: nat, s: int, d: seq<nat>)
    requires Levels(r, n, s, d)
    ensures forall x :: 0 <= x < n && d[x] == 0 ==> x == s
  {
    forall x | 0 <= x < n && x != s ensures d[x] != 0 {
      if d[x] < n {
        assert HasPredecessor(r, n, d, x);
        var u :| Step(r, n, d, u, x);
      }
    }
  }

  /** Every parent chain is a shortest walk over positive residuals. */
  lemma ChainIsShortest(r: Matrix, n: nat, s: int, t: int, d: seq<nat>, parent: seq<int>, w: seq<int>)
    requires Levels(r, n, s, d) && ParentTree(r, n, s, d, parent) && 0 <= t < n && d[t] < n
    requires forall x :: 0 <= x < n && d[x] == 0 ==> x == s
    requires WalkFromTo(r, n, w, s, t)
    ensures WalkFromTo(r, n, Chain(r, n, s, d, parent, t), s, t)
    ensures |Chain(r, n, s, d, parent, t)| <= |w|
  {
    LevelsBoundWalks(r, n, s, d, w);
  }

  /** The first loop over a parent chain: its least residual, capped by INT_MAX. */
  method PathFlow(rGraph: array2<int>, parent: array<int>, s: nat, t: nat, ghost n: nat, ghost w: seq<int>,
                  ghost d: seq<nat>)
    returns (pathFlow: int)
    requires rGraph.Length0 == rGraph.Length1 == parent.Length == n && s != t
    requires WalkFromTo(Rows(rGraph), n, w, s, t) && Climbs(w, n, d)
    requires Follows(w, parent[..])
    requires forall u, v :: 0 <= u < n && 0 <= v < n && u != v ==> At(Rows(rGraph), u, v) <= INT_MAX
    ensures IsBottleneck(Rows(rGraph), w, pathFlow)
  {
    ghost var r := Rows(rGraph);
    ghost var k := |w| - 1;
    pathFlow := INT_MAX;
    var v := t;
    while v != s
      invariant 0 <= k < |w| && v == w[k]
      invariant pathFlow <= INT_MAX
      invariant forall i :: k <= i < |w| - 1 ==> pathFlow <= At(r, w[i], w[i + 1])
      invariant pathFlow == INT_MAX || exists i :: k <= i < |w| - 1 && pathFlow == At(r, w[i], w[i + 1])
      decreases k
    {
      var u := parent[v];
      assert u == w[k - 1];
      assert At(r, w[k - 1], w[k]) == rGraph[u, v];
      pathFlow := if rGraph[u, v] < pathFlow then rGraph[u, v] else pathFlow;
      k := k - 1;
      v := u;
    }
    assert d[v] == 0 && k == 0;
    if pathFlow == INT_MAX {
      assert pathFlow <= At(r, w[0], w[1]) && 0 <= w[0] < n && 0 <= w[1] < n && d[w[0]] != d[w[1]];
      assert At(r, w[0], w[1]) <= INT_MAX;
      assert pathFlow == At(r, w[0], w[0 + 1]);
    }
  }

  /** Takes p off one edge and adds it to the reverse edge. */
  method MoveFlow(rGraph: array2<int>, u: nat, v: nat, p: int)
    requires rGraph.Length0 == rGraph.Length1 && u < rGraph.Length0 && v < rGraph.Length0
    modifies rGraph
    ensures Rows(rGraph) == PushEdge(old(Rows(rGraph)), rGraph.Length0, u, v, p)
  {
    ghost var before := Rows(rGraph);
    rGraph[u, v] := rGraph[u, v] - p;
    rGraph[v, u] := rGraph[v, u] + p;
    RowsEqual(rGraph, PushEdge(before, rGraph.Length0, u, v, p), rGraph.Length0);
  }

  /** The second loop over a parent chain: moves pathFlow from each edge to its reverse. */
  method UpdateResiduals(rGraph: array2<int>, parent: array<int>, s: nat, t: nat, pathFlow: int,
                         ghost n: nat, ghost w: seq<int>, ghost d: seq<nat>)
    requires rGraph.Length0 == rGraph.Length1 == parent.Length == n
    requires WalkFromTo(Rows(rGraph), n, w, s, t) && Climbs(w, n, d)
    requires Follows(w, parent[..])
    modifies rGraph
    ensures Rows(rGraph) == old(Push(Rows(rGraph), n, w, pathFlow))
  {
    ghost var final := Push(Rows(rGraph), n, w, pathFlow);
    ghost var k := |w| - 1;
    assert w[..k + 1] == w;
    var v := t;
    while v != s
      invariant 0 <= k < |w| && v == w[k]
      invariant Push(Rows(rGraph), n, w[..k + 1], pathFlow) == final
      decreases k
    {
      var u := parent[v];
      assert u == w[k - 1];
      assert d[u] == k - 1 && d[v] == k;
      MoveFlow(rGraph, u, v, pathFlow);
      assert w[..k + 1][..k] == w[..k];
      k := k - 1;
      v := u;
    }
    assert d[v] == 0 && k == 0;
  }

  /** Residuals stay within an int. */
  lemma StaysInt(g: Matrix, r: Matrix, n: nat, s: int, t: int, value: int)
    requires Capacities(g, n) && FitsInt(g, n) && 0 <= s < n && IsResidual(g, r, n, s, t, value)
    ensures forall u, v :: 0 <= u < n && 0 <= v < n && u != v ==> At(r, u, v) <= INT_MAX
  {
    forall u, v | 0 <= u < n && 0 <= v < n && u != v ensures At(r, u, v) <= INT_MAX {
      assert At(r, u, v) + At(r, v, u) == At(g, u, v) + At(g, v, u) && 0 <= At(r, v, u);
    }
  }

  ghost function Zeros(n: nat): (m: Matrix)
    ensures Square(m, n)
  {
    seq(n, _ => seq(n, _ => 0))
  }

  lemma StartIsResidual(g: Matrix, n: nat, s: int, t: int)
    requires Capacities(g, n)
    ensures IsResidual(g, g, n, s, t, 0)
    ensures Sum2(n, n, Entries(Zeros(n))) == 0
  {
    forall u ensures Sum(n, Row(Used(g, g), u)) == 0 {
      SumZero(n, Row(Used(g, g), u));
    }
    Sum2Zero(n, n, Entries(Zeros(n)));
  }

  /** The copy of the capacities that both programs start from. */
  method CopyMatrix(graph: array2<int>) returns (rGraph: array2<int>)
    requires graph.Length0 == graph.Length1
    ensures fresh(rGraph) && rGraph.Length0 == rGraph.Length1 == graph.Length0 && Rows(rGraph) == Rows(graph)
  {
    hide Rows;
    var n := graph.Length0;
    rGraph := new int[n, n];
    for u := 0 to n
      invariant forall x, y :: 0 <= x < u && 0 <= y < n ==> rGraph[x, y] == graph[x, y]
    {
      for v := 0 to n
        invariant forall x, y :: 0 <= x < u && 0 <= y < n ==> rGraph[x, y] == graph[x, y]
        invariant forall y :: 0 <= y < v ==> rGraph[u, y] == graph[u, y]
      {
        rGraph[u, v] := graph[u, v];
      }
    }
    forall u, v | 0 <= u < n && 0 <= v < n ensures rGraph[u, v] == At(Rows(graph), u, v) {
      EntryOf(graph, u, v);
    }
    RowsEqual(rGraph, Rows(graph), n);
  }

  /** One round of the augmentation loop: both passes over the parent chain of t. */
  method Augment(rGraph: array2<int>, parent: array<int>, s: nat, t: nat,
                 ghost g: Matrix, ghost n: nat, ghost value: int, ghost d: seq<nat>)
    returns (pathFlow: int, ghost w: seq<int>)
    requires rGraph.Length0 == rGraph.Length1 == parent.Length == n && s < n && t < n && s != t
    requires Capacities(g, n) && FitsInt(g, n) && IsResidual(g, Rows(rGraph), n, s, t, value)
    requires |d| == n && Levels(Rows(rGraph), n, s, d) && ParentTree(Rows(rGraph), n, s, d, parent[..]) && d[t] < n
    modifies rGraph
    ensures IsAugmentation(old(Rows(rGraph)), n, s, t, d, w, pathFlow)
    ensures Rows(rGraph) == Push(old(Rows(rGraph)), n, w, pathFlow)
  {
    ghost var r := Rows(rGraph);
    assert Square(r, n) && d[s] == 0;
    hide FitsInt, IsResidual, ParentTree, Levels, Walk, Climbs, IsBottleneck, Capacities, Square, Follows, Rows;
    StaysInt(g, r, n, s, t, value);
    OnlySourceAtLevelZero(r, n, s, d);
    w := Chain(r, n, s, d, parent[..], t);
    pathFlow := PathFlow(rGraph, parent, s, t, n, w, d);
    UpdateResiduals(rGraph, parent, s, t, pathFlow, n, w, d);
  }

  /** What holds between two rounds. */
  ghost predicate Saturating(g: Matrix, r: Matrix, n: nat, s: nat, t: nat, value: int, d: seq<nat>, parent: seq<int>,
                             times: Matrix, last: Matrix, rounds: nat) {
    && IsResidual(g, r, n, s, t, value) && Levels(r, n, s, d) && ParentTree(r, n, s, d, parent)
    && Ledger(g, r, n, d, times, last) && Sum2(n, n, Entries(times)) == rounds
  }

  lemma SaturatingStarts(g: Matrix, n: nat, s: nat, t: nat, d: seq<nat>, parent: seq<int>)
    requires Capacities(g, n) && Levels(g, n, s, d) && ParentTree(g, n, s, d, parent)
    ensures Saturating(g, g, n, s, t, 0, d, parent, Zeros(n), Zeros(n), 0)
  {
    StartIsResidual(g, n, s, t);
    assert forall u, v :: At(Zeros(n), u, v) == 0;
  }

  lemma SaturatingContinues(g: Matrix, r: Matrix, n: nat, s: nat, t: nat, value: int, d: seq<nat>, parent: seq<int>,
                            times: Matrix, last: Matrix, rounds: nat, w: seq<int>, p: int, d': seq<nat>,
                            parent': seq<int>)
    returns (times': Matrix, last': Matrix)
    requires Capacities(g, n) && Saturating(g, r, n, s, t, value, d, parent, times, last, rounds)
    requires IsAugmentation(r, n, s, t, d, w, p)
    requires Levels(Push(r, n, w, p), n, s, d') && ParentTree(Push(r, n, w, p), n, s, d', parent')
    ensures p >= 1 && value + p <= Sum(n, Row(Entries(g), s))
    ensures Saturating(g, Push(r, n, w, p), n, s, t, value + p, d', parent', times', last', rounds + 1)
  {
    hide IsResidual, Levels, ParentTree, Ledger, Capacities;
    AugmentationKeepsResidual(g, r, n, s, t, value, d, w, p);
    assert 0 <= s < n by { hide IsAugmentation; }
    ValueWithinSource(g, Push(r, n, w, p), n, s, t, value + p);
    times', last' := LedgerGrows(g, r, n, s, t, value, d, w, p, d', times, last);
  }

  lemma SaturatingEnds(g: Matrix, r: Matrix, n: nat, s: nat, t: nat, value: int, d: seq<nat>, parent: seq<int>,
                       times: Matrix, last: Matrix, rounds: nat)
    requires Saturating(g, r, n, s, t, value, d, parent, times, last, rounds)
    ensures IsResidual(g, r, n, s, t, value) && Levels(r, n, s, d) && ParentTree(r, n, s, d, parent)
    ensures 2 * rounds <= n * Sum2(n, n, Usable(g))
  {
    hide IsResidual, Levels, ParentTree, Ledger;
    LedgerIsBounded(g, r, n, d, times, last);
  }

  lemma ZeroIsInt()
    ensures 0 <= INT_MAX
  {}

  /**
    Augments along shortest paths until t is unreachable; d labels what s still reaches.
    Half the vertices times the usable pairs bounds the number of rounds, whatever the capacities.
    fits says whether the flow was within an int after every round; it only ever grows.
   */
  method Saturate(graph: array2<int>, s: nat, t: nat)
    returns (rGraph: array2<int>, maxFlow: int, ghost d: seq<nat>, ghost rounds: nat, ghost fits: bool)
    requires graph.Length0 == graph.Length1 && s < graph.Length0 && t < graph.Length0 && s != t
    requires Capacities(Rows(graph), graph.Length0) && FitsInt(Rows(graph), graph.Length0)
    ensures fresh(rGraph) && rGraph.Length0 == rGraph.Length1 == graph.Length0 == |d|
    ensures IsResidual(Rows(graph), Rows(rGraph), graph.Length0, s, t, maxFlow)
    ensures Levels(Rows(rGraph), graph.Length0, s, d) && d[t] >= graph.Length0
    ensures 0 <= maxFlow && (fits <==> maxFlow <= INT_MAX)
    ensures 2 * rounds <= graph.Length0 * Sum2(graph.Length0, graph.Length0, Usable(Rows(graph)))
  {
    hide *;
    ZeroIsInt();
    ghost var n, g := graph.Length0, Rows(graph);
    rGraph := CopyMatrix(graph);
    var parent := new int[graph.Length0];
    maxFlow, rounds, fits := 0, 0, true;
    var found: bool;
    found, d := Bfs(rGraph, s, t, parent);
    SaturatingStarts(g, n, s, t, d, parent[..]);
    ghost var times, last := Zeros(n), Zeros(n);
    while found
      invariant Saturating(g, Rows(rGraph), n, s, t, maxFlow, d, parent[..], times, last, rounds)
      invariant |d| == n && (found <==> d[t] < n) && 0 <= maxFlow && (fits <==> maxFlow <= INT_MAX)
      decreases Sum(n, Row(Entries(g), s)) - maxFlow
    {
      ghost var r, d0, parent0 := Rows(rGraph), d, parent[..];
      SaturatingEnds(g, r, n, s, t, maxFlow, d, parent0, times, last, rounds);
      var pathFlow;
      ghost var w;
      pathFlow, w := Augment(rGraph, parent, s, t, g, n, maxFlow, d);
      found, d := Bfs(rGraph, s, t, parent);
      times, last :=
        SaturatingContinues(g, r, n, s, t, maxFlow, d0, parent0, times, last, rounds, w, pathFlow, d, parent[..]);
      maxFlow := maxFlow + pathFlow;
      fits := fits && maxFlow <= INT_MAX;
      rounds := rounds + 1;
    }
    SaturatingEnds(g, Rows(rGraph), n, s, t, maxFlow, d, parent[..], times, last, rounds);
  }

  /** What s still reaches in a finished residual matrix is a minimum cut of exactly the flow's value. */
  lemma ReachedIsMinCut(g: Matrix, r: Matrix, n: nat, s: int, t: int, value: int, d: seq<nat>)
    requires Capacities(g, n) && IsResidual(g, r, n, s, t, value)
    requires Levels(r, n, s, d) && 0 <= t < n && d[t] >= n
    ensures IsMaxFlowValue(g, n, s, t, value)
    ensures IsMinCut(g, n, s, t, Reached(d, n)) && CutCapacity(g, n, Reached(d, n)) == value
    ensures IsCut(Reached(d, n), n, s, t)
  {
    var S := Reached(d, n);
    forall u, v | 0 <= u < n && 0 <= v < n && u in S && v !in S ensures At(r, u, v) == 0 {
      assert !Edge(r, n, u, v);
    }
    SaturatedCutIsOptimal(g, r, n, s, t, value, S);
  }

  /** The maximum flow, which is also the capacity of a minimum cut; fits as for Saturate. */
  method MaxFlow(graph: array2<int>, s: nat, t: nat) returns (maxFlow: int, ghost fits: bool)
    requires graph.Length0 == graph.Length1 && s < graph.Length0 && t < graph.Length0 && s != t
    requires Capacities(Rows(graph), graph.Length0) && FitsInt(Rows(graph), graph.Length0)
    ensures IsMaxFlowValue(Rows(graph), graph.Length0, s, t, maxFlow)
    ensures exists S ::
              IsMinCut(Rows(graph), graph.Length0, s, t, S) && CutCapacity(Rows(graph), graph.Length0, S) == maxFlow
    ensures fits <==> maxFlow <= INT_MAX
  {
    ghost var d, rounds;
    var rGraph;
    rGraph, maxFlow, d, rounds, fits := Saturate(graph, s, t);
    hide *;
    ReachedIsMinCut(Rows(graph), Rows(rGraph), graph.Length0, s, t, maxFlow, d);
  }

  // ---------------------------------------------------------------- the minimum cut

  /** Every marked vertex that was not marked before has only marked successors. */
  ghost predicate ClosedSince(r: Matrix, n: nat, before: seq<bool>, after: seq<bool>) {
    && |before| == n && |after| == n
    && (forall v :: 0 <= v < n && before[v] ==> after[v])
    && (forall u, v :: 0 <= u < n && 0 <= v < n && after[u] && !before[u] && At(r, u, v) != 0 ==> after[v])
  }

  ghost function Unmarked(visited: seq<bool>): set<int> {
    set v | 0 <= v < |visited| && !visited[v]
  }

  /** Halfway through the row of s: its successors below i are marked, and so are those of all new marks. */
  ghost predicate Marking(r: Matrix, n: nat, s: int, i: int, d: seq<nat>, before: seq<bool>, now: seq<bool>) {
    && |before| == n && |now| == n && |d| == n && 0 <= s < n && now[s] && !before[s]
    && (forall v :: 0 <= v < n && before[v] ==> now[v])
    && (forall u, v :: 0 <= u < n && 0 <= v < n && now[u] && !before[u] && u != s && At(r, u, v) != 0 ==> now[v])
    && (forall v :: 0 <= v < i && v < n && At(r, s, v) != 0 ==> now[v])
    && (forall v :: 0 <= v < n && now[v] && !before[v] ==> d[v] < n)
  }

  ghost predicate NewMarksReached(n: nat, d: seq<nat>, before: seq<bool>, after: seq<bool>) {
    |before| == n && |after| == n && |d| == n && forall v :: 0 <= v < n && after[v] && !before[v] ==> d[v] < n
  }

  /** The recursive call on an unmarked successor i carries the marking past column i. */
  lemma MarkingDescends(r: Matrix, n: nat, s: int, i: int, d: seq<nat>, before: seq<bool>, now: seq<bool>,
                        after: seq<bool>)
    requires Marking(r, n, s, i, d, before, now) && 0 <= i < n
    requires ClosedSince(r, n, now, after) && after[i] && NewMarksReached(n, d, now, after)
    ensures Marking(r, n, s, i + 1, d, before, after)
  {
    hide At;
  }

  lemma MarkingStarts(r: Matrix, n: nat, s: int, d: seq<nat>, before: seq<bool>)
    requires |before| == n && |d| == n && 0 <= s < n && !before[s] && d[s] < n
    ensures Marking(r, n, s, 0, d, before, before[s := true])
  {}

  lemma MarkingSkips(r: Matrix, n: nat, s: int, i: int, d: seq<nat>, before: seq<bool>, now: seq<bool>)
    requires Marking(r, n, s, i, d, before, now) && 0 <= i < n && (At(r, s, i) != 0 ==> now[i])
    ensures Marking(r, n, s, i + 1, d, before, now)
  {}

  /** What the recursive call needs: an unmarked successor is at a level, and fewer vertices are unmarked. */
  lemma MarkingShrinks(r: Matrix, n: nat, s: int, i: int, d: seq<nat>, source: int, before: seq<bool>, now: seq<bool>)
    requires Marking(r, n, s, i, d, before, now) && 0 <= i < n && At(r, s, i) != 0
    requires Levels(r, n, source, d) && Capacities(r, n)
    ensures d[i] < n && Unmarked(now) < Unmarked(before)
  {
    assert Edge(r, n, s, i);
    assert s in Unmarked(before) && s !in Unmarked(now);
  }

  lemma MarkingEnds(r: Matrix, n: nat, s: int, d: seq<nat>, before: seq<bool>, now: seq<bool>)
    requires Marking(r, n, s, n, d, before, now)
    ensures ClosedSince(r, n, before, now) && now[s] && NewMarksReached(n, d, before, now)
  {}

  /** Marks whatever s reaches through unmarked vertices; new marks are labelled vertices only. */
  method Dfs(rGraph: array2<int>, s: nat, visited: array<bool>, ghost n: nat, ghost d: seq<nat>, ghost source: int)
    requires rGraph.Length0 == rGraph.Length1 == visited.Length == n && s < n && !visited[s]
    requires Levels(Rows(rGraph), n, source, d) && Capacities(Rows(rGraph), n) && |d| == n && d[s] < n
    modifies visited
    ensures ClosedSince(Rows(rGraph), n, old(visited[..]), visited[..]) && visited[..][s]
    ensures NewMarksReached(n, d, old(visited[..]), visited[..])
    decreases Unmarked(visited[..])
  {
    hide *;
    ghost var r, before := Rows(rGraph), visited[..];
    visited[s] := true;
    assert visited[..] == before[s := true];
    MarkingStarts(r, n, s, d, before);
    for i := 0 to visited.Length
      invariant Marking(r, n, s, i, d, before, visited[..])
    {
      EntryOf(rGraph, s, i);
      ghost var now := visited[..];
      assert now[i] == visited[i];
      if rGraph[s, i] != 0 && !visited[i] {
        MarkingShrinks(r, n, s, i, d, source, before, now);
        Dfs(rGraph, i, visited, n, d, source);
        MarkingDescends(r, n, s, i, d, before, now, visited[..]);
      } else {
        MarkingSkips(r, n, s, i, d, before, now);
      }
    }
    MarkingEnds(r, n, s, d, before, visited[..]);
  }

  /** A vertex at a level is in every closed set that holds the source. */
  lemma {:induction false} LevelsAreMarked(r: Matrix, n: nat, s: int, d: seq<nat>, marked: seq<bool>, v: int)
    requires Levels(r, n, s, d) && |marked| == n && marked[s] && 0 <= v < n && d[v] < n
    requires forall u, v :: 0 <= u < n && 0 <= v < n && marked[u] && At(r, u, v) != 0 ==> marked[v]
    ensures marked[v]
    decreases d[v]
  {
    if v != s {
      assert HasPredecessor(r, n, d, v);
      var u :| Step(r, n, d, u, v);
      LevelsAreMarked(r, n, s, d, marked, u);
    }
  }

  /** The pairs minCut prints, in its order: row by row, from S to outside S, with capacity. */
  ghost function CutEdges(g: Matrix, n: nat, S: set<int>, i: nat, j: nat): (e: seq<(int, int)>)
    requires i <= n && j <= n
    decreases i, j
  {
    if j > 0 then
      CutEdges(g, n, S, i, j - 1) + (if i in S && j - 1 !in S && At(g, i, j - 1) != 0 then [(i, j - 1)] else [])
    else if i > 0 then CutEdges(g, n, S, i - 1, n)
    else []
  }

  /** Membership in the listing up to row i, column j. */
  lemma {:induction false} CutEdgesMembers(g: Matrix, n: nat, S: set<int>, i: nat, j: nat, u: int, v: int)
    requires i <= n && j <= n
    ensures (u, v) in CutEdges(g, n, S, i, j) <==>
            0 <= v < n && (0 <= u < i || (u == i && v < j)) && u in S && v !in S && At(g, u, v) != 0
    decreases i, j
  {
    if j > 0 {
      CutEdgesMembers(g, n, S, i, j - 1, u, v);
    } else if i > 0 {
      CutEdgesMembers(g, n, S, i - 1, n, u, v);
      assert CutEdges(g, n, S, i, j) == CutEdges(g, n, S, i - 1, n);
    } else {
      assert CutEdges(g, n, S, i, j) == [];
    }
  }

  /** No pair is listed twice. */
  lemma {:induction false} CutEdgesDistinct(g: Matrix, n: nat, S: set<int>, i: nat, j: nat)
    requires i <= n && j <= n
    ensures var e := CutEdges(g, n, S, i, j); forall a, b :: 0 <= a < b < |e| ==> e[a] != e[b]
    decreases i, j
  {
    if j > 0 {
      CutEdgesDistinct(g, n, S, i, j - 1);
      CutEdgesMembers(g, n, S, i, j - 1, i, j - 1);
    } else if i > 0 {
      CutEdgesDistinct(g, n, S, i - 1, n);
      assert CutEdges(g, n, S, i, j) == CutEdges(g, n, S, i - 1, n);
    } else {
      assert CutEdges(g, n, S, i, j) == [];
    }
  }

  /** Total capacity of a list of pairs. */
  ghost function Total(g: Matrix, e: seq<(int, int)>): int {
    if e == [] then 0 else Total(g, e[..|e| - 1]) + At(g, e[|e| - 1].0, e[|e| - 1].1)
  }

  /** The listed capacities add up to the capacity of the cut. */
  lemma {:induction false} CutEdgesTotal(g: Matrix, n: nat, S: set<int>, i: nat, j: nat)
    requires i <= n && j <= n
    ensures Total(g, CutEdges(g, n, S, i, j)) ==
            Sum2(i, n, Leaving(Entries(g), S)) + Sum(j, Row(Leaving(Entries(g), S), i))
    decreases i, j
  {
    if j > 0 {
      CutEdgesTotal(g, n, S, i, j - 1);
      var e := CutEdges(g, n, S, i, j - 1);
      if i in S && j - 1 !in S && At(g, i, j - 1) != 0 {
        assert (e + [(i, j - 1)])[..|e|] == e;
      } else {
        assert e + [] == e;
      }
    } else if i > 0 {
      CutEdgesTotal(g, n, S, i - 1, n);
      assert CutEdges(g, n, S, i, j) == CutEdges(g, n, S, i - 1, n);
    }
  }

  /** g with the listed pairs removed. */
  ghost function Without(g: Matrix, n: nat, e: seq<(int, int)>): (g': Matrix)
    ensures Square(g', n)
  {
    seq(n, u => seq(n, v => if (u, v) in e then 0 else At(g, u, v)))
  }

  /** Without the listed pairs, no walk from inside S gets out. */
  lemma {:induction false} CutSeparates(g: Matrix, n: nat, S: set<int>, e: seq<(int, int)>, w: seq<int>)
    requires Walk(Without(g, n, e), n, w) && w[0] in S
    requires forall u, v :: 0 <= u < n && 0 <= v < n && u in S && v !in S && At(g, u, v) != 0 ==> (u, v) in e
    ensures w[|w| - 1] in S
    decreases |w|
  {
    if |w| > 1 {
      var k := |w| - 1;
      CutSeparates(g, n, S, e, w[..k]);
      assert Edge(Without(g, n, e), n, w[k - 1], w[k]);
      assert At(Without(g, n, e), w[k - 1], w[k]) == if (w[k - 1], w[k]) in e then 0 else At(g, w[k - 1], w[k]);
    }
  }

  /** The listing loops of minCut. */
  method ListCut(graph: array2<int>, visited: array<bool>, ghost S: set<int>) returns (edges: seq<(int, int)>)
    requires graph.Length0 == graph.Length1 == visited.Length
    requires forall v :: 0 <= v < visited.Length ==> (visited[v] <==> v in S)
    ensures edges == CutEdges(Rows(graph), visited.Length, S, visited.Length, 0)
  {
    hide Rows;
    var n := visited.Length;
    ghost var g := Rows(graph);
    edges := [];
    for i := 0 to n
      invariant edges == CutEdges(g, n, S, i, 0)
    {
      for j := 0 to n
        invariant edges == CutEdges(g, n, S, i, j)
      {
        EntryOf(graph, i, j);
        if visited[i] && !visited[j] && graph[i, j] != 0 {
          edges := edges + [(i, j)];
        }
      }
    }
  }

  /** What the marking is for: the marked vertices are those at a level. */
  lemma MarkedAreReached(r: Matrix, n: nat, s: int, d: seq<nat>, before: seq<bool>, after: seq<bool>)
    requires Levels(r, n, s, d) && ClosedSince(r, n, before, after) && after[s] && NewMarksReached(n, d, before, after)
    requires forall v :: 0 <= v < n ==> !before[v]
    ensures forall v :: 0 <= v < n ==> (after[v] <==> v in Reached(d, n))
  {
    forall v | 0 <= v < n && d[v] < n ensures after[v] {
      LevelsAreMarked(r, n, s, d, after, v);
    }
  }

  /** The cut as listed: its members, no repetition, its total, and that removing it separates t from s. */
  lemma ListedCut(g: Matrix, n: nat, s: int, t: int, S: set<int>)
    requires IsCut(S, n, s, t)
    ensures var e := CutEdges(g, n, S, n, 0);
            && (forall u, v :: (u, v) in e <==> u in S && 0 <= v < n && v !in S && At(g, u, v) != 0)
            && (forall a, b :: 0 <= a < b < |e| ==> e[a] != e[b])
            && Total(g, e) == CutCapacity(g, n, S)
            && !exists w :: WalkFromTo(Without(g, n, e), n, w, s, t)
  {
    var e := CutEdges(g, n, S, n, 0);
    forall u, v ensures (u, v) in e <==> u in S && 0 <= v < n && v !in S && At(g, u, v) != 0 {
      CutEdgesMembers(g, n, S, n, 0, u, v);
    }
    CutEdgesDistinct(g, n, S, n, 0);
    CutEdgesTotal(g, n, S, n, 0);
    forall w | WalkFromTo(Without(g, n, e), n, w, s, t) ensures false {
      CutSeparates(g, n, S, e, w);
    }
  }

  /** Lists the edges of a minimum cut. */
  method MinCut(graph: array2<int>, s: nat, t: nat) returns (edges: seq<(int, int)>, ghost S: set<int>)
    requires graph.Length0 == graph.Length1 && s < graph.Length0 && t < graph.Length0 && s != t
    requires Capacities(Rows(graph), graph.Length0) && FitsInt(Rows(graph), graph.Length0)
    ensures IsMinCut(Rows(graph), graph.Length0, s, t, S)
    ensures forall u, v ::
              (u, v) in edges <==> u in S && 0 <= v < graph.Length0 && v !in S && At(Rows(graph), u, v) != 0
    ensures forall a, b :: 0 <= a < b < |edges| ==> edges[a] != edges[b]
    ensures IsMaxFlowValue(Rows(graph), graph.Length0, s, t, Total(Rows(graph), edges))
    ensures !exists w :: WalkFromTo(Without(Rows(graph), graph.Length0, edges), graph.Length0, w, s, t)
  {
    hide *;
    ghost var n, g := graph.Length0, Rows(graph);
    ghost var d, rounds, fits;
    var rGraph, maxFlow;
    rGraph, maxFlow, d, rounds, fits := Saturate(graph, s, t);
    ghost var r := Rows(rGraph);
    ReachedIsMinCut(g, r, n, s, t, maxFlow, d);
    S := Reached(d, n);
    var visited := new bool[graph.Length0](_ => false);
    ghost var before := visited[..];
    SourceIsReached(g, r, n, s, t, maxFlow, d);
    Dfs(rGraph, s, visited, n, d, s);
    MarkedAreReached(r, n, s, d, before, visited[..]);
    assert forall v :: 0 <= v < n ==> visited[v] == visited[..][v];
    edges := ListCut(graph, visited, S);
    ListedCut(g, n, s, t, S);
  }

  lemma SourceIsReached(g: Matrix, r: Matrix, n: nat, s: int, t: int, value: int, d: seq<nat>)
    requires Levels(r, n, s, d) && IsResidual(g, r, n, s, t, value)
    ensures d[s] < n && Capacities(r, n)
  {}
}
