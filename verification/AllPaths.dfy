/** Enumerating the simple paths of a directed graph by backtracking. */
module AllPaths {
  import Sets

  type Path = seq<nat>

  /** A graph on |adj| vertices by adjacency lists, repeats allowed. */
  ghost predicate IsGraph(adj: seq<seq<nat>>) {
    forall u, k :: 0 <= u < |adj| && 0 <= k < |adj[u]| ==> adj[u][k] < |adj|
  }

  // ---------------------------------------------------------------- what is to be listed

  /** p is a simple path from u to d through vertices that are not in seen. */
  ghost predicate IsPath(adj: seq<seq<nat>>, p: Path, u: nat, d: nat, seen: set<nat>)
    decreases |p|
  {
    && p != [] && p[0] == u && u < |adj| && u !in seen
    && (u == d ==> |p| == 1)
    && (u != d ==> |p| > 1 && p[1] in adj[u] && IsPath(adj, p[1..], p[1], d, seen + {u}))
  }

  /** How often x is in l. */
  function Occurs(l: seq<nat>, x: nat): nat {
    if l == [] then 0 else (if l[0] == x then 1 else 0) + Occurs(l[1..], x)
  }

  /** In how many ways p follows the edges: once for each choice among repeated edges. */
  function Ways(adj: seq<seq<nat>>, p: Path): nat {
    if |p| <= 1 || p[0] >= |adj| then 1 else Occurs(adj[p[0]], p[1]) * Ways(adj, p[1..])
  }

  /** How often p is listed in ps. */
  function Times(ps: seq<Path>, p: Path): nat {
    if ps == [] then 0 else (if ps[0] == p then 1 else 0) + Times(ps[1..], p)
  }

  // ---------------------------------------------------------------- the search as a function

  /** pre in front of every path of ps. */
  function Lift(pre: Path, ps: seq<Path>): (r: seq<Path>)
    ensures |r| == |ps|
  {
    if ps == [] then [] else [pre + ps[0]] + Lift(pre, ps[1..])
  }

  function Unseen(adj: seq<seq<nat>>, seen: set<nat>): set<nat> {
    set x: nat | x < |adj| && x !in seen
  }

  function Paths(adj: seq<seq<nat>>, u: nat, d: nat, seen: set<nat>): seq<Path>
    decreases |Unseen(adj, seen)|, 1, 0
  {
    if u >= |adj| || u in seen then [] else
    if u == d then [[u]] else
    Fewer(adj, u, seen);
    Lift([u], PathsVia(adj, adj[u], d, seen + {u}))
  }

  /** The paths that start with the vertices of l. */
  function PathsVia(adj: seq<seq<nat>>, l: seq<nat>, d: nat, seen: set<nat>): seq<Path>
    decreases |Unseen(adj, seen)|, 2, |l|
  {
    if l == [] then [] else Paths(adj, l[0], d, seen) + PathsVia(adj, l[1..], d, seen)
  }

  lemma Fewer(adj: seq<seq<nat>>, u: nat, seen: set<nat>)
    requires u < |adj| && u !in seen
    ensures |Unseen(adj, seen + {u})| < |Unseen(adj, seen)|
  {
    assert Unseen(adj, seen + {u}) == Unseen(adj, seen) - {u};
  }

  // ---------------------------------------------------------------- every path as often as it should be

  lemma {:induction false} TimesAppend(a: seq<Path>, b: seq<Path>, p: Path)
    ensures Times(a + b, p) == Times(a, p) + Times(b, p)
  {
    if a == [] {
      assert a + b == b;
    } else {
      assert (a + b)[1..] == a[1..] + b;
      TimesAppend(a[1..], b, p);
    }
  }

  lemma {:induction false} TimesLift(u: nat, ps: seq<Path>, p: Path)
    ensures Times(Lift([u], ps), p) == if p != [] && p[0] == u then Times(ps, p[1..]) else 0
  {
    if ps != [] {
      TimesLift(u, ps[1..], p);
      var q := [u] + ps[0];
      assert q[1..] == ps[0];
      assert p != [] && p[0] == u && p[1..] == ps[0] ==> p == q;
    }
  }

  lemma {:induction false} OccursIff(l: seq<nat>, x: nat)
    ensures Occurs(l, x) > 0 <==> x in l
  {
    if l != [] { OccursIff(l[1..], x); }
  }

  /** The search lists every simple path once for each way through the edges, and nothing else. */
  lemma {:induction false} PathsListed(adj: seq<seq<nat>>, u: nat, d: nat, seen: set<nat>, p: Path)
    ensures Times(Paths(adj, u, d, seen), p) == if IsPath(adj, p, u, d, seen) then Ways(adj, p) else 0
    decreases |Unseen(adj, seen)|, 1, 0
  {
    if u < |adj| && u !in seen && u != d {
      Fewer(adj, u, seen);
      var ps := PathsVia(adj, adj[u], d, seen + {u});
      TimesLift(u, ps, p);
      if p != [] { ViaListed(adj, adj[u], d, seen + {u}, p[1..]); }
      if |p| > 1 { OccursIff(adj[u], p[1]); }
    }
  }

  lemma Distribute(m: nat, n: nat, w: nat)
    ensures (m + n) * w == m * w + n * w
  {}

  lemma {:induction false} ViaListed(adj: seq<seq<nat>>, l: seq<nat>, d: nat, seen: set<nat>, p: Path)
    ensures Times(PathsVia(adj, l, d, seen), p)
            == if p != [] && IsPath(adj, p, p[0], d, seen) then Occurs(l, p[0]) * Ways(adj, p) else 0
    decreases |Unseen(adj, seen)|, 2, |l|
  {
    if l != [] {
      TimesAppend(Paths(adj, l[0], d, seen), PathsVia(adj, l[1..], d, seen), p);
      PathsListed(adj, l[0], d, seen, p);
      ViaListed(adj, l[1..], d, seen, p);
      Distribute(if p != [] && l[0] == p[0] then 1 else 0, if p == [] then 0 else Occurs(l[1..], p[0]), Ways(adj, p));
    }
    hide Paths, Ways, IsPath;
  }

  lemma {:induction false} WaysPositive(adj: seq<seq<nat>>, p: Path, u: nat, d: nat, seen: set<nat>)
    requires IsPath(adj, p, u, d, seen)
    ensures Ways(adj, p) > 0
    decreases |p|
  {
    if u != d {
      OccursIff(adj[u], p[1]);
      WaysPositive(adj, p[1..], p[1], d, seen + {u});
      Product(Occurs(adj[u], p[1]), Ways(adj, p[1..]));
    }
  }

  lemma Product(m: nat, n: nat)
    ensures m > 0 && n > 0 ==> m * n > 0
    ensures m <= 1 && n <= 1 ==> m * n <= 1
  {}

  /** No edge is listed twice. */
  ghost predicate NoRepeats(adj: seq<seq<nat>>) {
    forall u, x :: 0 <= u < |adj| ==> Occurs(adj[u], x) <= 1
  }

  lemma {:induction false} WaysAtMostOne(adj: seq<seq<nat>>, p: Path)
    requires NoRepeats(adj)
    ensures Ways(adj, p) <= 1
  {
    if |p| > 1 && p[0] < |adj| {
      WaysAtMostOne(adj, p[1..]);
      assert Occurs(adj[p[0]], p[1]) <= 1;
      Product(Occurs(adj[p[0]], p[1]), Ways(adj, p[1..]));
    }
  }

  lemma {:induction false} TimesIff(ps: seq<Path>, p: Path)
    ensures Times(ps, p) > 0 <==> p in ps
  {
    if ps != [] { TimesIff(ps[1..], p); }
  }

  /** A path as the words say: it follows edges from u to d and repeats no vertex. */
  ghost predicate IsSimplePath(adj: seq<seq<nat>>, p: Path, u: nat, d: nat) {
    && p != [] && p[0] == u && p[|p| - 1] == d
    && (forall i :: 0 <= i < |p| ==> p[i] < |adj|)
    && (forall i :: 0 <= i < |p| - 1 ==> p[i + 1] in adj[p[i]])
    && (forall i, j :: 0 <= i < j < |p| ==> p[i] != p[j])
  }

  lemma {:induction false} SimplePathIsPath(adj: seq<seq<nat>>, p: Path, u: nat, d: nat, seen: set<nat>)
    ensures IsPath(adj, p, u, d, seen) <==> IsSimplePath(adj, p, u, d) && forall i :: 0 <= i < |p| ==> p[i] !in seen
    decreases |p|
  {
    if |p| > 1 {
      var rest := p[1..];
      SimplePathIsPath(adj, rest, p[1], d, seen + {u});
      if IsPath(adj, p, u, d, seen) {
        assert forall i :: 1 <= i < |p| ==> p[i] == rest[i - 1];
      } else if IsSimplePath(adj, p, u, d) && forall i :: 0 <= i < |p| ==> p[i] !in seen {
        assert p[0 + 1] in adj[p[0]];
        assert forall i :: 0 <= i < |rest| ==> rest[i] == p[i + 1];
      }
    }
  }

  /** Exactly the simple paths are listed, each once when no edge is listed twice. */
  lemma PathsAreExact(adj: seq<seq<nat>>, u: nat, d: nat, p: Path)
    ensures p in Paths(adj, u, d, {}) <==> IsSimplePath(adj, p, u, d)
    ensures Times(Paths(adj, u, d, {}), p) == if IsSimplePath(adj, p, u, d) then Ways(adj, p) else 0
    ensures NoRepeats(adj) && p in Paths(adj, u, d, {}) ==> Times(Paths(adj, u, d, {}), p) == 1
  {
    hide Paths, IsPath, Ways, IsSimplePath;
    PathsListed(adj, u, d, {}, p);
    SimplePathIsPath(adj, p, u, d, {});
    TimesIff(Paths(adj, u, d, {}), p);
    if IsPath(adj, p, u, d, {}) { WaysPositive(adj, p, u, d, {}); }
    if NoRepeats(adj) { WaysAtMostOne(adj, p); }
  }

  // ---------------------------------------------------------------- the search in place

  function Marked(visited: seq<bool>): set<nat> {
    set x: nat | x < |visited| && visited[x]
  }

  lemma MarkedUpdate(visited: seq<bool>, u: nat)
    requires u < |visited| && !visited[u]
    ensures Marked(visited[u := true]) == Marked(visited) + {u}
    ensures |Marked(visited[u := true])| == |Marked(visited)| + 1
  {
    assert Marked(visited[u := true]) == Marked(visited) + {u};
  }

  function Upto(n: nat): (r: set<nat>)
    ensures |r| == n && forall x: nat :: x in r <==> x < n
  {
    if n == 0 then {} else Upto(n - 1) + {n - 1}
  }

  lemma MarkedRoom(visited: seq<bool>, u: nat)
    requires u < |visited| && !visited[u]
    ensures |Marked(visited)| < |visited|
  {
    assert Marked(visited) + {u} <= Upto(|visited|);
    Sets.SubsetSize(Marked(visited) + {u}, Upto(|visited|));
  }

  lemma {:induction false} LiftAppend(pre: Path, a: seq<Path>, b: seq<Path>)
    ensures Lift(pre, a + b) == Lift(pre, a) + Lift(pre, b)
  {
    if a == [] {
      assert a + b == b;
    } else {
      assert (a + b)[1..] == a[1..] + b;
      LiftAppend(pre, a[1..], b);
    }
  }

  lemma {:induction false} LiftLift(pre: Path, u: nat, ps: seq<Path>)
    ensures Lift(pre + [u], ps) == Lift(pre, Lift([u], ps))
  {
    if ps != [] {
      assert pre + ([u] + ps[0]) == (pre + [u]) + ps[0];
      LiftLift(pre, u, ps[1..]);
    }
  }

  /** The paths still to be listed at the i-th neighbour, after those already out. */
  ghost predicate Listing(adj: seq<seq<nat>>, u: nat, d: nat, seen: set<nat>, here: Path, i: nat, out: seq<Path>) {
    u < |adj| && i <= |adj[u]| &&
    out + Lift(here, PathsVia(adj, adj[u][i..], d, seen)) == Lift(here, PathsVia(adj, adj[u], d, seen))
  }

  lemma ListingStarts(adj: seq<seq<nat>>, u: nat, d: nat, seen: set<nat>, here: Path)
    requires u < |adj|
    ensures Listing(adj, u, d, seen, here, 0, [])
  {
    assert adj[u][0..] == adj[u];
  }

  lemma ListingNext(adj: seq<seq<nat>>, u: nat, d: nat, seen: set<nat>, here: Path, i: nat, out: seq<Path>)
    requires Listing(adj, u, d, seen, here, i, out) && i < |adj[u]|
    ensures Listing(adj, u, d, seen, here, i + 1, out + Lift(here, Paths(adj, adj[u][i], d, seen)))
    ensures adj[u][i] in seen ==> Listing(adj, u, d, seen, here, i + 1, out)
  {
    var l := adj[u][i..];
    var first, rest := Paths(adj, l[0], d, seen), PathsVia(adj, l[1..], d, seen);
    assert l[1..] == adj[u][i + 1..];
    LiftAppend(here, first, rest);
    if l[0] in seen { assert first == [] && Lift(here, first) == []; }
    hide Paths, Lift;
    assert out + (Lift(here, first) + Lift(here, rest)) == out + Lift(here, first) + Lift(here, rest);
    assert out + [] == out;
  }

  lemma ListingEnds(adj: seq<seq<nat>>, u: nat, d: nat, seen: set<nat>, pre: Path, out: seq<Path>)
    requires u < |adj| && u !in seen && Listing(adj, u, d, seen + {u}, pre + [u], |adj[u]|, out) && u != d
    ensures out == Lift(pre, Paths(adj, u, d, seen))
  {
    assert adj[u][|adj[u]|..] == [];
    LiftLift(pre, u, PathsVia(adj, adj[u], d, seen + {u}));
  }

  /**
    Prints the paths from u to d that avoid the visited vertices, each after the path that leads to
    u, and leaves visited and the path as they were.
   */
  method PrintAllPathsUtil(adj: seq<seq<nat>>, u: nat, d: nat, visited: array<bool>, path: array<nat>, pathIndex: nat)
    returns (out: seq<Path>, pathIndex': nat)
    requires IsGraph(adj) && visited.Length == path.Length == |adj| && u < |adj| && !visited[u]
    requires pathIndex == |Marked(visited[..])| <= path.Length
    modifies visited, path
    ensures visited[..] == old(visited[..]) && pathIndex' == pathIndex
    ensures path[..pathIndex] == old(path[..pathIndex])
    ensures out == Lift(old(path[..pathIndex]), Paths(adj, u, d, Marked(old(visited[..]))))
    decreases |Unseen(adj, Marked(visited[..]))|
  {
    ghost var before, seen := visited[..], Marked(visited[..]);
    ghost var pre, here := path[..pathIndex], path[..pathIndex] + [u];
    MarkedRoom(before, u);
    MarkedUpdate(before, u);
    Fewer(adj, u, seen);
    assert u !in seen;
    hide Paths, PathsVia, Lift, Marked, Unseen, Listing;
    visited[u] := true;
    path[pathIndex] := u;
    pathIndex' := pathIndex + 1;
    assert visited[..] == before[u := true] && path[..pathIndex'] == here;
    out := [];
    if u == d {
      out := [path[..pathIndex']];
      OnlyItself(adj, u, seen, pre);
    } else {
      var i := 0;
      ListingStarts(adj, u, d, seen + {u}, here);
      while i < |adj[u]|
        invariant i <= |adj[u]| && pathIndex' == pathIndex + 1
        invariant visited[..] == before[u := true] && path[..pathIndex'] == here
        invariant Listing(adj, u, d, seen + {u}, here, i, out)
      {
        var v := adj[u][i];
        ListingNext(adj, u, d, seen + {u}, here, i, out);
        MarkedAt(visited[..], v);
        if !visited[v] {
          var more;
          more, pathIndex' := PrintAllPathsUtil(adj, v, d, visited, path, pathIndex');
          out := out + more;
        }
        i := i + 1;
      }
      ListingEnds(adj, u, d, seen, pre, out);
    }
    pathIndex' := pathIndex' - 1;
    visited[u] := false;
    assert visited[..] == before;
    assert path[..pathIndex] == here[..pathIndex];
  }

  lemma MarkedAt(visited: seq<bool>, v: nat)
    requires v < |visited|
    ensures v in Marked(visited) <==> visited[v]
  {}

  lemma OnlyItself(adj: seq<seq<nat>>, u: nat, seen: set<nat>, pre: Path)
    requires u < |adj| && u !in seen
    ensures [pre + [u]] == Lift(pre, Paths(adj, u, u, seen))
  {}

  /** Prints every simple path from s to d. */
  method PrintAllPaths(adj: seq<seq<nat>>, s: nat, d: nat) returns (out: seq<Path>)
    requires IsGraph(adj) && s < |adj|
    ensures forall p :: p in out <==> IsSimplePath(adj, p, s, d)
    ensures NoRepeats(adj) ==> forall p :: p in out ==> Times(out, p) == 1
    ensures forall p :: Times(out, p) == if IsSimplePath(adj, p, s, d) then Ways(adj, p) else 0
  {
    var visited, path := new bool[|adj|], new nat[|adj|];
    for i := 0 to |adj|
      invariant forall j :: 0 <= j < i ==> !visited[j]
    {
      visited[i] := false;
    }
    assert Marked(visited[..]) == {};
    var pathIndex;
    out, pathIndex := PrintAllPathsUtil(adj, s, d, visited, path, 0);
    assert path[..0] == [];
    LiftNothing(Paths(adj, s, d, {}));
    hide Paths, IsSimplePath, Ways, Marked;
    assert out == Paths(adj, s, d, {});
    forall p
      ensures p in out <==> IsSimplePath(adj, p, s, d)
      ensures Times(out, p) == if IsSimplePath(adj, p, s, d) then Ways(adj, p) else 0
      ensures NoRepeats(adj) && p in out ==> Times(out, p) == 1
    {
      PathsAreExact(adj, s, d, p);
    }
  }

  lemma {:induction false} LiftNothing(ps: seq<Path>)
    ensures Lift([], ps) == ps
  {
    if ps != [] {
      assert [] + ps[0] == ps[0];
      LiftNothing(ps[1..]);
    }
  }
}
