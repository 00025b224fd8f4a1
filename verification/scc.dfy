/** Kosaraju's strongly-connected-components decomposition of cpp/SCC.cpp.

    The graph keeps the adjacency lists G and the reversed lists rG.  `scc()`
    runs a depth-first search over G recording vertices in post-order
    (`vs`), then, taking the unvisited vertices of `vs` from the back, a
    depth-first search over rG from each; the post-order of every such
    search is one component.  `scc()` takes the graph by value here, so it
    cannot change G or rG.
 */
module StronglyConnected {

  datatype Graph = Graph(n: nat, g: seq<seq<int>>, rg: seq<seq<int>>)

  /** n adjacency lists whose entries are vertices 0..n-1. */
  predicate AdjOk(adj: seq<seq<int>>, n: int) {
    && |adj| == n
    && forall u, j :: 0 <= u < n && 0 <= j < |adj[u]| ==> 0 <= adj[u][j] < n
  }

  /** rg is the reverse of g: each edge u -> v appears in g[u] as often as
      u appears in rg[v]. */
  ghost predicate ReverseOf(g: seq<seq<int>>, rg: seq<seq<int>>, n: int) {
    && |g| == n && |rg| == n
    && forall u, v :: 0 <= u < n && 0 <= v < n ==> multiset(g[u])[v] == multiset(rg[v])[u]
  }

  ghost predicate WellFormed(G: Graph) {
    AdjOk(G.g, G.n) && AdjOk(G.rg, G.n) && ReverseOf(G.g, G.rg, G.n)
  }

  /** The constructor: N vertices without edges. */
  function New(n: nat): (G: Graph)
    ensures WellFormed(G) && G.n == n
    ensures forall u :: 0 <= u < n ==> G.g[u] == [] && G.rg[u] == []
  {
    Graph(n, seq(n, _ => []), seq(n, _ => []))
  }

  /** add_edge(from, to): appends to to G[from] and from to rG[to]; with an
      endpoint outside [0, n) it changes nothing.  The graph stays
      well formed, with exactly one more edge from -> to. */
  function AddEdge(G: Graph, from: int, to: int): (H: Graph)
    requires WellFormed(G)
    ensures WellFormed(H) && H.n == G.n
    ensures !(0 <= from < G.n && 0 <= to < G.n) ==> H == G
    ensures 0 <= from < G.n && 0 <= to < G.n ==>
              && H.g[from] == G.g[from] + [to] && H.rg[to] == G.rg[to] + [from]
              && forall u, v :: 0 <= u < G.n && 0 <= v < G.n ==>
                   multiset(H.g[u])[v] == multiset(G.g[u])[v] + (if u == from && v == to then 1 else 0)
  {
    if from < 0 || from >= G.n || to < 0 || to >= G.n then G
    else
      AppendEdge(G.g, G.rg, G.n, from, to);
      Graph(G.n, G.g[from := G.g[from] + [to]], G.rg[to := G.rg[to] + [from]])
  }

  /** Appending x to list u of adj adds one u -> x and nothing else. */
  lemma {:induction false} AppendCount(adj: seq<seq<int>>, u: int, x: int, v: int, w: int)
    requires 0 <= u < |adj| && 0 <= v < |adj|
    ensures multiset(adj[u := adj[u] + [x]][v])[w] == multiset(adj[v])[w] + (if v == u && w == x then 1 else 0)
  {
    if v == u {
      assert multiset(adj[u := adj[u] + [x]][v]) == multiset(adj[v]) + multiset{x};
    }
  }

  lemma {:induction false} AppendOk(adj: seq<seq<int>>, n: nat, u: int, x: int)
    requires AdjOk(adj, n) && 0 <= u < n && 0 <= x < n
    ensures AdjOk(adj[u := adj[u] + [x]], n)
  {
    var adj' := adj[u := adj[u] + [x]];
    forall v, j | 0 <= v < n && 0 <= j < |adj'[v]|
      ensures 0 <= adj'[v][j] < n
    {
      if v != u || j < |adj[u]| {
        assert adj'[v][j] == adj[v][j];
      }
    }
  }

  /** Appending the edge from -> to on both sides keeps rg the reverse of g
      and adds exactly that edge. */
  lemma {:induction false} AppendEdge(g: seq<seq<int>>, rg: seq<seq<int>>, n: nat, from: int, to: int)
    requires AdjOk(g, n) && AdjOk(rg, n) && ReverseOf(g, rg, n) && 0 <= from < n && 0 <= to < n
    ensures var g', rg' := g[from := g[from] + [to]], rg[to := rg[to] + [from]];
            && AdjOk(g', n) && AdjOk(rg', n) && ReverseOf(g', rg', n)
            && forall u, v :: 0 <= u < n && 0 <= v < n ==>
                 multiset(g'[u])[v] == multiset(g[u])[v] + (if u == from && v == to then 1 else 0)
  {
    var g', rg' := g[from := g[from] + [to]], rg[to := rg[to] + [from]];
    AppendOk(g, n, from, to);
    AppendOk(rg, n, to, from);
    forall u, v | 0 <= u < n && 0 <= v < n
      ensures multiset(g'[u])[v] == multiset(g[u])[v] + (if u == from && v == to then 1 else 0)
      ensures multiset(g'[u])[v] == multiset(rg'[v])[u]
    {
      AppendCount(g, from, to, u, v);
      AppendCount(rg, to, from, v, u);
    }
  }

  /** In a well-formed graph, v is a successor of u in G exactly when u is
      one of v in rG. */
  lemma {:induction false} ReverseEdges(G: Graph, u: int, v: int)
    requires WellFormed(G) && 0 <= u < G.n && 0 <= v < G.n
    ensures v in G.g[u] <==> u in G.rg[v]
  {
    assert multiset(G.g[u])[v] == multiset(G.rg[v])[u];
  }

  // ---------------------------------------------------------------------
  // Paths

  ghost predicate IsPath(adj: seq<seq<int>>, p: seq<int>) {
    && |p| >= 1
    && forall i :: 0 <= i < |p| - 1 ==> 0 <= p[i] < |adj| && p[i + 1] in adj[p[i]]
  }

  /** w can be reached from u along the lists of adj. */
  ghost predicate Reachable(adj: seq<seq<int>>, u: int, w: int) {
    exists p :: IsPath(adj, p) && p[0] == u && p[|p| - 1] == w
  }

  lemma {:induction false} ReachSelf(adj: seq<seq<int>>, u: int)
    ensures Reachable(adj, u, u)
  {
    assert IsPath(adj, [u]);
  }

  /** An edge v -> e followed by a path from e. */
  lemma {:induction false} ReachPrepend(adj: seq<seq<int>>, v: int, e: int, w: int)
    requires 0 <= v < |adj| && e in adj[v] && Reachable(adj, e, w)
    ensures Reachable(adj, v, w)
  {
    var p :| IsPath(adj, p) && p[0] == e && p[|p| - 1] == w;
    var q := [v] + p;
    assert forall i :: 1 <= i < |q| ==> q[i] == p[i - 1];
    assert IsPath(adj, q);
  }

  /** A path in rG, read backwards, is a path in G. */
  lemma {:induction false} ReversePath(G: Graph, p: seq<int>)
    requires WellFormed(G) && IsPath(G.rg, p) && 0 <= p[|p| - 1] < G.n
    ensures var q := seq(|p|, i requires 0 <= i < |p| => p[|p| - 1 - i]);
            IsPath(G.g, q) && q[0] == p[|p| - 1] && q[|q| - 1] == p[0]
  {
    var q := seq(|p|, i requires 0 <= i < |p| => p[|p| - 1 - i]);
    forall i | 0 <= i < |q| - 1
      ensures 0 <= q[i] < |G.g| && q[i + 1] in G.g[q[i]]
    {
      var j := |p| - 2 - i;
      assert q[i] == p[j + 1] && q[i + 1] == p[j];
      assert p[j + 1] in G.rg[p[j]];
      ReverseEdges(G, p[j], p[j + 1]);
    }
  }

  /** Reaching w from u in rG means reaching u from w in G. */
  lemma {:induction false} ReverseReach(G: Graph, u: int, w: int)
    requires WellFormed(G) && 0 <= w < G.n && Reachable(G.rg, u, w)
    ensures Reachable(G.g, w, u)
  {
    var p :| IsPath(G.rg, p) && p[0] == u && p[|p| - 1] == w;
    ReversePath(G, p);
  }

  // ---------------------------------------------------------------------
  // Visited flags

  /** The number of unvisited vertices. */
  function CountFalse(s: seq<bool>): nat {
    if |s| == 0 then 0 else CountFalse(s[..|s| - 1]) + (if s[|s| - 1] then 0 else 1)
  }

  lemma {:induction false} CountFlip(s: seq<bool>, i: int)
    requires 0 <= i < |s| && !s[i]
    ensures CountFalse(s[i := true]) == CountFalse(s) - 1
    decreases |s|
  {
    var t := s[i := true];
    if i == |s| - 1 {
      assert t[..|t| - 1] == s[..|s| - 1];
    } else {
      assert t[..|t| - 1] == s[..|s| - 1][i := true];
      CountFlip(s[..|s| - 1], i);
    }
  }

  lemma {:induction false} CountAllFalse(n: nat)
    ensures CountFalse(seq(n, _ => false)) == n
  {
    if n > 0 {
      assert seq(n, _ => false)[..n - 1] == seq(n - 1, _ => false);
      CountAllFalse(n - 1);
    }
  }

  lemma {:induction false} CountAllTrue(s: seq<bool>)
    requires forall i :: 0 <= i < |s| ==> s[i]
    ensures CountFalse(s) == 0
  {
    if |s| > 0 {
      CountAllTrue(s[..|s| - 1]);
    }
  }

  /** Every flag set in a is set in b. */
  predicate Grows(a: seq<bool>, b: seq<bool>) {
    |a| == |b| && forall x :: 0 <= x < |a| && a[x] ==> b[x]
  }

  predicate NoDup(s: seq<int>) {
    forall i, j :: 0 <= i < j < |s| ==> s[i] != s[j]
  }

  /** `added` lists, once each, exactly the vertices that are visited in
      `after` but were not in `before`. */
  ghost predicate Fresh(added: seq<int>, before: seq<bool>, after: seq<bool>, n: int) {
    && |before| == n && |after| == n
    && NoDup(added)
    && forall x :: x in added <==> 0 <= x < n && after[x] && !before[x]
  }

  /** Two successive rounds of fresh vertices. */
  lemma {:induction false} FreshJoin(A: seq<int>, B: seq<int>, base: seq<bool>, mid: seq<bool>, last: seq<bool>, n: int)
    requires Fresh(A, base, mid, n) && Fresh(B, mid, last, n) && Grows(base, mid) && Grows(mid, last)
    ensures Fresh(A + B, base, last, n)
  {
    var s := A + B;
    forall i, j | 0 <= i < j < |s|
      ensures s[i] != s[j]
    {
      if j < |A| {
        assert s[i] == A[i] && s[j] == A[j];
      } else if i >= |A| {
        assert s[i] == B[i - |A|] && s[j] == B[j - |A|];
      } else {
        assert s[i] == A[i] && A[i] in A;
        assert s[j] == B[j - |A|] && B[j - |A|] in B;
      }
    }
  }

  // ---------------------------------------------------------------------
  // Depth-first search

  /** The state of the loop of dfs(v) over adj[v]: v is marked, and `added`
      holds the vertices the finished children marked. */
  ghost predicate Children(adj: seq<seq<int>>, n: nat, v: int, visited: seq<bool>, order: seq<int>, vis: seq<bool>, ord: seq<int>) {
    && 0 <= v < n && |visited| == n
    && |vis| == n && Grows(visited[v := true], vis)
    && |ord| >= |order| && ord[..|order|] == order
    && Fresh(ord[|order|..], visited[v := true], vis, n)
    && |ord| - |order| == CountFalse(visited) - 1 - CountFalse(vis)
    && forall x :: x in ord[|order|..] ==> Reachable(adj, v, x)
  }

  /** A child search from e, an unvisited successor of v, keeps the loop
      state. */
  lemma {:induction false} ChildDone(adj: seq<seq<int>>, n: nat, v: int, e: int, visited: seq<bool>, order: seq<int>,
                                     vis: seq<bool>, ord: seq<int>, vis': seq<bool>, ord': seq<int>)
    requires AdjOk(adj, n) && Children(adj, n, v, visited, order, vis, ord) && e in adj[v]
    requires |vis'| == n && Grows(vis, vis')
    requires |ord'| >= |ord| && ord'[..|ord|] == ord && Fresh(ord'[|ord|..], vis, vis', n)
    requires |ord'| - |ord| == CountFalse(vis) - CountFalse(vis')
    requires forall x :: x in ord'[|ord|..] ==> Reachable(adj, e, x)
    ensures Children(adj, n, v, visited, order, vis', ord')
  {
    var A, B := ord[|order|..], ord'[|ord|..];
    assert ord'[|order|..] == A + B;
    FreshJoin(A, B, visited[v := true], vis, vis', n);
    forall x | x in B
      ensures Reachable(adj, v, x)
    {
      ReachPrepend(adj, v, e, x);
    }
  }

  /** The loop finished: appending v completes the post-order. */
  lemma {:induction false} DfsDone(adj: seq<seq<int>>, n: nat, v: int, visited: seq<bool>, order: seq<int>, vis: seq<bool>, ord: seq<int>)
    requires Children(adj, n, v, visited, order, vis, ord) && !visited[v]
    ensures Fresh((ord + [v])[|order|..], visited, vis, n)
    ensures forall x :: x in (ord + [v])[|order|..] ==> Reachable(adj, v, x)
  {
    var A := ord[|order|..];
    assert (ord + [v])[|order|..] == A + [v];
    assert v !in A;
    ReachSelf(adj, v);
    var s := A + [v];
    forall i, j | 0 <= i < j < |s|
      ensures s[i] != s[j]
    {
      if j < |A| {
        assert s[i] == A[i] && s[j] == A[j];
      } else {
        assert s[i] == A[i] && A[i] in A;
      }
    }
  }

  /** dfs(v) / rdfs(v): marks v, searches every unvisited successor in
      list order, then appends v.  The appended vertices are exactly the
      newly marked ones, each once and all reachable from v, with v last. */
  method Dfs(adj: seq<seq<int>>, n: nat, v: int, visited: seq<bool>, order: seq<int>) returns (vis: seq<bool>, ord: seq<int>)
    requires AdjOk(adj, n) && |visited| == n && 0 <= v < n && !visited[v]
    ensures |vis| == n && Grows(visited, vis) && vis[v]
    ensures |ord| > |order| && ord[..|order|] == order && ord[|ord| - 1] == v
    ensures Fresh(ord[|order|..], visited, vis, n)
    ensures |ord| - |order| == CountFalse(visited) - CountFalse(vis)
    ensures forall x :: x in ord[|order|..] ==> Reachable(adj, v, x)
    decreases CountFalse(visited)
  {
    vis := visited[v := true];
    CountFlip(visited, v);
    ord := order;
    assert ord[|order|..] == [];
    var i := 0;
    while i < |adj[v]|
      invariant 0 <= i <= |adj[v]|
      invariant Children(adj, n, v, visited, order, vis, ord)
    {
      var e := adj[v][i];
      if !vis[e] {
        var vis', ord' := Dfs(adj, n, e, vis, ord);
        ChildDone(adj, n, v, e, visited, order, vis, ord, vis', ord');
        vis, ord := vis', ord';
      }
      i := i + 1;
    }
    DfsDone(adj, n, v, visited, order, vis, ord);
    ord := ord + [v];
  }

  // ---------------------------------------------------------------------
  // scc()

  /** The first pass after vertices 0..i-1: each is marked, and `vs` lists
      the marked vertices once each. */
  ghost predicate FirstPass(n: nat, i: int, vis: seq<bool>, vs: seq<int>) {
    && |vis| == n
    && Fresh(vs, seq(n, _ => false), vis, n)
    && |vs| == n - CountFalse(vis)
    && 0 <= i <= n && forall j :: 0 <= j < i ==> vis[j]
  }

  lemma {:induction false} FirstPassStep(n: nat, i: int, vis: seq<bool>, vs: seq<int>, vis': seq<bool>, vs': seq<int>)
    requires FirstPass(n, i, vis, vs) && 0 <= i < n && !vis[i]
    requires |vis'| == n && Grows(vis, vis') && vis'[i]
    requires |vs'| >= |vs| && vs'[..|vs|] == vs && Fresh(vs'[|vs|..], vis, vis', n)
    requires |vs'| - |vs| == CountFalse(vis) - CountFalse(vis')
    ensures FirstPass(n, i + 1, vis', vs')
  {
    var none := seq(n, _ => false);
    assert vs' == vs + vs'[|vs|..];
    assert Grows(none, vis);
    FreshJoin(vs, vs'[|vs|..], none, vis, vis', n);
  }

  /** The first pass: dfs from every unvisited vertex 0, 1, ..., n - 1.
      `vs` is a permutation of 0..n-1. */
  method FinishOrder(G: Graph) returns (vs: seq<int>)
    requires WellFormed(G)
    ensures |vs| == G.n && NoDup(vs)
    ensures forall x :: x in vs <==> 0 <= x < G.n
  {
    var n := G.n;
    var vis := seq(n, _ => false);
    vs := [];
    CountAllFalse(n);
    for i := 0 to n
      invariant FirstPass(n, i, vis, vs)
    {
      if !vis[i] {
        var vis', vs' := Dfs(G.g, n, i, vis, vs);
        FirstPassStep(n, i, vis, vs, vis', vs');
        vis, vs := vis', vs';
      }
    }
    CountAllTrue(vis);
  }

  /** The lists one after another. */
  function Concat(comps: seq<seq<int>>): seq<int> {
    if |comps| == 0 then [] else Concat(comps[..|comps| - 1]) + comps[|comps| - 1]
  }

  function Last(s: seq<int>): int
    requires |s| > 0
  {
    s[|s| - 1]
  }

  /** Every list is non-empty and holds only vertices reachable in rG from
      its last vertex, the start of its search. */
  ghost predicate Rooted(G: Graph, comps: seq<seq<int>>) {
    forall k :: 0 <= k < |comps| ==>
      |comps[k]| > 0 && forall x :: x in comps[k] ==> Reachable(G.rg, Last(comps[k]), x)
  }

  /** The second pass after vs[i+1..]: those are marked, and the lists
      found so far hold the marked vertices once each. */
  ghost predicate SecondPass(G: Graph, vs: seq<int>, i: int, vis: seq<bool>, comps: seq<seq<int>>) {
    && -1 <= i < G.n && |vs| == G.n && |vis| == G.n
    && Fresh(Concat(comps), seq(G.n, _ => false), vis, G.n)
    && (forall j :: i < j < G.n ==> 0 <= vs[j] < G.n && vis[vs[j]])
    && Rooted(G, comps)
  }

  lemma {:induction false} SecondPassStep(G: Graph, vs: seq<int>, i: int, vis: seq<bool>, comps: seq<seq<int>>,
                                          vis': seq<bool>, rvs: seq<int>)
    requires SecondPass(G, vs, i, vis, comps) && 0 <= i && 0 <= vs[i] < G.n && !vis[vs[i]]
    requires |vis'| == G.n && Grows(vis, vis') && vis'[vs[i]]
    requires |rvs| > 0 && rvs[|rvs| - 1] == vs[i] && Fresh(rvs, vis, vis', G.n)
    requires forall x :: x in rvs ==> Reachable(G.rg, vs[i], x)
    ensures SecondPass(G, vs, i - 1, vis', comps + [rvs])
  {
    var n := G.n;
    var none := seq(n, _ => false);
    ConcatSnoc(comps, rvs);
    assert Grows(none, vis);
    FreshJoin(Concat(comps), rvs, none, vis, vis', n);
    RootedSnoc(G, comps, rvs);
  }

  lemma {:induction false} ConcatSnoc(comps: seq<seq<int>>, c: seq<int>)
    ensures Concat(comps + [c]) == Concat(comps) + c
  {
    assert (comps + [c])[..|comps|] == comps;
  }

  lemma {:induction false} RootedSnoc(G: Graph, comps: seq<seq<int>>, c: seq<int>)
    requires Rooted(G, comps) && |c| > 0
    requires forall x :: x in c ==> Reachable(G.rg, Last(c), x)
    ensures Rooted(G, comps + [c])
  {
    var comps' := comps + [c];
    forall k | 0 <= k < |comps'|
      ensures |comps'[k]| > 0 && forall x :: x in comps'[k] ==> Reachable(G.rg, Last(comps'[k]), x)
    {
      if k < |comps| {
        assert comps'[k] == comps[k];
      }
    }
  }

  lemma {:induction false} SecondPassSkip(G: Graph, vs: seq<int>, i: int, vis: seq<bool>, comps: seq<seq<int>>)
    requires SecondPass(G, vs, i, vis, comps) && 0 <= i && 0 <= vs[i] < G.n && vis[vs[i]]
    ensures SecondPass(G, vs, i - 1, vis, comps)
  {
  }

  /** Once every vertex of the permutation vs is marked, the lists cover
      0..n-1. */
  lemma {:induction false} SecondPassEnd(G: Graph, vs: seq<int>, vis: seq<bool>, comps: seq<seq<int>>)
    requires SecondPass(G, vs, -1, vis, comps)
    requires forall x :: x in vs <==> 0 <= x < G.n
    ensures forall x :: x in Concat(comps) <==> 0 <= x < G.n
  {
    forall x | 0 <= x < G.n
      ensures x in Concat(comps)
    {
      assert x in vs;
      var j :| 0 <= j < |vs| && vs[j] == x;
      assert vis[vs[j]];
    }
  }

  /** scc(): the second pass, searching rG from the unvisited vertices of
      vs taken from the back.  The lists partition 0..n-1: their
      concatenation holds every vertex exactly once. */
  method Scc(G: Graph) returns (comps: seq<seq<int>>)
    requires WellFormed(G)
    ensures NoDup(Concat(comps))
    ensures forall x :: x in Concat(comps) <==> 0 <= x < G.n
    ensures Rooted(G, comps)
  {
    var n := G.n;
    var vs := FinishOrder(G);
    var vis := seq(n, _ => false);
    comps := [];
    var i := n as int - 1;
    assert forall j :: 0 <= j < n ==> vs[j] in vs;
    while i >= 0
      invariant SecondPass(G, vs, i, vis, comps)
      invariant forall j :: 0 <= j < n ==> 0 <= vs[j] < n
    {
      if !vis[vs[i]] {
        var vis', rvs := Dfs(G.rg, n, vs[i], vis, []);
        assert rvs[0..] == rvs;
        SecondPassStep(G, vs, i, vis, comps, vis', rvs);
        comps := comps + [rvs];
        vis := vis';
      } else {
        SecondPassSkip(G, vs, i, vis, comps);
      }
      i := i - 1;
    }
    SecondPassEnd(G, vs, vis, comps);
  }

  /** Read in G: every vertex of a list reaches the list's start vertex. */
  lemma {:induction false} ListsReachStart(G: Graph, comps: seq<seq<int>>, k: int, x: int)
    requires WellFormed(G) && Rooted(G, comps) && 0 <= k < |comps| && x in comps[k]
    requires forall y :: y in Concat(comps) ==> 0 <= y < G.n
    ensures Reachable(G.g, x, Last(comps[k]))
  {
    ConcatHas(comps, k, x);
    ReverseReach(G, Last(comps[k]), x);
  }

  lemma {:induction false} ConcatHas(comps: seq<seq<int>>, k: int, x: int)
    requires 0 <= k < |comps| && x in comps[k]
    ensures x in Concat(comps)
    decreases |comps|
  {
    if k < |comps| - 1 {
      assert comps[..|comps| - 1][k] == comps[k];
      ConcatHas(comps[..|comps| - 1], k, x);
    }
  }
}
