/**
 The dependency graph of a config: each service with the list that
 `DependsOn::names()` returns for it. The list may repeat a name and may name
 a service that does not exist.
 */
module Graphs {
  import opened Sequences

  type Graph = map<string, seq<string>>

  predicate AllDepsExist(g: Graph) {
    forall s, d :: s in g && d in g[s] ==> d in g
  }

  ghost predicate Edge(g: Graph, a: string, b: string) {
    a in g && b in g && b in g[a]
  }

  /** A dependency chain: each service depends on the next one. */
  ghost predicate IsPath(g: Graph, p: seq<string>) {
    && |p| > 0
    && p[0] in g
    && forall i, j :: 0 <= i && j == i + 1 < |p| ==> Edge(g, p[i], p[j])
  }

  ghost predicate IsPathBetween(g: Graph, p: seq<string>, a: string, b: string) {
    IsPath(g, p) && p[0] == a && p[|p| - 1] == b
  }

  ghost predicate Reaches(g: Graph, a: string, b: string) {
    exists p :: IsPathBetween(g, p, a, b)
  }

  ghost predicate OnCycle(g: Graph, s: string) {
    exists p :: |p| > 1 && IsPathBetween(g, p, s, s)
  }

  ghost predicate ReachesCycle(g: Graph, s: string) {
    exists c :: Reaches(g, s, c) && OnCycle(g, c)
  }

  ghost predicate Acyclic(g: Graph) {
    forall s :: !OnCycle(g, s)
  }

  lemma ReachesSelf(g: Graph, s: string)
    requires s in g
    ensures Reaches(g, s, s)
  {
    assert IsPathBetween(g, [s], s, s);
  }

  lemma ReachesFirst(g: Graph, a: string, b: string, c: string)
    requires Edge(g, a, b) && Reaches(g, b, c)
    ensures Reaches(g, a, c)
  {
    var p :| IsPathBetween(g, p, b, c);
    assert IsPathBetween(g, [a] + p, a, c);
  }

  lemma CycleIsReached(g: Graph, s: string)
    requires OnCycle(g, s)
    ensures ReachesCycle(g, s)
  {
    ReachesSelf(g, s);
  }

  lemma AcyclicMeansNoneReached(g: Graph)
    ensures Acyclic(g) <==> forall s :: !ReachesCycle(g, s)
  {
    if !Acyclic(g) {
      var s :| OnCycle(g, s);
      CycleIsReached(g, s);
    }
  }

  /** A set in which every service has a dependency is one from which chains never end. */
  ghost predicate NeverEnds(g: Graph, stuck: set<string>) {
    forall s :: s in stuck ==> s in g && DependsInto(g[s], stuck)
  }

  ghost predicate DependsInto(deps: seq<string>, targets: set<string>) {
    exists d :: d in deps && d in targets
  }

  lemma {:induction false} WalkForever(g: Graph, stuck: set<string>, s: string, n: nat)
    returns (p: seq<string>)
    requires NeverEnds(g, stuck) && s in stuck
    ensures IsPath(g, p) && p[0] == s && |p| == n + 1 && Elements(p) <= stuck
    decreases n
  {
    if n == 0 {
      p := [s];
    } else {
      var d :| d in g[s] && d in stuck;
      var rest := WalkForever(g, stuck, d, n - 1);
      p := [s] + rest;
    }
  }

  lemma SliceIsPath(g: Graph, p: seq<string>, i: nat, j: nat)
    requires IsPath(g, p) && i < j <= |p|
    ensures IsPathBetween(g, p[i..j], p[i], p[j - 1])
  {
    if i > 0 {
      assert Edge(g, p[i - 1], p[i]);
    }
  }

  /** Chains that never end must repeat a service, so they run into a cycle. */
  lemma StuckReachesCycle(g: Graph, stuck: set<string>, s: string)
    requires NeverEnds(g, stuck) && s in stuck
    ensures ReachesCycle(g, s)
  {
    var p := WalkForever(g, stuck, s, |stuck|);
    var i, j := Pigeonhole(p, stuck);
    SliceIsPath(g, p, 0, i + 1);
    SliceIsPath(g, p, i, j + 1);
    assert Reaches(g, s, p[i]) && OnCycle(g, p[i]);
  }

  /** `rank` falls along every dependency of `settled`, which is closed under dependencies. */
  ghost predicate Descends(g: Graph, settled: set<string>, rank: map<string, int>) {
    forall s :: s in settled ==>
      s in g && s in rank && forall d :: d in g[s] ==> d in settled && d in rank && rank[d] < rank[s]
  }

  lemma {:induction false} RankAlongPath(g: Graph, settled: set<string>, rank: map<string, int>, p: seq<string>, i: nat)
    requires Descends(g, settled, rank)
    requires IsPath(g, p) && p[0] in settled && i < |p|
    ensures p[i] in settled && rank[p[i]] <= rank[p[0]] - i
  {
    if i > 0 {
      RankAlongPath(g, settled, rank, p, i - 1);
      assert Edge(g, p[i - 1], p[i]);
    }
  }

  lemma DescendingHasNoCycle(g: Graph, settled: set<string>, rank: map<string, int>, s: string)
    requires Descends(g, settled, rank) && s in settled
    ensures !ReachesCycle(g, s)
  {
    if ReachesCycle(g, s) {
      var c :| Reaches(g, s, c) && OnCycle(g, c);
      var p :| IsPathBetween(g, p, s, c);
      RankAlongPath(g, settled, rank, p, |p| - 1);
      var q :| |q| > 1 && IsPathBetween(g, q, c, c);
      RankAlongPath(g, settled, rank, q, |q| - 1);
    }
  }
}
