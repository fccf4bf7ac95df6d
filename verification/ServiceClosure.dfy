/** Starting one service: it and everything it needs, in start order (`get_service_with_deps`). */
module ServiceClosure {
  import opened Wrappers
  import opened Sequences
  import opened Graphs
  import opened TopologicalSort

  /** The services that have to run for `service` to run. */
  ghost function Closure(g: Graph, service: string): set<string> {
    set s | s in g && Reaches(g, service, s)
  }

  ghost predicate ClosureComplete(g: Graph, service: string) {
    forall s, d :: s in Closure(g, service) && d in g[s] ==> d in g
  }

  function Restrict(g: Graph, names: set<string>): Graph {
    map s | s in g && s in names :: g[s]
  }

  // ----- collecting

  /** All dependencies of the services in `names` exist and are in `within`. */
  ghost predicate DepsWithin(g: Graph, names: set<string>, within: set<string>) {
    forall s :: s in names && s in g ==> DepsIn(g[s], within * g.Keys)
  }

  ghost predicate DepsIn(deps: seq<string>, within: set<string>) {
    forall d :: d in deps ==> d in within
  }

  ghost predicate MissingBehind(g: Graph, service: string, e: DependencyError) {
    TrueMissing(g, e) && Reaches(g, service, e.service)
  }

  /**
   `collect_deps`. Services already in `needed0` may still be in progress further up
   the call chain, so a call answers for the services it adds.
   */
  method CollectDeps(g: Graph, service: string, needed0: set<string>) returns (err: Option<DependencyError>, needed: set<string>)
    ensures needed0 + {service} <= needed
    ensures forall s :: s in needed - needed0 && s != service ==> Reaches(g, service, s)
    ensures err.None? ==> DepsWithin(g, needed - needed0, needed)
    ensures err.Some? ==> MissingBehind(g, service, err.value)
    decreases g.Keys - needed0
  {
    needed := needed0;
    if service in needed {
      return None, needed;
    }
    needed := needed + {service};
    if service in g {
      var deps := g[service];
      ReachesSelf(g, service);
      for k := 0 to |deps|
        invariant needed0 + {service} <= needed
        invariant forall s :: s in needed - needed0 ==> Reaches(g, service, s)
        invariant DepsWithin(g, needed - needed0 - {service}, needed)
        invariant DepsIn(deps[..k], needed * g.Keys)
      {
        var dep := deps[k];
        if dep !in g {
          return Some(MissingDependency(service, dep)), needed;
        }
        ghost var earlier := needed;
        assert Edge(g, service, dep);
        err, needed := CollectDeps(g, dep, needed);
        BehindDependency(g, service, dep);
        if err.Some? {
          return err, needed;
        }
        assert deps[..k + 1] == deps[..k] + [dep];
      }
      assert deps[..|deps|] == deps;
    }
    return None, needed;
  }

  lemma BehindDependency(g: Graph, service: string, dep: string)
    requires Edge(g, service, dep)
    ensures forall s :: s == dep || Reaches(g, dep, s) ==> Reaches(g, service, s)
  {
    ReachesSelf(g, dep);
    forall s | Reaches(g, dep, s) ensures Reaches(g, service, s) {
      ReachesFirst(g, service, dep, s);
    }
  }

  // ----- what was collected

  lemma {:induction false} ClosedContainsPath(g: Graph, names: set<string>, p: seq<string>, i: nat)
    requires DepsWithin(g, names, names) && IsPath(g, p) && p[0] in names && i < |p|
    ensures p[i] in names
  {
    if i > 0 {
      ClosedContainsPath(g, names, p, i - 1);
      assert Edge(g, p[i - 1], p[i]);
    }
  }

  lemma CollectedIsClosure(g: Graph, service: string, needed: set<string>)
    requires service in g && service in needed && DepsWithin(g, needed, needed)
    requires forall s :: s in needed && s != service ==> Reaches(g, service, s)
    ensures needed == Closure(g, service) && ClosureComplete(g, service)
  {
    ReachesSelf(g, service);
    forall s | Reaches(g, service, s) ensures s in needed {
      var p :| IsPathBetween(g, p, service, s);
      ClosedContainsPath(g, needed, p, |p| - 1);
    }
    forall s | s in needed && s != service ensures s in g {
      var p :| IsPathBetween(g, p, service, s);
      if |p| > 1 { assert Edge(g, p[|p| - 2], p[|p| - 1]); }
    }
  }

  /** Inside a set closed under dependencies, chains are the same in the filtered map. */
  lemma PathsSurvive(g: Graph, names: set<string>, p: seq<string>)
    requires DepsWithin(g, names, names) && names <= g.Keys && p != [] && p[0] in names
    ensures IsPath(Restrict(g, names), p) <==> IsPath(g, p)
  {
    var f := Restrict(g, names);
    if IsPath(g, p) {
      forall i, j | 0 <= i && j == i + 1 < |p| ensures Edge(f, p[i], p[j]) {
        ClosedContainsPath(g, names, p, i);
        ClosedContainsPath(g, names, p, j);
        assert Edge(g, p[i], p[j]);
      }
    }
  }

  lemma CyclesSurvive(g: Graph, names: set<string>, s: string)
    requires DepsWithin(g, names, names) && names <= g.Keys && s in names
    ensures OnCycle(Restrict(g, names), s) <==> OnCycle(g, s)
    ensures ReachesCycle(Restrict(g, names), s) <==> ReachesCycle(g, s)
  {
    var f := Restrict(g, names);
    OneCycleSurvives(g, names, s);
    if ReachesCycle(g, s) {
      var c :| Reaches(g, s, c) && OnCycle(g, c);
      var p :| IsPathBetween(g, p, s, c);
      PathsSurvive(g, names, p);
      ClosedContainsPath(g, names, p, |p| - 1);
      OneCycleSurvives(g, names, c);
      assert IsPathBetween(f, p, s, c);
    }
    if ReachesCycle(f, s) {
      var c :| Reaches(f, s, c) && OnCycle(f, c);
      var p :| IsPathBetween(f, p, s, c);
      PathsSurvive(g, names, p);
      OneCycleSurvives(g, names, c);
      assert IsPathBetween(g, p, s, c);
    }
  }

  lemma OneCycleSurvives(g: Graph, names: set<string>, s: string)
    requires DepsWithin(g, names, names) && names <= g.Keys
    ensures s in names && OnCycle(g, s) ==> OnCycle(Restrict(g, names), s)
    ensures OnCycle(Restrict(g, names), s) ==> OnCycle(g, s)
  {
    var f := Restrict(g, names);
    if s in names && OnCycle(g, s) {
      var p :| |p| > 1 && IsPathBetween(g, p, s, s);
      PathsSurvive(g, names, p);
      assert IsPathBetween(f, p, s, s);
    }
    if OnCycle(f, s) {
      var p :| |p| > 1 && IsPathBetween(f, p, s, s);
      PathsSurvive(g, names, p);
      assert IsPathBetween(g, p, s, s);
    }
  }

  // ----- the operation

  /** Exactly the closure, each service once and after its dependencies. */
  ghost predicate IsClosureOrder(g: Graph, service: string, order: seq<string>) {
    && Distinct(order)
    && Elements(order) == Closure(g, service)
    && DependenciesFirst(g, order)
  }

  ghost predicate ClosureCycle(g: Graph, service: string, e: DependencyError) {
    && e.DependencyCycle? && e.involved != {}
    && e.involved == set s | s in Closure(g, service) && ReachesCycle(g, s)
  }

  /** The verdict depends on the closure of `service` alone. */
  method GetServiceWithDeps(g: Graph, service: string) returns (r: Result<seq<string>, DependencyError>)
    ensures r.Ok? <==> service in g && ClosureComplete(g, service) && !ReachesCycle(g, service)
    ensures r.Ok? ==> IsClosureOrder(g, service, r.value)
    ensures service !in g ==> r == Err(ServiceNotFound(service))
    ensures service in g && !ClosureComplete(g, service) ==> MissingBehind(g, service, r.error)
    ensures service in g && ClosureComplete(g, service) && ReachesCycle(g, service) ==> ClosureCycle(g, service, r.error)
  {
    if service !in g {
      return Err(ServiceNotFound(service));
    }
    var err, needed := CollectDeps(g, service, {});
    assert needed - {} == needed;
    if err.Some? {
      return Err(err.value);
    }
    CollectedIsClosure(g, service, needed);
    r := Sort(Restrict(g, needed));
    RestrictedVerdict(g, service, needed);
  }

  lemma RestrictedVerdict(g: Graph, service: string, needed: set<string>)
    requires needed == Closure(g, service) && DepsWithin(g, needed, needed) && service in needed
    ensures var f := Restrict(g, needed);
            && f.Keys == needed
            && AllDepsExist(f)
            && (Acyclic(f) <==> !ReachesCycle(g, service))
            && forall s :: s in needed ==> (ReachesCycle(f, s) <==> ReachesCycle(g, s))
  {
    var f := Restrict(g, needed);
    forall s | s in needed ensures ReachesCycle(f, s) <==> ReachesCycle(g, s) {
      CyclesSurvive(g, needed, s);
    }
    AcyclicMeansNoneReached(f);
    if !Acyclic(f) {
      var c :| OnCycle(f, c);
      OneCycleSurvives(g, needed, c);
      assert Reaches(g, service, c);
    }
  }
}
