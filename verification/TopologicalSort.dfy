/**
 Start order by Kahn's algorithm (`topological_sort`).

 The order in which a hash map yields its keys is not fixed, so every such loop
 takes an arbitrary next key. The insertion point into the work queue is arbitrary
 too: the queue starts sorted ascending while the insertion predicate expects it
 descending, so nothing below rests on where a name is inserted.
 */
module TopologicalSort {
  import opened Wrappers
  import opened Sequences
  import opened Graphs

  datatype DependencyError =
    | MissingDependency(service: string, dependency: string)
    | DependencyCycle(involved: set<string>)
    | ServiceNotFound(name: string)

  /** Each service once, and each after all its dependencies. */
  ghost predicate IsStartOrder(g: Graph, order: seq<string>) {
    && Distinct(order)
    && Elements(order) == g.Keys
    && DependenciesFirst(g, order)
  }

  ghost predicate DependenciesFirst(g: Graph, order: seq<string>) {
    forall i, d :: 0 <= i < |order| && order[i] in g && d in g[order[i]] ==> d in order[..i]
  }

  ghost predicate TrueMissing(g: Graph, e: DependencyError) {
    e.MissingDependency? && e.service in g && e.dependency in g[e.service] && e.dependency !in g
  }

  ghost predicate TrueCycle(g: Graph, e: DependencyError) {
    e.DependencyCycle? && e.involved != {} && forall s :: s in e.involved <==> s in g && ReachesCycle(g, s)
  }

  ghost function Occurrences(list: seq<string>, x: string): nat {
    if list == [] then 0
    else (if list[0] == x then 1 else 0) + Occurrences(list[1..], x)
  }

  lemma {:induction false} OccurrencesAppend(list: seq<string>, y: string, x: string)
    ensures Occurrences(list + [y], x) == Occurrences(list, x) + if x == y then 1 else 0
  {
    if list == [] {
      assert [y][1..] == [];
    } else {
      assert (list + [y])[1..] == list[1..] + [y];
      OccurrencesAppend(list[1..], y, x);
    }
  }

  lemma {:induction false} OccurrencesIn(list: seq<string>, x: string)
    ensures Occurrences(list, x) > 0 <==> x in list
  {
    if list != [] {
      OccurrencesIn(list[1..], x);
      assert list == [list[0]] + list[1..];
    }
  }

  /** How many entries of a dependency list are not yet in `done`, repeats included. */
  ghost function Unmet(deps: seq<string>, done: set<string>): nat {
    if deps == [] then 0
    else (if deps[0] in done then 0 else 1) + Unmet(deps[1..], done)
  }

  lemma {:induction false} UnmetOfNothing(deps: seq<string>)
    ensures Unmet(deps, {}) == |deps|
  {
    if deps != [] { UnmetOfNothing(deps[1..]); }
  }

  lemma {:induction false} UnmetZero(deps: seq<string>, done: set<string>)
    ensures Unmet(deps, done) == 0 <==> forall d :: d in deps ==> d in done
  {
    if deps != [] {
      UnmetZero(deps[1..], done);
      assert deps == [deps[0]] + deps[1..];
    }
  }

  lemma {:induction false} UnmetDrops(deps: seq<string>, done: set<string>, x: string)
    requires x !in done
    ensures Unmet(deps, done) == Unmet(deps, done + {x}) + Occurrences(deps, x)
  {
    if deps != [] {
      UnmetDrops(deps[1..], done, x);
      assert deps == [deps[0]] + deps[1..];
    }
  }

  /** The validation loop: the first dependency found that names no service. */
  method FindMissing(g: Graph) returns (missing: Option<(string, string)>)
    ensures missing.None? ==> AllDepsExist(g)
    ensures missing.Some? ==>
              TrueMissing(g, MissingDependency(missing.value.0, missing.value.1))
  {
    var todo := g.Keys;
    while todo != {}
      invariant todo <= g.Keys
      invariant forall s, d :: s in g.Keys - todo && d in g[s] ==> d in g
      decreases |todo|
    {
      var name :| name in todo;
      for k := 0 to |g[name]|
        invariant forall i :: 0 <= i < k ==> g[name][i] in g
      {
        if g[name][k] !in g {
          return Some((name, g[name][k]));
        }
      }
      todo := todo - {name};
    }
    return None;
  }

  /** In-degrees and reverse edges agree with the dependency entries `seen` so far. */
  ghost predicate Indexed(seen: Graph, inDegree: map<string, nat>, dependents: map<string, seq<string>>) {
    && inDegree.Keys == dependents.Keys == seen.Keys
    && (forall s :: s in seen ==> inDegree[s] == |seen[s]|)
    && (forall d, s :: Mirrored(seen, dependents, d, s))
  }

  /** Reverse edges from `d` to `s`, one for each time `s` lists `d`. */
  ghost predicate Mirrored(seen: Graph, dependents: map<string, seq<string>>, d: string, s: string) {
    d in seen && d in dependents ==>
      Occurrences(dependents[d], s) == if s in seen then Occurrences(seen[s], d) else 0
  }

  lemma IndexOneEntry(seen: Graph, inDegree: map<string, nat>, dependents: map<string, seq<string>>, name: string, dep: string)
    requires Indexed(seen, inDegree, dependents) && name in seen && dep in seen
    ensures Indexed(seen[name := seen[name] + [dep]], inDegree[name := inDegree[name] + 1],
                    dependents[dep := dependents[dep] + [name]])
  {
    var seen' := seen[name := seen[name] + [dep]];
    var dependents' := dependents[dep := dependents[dep] + [name]];
    forall d, s
      ensures Mirrored(seen', dependents', d, s)
    {
      assert Mirrored(seen, dependents, d, s);
      OccurrencesAppend(seen[name], dep, d);
      if dep in dependents {
        OccurrencesAppend(dependents[dep], name, s);
      }
    }
  }

  /** Adds the entries of one service to the index. */
  method IndexService(name: string, deps: seq<string>, ghost seen: Graph,
                      inDegree0: map<string, nat>, dependents0: map<string, seq<string>>)
    returns (inDegree: map<string, nat>, dependents: map<string, seq<string>>)
    requires name in seen && seen[name] == []
    requires forall d :: d in deps ==> d in seen
    requires Indexed(seen, inDegree0, dependents0)
    ensures Indexed(seen[name := deps], inDegree, dependents)
  {
    inDegree, dependents := inDegree0, dependents0;
    assert seen == seen[name := deps[..0]];
    for k := 0 to |deps|
      invariant Indexed(seen[name := deps[..k]], inDegree, dependents)
    {
      IndexOneEntry(seen[name := deps[..k]], inDegree, dependents, name, deps[k]);
      inDegree := inDegree[name := inDegree[name] + 1];
      dependents := dependents[deps[k] := dependents[deps[k]] + [name]];
      assert deps[..k + 1] == deps[..k] + [deps[k]];
      assert seen[name := deps[..k]][name := deps[..k + 1]] == seen[name := deps[..k + 1]];
    }
    assert deps[..|deps|] == deps;
  }

  /** Builds the in-degree of each service and the reverse edges, one per dependency entry. */
  method BuildIndex(g: Graph) returns (inDegree: map<string, nat>, dependents: map<string, seq<string>>)
    requires AllDepsExist(g)
    ensures Indexed(g, inDegree, dependents)
  {
    inDegree := map s | s in g :: 0;
    dependents := map s | s in g :: [];
    ghost var seen: Graph := map s | s in g :: [];
    assert forall d, s :: Mirrored(seen, dependents, d, s);
    var todo := g.Keys;
    while todo != {}
      invariant todo <= g.Keys && seen.Keys == g.Keys
      invariant forall s :: s in g ==> seen[s] == if s in todo then [] else g[s]
      invariant Indexed(seen, inDegree, dependents)
      decreases |todo|
    {
      var name :| name in todo;
      assert forall d :: d in g[name] ==> d in g;
      inDegree, dependents := IndexService(name, g[name], seen, inDegree, dependents);
      seen := seen[name := g[name]];
      todo := todo - {name};
    }
    assert seen == g;
  }

  function InsertAt(queue: seq<string>, pos: nat, x: string): seq<string>
    requires pos <= |queue|
  {
    queue[..pos] + [x] + queue[pos..]
  }

  lemma InsertKeepsDistinct(result: seq<string>, queue: seq<string>, pos: nat, x: string)
    requires pos <= |queue| && Distinct(result + queue) && x !in result + queue
    ensures Distinct(result + InsertAt(queue, pos, x))
    ensures Elements(result + InsertAt(queue, pos, x)) == Elements(result + queue) + {x}
  {
    var before, after := result + queue, result + InsertAt(queue, pos, x);
    var at := |result| + pos;
    assert forall i :: 0 <= i < at ==> after[i] == before[i];
    assert after[at] == x;
    assert forall i :: at < i < |after| ==> after[i] == before[i - 1];
    assert forall i :: 0 <= i < |before| ==> before[i] == after[if i < at then i else i + 1];
  }

  /** In-degrees while releasing dependents: what is unmet, plus the releases still to come. */
  ghost predicate Owes(g: Graph, done: set<string>, inDegree: map<string, nat>, pending: seq<string>) {
    && inDegree.Keys == g.Keys
    && forall s :: s in g ==> inDegree[s] == Unmet(g[s], done) + Occurrences(pending, s)
  }

  /** The services with no unmet dependency are those taken or waiting in the queue. */
  ghost predicate QueueExact(g: Graph, inDegree: map<string, nat>, queue: seq<string>, result: seq<string>) {
    && Distinct(result + queue)
    && Elements(result + queue) <= g.Keys <= inDegree.Keys
    && forall s :: s in g ==> (inDegree[s] == 0 <==> s in Elements(result + queue))
  }

  /** The inner loop: one decrement per reverse edge of the service just taken. */
  method Release(g: Graph, list: seq<string>, inDegree0: map<string, nat>, queue0: seq<string>, ghost result: seq<string>)
    returns (inDegree: map<string, nat>, queue: seq<string>)
    requires forall s :: s in list ==> s in g
    requires Owes(g, Elements(result), inDegree0, list)
    requires QueueExact(g, inDegree0, queue0, result)
    ensures Owes(g, Elements(result), inDegree, [])
    ensures QueueExact(g, inDegree, queue, result)
  {
    inDegree, queue := inDegree0, queue0;
    assert list[0..] == list;
    for k := 0 to |list|
      invariant Owes(g, Elements(result), inDegree, list[k..])
      invariant QueueExact(g, inDegree, queue, result)
    {
      var dep := list[k];
      assert list[k..] == [dep] + list[k + 1..];
      var deg := inDegree[dep] - 1;
      inDegree := inDegree[dep := deg];
      if deg == 0 {
        var pos :| 0 <= pos <= |queue|;
        InsertKeepsDistinct(result, queue, pos, dep);
        queue := InsertAt(queue, pos, dep);
      }
    }
    assert list[|list|..] == [];
  }

  /** The initial queue: the services without dependencies, in any order. */
  method InitialQueue(g: Graph, inDegree: map<string, nat>) returns (queue: seq<string>)
    requires Owes(g, {}, inDegree, [])
    ensures QueueExact(g, inDegree, queue, [])
  {
    queue := [];
    var todo := g.Keys;
    while todo != {}
      invariant todo <= g.Keys
      invariant Distinct([] + queue) && Elements([] + queue) <= g.Keys - todo
      invariant forall s :: s in g.Keys - todo ==> (inDegree[s] == 0 <==> s in Elements([] + queue))
      decreases |todo|
    {
      var name :| name in todo;
      if inDegree[name] == 0 {
        var pos :| 0 <= pos <= |queue|;
        InsertKeepsDistinct([], queue, pos, name);
        queue := InsertAt(queue, pos, name);
      }
      todo := todo - {name};
    }
  }

  /** Moving the last queued name to the result keeps the two together as they were. */
  lemma MoveLast(result: seq<string>, queue: seq<string>)
    requires queue != [] && Distinct(result + queue)
    ensures var last := |queue| - 1;
            && Distinct(result + [queue[last]] + queue[..last])
            && Elements(result + [queue[last]] + queue[..last]) == Elements(result + queue)
  {
    var last := |queue| - 1;
    var a, b := result + queue, result + [queue[last]] + queue[..last];
    forall i, j | 0 <= i < j < |b|
      ensures b[i] != b[j]
    {
      var i' := if i < |result| then i else if i == |result| then |a| - 1 else i - 1;
      var j' := if j < |result| then j else if j == |result| then |a| - 1 else j - 1;
      assert b[i] == a[i'] && b[j] == a[j'];
    }
    assert queue == queue[..last] + [queue[last]];
  }

  lemma AppendKeepsOrder(g: Graph, result: seq<string>, node: string)
    requires DependenciesFirst(g, result)
    requires node in g ==> forall d :: d in g[node] ==> d in result
    ensures DependenciesFirst(g, result + [node])
  {
    var longer := result + [node];
    forall i, d | 0 <= i < |longer| && longer[i] in g && d in g[longer[i]]
      ensures d in longer[..i]
    {
      if i < |result| {
        assert longer[..i] == result[..i];
      } else {
        assert longer[..i] == result;
      }
    }
  }

  lemma TakeKeepsExact(g: Graph, inDegree: map<string, nat>, queue: seq<string>, result: seq<string>)
    requires queue != [] && QueueExact(g, inDegree, queue, result)
    requires Owes(g, Elements(result), inDegree, [])
    requires DependenciesFirst(g, result)
    ensures var last := |queue| - 1;
            && QueueExact(g, inDegree, queue[..last], result + [queue[last]])
            && DependenciesFirst(g, result + [queue[last]])
  {
    var node := queue[|queue| - 1];
    MoveLast(result, queue);
    TakenOnce(result, queue);
    UnmetZero(g[node], Elements(result));
    AppendKeepsOrder(g, result, node);
  }

  /** Reverse edges of the service just taken are exactly the decrements owed. */
  lemma ReleasesOwed(g: Graph, inDegree: map<string, nat>, dependents: map<string, seq<string>>, result: seq<string>, node: string)
    requires Owes(g, Elements(result), inDegree, [])
    requires node in g && node !in result
    requires dependents.Keys == g.Keys && forall d, s :: Mirrored(g, dependents, d, s)
    ensures Owes(g, Elements(result + [node]), inDegree, dependents[node])
    ensures forall s :: s in dependents[node] ==> s in g
  {
    assert Elements(result + [node]) == Elements(result) + {node};
    forall s | s in g
      ensures inDegree[s] == Unmet(g[s], Elements(result + [node])) + Occurrences(dependents[node], s)
    {
      assert Mirrored(g, dependents, node, s);
      UnmetDrops(g[s], Elements(result), node);
    }
    forall s | s in dependents[node]
      ensures s in g
    {
      assert Mirrored(g, dependents, node, s);
      OccurrencesIn(dependents[node], s);
    }
  }

  lemma StartOrderBound(g: Graph, inDegree: map<string, nat>, queue: seq<string>, result: seq<string>)
    requires QueueExact(g, inDegree, queue, result)
    ensures |result| + |queue| <= |g|
  {
    DistinctSize(result + queue);
    SubsetSize(Elements(result + queue), g.Keys);
  }

  /** What the loop leaves out, once the queue is empty, is what depends on a cycle. */
  lemma LeftoversReachCycle(g: Graph, inDegree: map<string, nat>, result: seq<string>, s: string)
    requires AllDepsExist(g)
    requires QueueExact(g, inDegree, [], result) && Owes(g, Elements(result), inDegree, [])
    requires s in g && s !in result
    ensures ReachesCycle(g, s)
  {
    assert result + [] == result;
    var stuck := set k | k in g && k !in result;
    forall k | k in stuck
      ensures DependsInto(g[k], stuck)
    {
      UnmetZero(g[k], Elements(result));
      assert k !in Elements(result);
      var d :| d in g[k] && d !in Elements(result);
      assert d in g[k] && d in stuck;
    }
    StuckReachesCycle(g, stuck, s);
  }

  /** The main loop: takes every service that does not depend on a cycle, dependencies first. */
  method Drain(g: Graph, inDegree0: map<string, nat>, dependents: map<string, seq<string>>) returns (result: seq<string>)
    requires AllDepsExist(g) && Indexed(g, inDegree0, dependents)
    ensures Distinct(result) && Elements(result) <= g.Keys && DependenciesFirst(g, result)
    ensures forall s :: s in g && s !in result ==> ReachesCycle(g, s)
  {
    forall s | s in g ensures inDegree0[s] == Unmet(g[s], {}) { UnmetOfNothing(g[s]); }
    var inDegree := inDegree0;
    var queue := InitialQueue(g, inDegree);
    result := [];
    assert Elements(result) == {};
    while queue != []
      invariant QueueExact(g, inDegree, queue, result)
      invariant Owes(g, Elements(result), inDegree, [])
      invariant DependenciesFirst(g, result)
      invariant |result| <= |g|
      decreases |g| - |result|
    {
      TakeKeepsExact(g, inDegree, queue, result);
      StartOrderBound(g, inDegree, queue, result);
      var last := |queue| - 1;
      var node := queue[last];
      TakenOnce(result, queue);
      ReleasesOwed(g, inDegree, dependents, result, node);
      queue, result := queue[..last], result + [node];
      inDegree, queue := Release(g, dependents[node], inDegree, queue, result);
    }
    assert result + queue == result;
    forall s | s in g && s !in result ensures ReachesCycle(g, s) {
      LeftoversReachCycle(g, inDegree, result, s);
    }
  }

  lemma TakenOnce(result: seq<string>, queue: seq<string>)
    requires queue != [] && Distinct(result + queue)
    ensures queue[|queue| - 1] !in result && queue[|queue| - 1] in Elements(result + queue)
  {
    var all := result + queue;
    assert all[|all| - 1] == queue[|queue| - 1];
    assert forall i :: 0 <= i < |result| ==> all[i] == result[i];
  }

  /** `topological_sort`: an exact verdict on every graph. */
  method Sort(g: Graph) returns (r: Result<seq<string>, DependencyError>)
    ensures r.Ok? <==> AllDepsExist(g) && Acyclic(g)
    ensures r.Ok? ==> IsStartOrder(g, r.value)
    ensures !AllDepsExist(g) ==> TrueMissing(g, r.error)
    ensures AllDepsExist(g) && !Acyclic(g) ==> TrueCycle(g, r.error)
  {
    var missing := FindMissing(g);
    if missing.Some? {
      return Err(MissingDependency(missing.value.0, missing.value.1));
    }
    var inDegree, dependents := BuildIndex(g);
    var result := Drain(g, inDegree, dependents);
    CompleteIffAcyclic(g, result);
    if |result| != |g| {
      var remaining := set k | k in g && k !in result;
      ghost var k :| k in g && k !in result;
      assert k in remaining;
      return Err(DependencyCycle(remaining));
    }
    return Ok(result);
  }

  lemma CompleteIffAcyclic(g: Graph, result: seq<string>)
    requires Distinct(result) && Elements(result) <= g.Keys && DependenciesFirst(g, result)
    requires forall s :: s in g && s !in result ==> ReachesCycle(g, s)
    ensures forall s :: s in g ==> (s in result <==> !ReachesCycle(g, s))
    ensures |result| == |g| <==> Acyclic(g)
    ensures |result| == |g| ==> Elements(result) == g.Keys
    ensures |result| != |g| ==> exists k :: k in g && k !in result
  {
    OrderIsAcyclic(g, result);
    AcyclicOnServices(g);
    DistinctSize(result);
    if |result| == |g| {
      DistinctCovers(result, g.Keys);
    } else {
      assert Elements(result) != g.Keys;
    }
  }

  lemma AcyclicOnServices(g: Graph)
    ensures Acyclic(g) <==> forall s :: s in g ==> !ReachesCycle(g, s)
  {
    AcyclicMeansNoneReached(g);
    forall s | ReachesCycle(g, s) ensures s in g {
      var c :| Reaches(g, s, c) && OnCycle(g, c);
    }
  }

  /** Nothing listed after its dependencies can lie behind a cycle. */
  lemma OrderIsAcyclic(g: Graph, order: seq<string>)
    requires Elements(order) <= g.Keys && DependenciesFirst(g, order)
    ensures forall s :: s in order ==> !ReachesCycle(g, s)
  {
    forall i | 0 <= i < |order|
      ensures !ReachesCycle(g, order[i])
    {
      OrderPrefixAcyclic(g, order, i);
    }
  }

  lemma {:induction false} OrderPrefixAcyclic(g: Graph, order: seq<string>, n: nat)
    requires Elements(order) <= g.Keys && DependenciesFirst(g, order) && n < |order|
    ensures !ReachesCycle(g, order[n])
  {
    var rank := map s | s in order :: FirstIndex(order, s);
    assert Descends(g, Elements(order), rank) by {
      forall s, d | s in order && d in g[s]
        ensures d in order && FirstIndex(order, d) < FirstIndex(order, s)
      {
        var i := FirstIndex(order, s);
        assert order[i] in g && d in order[..i];
        FirstIndexBound(order, d, i);
      }
    }
    DescendingHasNoCycle(g, Elements(order), rank, order[n]);
  }

  ghost function FirstIndex(order: seq<string>, s: string): (i: int)
    requires s in order
    ensures 0 <= i < |order| && order[i] == s && s !in order[..i]
  {
    if order[0] == s then 0 else
      var i := 1 + FirstIndex(order[1..], s);
      assert order[..i] == [order[0]] + order[1..][..i - 1];
      i
  }

  lemma FirstIndexBound(order: seq<string>, s: string, n: nat)
    requires n <= |order| && s in order[..n]
    ensures FirstIndex(order, s) < n
  {
  }

  /** Each service once, and each before all its dependencies. */
  ghost predicate IsStopOrder(g: Graph, order: seq<string>) {
    && Distinct(order)
    && Elements(order) == g.Keys
    && forall i, d :: 0 <= i < |order| && order[i] in g && d in g[order[i]] ==> d in order[i + 1..]
  }

  function Reversed(order: seq<string>): seq<string> {
    seq(|order|, i requires 0 <= i < |order| => order[|order| - 1 - i])
  }

  lemma ReverseStartIsStop(g: Graph, order: seq<string>)
    requires IsStartOrder(g, order)
    ensures IsStopOrder(g, Reversed(order))
  {
    var rev := Reversed(order);
    assert forall i :: 0 <= i < |order| ==> order[i] == rev[|order| - 1 - i];
    forall i, d | 0 <= i < |rev| && d in g[rev[i]]
      ensures d in rev[i + 1..]
    {
      var at := |order| - 1 - i;
      assert d in order[..at];
      var k :| 0 <= k < at && order[k] == d;
      assert rev[i + 1..][|order| - 1 - k - (i + 1)] == d;
    }
  }

  /** `get_stop_order` */
  method StopOrder(g: Graph) returns (r: Result<seq<string>, DependencyError>)
    ensures r.Ok? <==> AllDepsExist(g) && Acyclic(g)
    ensures r.Ok? ==> IsStopOrder(g, r.value)
    ensures !AllDepsExist(g) ==> TrueMissing(g, r.error)
    ensures AllDepsExist(g) && !Acyclic(g) ==> TrueCycle(g, r.error)
  {
    r := Sort(g);
    if r.Ok? {
      ReverseStartIsStop(g, r.value);
      r := Ok(Reversed(r.value));
    }
  }
}
