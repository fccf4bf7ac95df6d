/**
 Start levels for parallel start-up (`get_start_levels`): a depth-first search that
 memoises the level of each service it finishes. The `computed` set the original
 also fills is never read, so it is not modelled.
 */
module StartLevels {
  import opened Wrappers
  import opened Sequences
  import opened Graphs
  import opened TopologicalSort
  import opened NameOrder

  // ----- what a level means

  ghost predicate ChainFrom(g: Graph, p: seq<string>, s: string) {
    IsPath(g, p) && p[0] == s
  }

  /** `n` is the length of the longest dependency chain from `s`. */
  ghost predicate IsLevel(g: Graph, s: string, n: nat) {
    && (exists p :: ChainFrom(g, p, s) && |p| == n + 1)
    && (forall p :: ChainFrom(g, p, s) ==> |p| <= n + 1)
  }

  ghost predicate Listed(levels: seq<seq<string>>, n: nat, s: string) {
    n < |levels| && s in levels[n]
  }

  ghost predicate HasPlace(levels: seq<seq<string>>, s: string) {
    exists n: nat :: Listed(levels, n, s)
  }

  /** The grouping the search returns. It is determined by the graph: see `LevelsDetermined`. */
  ghost predicate IsStartLevels(g: Graph, levels: seq<seq<string>>) {
    && |levels| > 0
    && (forall n :: 0 <= n < |levels| ==> Ascending(levels[n]))
    && (forall n: nat, s :: Listed(levels, n, s) ==> s in g && IsLevel(g, s, n))
    && (forall s :: s in g ==> HasPlace(levels, s))
    && (if g.Keys == {} then levels == [[]] else forall n :: 0 <= n < |levels| ==> levels[n] != [])
  }

  // ----- the memo table

  ghost predicate LevelRight(g: Graph, levels: map<string, nat>, s: string) {
    && s in levels && s in g
    && (forall d :: d in g[s] ==> d in g && d in levels && levels[d] < levels[s])
    && (levels[s] > 0 ==> exists d :: d in g[s] && d in levels && levels[d] == levels[s] - 1)
  }

  ghost predicate MemoValid(g: Graph, levels: map<string, nat>) {
    forall s :: s in levels ==> LevelRight(g, levels, s)
  }

  ghost predicate Grows(before: map<string, nat>, after: map<string, nat>) {
    forall s :: s in before ==> s in after && after[s] == before[s]
  }

  lemma MemoIsLevel(g: Graph, levels: map<string, nat>, s: string)
    requires MemoValid(g, levels) && s in levels
    ensures IsLevel(g, s, levels[s])
  {
    var p := LongestChain(g, levels, s);
    assert ChainFrom(g, p, s);
    var rank: map<string, int> := map k | k in levels :: levels[k];
    assert Descends(g, levels.Keys, rank) by {
      forall k | k in levels ensures LevelRight(g, levels, k) { }
    }
    forall q | ChainFrom(g, q, s)
      ensures |q| <= levels[s] + 1
    {
      RankAlongPath(g, levels.Keys, rank, q, |q| - 1);
    }
  }

  lemma {:induction false} LongestChain(g: Graph, levels: map<string, nat>, s: string) returns (p: seq<string>)
    requires MemoValid(g, levels) && s in levels
    ensures ChainFrom(g, p, s) && |p| == levels[s] + 1
    decreases levels[s]
  {
    assert LevelRight(g, levels, s);
    if levels[s] == 0 {
      p := [s];
    } else {
      var d :| d in g[s] && d in levels && levels[d] == levels[s] - 1;
      var rest := LongestChain(g, levels, d);
      p := [s] + rest;
    }
  }

  // ----- the search

  /** `stack` holds the chain of services being computed, which leads to `name`. */
  ghost predicate OnTrail(g: Graph, trail: seq<string>, stack: set<string>, name: string) {
    && stack == Elements(trail)
    && (trail != [] ==> IsPath(g, trail) && (name in g ==> Edge(g, trail[|trail| - 1], name)))
  }

  lemma ExtendTrail(g: Graph, trail: seq<string>, stack: set<string>, name: string, d: string)
    requires OnTrail(g, trail, stack, name) && name in g && d in g[name]
    ensures OnTrail(g, trail + [name], stack + {name}, d)
  {
  }

  lemma TrailClosesCycle(g: Graph, trail: seq<string>, stack: set<string>, name: string)
    requires OnTrail(g, trail, stack, name) && name in stack
    ensures OnCycle(g, name)
  {
    var i :| 0 <= i < |trail| && trail[i] == name;
    SliceIsPath(g, trail, i, |trail|);
    assert name in g by {
      if i > 0 { assert Edge(g, trail[i - 1], trail[i]); }
    }
    assert IsPathBetween(g, trail[i..|trail|] + [name], name, name);
  }

  ghost predicate SearchError(g: Graph, e: DependencyError) {
    match e
    case DependencyCycle(involved) => exists n :: involved == {n} && OnCycle(g, n)
    case ServiceNotFound(name) => name !in g
    case MissingDependency(_, _) => false
  }

  /** The level `name` gets from the levels of its dependencies. */
  ghost predicate OneAboveDeps(deps: seq<string>, levels: map<string, nat>, level: nat) {
    && (forall d :: d in deps ==> d in levels && levels[d] < level)
    && (level > 0 ==> exists d :: d in deps && d in levels && levels[d] == level - 1)
  }

  /** `compute_level`. It terminates on cyclic graphs because the stack only grows. */
  method ComputeLevel(g: Graph, name: string, levels0: map<string, nat>, stack0: set<string>, ghost trail: seq<string>)
    returns (r: Result<nat, DependencyError>, levels: map<string, nat>, stack: set<string>)
    requires MemoValid(g, levels0) && stack0 !! levels0.Keys
    requires OnTrail(g, trail, stack0, name)
    ensures MemoValid(g, levels) && Grows(levels0, levels)
    ensures r.Ok? ==> name in levels && levels[name] == r.value
    ensures r.Ok? ==> stack == stack0 && stack !! levels.Keys
    ensures r.Err? ==> SearchError(g, r.error)
    ensures r.Err? && r.error.ServiceNotFound? ==> name !in g || !AllDepsExist(g)
    decreases g.Keys - stack0, 0
  {
    levels, stack := levels0, stack0;
    if name in levels {
      return Ok(levels[name]), levels, stack;
    }
    if name in stack {
      TrailClosesCycle(g, trail, stack, name);
      return Err(DependencyCycle({name})), levels, stack;
    }
    stack := stack + {name};
    if name !in g {
      return Err(ServiceNotFound(name)), levels, stack;
    }
    r, levels, stack := LevelAboveDeps(g, name, levels, stack, trail);
    if r.Ok? {
      AddToMemo(g, levels, name, r.value);
      stack := stack - {name};
      levels := levels[name := r.value];
    }
  }

  /** The loop of `compute_level` over the dependencies of `name`. */
  method LevelAboveDeps(g: Graph, name: string, levels0: map<string, nat>, stack0: set<string>, ghost trail: seq<string>)
    returns (r: Result<nat, DependencyError>, levels: map<string, nat>, stack: set<string>)
    requires MemoValid(g, levels0) && stack0 !! levels0.Keys && name in stack0 && name in g
    requires OnTrail(g, trail, stack0 - {name}, name)
    ensures MemoValid(g, levels) && Grows(levels0, levels)
    ensures r.Ok? ==> OneAboveDeps(g[name], levels, r.value)
    ensures r.Ok? ==> stack == stack0 && stack !! levels.Keys
    ensures r.Err? ==> SearchError(g, r.error)
    ensures r.Err? && r.error.ServiceNotFound? ==> !AllDepsExist(g)
    decreases g.Keys - stack0, 1
  {
    levels, stack := levels0, stack0;
    var deps := g[name];
    var maxDepLevel: nat := 0;
    for k := 0 to |deps|
      invariant MemoValid(g, levels) && Grows(levels0, levels)
      invariant stack == stack0 && stack !! levels.Keys
      invariant OneAboveDeps(deps[..k], levels, if k == 0 then 0 else maxDepLevel + 1)
      invariant k == 0 ==> maxDepLevel == 0
    {
      var sub;
      ghost var earlier := levels;
      ExtendTrail(g, trail, stack0 - {name}, name, deps[k]);
      assert stack0 - {name} + {name} == stack0;
      sub, levels, stack := ComputeLevel(g, deps[k], levels, stack, trail + [name]);
      if sub.Err? {
        return sub, levels, stack;
      }
      assert Grows(earlier, levels);
      OneMoreDep(deps, k, earlier, levels, if k == 0 then 0 else maxDepLevel + 1);
      maxDepLevel := if sub.value > maxDepLevel then sub.value else maxDepLevel;
    }
    assert deps[..|deps|] == deps;
    return Ok(if deps == [] then 0 else maxDepLevel + 1), levels, stack;
  }

  lemma OneMoreDep(deps: seq<string>, k: nat, earlier: map<string, nat>, levels: map<string, nat>, level: nat)
    requires k < |deps| && deps[k] in levels && Grows(earlier, levels)
    requires OneAboveDeps(deps[..k], earlier, level)
    ensures OneAboveDeps(deps[..k + 1], levels, if levels[deps[k]] + 1 > level then levels[deps[k]] + 1 else level)
  {
    assert deps[..k + 1] == deps[..k] + [deps[k]];
    assert deps[k] in deps[..k + 1];
    if level > 0 {
      var d :| d in deps[..k] && d in earlier && earlier[d] == level - 1;
      assert d in deps[..k + 1];
    }
  }

  lemma AddToMemo(g: Graph, levels: map<string, nat>, name: string, level: nat)
    requires MemoValid(g, levels) && name in g && name !in levels
    requires OneAboveDeps(g[name], levels, level)
    ensures MemoValid(g, levels[name := level])
  {
    var levels' := levels[name := level];
    forall s | s in levels'
      ensures LevelRight(g, levels', s)
    {
      if s != name {
        assert LevelRight(g, levels, s);
      } else {
        forall d | d in g[name] ensures d in g { assert LevelRight(g, levels, d); }
      }
    }
  }

  // ----- grouping

  /** The bucket lists, once each, the services of `names` with level `n`. */
  ghost predicate IsBucket(bucket: seq<string>, levels: map<string, nat>, names: set<string>, n: nat) {
    Distinct(bucket) && Elements(bucket) == set s | s in names && s in levels && levels[s] == n
  }

  ghost predicate Bucketed(levels: map<string, nat>, names: set<string>, buckets: seq<seq<string>>) {
    forall n :: 0 <= n < |buckets| ==> IsBucket(buckets[n], levels, names, n)
  }

  lemma PushIntoBucket(bucket: seq<string>, levels: map<string, nat>, names: set<string>, n: nat, s: string)
    requires IsBucket(bucket, levels, names, n) && s in levels && s !in names
    ensures IsBucket(if levels[s] == n then bucket + [s] else bucket, levels, names + {s}, n)
  {
    assert s !in Elements(bucket);
    assert Elements(bucket + [s]) == Elements(bucket) + {s};
  }

  method HighestLevel(levels: map<string, nat>) returns (highest: nat)
    ensures forall s :: s in levels ==> levels[s] <= highest
    ensures if levels.Keys == {} then highest == 0 else exists s :: s in levels && levels[s] == highest
  {
    highest := 0;
    var todo := levels.Keys;
    while todo != {}
      invariant todo <= levels.Keys
      invariant forall s :: s in levels.Keys - todo ==> levels[s] <= highest
      invariant if todo == levels.Keys then highest == 0 else exists s :: s in levels && levels[s] == highest
      decreases |todo|
    {
      var s :| s in todo;
      highest := if levels[s] > highest then levels[s] else highest;
      todo := todo - {s};
    }
  }

  method FillBuckets(levels: map<string, nat>, highest: nat) returns (buckets: seq<seq<string>>)
    requires forall s :: s in levels ==> levels[s] <= highest
    ensures |buckets| == highest + 1 && Bucketed(levels, levels.Keys, buckets)
  {
    buckets := seq(highest + 1, _ => []);
    var todo := levels.Keys;
    while todo != {}
      invariant todo <= levels.Keys && |buckets| == highest + 1
      invariant Bucketed(levels, levels.Keys - todo, buckets)
      decreases |todo|
    {
      var s :| s in todo;
      forall n | 0 <= n < |buckets|
        ensures IsBucket(if levels[s] == n then buckets[n] + [s] else buckets[n], levels, levels.Keys - todo + {s}, n)
      {
        PushIntoBucket(buckets[n], levels, levels.Keys - todo, n, s);
      }
      buckets := buckets[levels[s] := buckets[levels[s]] + [s]];
      assert levels.Keys - todo + {s} == levels.Keys - (todo - {s});
      todo := todo - {s};
    }
    assert levels.Keys - todo == levels.Keys;
  }

  method SortBuckets(buckets: seq<seq<string>>) returns (sorted: seq<seq<string>>)
    requires forall n :: 0 <= n < |buckets| ==> Distinct(buckets[n])
    ensures |sorted| == |buckets|
    ensures forall n :: 0 <= n < |sorted| ==> Ascending(sorted[n]) && Elements(sorted[n]) == Elements(buckets[n])
  {
    sorted := [];
    for k := 0 to |buckets|
      invariant |sorted| == k
      invariant forall n :: 0 <= n < k ==> Ascending(sorted[n]) && Elements(sorted[n]) == Elements(buckets[n])
    {
      var level := SortNames(buckets[k]);
      sorted := sorted + [level];
    }
  }

  lemma {:induction false} NoLevelSkipped(g: Graph, levels: map<string, nat>, s: string, n: nat)
    requires MemoValid(g, levels) && s in levels && n <= levels[s]
    ensures exists k :: k in levels && levels[k] == n
    decreases levels[s]
  {
    if n < levels[s] {
      assert LevelRight(g, levels, s);
      var d :| d in g[s] && d in levels && levels[d] == levels[s] - 1;
      NoLevelSkipped(g, levels, d, n);
    }
  }

  /** Level `n` of `result` lists the services the memo gives level `n`. */
  ghost predicate Grouped(levels: map<string, nat>, result: seq<seq<string>>) {
    && (forall s :: s in levels ==> levels[s] < |result|)
    && (forall n: nat, s :: Listed(result, n, s) <==> n < |result| && s in levels && levels[s] == n)
  }

  lemma SortedIsGrouped(levels: map<string, nat>, buckets: seq<seq<string>>, result: seq<seq<string>>)
    requires Bucketed(levels, levels.Keys, buckets) && |result| == |buckets|
    requires forall s :: s in levels ==> levels[s] < |result|
    requires forall n :: 0 <= n < |result| ==> Elements(result[n]) == Elements(buckets[n])
    ensures Grouped(levels, result)
  {
    forall n: nat, s
      ensures Listed(result, n, s) <==> n < |result| && s in levels && levels[s] == n
    {
      if n < |result| {
        assert IsBucket(buckets[n], levels, levels.Keys, n);
        assert s in result[n] <==> s in Elements(result[n]);
      }
    }
  }

  lemma GroupingIsStartLevels(g: Graph, levels: map<string, nat>, result: seq<seq<string>>)
    requires MemoValid(g, levels) && levels.Keys == g.Keys
    requires if levels.Keys == {} then |result| == 1 else exists s :: s in levels && levels[s] == |result| - 1
    requires forall n :: 0 <= n < |result| ==> Ascending(result[n])
    requires Grouped(levels, result)
    ensures IsStartLevels(g, result)
  {
    forall n: nat, s | Listed(result, n, s)
      ensures s in g && IsLevel(g, s, n)
    {
      MemoIsLevel(g, levels, s);
    }
    forall s | s in g
      ensures HasPlace(result, s)
    {
      assert Listed(result, levels[s], s);
    }
    NoLevelEmpty(g, levels, result);
  }

  lemma NoLevelEmpty(g: Graph, levels: map<string, nat>, result: seq<seq<string>>)
    requires MemoValid(g, levels) && levels.Keys == g.Keys && Grouped(levels, result)
    requires if levels.Keys == {} then |result| == 1 else exists s :: s in levels && levels[s] == |result| - 1
    ensures if g.Keys == {} then result == [[]] else forall n :: 0 <= n < |result| ==> result[n] != []
  {
    if g.Keys == {} {
      forall s ensures s !in Elements(result[0]) {
        assert s in result[0] <==> Listed(result, 0, s);
      }
      NoElements(result[0]);
    } else {
      var top :| top in levels && levels[top] == |result| - 1;
      forall n | 0 <= n < |result| ensures result[n] != [] {
        NoLevelSkipped(g, levels, top, n);
        var k :| k in levels && levels[k] == n;
        assert Listed(result, n, k);
      }
    }
  }

  lemma MemoAcyclic(g: Graph, levels: map<string, nat>)
    requires MemoValid(g, levels) && levels.Keys == g.Keys
    ensures AllDepsExist(g) && Acyclic(g)
  {
    forall s | s in g ensures LevelRight(g, levels, s) { }
    var rank: map<string, int> := map k | k in levels :: levels[k];
    forall s | s in g ensures !ReachesCycle(g, s) {
      DescendingHasNoCycle(g, g.Keys, rank, s);
    }
    AcyclicOnServices(g);
  }

  /** `get_start_levels`: succeeds exactly when the start order exists, with exact levels. */
  method GetStartLevels(g: Graph) returns (r: Result<seq<seq<string>>, DependencyError>)
    ensures r.Ok? <==> AllDepsExist(g) && Acyclic(g)
    ensures r.Ok? ==> IsStartLevels(g, r.value)
    ensures !AllDepsExist(g) ==> TrueMissing(g, r.error)
    ensures AllDepsExist(g) && !Acyclic(g) ==>
              r.error.DependencyCycle? && exists n :: r.error.involved == {n} && OnCycle(g, n)
  {
    var missing := FindMissing(g);
    if missing.Some? {
      return Err(MissingDependency(missing.value.0, missing.value.1));
    }
    var levels: map<string, nat> := map[];
    var todo := g.Keys;
    while todo != {}
      invariant todo <= g.Keys
      invariant MemoValid(g, levels) && g.Keys - todo <= levels.Keys
      decreases |todo|
    {
      var name :| name in todo;
      var level, stack;
      ghost var earlier := levels;
      level, levels, stack := ComputeLevel(g, name, levels, {}, []);
      if level.Err? {
        return Err(level.error);
      }
      assert Grows(earlier, levels);
      todo := todo - {name};
    }
    MemoAcyclic(g, levels);
    var highest := HighestLevel(levels);
    var buckets := FillBuckets(levels, highest);
    var sorted := SortBuckets(buckets);
    SortedIsGrouped(levels, buckets, sorted);
    GroupingIsStartLevels(g, levels, sorted);
    return Ok(sorted);
  }

  /** The levels are a function of the graph: no hash map order shows in the result. */
  lemma LevelsDetermined(g: Graph, a: seq<seq<string>>, b: seq<seq<string>>)
    requires IsStartLevels(g, a) && IsStartLevels(g, b)
    ensures a == b
  {
    if g.Keys != {} {
      LevelsNotLonger(g, a, b);
      LevelsNotLonger(g, b, a);
      forall n | 0 <= n < |a| ensures a[n] == b[n] {
        LevelContained(g, a, b, n);
        LevelContained(g, b, a, n);
        AscendingUnique(a[n], b[n]);
      }
    }
  }

  lemma LevelContained(g: Graph, a: seq<seq<string>>, b: seq<seq<string>>, n: nat)
    requires IsStartLevels(g, a) && IsStartLevels(g, b) && n < |a| && n < |b|
    ensures Elements(a[n]) <= Elements(b[n])
  {
    forall s | s in Elements(a[n]) ensures s in Elements(b[n]) {
      assert Listed(a, n, s);
    }
  }

  lemma LevelsNotLonger(g: Graph, a: seq<seq<string>>, b: seq<seq<string>>)
    requires IsStartLevels(g, a) && IsStartLevels(g, b) && g.Keys != {}
    ensures |a| <= |b|
  {
    var last := |a| - 1;
    assert Listed(a, last, a[last][0]);
  }
}
