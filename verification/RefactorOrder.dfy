/** The layered grouping script: groups of services in dependency order, with a way out
    of cycles, and an independent search for the cycles. */
module RefactorOrder {
  import opened Services
  import opened Graphs
  import opened Sorter
  import opened Names

  type Dependencies = map<Name, seq<Name>>

  /** All dependency edges, including those to names that are not services. */
  function FullGraph(deps: Dependencies): Graph {
    map s | s in deps :: set d | d in deps[s]
  }

  /** The edges between the services themselves. */
  function Known(deps: Dependencies): Graph {
    map s | s in deps :: set d | d in deps[s] && d in deps
  }

  function Restrict(g: Graph, s: set<Name>): Graph {
    map v | v in g && v in s :: g[v] * s
  }

  /** The edges of the three graphs. */
  lemma EdgesMeaning(deps: Dependencies, s: set<Name>, u: Name, v: Name)
    ensures v in Succ(FullGraph(deps), u) <==> u in deps && v in deps[u]
    ensures v in Succ(Known(deps), u) <==> u in deps && v in deps[u] && v in deps
    ensures v in Succ(Restrict(Known(deps), s), u) <==> u in deps && v in deps[u] && v in deps && u in s && v in s
  {
  }

  lemma SameCycles(deps: Dependencies)
    ensures Acyclic(FullGraph(deps)) <==> Acyclic(Known(deps))
  {
    var f, g := FullGraph(deps), Known(deps);
    forall p ensures ClosedWalk(g, p) ==> ClosedWalk(f, p) {
      if Walk(g, p) { WalkInLarger(g, f, p); }
    }
    forall p ensures ClosedWalk(f, p) ==> ClosedWalk(g, p) {
      if ClosedWalk(f, p) { ClosedWalkSurvives(f, g, deps.Keys, p); }
    }
  }

  lemma KnownVertices(deps: Dependencies)
    ensures Vertices(Known(deps)) == deps.Keys
  {
  }

  // ---------------------------------------------------------------- finding cycles

  /** The edges that close the cycles. */
  function Closing(cycles: seq<seq<Name>>): set<(Name, Name)> {
    set i | 0 <= i < |cycles| && |cycles[i]| > 1 :: (cycles[i][|cycles[i]| - 2], cycles[i][|cycles[i]| - 1])
  }

  function Pruned(g: Graph, cut: set<(Name, Name)>): (r: Graph)
    ensures r.Keys == g.Keys && forall u, v :: v in Succ(r, u) <==> v in Succ(g, u) && (u, v) !in cut
  {
    map u | u in g :: set v | v in g[u] && (u, v) !in cut
  }

  lemma ClosingGrows(cycles: seq<seq<Name>>, more: seq<seq<Name>>)
    ensures Closing(cycles) <= Closing(cycles + more)
  {
    var all := cycles + more;
    forall e | e in Closing(cycles) ensures e in Closing(all) {
      var i :| 0 <= i < |cycles| && |cycles[i]| > 1 && e == (cycles[i][|cycles[i]| - 2], cycles[i][|cycles[i]| - 1]);
      assert all[i] == cycles[i];
    }
  }

  lemma CycleRecorded(cycles: seq<seq<Name>>, walk: seq<Name>, v: Name)
    requires walk != []
    ensures (walk[|walk| - 1], v) in Closing(cycles + [walk + [v]])
  {
    var all, cycle := cycles + [walk + [v]], walk + [v];
    assert all[|cycles|] == cycle && cycle[|cycle| - 2] == walk[|walk| - 1] && cycle[|cycle| - 1] == v;
  }

  lemma FinishedIfPruned(g: Graph, cut: set<(Name, Name)>, more: set<(Name, Name)>, s: set<Name>)
    requires cut <= more && Finished(Pruned(g, cut), s)
    ensures Finished(Pruned(g, more), s)
  {
    var g', h := Pruned(g, cut), Pruned(g, more);
    forall u ensures Succ(h, u) <= Succ(g', u) { }
    forall p | ClosedWalk(h, p) ensures p[0] !in s {
      WalkInLarger(h, g', p);
      assert ClosedWalk(g', p);
    }
  }

  class CycleFinder {
    const graph: Graph
    var visited: set<Name>
    var recStack: set<Name>
    var path: seq<Name>
    var cycles: seq<seq<Name>>

    /** The stack is the path; every recorded cycle is one; and without the edges that
        close them, what has been left again is finished with. */
    ghost predicate Valid()
      reads this
    {
      && recStack <= visited && recStack == Elements(path) && NoDuplicates(path)
      && (path != [] ==> Walk(graph, path))
      && (forall i :: 0 <= i < |cycles| ==> ClosedWalk(graph, cycles[i]))
      && Finished(Pruned(graph, Closing(cycles)), visited - recStack)
    }

    constructor (graph: Graph)
      ensures Valid() && this.graph == graph && visited == {} && path == [] && cycles == []
    {
      this.graph := graph;
      visited, recStack, path, cycles := {}, {}, [], [];
    }

    method Dfs(node: Name)
      requires Valid() && node !in visited && node in Vertices(graph)
      requires path != [] ==> node in Succ(graph, path[|path| - 1])
      modifies this
      ensures Valid() && path == old(path) && recStack == old(recStack) && visited >= old(visited) + {node}
      ensures old(cycles) <= cycles && Closing(old(cycles)) <= Closing(cycles)
      decreases Vertices(graph) - visited
    {
      Push(node);
      ghost var here, stack, seen := path, recStack, visited;
      var todo := Succ(graph, node);
      while todo != {}
        invariant Valid() && path == here && recStack == stack && seen <= visited && todo <= Succ(graph, node)
        invariant old(cycles) <= cycles && Closing(old(cycles)) <= Closing(cycles)
        invariant forall v :: v in Succ(graph, node) && v !in todo ==>
                    v in visited - recStack || (node, v) in Closing(cycles)
        decreases todo
      {
        var dep :| dep in todo;
        todo := todo - {dep};
        VertexOfEdge(graph, node, dep);
        if dep !in visited {
          Dfs(dep);
        } else if dep in recStack {
          Record(dep);
        }
      }
      Pop(node);
      assert path == old(path);
    }

    /** The path from `dep` on and back to it is a cycle. */
    method Record(dep: Name)
      requires Valid() && dep in path && dep in Succ(graph, path[|path| - 1])
      modifies this`cycles
      ensures Valid() && old(cycles) <= cycles && Closing(old(cycles)) <= Closing(cycles)
      ensures (path[|path| - 1], dep) in Closing(cycles)
    {
      CycleCloses(graph, path, dep);
      ghost var before := cycles;
      var walk := path[IndexOf(path, dep)..];
      cycles := cycles + [walk + [dep]];
      ClosingGrows(before, [walk + [dep]]);
      CycleRecorded(before, walk, dep);
      FinishedIfPruned(graph, Closing(before), Closing(cycles), visited - recStack);
    }

    method Push(node: Name)
      requires Valid() && node !in visited && (path != [] ==> node in Succ(graph, path[|path| - 1]))
      modifies this`visited, this`recStack, this`path
      ensures Valid() && path == old(path) + [node] && visited == old(visited) + {node}
    {
      if path != [] { WalkAppend(graph, path, node); }
      LastApart(path + [node]);
      assert (path + [node])[..|path|] == path;
      visited, recStack, path := visited + {node}, recStack + {node}, path + [node];
      assert visited - recStack == old(visited - recStack);
    }

    method Pop(node: Name)
      requires Valid() && path != [] && path[|path| - 1] == node
      requires forall v :: v in Succ(graph, node) ==> v in visited - recStack || (node, v) in Closing(cycles)
      modifies this`recStack, this`path
      ensures Valid() && path == old(path)[..|old(path)| - 1]
    {
      LeavesFinished(Pruned(graph, Closing(cycles)), visited, path, node);
      if |path| > 1 { WalkSlice(graph, path, 0, |path| - 1); }
      path, recStack := path[..|path| - 1], recStack - {node};
      assert recStack == Elements(path);
    }
  }

  /** When the last vertex of the path is left again, it is finished with. */
  lemma LeavesFinished(g: Graph, visited: set<Name>, path: seq<Name>, node: Name)
    requires path != [] && path[|path| - 1] == node && NoDuplicates(path) && node in visited
    requires Finished(g, visited - Elements(path)) && Succ(g, node) <= visited - Elements(path)
    ensures Elements(path[..|path| - 1]) == Elements(path) - {node} && NoDuplicates(path[..|path| - 1])
    ensures Finished(g, visited - Elements(path[..|path| - 1]))
  {
    LastApart(path);
    FinishOne(g, visited - Elements(path), node);
    assert visited - Elements(path[..|path| - 1]) == visited - Elements(path) + {node};
  }

  lemma VertexOfEdge(g: Graph, u: Name, v: Name)
    requires v in Succ(g, u)
    ensures v in Vertices(g)
  {
  }

  /** The search reports only real cycles, and enough of them: without the edges that close
      those reported there is no cycle left. So it reports none if and only if there is
      none. */
  method FindCircularDependencies(deps: Dependencies) returns (cycles: seq<seq<Name>>)
    ensures cycles == [] <==> Acyclic(FullGraph(deps))
    ensures forall i :: 0 <= i < |cycles| ==> ClosedWalk(FullGraph(deps), cycles[i])
    ensures Acyclic(Pruned(FullGraph(deps), Closing(cycles)))
  {
    var g := FullGraph(deps);
    var finder := new CycleFinder(g);
    var todo := deps.Keys;
    while todo != {}
      invariant finder.Valid() && finder.graph == g && finder.path == [] && fresh(finder)
      invariant todo <= deps.Keys && deps.Keys - todo <= finder.visited
      decreases todo
    {
      var service :| service in todo;
      todo := todo - {service};
      if service !in finder.visited { finder.Dfs(service); }
    }
    cycles := finder.cycles;
    FinishedAllAcyclic(Pruned(g, Closing(cycles)), finder.visited - finder.recStack);
    if cycles == [] {
      SameEdgesSameCycles(Pruned(g, Closing(cycles)), g);
    } else {
      assert ClosedWalk(g, cycles[0]);
    }
  }

  // ---------------------------------------------------------------- grouping

  /** How many entries of a dependency list are still to be grouped. */
  function CountIn(list: seq<Name>, remaining: set<Name>): nat {
    if list == [] then 0 else (if list[0] in remaining then 1 else 0) + CountIn(list[1..], remaining)
  }

  /** The positions of those entries. */
  function Waiting(list: seq<Name>, remaining: set<Name>): set<int> {
    set i | 0 <= i < |list| && list[i] in remaining
  }

  lemma {:induction false} CountMeaning(list: seq<Name>, remaining: set<Name>)
    ensures CountIn(list, remaining) == |Waiting(list, remaining)|
    decreases |list|
  {
    if list != [] {
      var before, last := list[..|list| - 1], |list| - 1;
      CountMeaning(before, remaining);
      CountLast(list, remaining);
      assert Waiting(list, remaining) == Waiting(before, remaining) + if list[last] in remaining then {last} else {};
    }
  }

  lemma {:induction false} CountLast(list: seq<Name>, remaining: set<Name>)
    requires list != []
    ensures CountIn(list, remaining)
         == CountIn(list[..|list| - 1], remaining) + if list[|list| - 1] in remaining then 1 else 0
    decreases |list|
  {
    if |list| > 1 {
      CountLast(list[1..], remaining);
      assert list[1..][..|list| - 2] == list[..|list| - 1][1..];
    }
  }

  lemma CountZero(list: seq<Name>, remaining: set<Name>)
    ensures CountIn(list, remaining) == 0 <==> forall d :: d in list ==> d !in remaining
  {
    CountMeaning(list, remaining);
    var waiting := Waiting(list, remaining);
    forall d | d in list && d in remaining ensures waiting != {} {
      var i :| 0 <= i < |list| && list[i] == d;
      assert i in waiting;
    }
    if i :| i in waiting { assert list[i] in list; }
  }

  /** A service forced out of a cycle, and what was still ungrouped then. */
  datatype Forced = Forced(service: Name, remaining: set<Name>)

  /** Forcing is justified: the ungrouped services contain a cycle, and nobody among them
      waits for fewer of them. */
  ghost predicate Justified(deps: Dependencies, f: Forced) {
    && f.remaining <= deps.Keys && f.service in f.remaining
    && !Acyclic(Restrict(Known(deps), f.remaining))
    && forall s :: s in f.remaining ==>
         |Waiting(deps[f.service], f.remaining)| <= |Waiting(deps[s], f.remaining)|
  }

  ghost predicate AllJustified(deps: Dependencies, forced: seq<Forced>) {
    forall i :: 0 <= i < |forced| ==> Justified(deps, forced[i])
  }

  lemma JustifiedOneMore(deps: Dependencies, forced: seq<Forced>, f: Forced)
    requires AllJustified(deps, forced) && Justified(deps, f)
    ensures AllJustified(deps, forced + [f])
  {
  }

  /** `groups` and `remaining` partition the services. */
  ghost predicate Partition(groups: seq<seq<Name>>, remaining: set<Name>, services: set<Name>) {
    && remaining <= services
    && (forall k :: 0 <= k < |groups| ==> groups[k] != [] && NoDuplicates(groups[k]))
    && (forall k, s :: 0 <= k < |groups| && s in groups[k] ==> s in services && s !in remaining)
    && (forall j, k, s :: 0 <= j < |groups| && 0 <= k < |groups| && s in groups[j] && s in groups[k] ==> j == k)
    && (forall s :: s in services && s !in remaining ==> Grouped(groups, s))
  }

  ghost predicate Grouped(groups: seq<seq<Name>>, s: Name) {
    exists k :: 0 <= k < |groups| && s in groups[k]
  }

  lemma PartitionOneMore(groups: seq<seq<Name>>, remaining: set<Name>, services: set<Name>, group: seq<Name>)
    requires Partition(groups, remaining, services) && group != [] && NoDuplicates(group)
    requires forall s :: s in group ==> s in remaining
    ensures Partition(groups + [group], remaining - (set s | s in group), services)
  {
    var groups' := groups + [group];
    forall s | s in services && (s !in remaining || s in group) ensures Grouped(groups', s) {
      if s in group {
        assert groups'[|groups|] == group;
      } else {
        assert Grouped(groups, s);
        var k :| 0 <= k < |groups| && s in groups[k];
        assert groups'[k] == groups[k];
      }
    }
  }

  method NoRemainingDependencies(deps: Dependencies, remaining: set<Name>) returns (group: seq<Name>)
    requires remaining <= deps.Keys
    ensures NoDuplicates(group) && IsReady(Known(deps), remaining, set s | s in group)
    ensures forall s :: s in group ==> s in remaining
  {
    group := [];
    var todo := remaining;
    while todo != {}
      invariant todo <= remaining && NoDuplicates(group)
      invariant forall s :: s in group <==> s in remaining && s !in todo && CountIn(deps[s], remaining) == 0
      decreases todo
    {
      var service :| service in todo;
      todo := todo - {service};
      if CountIn(deps[service], remaining) == 0 { group := group + [service]; }
    }
    forall s | s in remaining ensures s in group <==> !HasSuccessorIn(Known(deps), s, remaining) {
      CountZero(deps[s], remaining);
      assert forall d :: d in deps[s] && d in remaining ==> d in Succ(Known(deps), s);
    }
  }

  method FewestDependencies(deps: Dependencies, remaining: set<Name>) returns (least: Name)
    requires remaining != {} && remaining <= deps.Keys
    ensures least in remaining
    ensures forall s :: s in remaining ==> |Waiting(deps[least], remaining)| <= |Waiting(deps[s], remaining)|
  {
    least :| least in remaining;
    var todo := remaining - {least};
    while todo != {}
      invariant todo <= remaining && least in remaining
      invariant forall s :: s in remaining && s !in todo ==>
                CountIn(deps[least], remaining) <= CountIn(deps[s], remaining)
      decreases todo
    {
      var s :| s in todo;
      todo := todo - {s};
      if CountIn(deps[s], remaining) < CountIn(deps[least], remaining) { least := s; }
    }
    forall s | s in remaining ensures |Waiting(deps[least], remaining)| <= |Waiting(deps[s], remaining)| {
      CountMeaning(deps[s], remaining);
      CountMeaning(deps[least], remaining);
    }
  }

  lemma NobodyReady(deps: Dependencies, remaining: set<Name>)
    requires remaining != {} && remaining <= deps.Keys && IsReady(Known(deps), remaining, {})
    ensures !Acyclic(Restrict(Known(deps), remaining)) && !Acyclic(Known(deps))
  {
    var g, h := Known(deps), Restrict(Known(deps), remaining);
    forall v {:trigger HasSuccessorIn(h, v, remaining)} | v in remaining ensures HasSuccessorIn(h, v, remaining) {
      assert HasSuccessorIn(g, v, remaining);
      var d :| d in Succ(g, v) && d in remaining;
      assert d in Succ(h, v);
    }
    NoSinkMeansCycle(h, remaining);
    NoSinkMeansCycle(g, remaining);
  }

  ghost predicate AllAscending(groups: seq<seq<Name>>) {
    forall k :: 0 <= k < |groups| ==> Ascending(groups[k])
  }

  lemma AscendingOneMore(groups: seq<seq<Name>>, group: seq<Name>)
    requires AllAscending(groups) && Ascending(group)
    ensures AllAscending(groups + [group])
  {
  }

  method SortGroup(names: seq<Name>) returns (group: seq<Name>)
    requires NoDuplicates(names)
    ensures Ascending(group) && NoDuplicates(group) && (group == [] <==> names == [])
    ensures (set s | s in group) == set s | s in names
    ensures forall s :: s in group <==> s in names
  {
    SortedAscending(names);
    group := Sorted(names);
    assert names != [] ==> names[0] in group;
    assert group != [] ==> group[0] in names;
  }

  /** The group holds exactly the services that wait for nothing ungrouped or, if there is
      none, the one that is forced. */
  ghost predicate GroupRight(deps: Dependencies, group: seq<Name>, remaining: set<Name>, forced: seq<Forced>) {
    if IsReady(Known(deps), remaining, {}) then |group| == 1 && Forced(group[0], remaining) in forced
    else IsReady(Known(deps), remaining, set s | s in group)
  }

  /** `rest[k]` is what the first `k` groups leave, each group is right, and nothing else has
      been forced. */
  ghost predicate GroupsRight(deps: Dependencies, groups: seq<seq<Name>>, rest: seq<set<Name>>, forced: seq<Forced>) {
    && |rest| == |groups| + 1 && rest[0] == deps.Keys
    && (forall k {:trigger groups[k]} :: 0 <= k < |groups| ==>
          rest[k + 1] == rest[k] - (set s | s in groups[k]) && GroupRight(deps, groups[k], rest[k], forced))
    && (forall f :: f in forced ==> IsForced(groups, rest, f))
  }

  ghost predicate IsForced(groups: seq<seq<Name>>, rest: seq<set<Name>>, f: Forced) {
    exists k :: 0 <= k < |groups| && k < |rest| && groups[k] == [f.service] && rest[k] == f.remaining
  }

  lemma GroupsOneMore(deps: Dependencies, groups: seq<seq<Name>>, rest: seq<set<Name>>, before: seq<Forced>,
                      forced: seq<Forced>, group: seq<Name>)
    requires GroupsRight(deps, groups, rest, before)
    requires GroupRight(deps, group, rest[|groups|], forced)
    requires forced == before || (|group| == 1 && forced == before + [Forced(group[0], rest[|groups|])])
    ensures GroupsRight(deps, groups + [group], rest + [rest[|groups|] - set s | s in group], forced)
  {
    var groups', rest' := groups + [group], rest + [rest[|groups|] - set s | s in group];
    forall f | f in forced ensures IsForced(groups', rest', f) {
      if f in before {
        assert IsForced(groups, rest, f);
        var k :| 0 <= k < |groups| && k < |rest| && groups[k] == [f.service] && rest[k] == f.remaining;
        assert groups'[k] == groups[k] && rest'[k] == rest[k];
      } else {
        assert groups'[|groups|] == group && rest'[|groups|] == rest[|groups|];
      }
    }
    forall k | 0 <= k < |groups'|
      ensures rest'[k + 1] == rest'[k] - (set s | s in groups'[k]) && GroupRight(deps, groups'[k], rest'[k], forced)
    {
      if k < |groups| { assert groups'[k] == groups[k] && GroupRight(deps, groups[k], rest[k], before); }
    }
  }

  /** The next group in order: the services that wait for nothing remaining or, if there is
      none, one that waits for the fewest. */
  method NextGroup(deps: Dependencies, remaining: set<Name>, forced: seq<Forced>)
    returns (group: seq<Name>, forced': seq<Forced>)
    requires remaining != {} && remaining <= deps.Keys && AllJustified(deps, forced)
    ensures group != [] && Ascending(group) && NoDuplicates(group) && forall s :: s in group ==> s in remaining
    ensures GroupRight(deps, group, remaining, forced') && AllJustified(deps, forced')
    ensures if IsReady(Known(deps), remaining, {})
            then |group| == 1 && forced' == forced + [Forced(group[0], remaining)] && !Acyclic(Known(deps))
            else forced' == forced
  {
    group := NoRemainingDependencies(deps, remaining);
    forced' := forced;
    if group == [] {
      assert (set s | s in group) == {};
      NobodyReady(deps, remaining);
      var least := FewestDependencies(deps, remaining);
      group := [least];
      JustifiedOneMore(deps, forced, Forced(least, remaining));
      forced' := forced + [Forced(least, remaining)];
    } else {
      ReadyNotEmpty(Known(deps), remaining, Elements(group), group[0]);
      group := SortGroup(group);
    }
  }

  lemma ReadyNotEmpty(g: Graph, remaining: set<Name>, ready: set<Name>, v: Name)
    requires IsReady(g, remaining, ready) && v in ready
    ensures !IsReady(g, remaining, {})
  {
    assert v in remaining && !HasSuccessorIn(g, v, remaining);
  }

  /** Terminates with a partition of the services on every input; forces a service only
      out of a cycle, and never exactly when there is none; without cycles the groups are
      the longest-chain levels. */
  method TopologicalSort(deps: Dependencies)
    returns (groups: seq<seq<Name>>, forced: seq<Forced>, ghost rest: seq<set<Name>>)
    ensures GroupsRight(deps, groups, rest, forced) && rest[|groups|] == {}
    ensures Partition(groups, {}, deps.Keys) && AllAscending(groups)
    ensures AllJustified(deps, forced)
    ensures forced == [] <==> Acyclic(Known(deps))
    ensures forced == [] ==>
              forall k: nat, s :: s in deps ==> (k < |groups| && s in groups[k] <==> LongestChain(Known(deps), s, k))
  {
    groups, forced := [], [];
    var remaining := deps.Keys;
    rest := [remaining];
    while remaining != {}
      invariant Partition(groups, remaining, deps.Keys) && AllAscending(groups)
      invariant AllJustified(deps, forced) && (forced != [] ==> !Acyclic(Known(deps)))
      invariant GroupsRight(deps, groups, rest, forced) && rest[|groups|] == remaining
      decreases remaining
    {
      var group, forced' := NextGroup(deps, remaining, forced);
      assert group[0] in group && group[0] in remaining;
      AscendingOneMore(groups, group);
      PartitionOneMore(groups, remaining, deps.Keys, group);
      GroupsOneMore(deps, groups, rest, forced, forced', group);
      rest := rest + [remaining - set s | s in group];
      groups, forced := groups + [group], forced';
      remaining := remaining - set s | s in group;
    }
    if forced == [] { UnforcedLevels(deps, groups, rest); }
  }

  /** If nothing was forced, the groups are the batches of a peeling. */
  lemma UnforcedLevels(deps: Dependencies, groups: seq<seq<Name>>, rest: seq<set<Name>>)
    requires GroupsRight(deps, groups, rest, []) && rest[|groups|] == {}
    ensures Acyclic(Known(deps))
    ensures forall k: nat, s :: s in deps ==> (k < |groups| && s in groups[k] <==> LongestChain(Known(deps), s, k))
  {
    var batches := seq(|groups|, k requires 0 <= k < |groups| => set s | s in groups[k]);
    KnownVertices(deps);
    forall k {:trigger batches[k]} | 0 <= k < |batches|
      ensures IsReady(Known(deps), rest[k], batches[k]) && rest[k + 1] == rest[k] - batches[k]
    {
      assert GroupRight(deps, groups[k], rest[k], []);
    }
    GroupsAreLevels(deps, groups, batches, rest);
  }

  ghost predicate AsSets(groups: seq<seq<Name>>, batches: seq<set<Name>>) {
    |groups| == |batches| && forall k :: 0 <= k < |groups| ==> batches[k] == set s | s in groups[k]
  }

  lemma GroupsAreLevels(deps: Dependencies, groups: seq<seq<Name>>, batches: seq<set<Name>>, rest: seq<set<Name>>)
    requires Peeling(Known(deps), batches, rest) && rest[|batches|] == {} && AsSets(groups, batches)
    ensures Acyclic(Known(deps))
    ensures forall k: nat, s :: s in deps ==> (k < |groups| && s in groups[k] <==> LongestChain(Known(deps), s, k))
  {
    var g := Known(deps);
    var level := PeelingLevels(g, batches, rest);
    LevellingAcyclic(g, level);
    KnownVertices(deps);
    forall k: nat, s | s in deps ensures k < |groups| && s in groups[k] <==> LongestChain(g, s, k) {
      LevelIsLongestChain(g, level, s);
      assert k < |groups| ==> (s in groups[k] <==> s in batches[k]);
    }
  }

  /** What the script's entry point computes: the grouping forces nothing exactly when the
      cycle search finds nothing. */
  method Analyse(deps: Dependencies) returns (cycles: seq<seq<Name>>, groups: seq<seq<Name>>, forced: seq<Forced>)
    ensures forced == [] <==> cycles == []
    ensures Partition(groups, {}, deps.Keys)
  {
    cycles := FindCircularDependencies(deps);
    ghost var rest;
    groups, forced, rest := TopologicalSort(deps);
    SameCycles(deps);
  }
}
