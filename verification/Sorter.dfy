/** graphlib's `TopologicalSorter`, driven the way the resolver drives it: every batch the
    ready queue hands out is marked done before the next one is asked for. */
module Sorter {
  import opened Services
  import opened Graphs

  /** `ready` holds the members of `stuck` that no longer wait for another one. */
  ghost predicate IsReady(g: Graph, stuck: set<Name>, ready: set<Name>) {
    && (forall v {:trigger v in ready} :: v in ready ==> v in stuck)
    && (forall v, d :: v in ready && d in Succ(g, v) ==> d !in stuck)
    && (forall v {:trigger HasSuccessorIn(g, v, stuck)} :: v in stuck && !HasSuccessorIn(g, v, stuck) ==> v in ready)
  }

  /** `rest[k]` is what the first `k` batches leave of the graph, and batch `k` is
      everything in it that waits for nothing else in it. */
  ghost predicate Peeling(g: Graph, batches: seq<set<Name>>, rest: seq<set<Name>>) {
    && |rest| == |batches| + 1 && rest[0] == Vertices(g)
    && (forall k {:trigger batches[k]} :: 0 <= k < |batches| ==> IsReady(g, rest[k], batches[k]))
    && (forall k {:trigger batches[k]} :: 0 <= k < |batches| ==> rest[k + 1] == rest[k] - batches[k])
  }

  lemma {:induction false} RestShrinks(g: Graph, batches: seq<set<Name>>, rest: seq<set<Name>>, j: nat, k: nat)
    requires Peeling(g, batches, rest) && j <= k <= |batches|
    ensures rest[k] <= rest[j]
    ensures j < k ==> batches[j] !! rest[k]
    decreases k
  {
    if j < k {
      RestShrinks(g, batches, rest, j, k - 1);
      assert rest[k] == rest[k - 1] - batches[k - 1];
    }
  }

  lemma {:induction false} HandedOutOnce(g: Graph, batches: seq<set<Name>>, rest: seq<set<Name>>, v: Name, n: nat)
    returns (k: nat)
    requires Peeling(g, batches, rest) && n <= |batches| && v in Vertices(g) && v !in rest[n]
    ensures k < n && v in batches[k]
    decreases n
  {
    assert n > 0;
    assert rest[n] == rest[n - 1] - batches[n - 1];
    if v in batches[n - 1] { k := n - 1; } else { k := HandedOutOnce(g, batches, rest, v, n - 1); }
  }

  /** Batch `k` holds exactly the vertices of level `k`. */
  ghost predicate ByLevel(batches: seq<set<Name>>, level: map<Name, nat>) {
    && (forall v :: v in level ==> level[v] < |batches| && v in batches[level[v]])
    && (forall k, v :: 0 <= k < |batches| && v in batches[k] ==> v in level && level[v] == k)
  }

  lemma BatchesDisjoint(g: Graph, batches: seq<set<Name>>, rest: seq<set<Name>>, j: nat, k: nat, v: Name)
    requires Peeling(g, batches, rest) && j < |batches| && k < |batches| && v in batches[j] && v in batches[k]
    ensures j == k
  {
    if j < k {
      RestShrinks(g, batches, rest, j, k);
    } else if k < j {
      RestShrinks(g, batches, rest, k, j);
    }
  }

  lemma SuccessorOneBelow(g: Graph, batches: seq<set<Name>>, rest: seq<set<Name>>, k: nat, v: Name) returns (d: Name)
    requires Peeling(g, batches, rest) && k + 1 < |batches| && v in batches[k + 1]
    ensures d in Succ(g, v) && d in rest[k]
  {
    assert v in rest[k + 1] && v !in batches[k];
    assert HasSuccessorIn(g, v, rest[k]);
    d :| d in Succ(g, v) && d in rest[k];
  }

  lemma BatchIndex(g: Graph, batches: seq<set<Name>>, rest: seq<set<Name>>) returns (level: map<Name, nat>)
    requires Peeling(g, batches, rest) && rest[|batches|] == {}
    ensures level.Keys == Vertices(g) && ByLevel(batches, level)
  {
    forall v | v in Vertices(g) ensures exists k :: 0 <= k < |batches| && v in batches[k] {
      var k := HandedOutOnce(g, batches, rest, v, |batches|);
    }
    level := map v | v in Vertices(g) :: var k :| 0 <= k < |batches| && v in batches[k]; k;
    forall k, v | 0 <= k < |batches| && v in batches[k] ensures v in level && level[v] == k {
      RestShrinks(g, batches, rest, 0, k);
      BatchesDisjoint(g, batches, rest, level[v], k, v);
    }
  }

  /** A peeling that uses up the graph hands each vertex out in the batch of its level. */
  lemma PeelingLevels(g: Graph, batches: seq<set<Name>>, rest: seq<set<Name>>) returns (level: map<Name, nat>)
    requires Peeling(g, batches, rest) && rest[|batches|] == {}
    ensures Levelling(g, level) && ByLevel(batches, level)
  {
    level := BatchIndex(g, batches, rest);
    forall v, d | v in level && d in Succ(g, v) ensures d in level && level[d] < level[v] {
      assert d in Vertices(g) && d !in rest[level[v]];
      var k := HandedOutOnce(g, batches, rest, d, level[v]);
    }
    forall v {:trigger Tight(g, level, v)} | v in level ensures Tight(g, level, v) {
      BatchTight(g, batches, rest, level, v);
    }
  }

  lemma BatchTight(g: Graph, batches: seq<set<Name>>, rest: seq<set<Name>>, level: map<Name, nat>, v: Name)
    requires Peeling(g, batches, rest) && ByLevel(batches, level) && v in level
    requires forall v, d :: v in level && d in Succ(g, v) ==> d in level && level[d] < level[v]
    ensures Tight(g, level, v)
  {
    if level[v] > 0 {
      var d := SuccessorOneBelow(g, batches, rest, level[v] - 1, v);
      if level[d] < level[v] - 1 {
        RestShrinks(g, batches, rest, level[d], level[v] - 1);
      }
    }
  }

  /** graphlib's sorter over a whole graph: the batches its ready queue hands out when
      each batch is marked done at once, and the vertices it can never hand out. `prepare`
      rejects the graph exactly when there are such vertices. */
  method Batches(g: Graph) returns (batches: seq<set<Name>>, stuck: set<Name>, ghost level: map<Name, nat>)
    ensures stuck == {} <==> Acyclic(g)
    ensures stuck == {} ==> Levelling(g, level) && ByLevel(batches, level)
  {
    batches, stuck, level := [], Vertices(g), map[];
    ghost var rest := [stuck];
    var ready := GetReady(g, stuck);
    while ready != {}
      invariant Peeling(g, batches, rest) && rest[|batches|] == stuck
      invariant IsReady(g, stuck, ready)
      decreases stuck
    {
      stuck, batches := stuck - ready, batches + [ready];
      rest := rest + [stuck];
      ready := GetReady(g, stuck);
    }
    if stuck == {} {
      level := PeelingLevels(g, batches, rest);
      LevellingAcyclic(g, level);
    } else {
      NoSinkMeansCycle(g, stuck);
    }
  }

  method GetReady(g: Graph, stuck: set<Name>) returns (ready: set<Name>)
    ensures IsReady(g, stuck, ready)
  {
    ready := set v | v in stuck && !HasSuccessorIn(g, v, stuck);
  }
}
