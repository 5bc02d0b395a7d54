/** Chains over two graphs at once: the current dependencies and all edges, of which some may
    be left from earlier registrations. They measure the stages of a pass that goes through
    the services in the order of their registration. */
module Chains {
  import opened Services
  import opened Names
  import opened Graphs

  datatype Wiring = Wiring(current: Graph, edges: Graph, order: seq<Name>)

  predicate RegisteredBefore(order: seq<Name>, a: Name, b: Name) {
    a in order && b in order && IndexOf(order, a) < IndexOf(order, b)
  }

  /** `p` takes its names from `order`, in that order. */
  ghost predicate InOrder(p: seq<Name>, order: seq<Name>) {
    forall i, j :: 0 <= i < j < |p| ==> RegisteredBefore(order, p[i], p[j])
  }

  lemma InOrderOneMore(p: seq<Name>, order: seq<Name>, n: nat)
    requires NoDuplicates(order) && n < |order| && InOrder(p, order) && forall s :: s in p ==> s in order[..n]
    ensures InOrder(p + [order[n]], order)
  {
    forall i | 0 <= i < |p| ensures RegisteredBefore(order, p[i], order[n]) {
      assert p[i] in p;
      var j :| 0 <= j < n && order[j] == p[i];
      assert IndexOf(order, p[i]) == j && IndexOf(order, order[n]) == n;
    }
  }

  lemma InLongerOrder(p: seq<Name>, order: seq<Name>, s: Name)
    requires InOrder(p, order) && NoDuplicates(order + [s])
    ensures InOrder(p, order + [s])
  {
    var longer := order + [s];
    forall v | v in order ensures v in longer && IndexOf(longer, v) == IndexOf(order, v) {
      assert longer[IndexOf(order, v)] == v;
    }
  }

  /** The current dependencies are among the edges. */
  ghost predicate Within(w: Wiring) {
    forall s :: Succ(w.current, s) <= Succ(w.edges, s)
  }

  /** A mixed chain starts with a current dependency and goes on along current dependencies
      as long as each one was registered before its dependent. After the first one that was
      not, it goes on along any edges. */
  ghost predicate Mixed(w: Wiring, p: seq<Name>)
    decreases |p|
  {
    && p != []
    && (|p| == 1 || (p[1] in Succ(w.current, p[0])
                     && if RegisteredBefore(w.order, p[1], p[0]) then Mixed(w, p[1..]) else Walk(w.edges, p[1..])))
  }

  ghost predicate MixedFrom(w: Wiring, s: Name, p: seq<Name>) {
    Mixed(w, p) && p[0] == s
  }

  /** The longest mixed chain that starts at `s` has exactly `k` edges. */
  ghost predicate LongestMixed(w: Wiring, s: Name, k: nat) {
    && (exists p :: MixedFrom(w, s, p) && |p| == k + 1)
    && (forall p :: MixedFrom(w, s, p) ==> |p| <= k + 1)
  }

  lemma WalkTail(g: Graph, p: seq<Name>)
    requires Walk(g, p) && |p| > 1
    ensures p[1] in Succ(g, p[0]) && Walk(g, p[1..])
  {
    assert p[0 + 1] in Succ(g, p[0]);
    WalkSlice(g, p, 1, |p|);
  }

  lemma WalkCons(g: Graph, p: seq<Name>)
    requires |p| > 1 && p[1] in Succ(g, p[0]) && Walk(g, p[1..])
    ensures Walk(g, p)
  {
    WalkPrepend(g, p[0], p[1..]);
    assert [p[0]] + p[1..] == p;
  }

  lemma {:induction false} MixedIsWalk(w: Wiring, p: seq<Name>)
    requires Within(w) && Mixed(w, p)
    ensures Walk(w.edges, p)
    decreases |p|
  {
    if |p| > 1 {
      if RegisteredBefore(w.order, p[1], p[0]) { MixedIsWalk(w, p[1..]); }
      assert p[1] in Succ(w.edges, p[0]);
      WalkCons(w.edges, p);
    }
  }

  lemma {:induction false} CurrentIsMixed(w: Wiring, p: seq<Name>)
    requires Within(w) && Walk(w.current, p)
    ensures Mixed(w, p)
    decreases |p|
  {
    if |p| > 1 {
      WalkTail(w.current, p);
      CurrentIsMixed(w, p[1..]);
      WalkInLarger(w.current, w.edges, p[1..]);
    }
  }

  /** A current dependency in front of a mixed chain gives a mixed chain. */
  lemma MixedPrepend(w: Wiring, s: Name, q: seq<Name>)
    requires Within(w) && Mixed(w, q) && q[0] in Succ(w.current, s)
    ensures MixedFrom(w, s, [s] + q)
  {
    var p := [s] + q;
    assert p[1..] == q;
    MixedIsWalk(w, q);
  }

  // ---------------------------------------------------------------- measuring them

  /** What a dependency counts for: its stage, if it was registered before its dependent and
      so has been staged already, and its level otherwise. */
  function Worth(w: Wiring, level: map<Name, nat>, stage: map<Name, nat>, s: Name, n: Name): nat
    requires n in stage && n in level
  {
    if RegisteredBefore(w.order, n, s) then stage[n] else level[n]
  }

  ghost predicate Grounded(w: Wiring, level: map<Name, nat>, stage: map<Name, nat>) {
    forall s, n :: n in Succ(w.current, s) ==> n in stage && n in level
  }

  ghost predicate Counts(w: Wiring, level: map<Name, nat>, stage: map<Name, nat>, s: Name, n: Name, k: int) {
    n in Succ(w.current, s) && n in stage && n in level && Worth(w, level, stage, s, n) == k
  }

  /** The stage of `s` is one above the highest worth among its dependencies, or 0. */
  ghost predicate OneAbove(w: Wiring, level: map<Name, nat>, stage: map<Name, nat>, s: Name)
    requires s in stage
  {
    && (forall n, k: int {:trigger Counts(w, level, stage, s, n, k)} ::
          Counts(w, level, stage, s, n, k) ==> k < stage[s])
    && (stage[s] > 0 ==> SomeCounts(w, level, stage, s, stage[s] - 1))
  }

  ghost predicate SomeCounts(w: Wiring, level: map<Name, nat>, stage: map<Name, nat>, s: Name, k: int) {
    exists n :: Counts(w, level, stage, s, n, k)
  }

  ghost predicate AllAbove(w: Wiring, level: map<Name, nat>, stage: map<Name, nat>) {
    forall s {:trigger OneAbove(w, level, stage, s)} :: s in stage ==> OneAbove(w, level, stage, s)
  }

  lemma {:induction false} MixedWithinStage(w: Wiring, level: map<Name, nat>, stage: map<Name, nat>, p: seq<Name>)
    requires Levelling(w.edges, level) && Grounded(w, level, stage) && AllAbove(w, level, stage)
    requires Mixed(w, p) && p[0] in stage
    ensures |p| <= stage[p[0]] + 1
    decreases |p|
  {
    if |p| > 1 {
      var s, n := p[0], p[1];
      assert OneAbove(w, level, stage, s) && Counts(w, level, stage, s, n, Worth(w, level, stage, s, n));
      if RegisteredBefore(w.order, n, s) {
        MixedWithinStage(w, level, stage, p[1..]);
      } else {
        WalkWithinLevel(w.edges, level, p[1..]);
      }
    }
  }

  lemma {:induction false} MixedOfStage(w: Wiring, level: map<Name, nat>, stage: map<Name, nat>, s: Name)
    returns (p: seq<Name>)
    requires Levelling(w.edges, level) && Grounded(w, level, stage) && AllAbove(w, level, stage) && s in stage
    ensures MixedFrom(w, s, p) && |p| == stage[s] + 1
    decreases stage[s]
  {
    if stage[s] == 0 {
      p := [s];
    } else {
      assert OneAbove(w, level, stage, s);
      assert SomeCounts(w, level, stage, s, stage[s] - 1);
      var n :| Counts(w, level, stage, s, n, stage[s] - 1);
      var q;
      if RegisteredBefore(w.order, n, s) {
        q := MixedOfStage(w, level, stage, n);
      } else {
        q := WalkOfLevel(w.edges, level, n);
      }
      p := [s] + q;
      assert p[1..] == q;
    }
  }

  /** Stages that are one above the worth of the dependencies are the lengths of the longest
      mixed chains. */
  lemma StageIsLongestMixed(w: Wiring, level: map<Name, nat>, stage: map<Name, nat>, s: Name)
    requires Levelling(w.edges, level) && Grounded(w, level, stage) && AllAbove(w, level, stage) && s in stage
    ensures LongestMixed(w, s, stage[s])
  {
    var q := MixedOfStage(w, level, stage, s);
    forall p | MixedFrom(w, s, p) ensures |p| <= stage[s] + 1 { MixedWithinStage(w, level, stage, p); }
  }

  lemma OneLongest(w: Wiring, s: Name, i: nat, j: nat)
    requires LongestMixed(w, s, i) && LongestMixed(w, s, j)
    ensures i == j
  {
    var p :| MixedFrom(w, s, p) && |p| == i + 1;
    var q :| MixedFrom(w, s, q) && |q| == j + 1;
  }

  // ---------------------------------------------------------------- comparing them

  /** Some mixed chain from `a` is longer than every one from `b`. */
  ghost predicate LongerFrom(w: Wiring, a: Name, b: Name) {
    exists p :: MixedFrom(w, a, p) && LongerThanAll(w, |p|, b)
  }

  ghost predicate LongerThanAll(w: Wiring, n: nat, b: Name) {
    forall q :: MixedFrom(w, b, q) ==> |q| < n
  }

  lemma LongerMeans(w: Wiring, a: Name, i: nat, b: Name, j: nat)
    requires LongestMixed(w, a, i) && LongestMixed(w, b, j)
    ensures LongerFrom(w, a, b) <==> j < i
  {
    var p :| MixedFrom(w, a, p) && |p| == i + 1;
    var q :| MixedFrom(w, b, q) && |q| == j + 1;
    if j < i { assert LongerThanAll(w, |p|, b); }
  }

  /** No current dependency that was registered after its dependent leads to a chain of edges
      with which the dependent's longest current chain could not keep up. */
  ghost predicate LateHarmless(w: Wiring) {
    forall s, n, q :: LateChain(w, s, n, q) ==> KeepsUp(w, s, |q|)
  }

  /** `q` is a chain of edges from a current dependency of `s` not registered before it. */
  ghost predicate LateChain(w: Wiring, s: Name, n: Name, q: seq<Name>) {
    n in Succ(w.current, s) && !RegisteredBefore(w.order, n, s) && WalkFrom(w.edges, n, q)
  }

  ghost predicate KeepsUp(w: Wiring, s: Name, length: nat) {
    exists p :: WalkFrom(w.current, s, p) && |p| > length
  }

  /** Then, and only then, is every mixed chain matched by a chain of current dependencies. */
  lemma MatchedExactlyWhen(w: Wiring)
    requires Within(w)
    ensures LateHarmless(w) <==> forall s, p :: MixedFrom(w, s, p) ==> KeepsUp(w, s, |p| - 1)
  {
    if LateHarmless(w) {
      forall s, p | MixedFrom(w, s, p) ensures KeepsUp(w, s, |p| - 1) { MixedMatched(w, p); }
    }
    if forall s, p :: MixedFrom(w, s, p) ==> KeepsUp(w, s, |p| - 1) {
      forall s, n, q | LateChain(w, s, n, q) ensures KeepsUp(w, s, |q|) {
        assert ([s] + q)[1..] == q;
        assert MixedFrom(w, s, [s] + q);
      }
    }
  }

  lemma {:induction false} MixedMatched(w: Wiring, p: seq<Name>)
    requires LateHarmless(w) && Mixed(w, p)
    ensures KeepsUp(w, p[0], |p| - 1)
    decreases |p|
  {
    if |p| == 1 {
      assert WalkFrom(w.current, p[0], p);
    } else if RegisteredBefore(w.order, p[1], p[0]) {
      MixedMatched(w, p[1..]);
      var q :| WalkFrom(w.current, p[1], q) && |q| > |p| - 2;
      WalkPrepend(w.current, p[0], q);
      assert WalkFrom(w.current, p[0], [p[0]] + q);
    } else {
      assert LateChain(w, p[0], p[1], p[1..]);
    }
  }

  // ---------------------------------------------------------------- wirings with the same edges

  ghost predicate SameWires(w: Wiring, w': Wiring) {
    w.current == w'.current && w.order == w'.order && forall s :: Succ(w.edges, s) == Succ(w'.edges, s)
  }

  lemma {:induction false} SameMixed(w: Wiring, w': Wiring, p: seq<Name>)
    requires SameWires(w, w') && Mixed(w, p)
    ensures Mixed(w', p)
    decreases |p|
  {
    if |p| > 1 {
      if RegisteredBefore(w.order, p[1], p[0]) {
        SameMixed(w, w', p[1..]);
      } else {
        WalkInLarger(w.edges, w'.edges, p[1..]);
      }
    }
  }

  lemma SameLonger(w: Wiring, w': Wiring, a: Name, b: Name)
    requires SameWires(w, w') && LongerFrom(w, a, b)
    ensures LongerFrom(w', a, b)
  {
    var p :| MixedFrom(w, a, p) && LongerThanAll(w, |p|, b);
    SameMixed(w, w', p);
    forall q | MixedFrom(w', b, q) ensures |q| < |p| {
      SameMixed(w', w, q);
      assert MixedFrom(w, b, q);
    }
    assert LongerThanAll(w', |p|, b);
  }
}
