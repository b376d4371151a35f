/** Finite directed graphs: paths, cycles and reachability. */
module Graphs {
  import opened Counting

  type Graph = map<nat, set<nat>>

  predicate Edge(g: Graph, a: nat, b: nat) {
    a in g && b in g[a]
  }

  ghost predicate Path(g: Graph, p: seq<nat>) {
    |p| >= 1 && forall i :: 0 <= i < |p| - 1 ==> Edge(g, p[i], p[i + 1])
  }

  ghost predicate PathBetween(g: Graph, a: nat, b: nat, p: seq<nat>) {
    Path(g, p) && p[0] == a && p[|p| - 1] == b
  }

  /** A closed walk with at least one edge; a self-edge is one. */
  ghost predicate Cycle(g: Graph, p: seq<nat>) {
    |p| >= 2 && Path(g, p) && p[0] == p[|p| - 1]
  }

  ghost predicate Acyclic(g: Graph) {
    forall p :: !Cycle(g, p)
  }

  ghost predicate Reachable(g: Graph, a: nat, b: nat) {
    exists p :: PathBetween(g, a, b, p)
  }

  lemma ReachableSelf(g: Graph, a: nat)
    ensures Reachable(g, a, a)
  {
    assert PathBetween(g, a, a, [a]);
  }

  lemma ReachableStep(g: Graph, a: nat, b: nat, c: nat)
    requires Reachable(g, a, b) && Edge(g, b, c)
    ensures Reachable(g, a, c)
  {
    var p :| PathBetween(g, a, b, p);
    assert PathBetween(g, a, c, p + [c]);
  }

  ghost predicate ClosedUnder(g: Graph, s: set<nat>) {
    forall a, b :: a in s && Edge(g, a, b) ==> b in s
  }

  /** A set closed under the edges holds everything reachable from its members. */
  lemma ReachableStaysIn(g: Graph, s: set<nat>, a: nat, b: nat)
    requires ClosedUnder(g, s) && a in s && Reachable(g, a, b)
    ensures b in s
  {
    var p :| PathBetween(g, a, b, p);
    PathStaysIn(g, s, p, |p| - 1);
  }

  lemma {:induction false} PathStaysIn(g: Graph, s: set<nat>, p: seq<nat>, k: nat)
    requires ClosedUnder(g, s) && Path(g, p) && p[0] in s && k < |p|
    ensures p[k] in s
  {
    if k == 0 {
    } else {
      PathStaysIn(g, s, p, k - 1);
      assert Edge(g, p[k - 1], p[k - 1 + 1]);
    }
  }

  /** Every edge goes strictly down in some ranking. */
  ghost predicate Ranked(g: Graph, rank: map<nat, nat>) {
    forall a, b :: Edge(g, a, b) ==> a in rank && b in rank && rank[b] < rank[a]
  }

  lemma RankedIsAcyclic(g: Graph, rank: map<nat, nat>)
    requires Ranked(g, rank)
    ensures Acyclic(g)
  {
    forall p ensures !Cycle(g, p) {
      if Cycle(g, p) {
        RankFalls(g, rank, p, |p| - 1);
      }
    }
  }

  lemma {:induction false} RankFalls(g: Graph, rank: map<nat, nat>, p: seq<nat>, k: nat)
    requires Ranked(g, rank) && Path(g, p) && 0 < k < |p|
    ensures p[0] in rank && p[k] in rank && rank[p[k]] < rank[p[0]]
  {
    assert Edge(g, p[k - 1], p[k - 1 + 1]);
    if k <= 1 {
    } else {
      RankFalls(g, rank, p, k - 1);
    }
  }

  /** No member of `s` is without a successor inside `s`. */
  ghost predicate Stuck(g: Graph, s: set<nat>) {
    s != {} && forall a {:trigger StepsInside(g, s, a)} :: a in s ==> StepsInside(g, s, a)
  }

  ghost predicate StepsInside(g: Graph, s: set<nat>, a: nat) {
    exists b :: b in s && Edge(g, a, b)
  }

  lemma {:induction false} WalkInside(g: Graph, s: set<nat>, n: nat) returns (p: seq<nat>)
    requires Stuck(g, s)
    ensures |p| == n + 1 && Path(g, p) && forall x :: x in p ==> x in s
  {
    if n == 0 {
      var a :| a in s;
      p := [a];
    } else {
      var q := WalkInside(g, s, n - 1);
      var a := q[|q| - 1];
      assert StepsInside(g, s, a);
      var b :| b in s && Edge(g, a, b);
      p := q + [b];
    }
  }

  /** A non-empty set in which every node has a successor inside the set contains a cycle. */
  lemma StuckHasCycle(g: Graph, s: set<nat>) returns (c: seq<nat>)
    requires Stuck(g, s)
    ensures Cycle(g, c) && forall x :: x in c ==> x in s
  {
    var p := WalkInside(g, s, |s|);
    var i, j := Pigeonhole(p, s);
    c := p[i..j + 1];
    forall k | 0 <= k < |c| - 1 ensures Edge(g, c[k], c[k + 1]) {
      assert Edge(g, p[i + k], p[i + k + 1]);
    }
  }
}
