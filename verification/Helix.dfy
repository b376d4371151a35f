/** The build-order sorter of src/helix.rs: Kahn's algorithm with in-degree counters. */
module Helix {
  import opened Counting
  import opened Graphs

  const MAX_BUILD_JOBS: nat := 256
  const MAX_EDGES: nat := 16

  /** `edges[i]` is a fixed row of which the first `lens[i]` entries count. */
  datatype DependencyTable = DependencyTable(edges: seq<seq<nat>>, lens: seq<nat>) {
    ghost predicate Shaped() {
      && |edges| == |lens| == MAX_BUILD_JOBS
      && forall i :: 0 <= i < |edges| ==> |edges[i]| == MAX_EDGES
    }

    ghost predicate InRange(n: nat)
      requires Shaped()
    {
      n <= MAX_BUILD_JOBS && forall i :: 0 <= i < n ==> RowInRange(n, i)
    }

    ghost predicate RowInRange(n: nat, i: nat)
      requires Shaped() && i < MAX_BUILD_JOBS
    {
      lens[i] <= MAX_EDGES && forall k :: 0 <= k < lens[i] ==> edges[i][k] < n
    }

    /** The packages that package `i` depends on, repetitions included. */
    ghost function Deps(i: nat): seq<nat>
      requires Shaped() && i < MAX_BUILD_JOBS
    {
      edges[i][..if lens[i] <= MAX_EDGES then lens[i] else MAX_EDGES]
    }

    ghost function AsGraph(n: nat): Graph
      requires Shaped() && InRange(n)
    {
      map i: nat | i in Below(n) :: Elements(Deps(i))
    }
  }

  /** How many entries of `s` lie outside `done`. */
  ghost function Remaining(s: seq<nat>, done: set<nat>): nat {
    if s == [] then 0
    else Remaining(s[..|s| - 1], done) + if s[|s| - 1] in done then 0 else 1
  }

  lemma {:induction false} RemainingConcat(a: seq<nat>, b: seq<nat>, done: set<nat>)
    ensures Remaining(a + b, done) == Remaining(a, done) + Remaining(b, done)
  {
    if b == [] {
      assert a + b == a;
    } else {
      assert (a + b)[..|a + b| - 1] == a + b[..|b| - 1];
      RemainingConcat(a, b[..|b| - 1], done);
    }
  }

  lemma {:induction false} RemainingZero(s: seq<nat>, done: set<nat>)
    ensures Remaining(s, done) == 0 <==> forall x :: x in s ==> x in done
  {
    if s == [] {
    } else {
      assert s == s[..|s| - 1] + [s[|s| - 1]];
      RemainingZero(s[..|s| - 1], done);
    }
  }

  lemma {:induction false} RemainingNone(s: seq<nat>)
    ensures Remaining(s, {}) == |s|
  {
    if s == [] {
    } else {
      RemainingNone(s[..|s| - 1]);
    }
  }

  /** The count while the row is rewritten from `done` to `done + {node}` up to position `j`. */
  ghost function Mixed(s: seq<nat>, j: nat, done: set<nat>, node: nat): nat
    requires j <= |s|
  {
    Remaining(s[..j], done + {node}) + Remaining(s[j..], done)
  }

  lemma MixedEnds(s: seq<nat>, done: set<nat>, node: nat)
    ensures Mixed(s, 0, done, node) == Remaining(s, done)
    ensures Mixed(s, |s|, done, node) == Remaining(s, done + {node})
  {
    assert s[..0] == [] && s[0..] == s && s[..|s|] == s && s[|s|..] == [];
  }

  lemma MixedStep(s: seq<nat>, j: nat, done: set<nat>, node: nat)
    requires j < |s| && node !in done
    ensures Mixed(s, j, done, node) == Mixed(s, j + 1, done, node) + if s[j] == node then 1 else 0
  {
    assert s[..j + 1][..j] == s[..j];
    assert s[j..] == [s[j]] + s[j + 1..];
    RemainingConcat([s[j]], s[j + 1..], done);
    assert [s[j]][..0] == [];
    assert Remaining([s[j]], done) == if s[j] in done then 0 else 1;
  }

  /** A row with nothing left to count has every dependency behind it. */
  lemma MixedZero(s: seq<nat>, j: nat, done: set<nat>, node: nat)
    requires j <= |s| && Mixed(s, j, done, node) == 0
    ensures forall x :: x in s ==> x in done + {node}
  {
    RemainingZero(s[..j], done + {node});
    RemainingZero(s[j..], done);
    assert s == s[..j] + s[j..];
  }

  /** A build order of the `n` packages: each once, each after all it depends on. */
  ghost predicate IsBuildOrder(t: DependencyTable, n: nat, order: seq<nat>)
    requires t.Shaped() && t.InRange(n)
  {
    && |order| == n && Distinct(order)
    && (forall p :: 0 <= p < n ==> order[p] < n)
    && DependenciesFirst(t, n, order)
  }

  ghost predicate DependenciesFirst(t: DependencyTable, n: nat, order: seq<nat>)
    requires t.Shaped() && t.InRange(n)
  {
    forall p, d :: 0 <= p < |order| && order[p] < n && d in t.Deps(order[p]) ==> d in order[..p]
  }

  ghost predicate DegreesFit(t: DependencyTable, n: nat, degrees: seq<nat>, done: set<nat>)
    requires t.Shaped() && t.InRange(n)
  {
    |degrees| == MAX_BUILD_JOBS && forall i :: 0 <= i < n ==> degrees[i] == Remaining(t.Deps(i), done)
  }

  /** The queue so far: no package twice, and exactly the packages whose counter is zero. */
  ghost predicate QueueFits(t: DependencyTable, n: nat, degrees: seq<nat>, queued: seq<nat>)
    requires t.Shaped() && t.InRange(n)
  {
    && |degrees| == MAX_BUILD_JOBS
    && Distinct(queued) && (forall p :: 0 <= p < |queued| ==> queued[p] < n)
    && (forall i :: 0 <= i < n ==> (i in queued <==> degrees[i] == 0))
    && DependenciesFirst(t, n, queued)
  }

  lemma QueueIsShort(t: DependencyTable, n: nat, degrees: seq<nat>, queued: seq<nat>)
    requires t.Shaped() && t.InRange(n) && QueueFits(t, n, degrees, queued)
    ensures |queued| <= n
    ensures forall i :: 0 <= i < n && i !in queued ==> |queued| < n
  {
    BelowSize(n);
    DistinctFits(queued, Below(n));
    forall i | 0 <= i < n && i !in queued ensures |queued| < n {
      DistinctFits(queued + [i], Below(n));
    }
  }

  lemma QueuePush(t: DependencyTable, n: nat, degrees: seq<nat>, queued: seq<nat>, i: nat)
    requires t.Shaped() && t.InRange(n) && QueueFits(t, n, degrees, queued)
    requires i < n && degrees[i] != 0
    requires forall d :: d in t.Deps(i) ==> d in queued
    ensures |queued| < n
    ensures QueueFits(t, n, degrees[i := 0], queued + [i])
  {
    QueueIsShort(t, n, degrees, queued);
    var longer := queued + [i];
    forall p, d | 0 <= p < |longer| && longer[p] < n && d in t.Deps(longer[p]) ensures d in longer[..p] {
      assert p < |queued| ==> longer[..p] == queued[..p] && longer[p] == queued[p];
      assert p == |queued| ==> longer[..p] == queued;
    }
  }

  /** An order over all packages ranks the graph. */
  lemma BuildOrderIsAcyclic(t: DependencyTable, n: nat, order: seq<nat>)
    requires t.Shaped() && t.InRange(n) && IsBuildOrder(t, n, order)
    ensures Acyclic(t.AsGraph(n))
  {
    var g := t.AsGraph(n);
    var rank := map i | i in order :: Position(order, i);
    forall a, b | Edge(g, a, b) ensures a in rank && b in rank && rank[b] < rank[a] {
      OrderHoldsAll(n, order, a);
      var p := Position(order, a);
      assert b in t.Deps(order[p]);
      var q :| 0 <= q < p && order[..p][q] == b;
      assert order[q] == b && Position(order, b) == q;
    }
    RankedIsAcyclic(g, rank);
  }

  lemma OrderHoldsAll(n: nat, order: seq<nat>, a: nat)
    requires |order| == n && Distinct(order) && a < n
    requires forall p :: 0 <= p < n ==> order[p] < n
    ensures a in order
  {
    if a !in order {
      BelowSize(n);
      DistinctFits(order + [a], Below(n));
    }
  }

  /** When the queue runs dry early, the packages left over contain a cycle. */
  lemma LeftoverHasCycle(t: DependencyTable, n: nat, degrees: seq<nat>, order: seq<nat>)
    requires t.Shaped() && t.InRange(n) && QueueFits(t, n, degrees, order)
    requires DegreesFit(t, n, degrees, Elements(order)) && |order| < n
    ensures !Acyclic(t.AsGraph(n))
  {
    hide QueueFits, DegreesFit, Edge;
    var left := set i | i in Below(n) && i !in order;
    QueueIsShort(t, n, degrees, order);
    if left == {} {
      BelowSize(n);
      SubsetSize(Below(n), Elements(order));
      QueueDistinct(t, n, degrees, order);
      assert false;
    }
    forall a | a in left ensures StepsInside(t.AsGraph(n), left, a) {
      LeftoverStep(t, n, degrees, order, left, a);
    }
    var c := StuckHasCycle(t.AsGraph(n), left);
  }

  lemma QueueDistinct(t: DependencyTable, n: nat, degrees: seq<nat>, queued: seq<nat>)
    requires t.Shaped() && t.InRange(n) && QueueFits(t, n, degrees, queued)
    ensures |Elements(queued)| == |queued|
  {
    DistinctSize(queued);
  }

  lemma LeftoverStep(t: DependencyTable, n: nat, degrees: seq<nat>, order: seq<nat>, left: set<nat>, a: nat)
    requires t.Shaped() && t.InRange(n) && QueueFits(t, n, degrees, order)
    requires DegreesFit(t, n, degrees, Elements(order))
    requires left == set i | i in Below(n) && i !in order
    requires a in left
    ensures StepsInside(t.AsGraph(n), left, a)
  {
    RemainingZero(t.Deps(a), Elements(order));
    var b :| b in t.Deps(a) && b !in order;
    assert t.RowInRange(n, a);
    assert b in left && Edge(t.AsGraph(n), a, b);
  }

  class TopoSorter {
    const inDegree: array<nat>
    const order: array<nat>
    var orderLen: nat

    ghost predicate Valid()
      reads this`orderLen
    {
      inDegree.Length == MAX_BUILD_JOBS && order.Length == MAX_BUILD_JOBS && inDegree != order
    }

    constructor ()
      ensures Valid() && fresh(inDegree) && fresh(order)
    {
      inDegree := new nat[MAX_BUILD_JOBS](_ => 0);
      order := new nat[MAX_BUILD_JOBS](_ => 0);
      orderLen := 0;
    }

    /** Counts the edges of each package; false on an index outside the graph. */
    method CountEdges(n: nat, t: DependencyTable) returns (ok: bool)
      requires Valid() && t.Shaped() && n <= MAX_BUILD_JOBS
      requires forall i :: 0 <= i < MAX_BUILD_JOBS ==> inDegree[i] == 0
      modifies inDegree
      ensures ok <==> t.InRange(n)
      ensures ok ==> DegreesFit(t, n, inDegree[..], {})
    {
      var i := 0;
      while i < n
        modifies inDegree
        invariant 0 <= i <= n
        invariant forall k :: 0 <= k < i ==> t.RowInRange(n, k) && inDegree[k] == t.lens[k]
        invariant forall k :: i <= k < MAX_BUILD_JOBS ==> inDegree[k] == 0
      {
        if t.lens[i] > |t.edges[i]| {
          assert !t.RowInRange(n, i);
          return false;
        }
        var j := 0;
        while j < t.lens[i]
          modifies inDegree
          invariant 0 <= j <= t.lens[i] && inDegree[i] == j
          invariant forall k :: 0 <= k < j ==> t.edges[i][k] < n
          invariant forall k :: 0 <= k < i ==> inDegree[k] == t.lens[k]
          invariant forall k :: i < k < MAX_BUILD_JOBS ==> inDegree[k] == 0
        {
          var dep := t.edges[i][j];
          if dep >= n {
            assert !t.RowInRange(n, i);
            return false;
          }
          inDegree[i] := if inDegree[i] == 255 then 255 else inDegree[i] + 1;
          j := j + 1;
        }
        i := i + 1;
      }
      forall k | 0 <= k < n ensures inDegree[..][k] == Remaining(t.Deps(k), {}) {
        assert t.RowInRange(n, k);
        RemainingNone(t.Deps(k));
      }
      return true;
    }

    /** Queues the packages without dependencies. */
    method SeedQueue(n: nat, t: DependencyTable) returns (queue: seq<nat>, qt: nat)
      requires Valid() && t.Shaped() && t.InRange(n) && DegreesFit(t, n, inDegree[..], {})
      ensures |queue| == MAX_BUILD_JOBS && qt <= n
      ensures QueueFits(t, n, inDegree[..], queue[..qt])
    {
      queue, qt := seq(MAX_BUILD_JOBS, _ => 0), 0;
      var i := 0;
      while i < n
        invariant 0 <= qt <= i <= n && |queue| == MAX_BUILD_JOBS
        invariant Distinct(queue[..qt]) && forall p :: 0 <= p < qt ==> queue[p] < i
        invariant forall k :: 0 <= k < i ==> (k in queue[..qt] <==> inDegree[k] == 0)
      {
        if inDegree[i] == 0 {
          ghost var before := queue[..qt];
          queue := queue[qt % MAX_BUILD_JOBS := i];
          qt := qt + 1;
          assert queue[..qt] == before + [i];
        }
        i := i + 1;
      }
      forall p | 0 <= p < qt ensures t.Deps(queue[p]) == [] {
        assert queue[..qt][p] in queue[..qt];
        RemainingNone(t.Deps(queue[p]));
      }
    }

    /** Takes one dependency off the packages that name `node`; a package whose last one goes is queued. */
    method Release(n: nat, t: DependencyTable, node: nat, queue: seq<nat>, qt: nat, ghost done: set<nat>)
      returns (queue': seq<nat>, qt': nat)
      requires Valid() && t.Shaped() && t.InRange(n) && |queue| == MAX_BUILD_JOBS && qt <= n
      requires QueueFits(t, n, inDegree[..], queue[..qt]) && DegreesFit(t, n, inDegree[..], done)
      requires node !in done && forall d :: d in done + {node} ==> d in queue[..qt]
      modifies inDegree
      ensures |queue'| == MAX_BUILD_JOBS && qt <= qt' <= n && queue'[..qt] == queue[..qt]
      ensures QueueFits(t, n, inDegree[..], queue'[..qt']) && DegreesFit(t, n, inDegree[..], done + {node})
    {
      hide QueueFits;
      queue', qt' := queue, qt;
      QueueIsShort(t, n, inDegree[..], queue'[..qt']);
      ghost var after := done + {node};
      var i := 0;
      while i < n
        modifies inDegree
        invariant 0 <= i <= n && |queue'| == MAX_BUILD_JOBS && qt <= qt' <= n && queue'[..qt] == queue[..qt]
        invariant QueueFits(t, n, inDegree[..], queue'[..qt'])
        invariant forall k :: 0 <= k < i ==> inDegree[k] == Remaining(t.Deps(k), after)
        invariant forall k :: i <= k < n ==> inDegree[k] == Remaining(t.Deps(k), done)
      {
        assert t.RowInRange(n, i);
        ghost var deps := t.Deps(i);
        MixedEnds(deps, done, node);
        var j := 0;
        while j < t.lens[i]
          modifies inDegree
          invariant 0 <= j <= t.lens[i] && inDegree[i] == Mixed(deps, j, done, node)
          invariant |queue'| == MAX_BUILD_JOBS && qt <= qt' <= n && queue'[..qt] == queue[..qt]
          invariant QueueFits(t, n, inDegree[..], queue'[..qt'])
          invariant forall k :: 0 <= k < i ==> inDegree[k] == Remaining(t.Deps(k), after)
          invariant forall k :: i < k < n ==> inDegree[k] == Remaining(t.Deps(k), done)
        {
          MixedStep(deps, j, done, node);
          if t.edges[i][j] == node {
            assert inDegree[i] > 0;
            queue', qt' := ReleaseOne(n, t, i, queue', qt', done + {node}, j, done, node);
          }
          j := j + 1;
        }
        i := i + 1;
      }
    }

    method ReleaseOne(n: nat, t: DependencyTable, i: nat, queue: seq<nat>, qt: nat, ghost after: set<nat>,
                      ghost j: nat, ghost done: set<nat>, ghost node: nat)
      returns (queue': seq<nat>, qt': nat)
      requires Valid() && t.Shaped() && t.InRange(n) && |queue| == MAX_BUILD_JOBS && qt <= n && i < n
      requires t.RowInRange(n, i) && j < t.lens[i] && after == done + {node}
      requires QueueFits(t, n, inDegree[..], queue[..qt])
      requires forall d :: d in after ==> d in queue[..qt]
      requires inDegree[i] > 0 && inDegree[i] == Mixed(t.Deps(i), j + 1, done, node) + 1
      modifies inDegree
      ensures |queue'| == MAX_BUILD_JOBS && qt <= qt' <= n && queue'[..qt] == queue[..qt]
      ensures QueueFits(t, n, inDegree[..], queue'[..qt'])
      ensures inDegree[i] == old(inDegree[i]) - 1
      ensures forall k :: 0 <= k < MAX_BUILD_JOBS && k != i ==> inDegree[k] == old(inDegree[k])
    {
      queue', qt' := queue, qt;
      ghost var degrees := inDegree[..];
      inDegree[i] := if inDegree[i] == 0 then 0 else inDegree[i] - 1;
      assert inDegree[..] == degrees[i := degrees[i] - 1];
      if inDegree[i] == 0 {
        MixedZero(t.Deps(i), j + 1, done, node);
        QueuePush(t, n, degrees, queue[..qt], i);
        queue' := queue'[qt' % MAX_BUILD_JOBS := i];
        qt' := qt' + 1;
        assert queue'[..qt'] == queue[..qt] + [i];
      }
    }

    /**
     * True exactly for an in-range table without a dependency cycle, self-dependencies and
     * repeated edges included; then the first `n` entries of `order` are a build order.
     */
    method Sort(n: nat, t: DependencyTable) returns (sorted: bool)
      requires Valid() && t.Shaped()
      modifies this`orderLen, inDegree, order
      ensures Valid()
      ensures sorted <==> t.InRange(n) && Acyclic(t.AsGraph(n))
      ensures sorted ==> orderLen == n <= MAX_BUILD_JOBS && IsBuildOrder(t, n, order[..n])
    {
      hide QueueFits, Acyclic, DegreesFit;
      if n > MAX_BUILD_JOBS {
        return false;
      }
      Reset();
      var inRange := CountEdges(n, t);
      if !inRange {
        return false;
      }
      var queue, qt := SeedQueue(n, t);
      var qh := 0;
      assert Elements(queue[..0]) == {};
      while qh < qt
        modifies this`orderLen, inDegree, order
        invariant Valid() && 0 <= qh <= qt <= n && |queue| == MAX_BUILD_JOBS && orderLen == qh
        invariant order[..orderLen] == queue[..qh]
        invariant QueueFits(t, n, inDegree[..], queue[..qt])
        invariant DegreesFit(t, n, inDegree[..], Elements(queue[..qh]))
        decreases n - qh
      {
        var node := queue[qh % MAX_BUILD_JOBS];
        ghost var done := Elements(queue[..qh]);
        qh := qh + 1;
        assert queue[..qh] == queue[..qh - 1] + [node];
        assert Elements(queue[..qh]) == done + {node};
        QueuedOnce(t, n, inDegree[..], queue[..qt], qh - 1);
        if orderLen < MAX_BUILD_JOBS {
          order[orderLen] := node;
          orderLen := orderLen + 1;
        }
        assert order[..orderLen] == queue[..qh];
        var queue', qt' := Release(n, t, node, queue, qt, done);
        assert queue'[..qh] == queue'[..qt][..qh] == queue[..qt][..qh] == queue[..qh];
        queue, qt := queue', qt';
      }
      sorted := orderLen == n;
      Verdict(t, n, inDegree[..], order[..orderLen]);
    }

    method Reset()
      requires Valid()
      modifies this`orderLen, inDegree, order
      ensures orderLen == 0 && forall i :: 0 <= i < MAX_BUILD_JOBS ==> inDegree[i] == 0
    {
      forall i | 0 <= i < MAX_BUILD_JOBS {
        inDegree[i] := 0;
      }
      forall i | 0 <= i < MAX_BUILD_JOBS {
        order[i] := 0;
      }
      orderLen := 0;
    }
  }

  lemma QueuedOnce(t: DependencyTable, n: nat, degrees: seq<nat>, queued: seq<nat>, p: nat)
    requires t.Shaped() && t.InRange(n) && QueueFits(t, n, degrees, queued) && p < |queued|
    ensures queued[p] !in Elements(queued[..p])
    ensures forall x :: x in Elements(queued[..p]) + {queued[p]} ==> x in queued
  {
  }

  /** The queue has run dry: the count says whether the graph is acyclic. */
  lemma Verdict(t: DependencyTable, n: nat, degrees: seq<nat>, order: seq<nat>)
    requires t.Shaped() && t.InRange(n) && QueueFits(t, n, degrees, order)
    requires DegreesFit(t, n, degrees, Elements(order))
    ensures |order| == n <==> Acyclic(t.AsGraph(n))
    ensures |order| == n ==> IsBuildOrder(t, n, order)
  {
    QueueIsShort(t, n, degrees, order);
    if |order| == n {
      BuildOrderIsAcyclic(t, n, order);
    } else {
      LeftoverHasCycle(t, n, degrees, order);
    }
  }
}
