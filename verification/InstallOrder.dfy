/** Dependency-first ordering of a selection by depth-first search over the chosen providers. */
module InstallOrder {
  import opened Counting
  import opened Dependency
  import opened Graphs
  import opened Results

  // ----- the chosen provider of a requirement -----

  /** A newer sequence wins; between equal sequences the smaller package name does. */
  predicate Outranks(cands: seq<ResolutionCandidate>, a: nat, b: nat)
    requires a < |cands| && b < |cands|
  {
    || cands[a].sequence > cands[b].sequence
    || (cands[a].sequence == cands[b].sequence && StringLess(cands[a].package, cands[b].package))
  }

  lemma NotOutranksTransitive(cands: seq<ResolutionCandidate>, a: nat, b: nat, c: nat)
    requires a < |cands| && b < |cands| && c < |cands|
    requires !Outranks(cands, a, b) && !Outranks(cands, c, a)
    ensures !Outranks(cands, c, b)
  {
    StringLessTotal(cands[a].package, cands[b].package);
    StringLessTotal(cands[b].package, cands[c].package);
    StringLessTotal(cands[c].package, cands[a].package);
    if StringLess(cands[c].package, cands[b].package) && StringLess(cands[b].package, cands[a].package) {
      StringLessTransitive(cands[c].package, cands[b].package, cands[a].package);
    }
  }

  /** The last of the highest-ranked options. */
  function ChooseProvider(cands: seq<ResolutionCandidate>, options: seq<nat>): (r: Option<nat>)
    requires Indexes(cands, options)
    ensures r.Some? <==> options != []
    ensures r.Some? ==> r.value < |cands|
  {
    if options == [] then None
    else
      var last := options[|options| - 1];
      match ChooseProvider(cands, options[..|options| - 1])
      case None => Some(last)
      case Some(best) => if Outranks(cands, best, last) then Some(best) else Some(last)
  }

  /** The provider chosen has the highest sequence, and of those the first package name. */
  lemma ChosenHasHighestSequence(cands: seq<ResolutionCandidate>, options: seq<nat>)
    requires Indexes(cands, options) && options != []
    ensures var best := ChooseProvider(cands, options).value;
            && best in options
            && forall i :: 0 <= i < |options| ==>
                 var option := cands[options[i]];
                 && option.sequence <= cands[best].sequence
                 && (option.sequence == cands[best].sequence ==> !Precedes(option.package, cands[best].package))
  {
    hide Precedes;
    ChosenIsNewest(cands, options);
    var best := ChooseProvider(cands, options).value;
    forall i | 0 <= i < |options|
      ensures cands[options[i]].sequence <= cands[best].sequence
      ensures cands[options[i]].sequence == cands[best].sequence ==> !Precedes(cands[options[i]].package, cands[best].package)
    {
      StringLessExact(cands[options[i]].package, cands[best].package);
    }
  }

  /** The provider chosen is one of the options, and no option outranks it. */
  lemma {:induction false} ChosenIsNewest(cands: seq<ResolutionCandidate>, options: seq<nat>)
    requires Indexes(cands, options) && options != []
    ensures var best := ChooseProvider(cands, options).value;
            best in options && forall i :: 0 <= i < |options| ==> !Outranks(cands, options[i], best)
  {
    var front, last := options[..|options| - 1], options[|options| - 1];
    assert options == front + [last];
    StringLessTotal(cands[last].package, cands[last].package);
    if front == [] {
    } else {
      ChosenIsNewest(cands, front);
      var best := ChooseProvider(cands, front).value;
      StringLessTotal(cands[best].package, cands[last].package);
      forall i | 0 <= i < |options| && !Outranks(cands, best, last) ensures !Outranks(cands, options[i], last) {
        if i < |front| {
          assert options[i] == front[i];
          NotOutranksTransitive(cands, best, last, options[i]);
        }
      }
      forall i | 0 <= i < |options| && Outranks(cands, best, last) ensures !Outranks(cands, options[i], best) {
        assert i < |front| ==> options[i] == front[i];
      }
    }
  }

  function ChosenFor(cands: seq<ResolutionCandidate>, s: seq<nat>, r: PackageRequirement): (d: Option<nat>)
    requires Indexes(cands, s)
  {
    ChooseProvider(cands, OptionsFor(cands, s, r))
  }

  /** A provider is chosen exactly when some member of `s` meets the requirement, and it does. */
  lemma ChosenForMeets(cands: seq<ResolutionCandidate>, s: seq<nat>, r: PackageRequirement)
    requires Indexes(cands, s)
    ensures var d := ChosenFor(cands, s, r);
            && (d.Some? ==> d.value in s && d.value < |cands| && Meets(cands[d.value], r))
            && (d.None? ==> forall c :: c in s ==> !Meets(cands[c], r))
  {
    var options := OptionsFor(cands, s, r);
    OptionsExact(cands, s, r);
    if options != [] {
      ChosenIsNewest(cands, options);
      assert ChooseProvider(cands, options).value in options;
    }
  }

  ghost predicate ChosenEdge(cands: seq<ResolutionCandidate>, s: seq<nat>, c: nat, k: nat, d: nat)
    requires Indexes(cands, s) && c < |cands|
  {
    && k < |cands[c].metadata.requirements|
    && ChosenFor(cands, s, cands[c].metadata.requirements[k]) == Some(d)
    && d != c
  }

  /** The providers chosen for the first `n` requirements of `c`. */
  ghost function ChosenEdges(cands: seq<ResolutionCandidate>, s: seq<nat>, c: nat, n: nat): set<nat>
    requires Indexes(cands, s) && c < |cands| && n <= |cands[c].metadata.requirements|
  {
    if n == 0 then {}
    else
      var d := ChosenFor(cands, s, cands[c].metadata.requirements[n - 1]);
      ChosenEdges(cands, s, c, n - 1) + if d.Some? && d.value != c then {d.value} else {}
  }

  lemma {:induction false} ChosenEdgesHold(cands: seq<ResolutionCandidate>, s: seq<nat>, c: nat, n: nat, d: nat)
    requires Indexes(cands, s) && c < |cands| && n <= |cands[c].metadata.requirements|
    ensures d in ChosenEdges(cands, s, c, n) <==> exists k :: 0 <= k < n && ChosenEdge(cands, s, c, k, d)
  {
    hide ChosenEdge;
    if n == 0 {
    } else {
      ChosenEdgesHold(cands, s, c, n - 1, d);
      ChosenEdgesStep(cands, s, c, n, d);
      if ChosenEdge(cands, s, c, n - 1, d) {
        assert exists k :: 0 <= k < n && ChosenEdge(cands, s, c, k, d);
      }
    }
  }

  lemma ChosenEdgesStep(cands: seq<ResolutionCandidate>, s: seq<nat>, c: nat, n: nat, d: nat)
    requires Indexes(cands, s) && c < |cands| && 0 < n <= |cands[c].metadata.requirements|
    ensures d in ChosenEdges(cands, s, c, n)
            <==> d in ChosenEdges(cands, s, c, n - 1) || ChosenEdge(cands, s, c, n - 1, d)
  {
    hide ChosenFor;
  }

  /** Each selected candidate points to the provider chosen for each of its requirements, itself excepted. */
  ghost function ChosenGraph(cands: seq<ResolutionCandidate>, s: seq<nat>): Graph
    requires Indexes(cands, s)
  {
    map c | c in s :: ChosenEdges(cands, s, c, |cands[c].metadata.requirements|)
  }

  /** Every requirement of `order[p]` is met by itself or by an earlier entry. */
  ghost predicate MetByPrefix(cands: seq<ResolutionCandidate>, order: seq<nat>, p: nat)
    requires Indexes(cands, order) && p < |order|
  {
    forall k :: 0 <= k < |cands[order[p]].metadata.requirements| ==>
      MetWithin(cands, order, p, cands[order[p]].metadata.requirements[k])
  }

  ghost predicate MetWithin(cands: seq<ResolutionCandidate>, order: seq<nat>, p: nat, r: PackageRequirement)
    requires Indexes(cands, order) && p < |order|
  {
    exists q :: 0 <= q <= p && Meets(cands[order[q]], r)
  }

  function NamesOf(cands: seq<ResolutionCandidate>, path: seq<nat>): (names: seq<string>)
    requires Indexes(cands, path)
    ensures |names| == |path| && forall i :: 0 <= i < |path| ==> names[i] == cands[path[i]].package
  {
    seq(|path|, i requires 0 <= i < |path| => cands[path[i]].package)
  }

  /** The names spell out a cycle of the graph. */
  ghost predicate NamesCycle(cands: seq<ResolutionCandidate>, g: Graph, names: seq<string>) {
    exists path :: Graphs.Cycle(g, path) && Indexes(cands, path) && names == NamesOf(cands, path)
  }

  // ----- the visitor -----

  function InsertAscending(s: seq<nat>, x: nat): seq<nat> {
    if s == [] then [x]
    else if x < s[0] then [x] + s
    else if x == s[0] then s
    else [s[0]] + InsertAscending(s[1..], x)
  }

  ghost predicate Ascending(s: seq<nat>) {
    forall i, j :: 0 <= i < j < |s| ==> s[i] < s[j]
  }

  lemma {:induction false} InsertAscendingKeeps(s: seq<nat>, x: nat)
    requires Ascending(s)
    ensures Ascending(InsertAscending(s, x))
    ensures s != [] ==> InsertAscending(s, x)[0] == if x < s[0] then x else s[0]
  {
    if s == [] || x <= s[0] {
    } else {
      var rest := InsertAscending(s[1..], x);
      InsertAscendingKeeps(s[1..], x);
      InsertAscendingElements(s[1..], x);
      forall j | 0 <= j < |rest| ensures s[0] < rest[j] {
        assert rest[j] in Elements(rest);
        assert rest[j] in s[1..] || rest[j] == x;
      }
    }
  }

  lemma {:induction false} InsertAscendingElements(s: seq<nat>, x: nat)
    ensures Elements(InsertAscending(s, x)) == Elements(s) + {x}
  {
    forall y ensures y in InsertAscending(s, x) <==> y in s || y == x {
      InsertAscendingMember(s, x, y);
    }
  }

  lemma {:induction false} InsertAscendingMember(s: seq<nat>, x: nat, y: nat)
    ensures y in InsertAscending(s, x) <==> y in s || y == x
  {
    if s == [] {
    } else {
      assert s == [s[0]] + s[1..];
      InsertAscendingMember(s[1..], x, y);
    }
  }

  ghost function AdjacencyGraph(deps: map<nat, seq<nat>>): Graph {
    map c | c in deps :: Elements(deps[c])
  }

  class Visitor {
    const cands: seq<ResolutionCandidate>
    const deps: map<nat, seq<nat>>
    const state: array<nat>
    var stack: seq<nat>
    var order: seq<nat>

    constructor (cands: seq<ResolutionCandidate>, deps: map<nat, seq<nat>>)
      requires forall c :: c in deps ==> c < |cands| && forall d :: d in deps[c] ==> d in deps
      ensures this.cands == cands && this.deps == deps && fresh(state)
      ensures Valid() && stack == [] && order == []
    {
      this.cands, this.deps := cands, deps;
      state := new nat[|cands|](_ => 0);
      stack, order := [], [];
    }

    ghost function G(): Graph {
      AdjacencyGraph(deps)
    }

    ghost predicate StatesFit()
      reads this, state
    {
      && state.Length == |cands|
      && (forall c :: c in deps ==> c < |cands| && forall d :: d in deps[c] ==> d in deps)
      && (forall c :: 0 <= c < |cands| ==> state[c] <= 2)
      && (forall c :: 0 <= c < |cands| ==> (state[c] == 1 <==> c in stack))
      && (forall c :: 0 <= c < |cands| ==> (state[c] == 2 <==> c in order))
      && (forall c :: c in stack ==> c in deps)
      && (forall c :: c in order ==> c in deps)
    }

    ghost predicate OrderClosed()
      reads this
    {
      forall p :: 0 <= p < |order| ==> order[p] in deps && forall d :: d in deps[order[p]] ==> d in order[..p]
    }

    ghost predicate Valid()
      reads this, state
    {
      && StatesFit()
      && Distinct(stack) && Distinct(order)
      && (forall i :: 0 <= i < |stack| - 1 ==> Edge(G(), stack[i], stack[i + 1]))
      && OrderClosed()
    }

    ghost function White(): set<nat>
      requires StatesFit()
      reads this, state
    {
      set c | c in deps && state[c] == 0
    }

    /**
     * Visits a candidate and everything it needs. The search either finishes the candidate or ends
     * on a cycle that the stack and the candidate trace.
     */
    method Visit(candidate: nat) returns (r: Result<(), DependencyError>)
      requires Valid() && candidate in deps
      requires stack == [] || Edge(G(), stack[|stack| - 1], candidate)
      modifies this`stack, this`order, state
      ensures r.Ok? ==> Valid() && stack == old(stack) && candidate in order
      ensures r.Ok? ==> old(order) <= order && White() <= old(White())
      ensures r.Err? ==> r.error.Cycle? && NamesCycle(cands, G(), r.error.names)
      decreases |White()|, 0
    {
      hide KeyLess, NamesCycle, OrderClosed, Edge, Distinct;
      match state[candidate] {
        case 2 => return Ok(());
        case 1 =>
          var names := TraceCycle(candidate);
          return Err(Dependency.Cycle(names));
        case _ =>
      }
      Enter(candidate);
      SubsetSize(White(), old(White()) - {candidate});
      r := VisitNeeds(candidate);
      if r.Err? {
        return;
      }
      Leave(candidate);
      return Ok(());
    }

    lemma NeedsFit(candidate: nat)
      requires Valid() && candidate in deps
      ensures StatesFit() && Indexes(cands, deps[candidate]) && forall d :: d in deps[candidate] ==> d in deps
    {
      MembersAreIndexes(cands, deps[candidate]);
    }

    lemma NeedIsEdge(candidate: nat, need: nat)
      requires Valid() && candidate in deps && need in deps[candidate]
      ensures Edge(G(), candidate, need)
    {
    }

    /** Visits what the candidate on top of the stack needs, in key order. */
    method VisitNeeds(candidate: nat) returns (r: Result<(), DependencyError>)
      requires Valid() && candidate in deps && stack != [] && stack[|stack| - 1] == candidate
      modifies this`stack, this`order, state
      ensures r.Ok? ==> Valid() && stack == old(stack) && forall d :: d in deps[candidate] ==> d in order
      ensures r.Ok? ==> old(order) <= order && White() <= old(White())
      ensures r.Err? ==> r.error.Cycle? && NamesCycle(cands, G(), r.error.names)
      decreases |White()|, 1
    {
      hide KeyLess, NamesCycle, SortedByKey, Edge, Valid, StatesFit, G, White;
      NeedsFit(candidate);
      var edges := SortByKey(cands, deps[candidate]);
      SameElements(deps[candidate], edges);
      var i := 0;
      while i < |edges|
        modifies this`stack, this`order, state
        invariant 0 <= i <= |edges|
        invariant Valid() && StatesFit() && stack == old(stack)
        invariant old(order) <= order && White() <= old(White())
        invariant forall j :: 0 <= j < i ==> edges[j] in order
      {
        ghost var white := White();
        SubsetSize(white, old(White()));
        assert edges[i] in deps[candidate];
        NeedIsEdge(candidate, edges[i]);
        r := Visit(edges[i]);
        if r.Err? {
          return;
        }
        NeedsFit(candidate);
        i := i + 1;
      }
      return Ok(());
    }

    method VisitAll(roots: seq<nat>) returns (r: Result<(), DependencyError>)
      requires Valid() && stack == [] && forall i :: 0 <= i < |roots| ==> roots[i] in deps
      modifies this`stack, this`order, state
      ensures r.Ok? ==> Distinct(order) && OrderClosed() && forall c :: c in order ==> c in deps
      ensures r.Ok? ==> forall i :: 0 <= i < |roots| ==> roots[i] in order
      ensures r.Err? ==> r.error.Cycle? && NamesCycle(cands, G(), r.error.names)
    {
      hide NamesCycle;
      var j := 0;
      while j < |roots|
        modifies this`stack, this`order, state
        invariant 0 <= j <= |roots|
        invariant Valid() && stack == []
        invariant forall k :: 0 <= k < j ==> roots[k] in order
      {
        r := Visit(roots[j]);
        if r.Err? {
          return;
        }
        j := j + 1;
      }
      return Ok(());
    }

    /** The names from the first visit of a candidate on the stack back to itself. */
    method TraceCycle(candidate: nat) returns (names: seq<string>)
      requires Valid() && candidate in stack
      requires Edge(G(), stack[|stack| - 1], candidate)
      ensures NamesCycle(cands, G(), names)
    {
      var start := 0;
      while stack[start] != candidate
        invariant 0 <= start < |stack| && candidate !in stack[..start]
        decreases |stack| - start
      {
        assert candidate in stack[start + 1..] by {
          assert stack == stack[..start] + [stack[start]] + stack[start + 1..];
        }
        start := start + 1;
      }
      ghost var path := stack[start..] + [candidate];
      assert Graphs.Cycle(G(), path) by {
        forall i | 0 <= i < |path| - 1 ensures Edge(G(), path[i], path[i + 1]) {
          assert i < |stack| - start - 1 ==> Edge(G(), stack[start + i], stack[start + i + 1]);
        }
      }
      assert forall i :: start <= i < |stack| ==> stack[i] in stack;
      assert Indexes(cands, path);
      names := NamesOf(cands, stack[start..]) + [cands[candidate].package];
      assert names == NamesOf(cands, path);
    }

    method Enter(candidate: nat)
      requires Valid() && candidate in deps && state[candidate] == 0
      requires stack == [] || Edge(G(), stack[|stack| - 1], candidate)
      modifies this`stack, state
      ensures Valid() && stack == old(stack) + [candidate] && order == old(order)
      ensures White() == old(White()) - {candidate} && candidate in old(White())
    {
      state[candidate] := 1;
      stack := stack + [candidate];
    }

    method Leave(candidate: nat)
      requires Valid() && candidate in deps && stack != [] && stack[|stack| - 1] == candidate
      requires forall d :: d in deps[candidate] ==> d in order
      modifies this`stack, this`order, state
      ensures Valid() && stack == old(stack)[..|old(stack)| - 1] && order == old(order) + [candidate]
      ensures White() == old(White())
    {
      var top := |stack| - 1;
      assert stack == stack[..top] + [candidate];
      assert candidate !in order;
      stack := stack[..top];
      assert candidate !in stack;
      state[candidate] := 2;
      order := order + [candidate];
      forall p | 0 <= p < |order|
        ensures order[p] in deps && forall d :: d in deps[order[p]] ==> d in order[..p]
      {
        assert p < top ==> order[..p] == old(order)[..p];
        assert order[..p] == old(order)[..p];
      }
    }
  }

  // ----- the whole ordering -----

  ghost predicate AllMet(cands: seq<ResolutionCandidate>, s: seq<nat>)
    requires Indexes(cands, s)
  {
    forall c :: c in s ==> MetUpTo(cands, s, c, |cands[c].metadata.requirements|)
  }

  /** A permutation of the selection in which everything a candidate needs comes no later than it. */
  ghost predicate DependencyFirst(cands: seq<ResolutionCandidate>, s: seq<nat>, order: seq<nat>) {
    && multiset(order) == multiset(s)
    && Indexes(cands, order)
    && forall p :: 0 <= p < |order| ==> MetByPrefix(cands, order, p)
  }

  ghost predicate MetUpTo(cands: seq<ResolutionCandidate>, s: seq<nat>, c: nat, n: nat)
    requires Indexes(cands, s) && c < |cands| && n <= |cands[c].metadata.requirements|
  {
    forall k :: 0 <= k < n ==> ChosenFor(cands, s, cands[c].metadata.requirements[k]).Some?
  }

  method ChosenEdgesOf(cands: seq<ResolutionCandidate>, s: seq<nat>, c: nat) returns (r: Option<seq<nat>>)
    requires Indexes(cands, s) && c in s
    ensures r.Some? <==> MetUpTo(cands, s, c, |cands[c].metadata.requirements|)
    ensures r.Some? ==> Elements(r.value) == ChosenEdges(cands, s, c, |cands[c].metadata.requirements|)
  {
    hide ChosenFor, Meets;
    var edges: seq<nat> := [];
    var requirements := cands[c].metadata.requirements;
    var i := 0;
    while i < |requirements|
      invariant 0 <= i <= |requirements|
      invariant MetUpTo(cands, s, c, i)
      invariant Elements(edges) == ChosenEdges(cands, s, c, i)
    {
      var dependency := ChosenFor(cands, s, requirements[i]);
      ChosenForMeets(cands, s, requirements[i]);
      if dependency.None? {
        return None;
      }
      if dependency.value != c && dependency.value in s {
        InsertAscendingElements(edges, dependency.value);
        edges := InsertAscending(edges, dependency.value);
      }
      i := i + 1;
    }
    return Some(edges);
  }

  method DependencyOrder(cands: seq<ResolutionCandidate>, selected: seq<nat>)
    returns (r: Result<seq<nat>, DependencyError>)
    requires Indexes(cands, selected) && Distinct(selected)
    ensures r == Err(Unsatisfiable) <==> !AllMet(cands, selected)
    ensures r.Err? ==> r.error.Unsatisfiable? || r.error.Cycle?
    ensures r.Ok? ==> DependencyFirst(cands, selected, r.value) && Acyclic(ChosenGraph(cands, selected))
    ensures r.Err? && r.error.Cycle? ==> NamesCycle(cands, ChosenGraph(cands, selected), r.error.names)
  {
    hide ChosenFor, AllMet, EdgesChosen, ChosenGraph, DependenciesChosen;
    var deps := ChosenDependencies(cands, selected);
    if deps.None? {
      return Err(Unsatisfiable);
    }
    DependenciesFit(cands, selected, deps.value);
    var visitor := new Visitor(cands, deps.value);
    var roots := SortByKey(cands, selected);
    SameElements(selected, roots);
    assert forall i :: 0 <= i < |roots| ==> roots[i] in roots;
    var visited := visitor.VisitAll(roots);
    if visited.Err? {
      return Err(visited.error);
    }
    r := Ok(visitor.order);
    forall c | c in selected ensures c in visitor.order {
      var i :| 0 <= i < |roots| && roots[i] == c;
    }
    OrderIsDependencyFirst(cands, selected, deps.value, visitor.order);
  }

  ghost predicate DependenciesChosen(cands: seq<ResolutionCandidate>, s: seq<nat>, deps: map<nat, seq<nat>>)
    requires Indexes(cands, s)
  {
    forall c :: c in deps ==> EdgesChosen(cands, s, c, deps[c])
  }

  method ChosenDependencies(cands: seq<ResolutionCandidate>, s: seq<nat>) returns (r: Option<map<nat, seq<nat>>>)
    requires Indexes(cands, s)
    ensures r.Some? <==> AllMet(cands, s)
    ensures r.Some? ==> (forall c :: c in r.value <==> c in s) && DependenciesChosen(cands, s, r.value)
  {
    hide ChosenFor, MetUpTo, ChosenEdges;
    var deps: map<nat, seq<nat>> := map[];
    var i := 0;
    while i < |s|
      invariant 0 <= i <= |s|
      invariant forall c :: c in deps <==> c in s[..i]
      invariant DependenciesChosen(cands, s, deps)
    {
      var edges := ChosenEdgesOf(cands, s, s[i]);
      if edges.None? {
        return None;
      }
      assert s[..i + 1] == s[..i] + [s[i]];
      deps := deps[s[i] := edges.value];
      i := i + 1;
    }
    assert s[..i] == s;
    assert forall c :: c in s ==> c in deps && EdgesChosen(cands, s, c, deps[c]);
    return Some(deps);
  }

  lemma DependenciesFit(cands: seq<ResolutionCandidate>, s: seq<nat>, deps: map<nat, seq<nat>>)
    requires Indexes(cands, s) && (forall c :: c in deps <==> c in s) && DependenciesChosen(cands, s, deps)
    ensures AdjacencyGraph(deps) == ChosenGraph(cands, s)
    ensures forall c :: c in deps ==> c < |cands| && forall d :: d in deps[c] ==> d in deps
  {
    hide ChosenFor;
    assert forall c :: c in deps ==> EdgesChosen(cands, s, c, deps[c]);
    forall c, d | c in deps && d in deps[c] ensures d in deps {
      assert d in Elements(deps[c]);
      ChosenEdgesHold(cands, s, c, |cands[c].metadata.requirements|, d);
      var k :| 0 <= k < |cands[c].metadata.requirements| && ChosenEdge(cands, s, c, k, d);
      ChosenForMeets(cands, s, cands[c].metadata.requirements[k]);
    }
  }

  ghost predicate EdgesChosen(cands: seq<ResolutionCandidate>, s: seq<nat>, c: nat, edges: seq<nat>)
    requires Indexes(cands, s)
  {
    && c in s
    && Elements(edges) == ChosenEdges(cands, s, c, |cands[c].metadata.requirements|)
    && MetUpTo(cands, s, c, |cands[c].metadata.requirements|)
  }

  lemma OrderIsDependencyFirst(cands: seq<ResolutionCandidate>, s: seq<nat>, deps: map<nat, seq<nat>>, order: seq<nat>)
    requires Indexes(cands, s) && Distinct(s) && Distinct(order)
    requires forall c :: c in deps <==> c in s
    requires forall c :: c in order <==> c in s
    requires DependenciesChosen(cands, s, deps)
    requires forall p :: 0 <= p < |order| ==> forall d :: d in deps[order[p]] ==> d in order[..p]
    requires AdjacencyGraph(deps) == ChosenGraph(cands, s)
    ensures DependencyFirst(cands, s, order)
    ensures Acyclic(ChosenGraph(cands, s))
  {
    hide ChosenFor, MetUpTo, ChosenEdges, ChosenGraph, MetWithin;
    SameMultiset(s, order);
    MembersAreIndexes(cands, order);
    forall p, k | 0 <= p < |order| && 0 <= k < |cands[order[p]].metadata.requirements|
      ensures MetWithin(cands, order, p, cands[order[p]].metadata.requirements[k])
    {
      assert order[p] in order;
      assert EdgesChosen(cands, s, order[p], deps[order[p]]);
      ChosenComesFirst(cands, s, deps[order[p]], order, p, k);
    }
    RankedByPosition(deps, order);
  }

  lemma ChosenComesFirst(cands: seq<ResolutionCandidate>, s: seq<nat>, edges: seq<nat>, order: seq<nat>, p: nat, k: nat)
    requires Indexes(cands, s) && Indexes(cands, order) && p < |order|
    requires EdgesChosen(cands, s, order[p], edges)
    requires k < |cands[order[p]].metadata.requirements|
    requires forall d :: d in edges ==> d in order[..p]
    ensures MetWithin(cands, order, p, cands[order[p]].metadata.requirements[k])
  {
    hide ChosenFor;
    var c := order[p];
    ChosenForMeets(cands, s, cands[c].metadata.requirements[k]);
    var d := ChosenFor(cands, s, cands[c].metadata.requirements[k]).value;
    if d != c {
      assert ChosenEdge(cands, s, c, k, d);
      ChosenEdgesHold(cands, s, c, |cands[c].metadata.requirements|, d);
      assert d in Elements(edges);
      var q :| 0 <= q < p && order[..p][q] == d;
      assert order[q] == d;
    }
  }

  lemma RankedByPosition(deps: map<nat, seq<nat>>, order: seq<nat>)
    requires Distinct(order)
    requires forall c :: c in deps <==> c in order
    requires forall p :: 0 <= p < |order| ==> forall d :: d in deps[order[p]] ==> d in order[..p]
    ensures Acyclic(AdjacencyGraph(deps))
  {
    var rank := map c | c in order :: Position(order, c);
    forall a, b | Edge(AdjacencyGraph(deps), a, b) ensures a in rank && b in rank && rank[b] < rank[a] {
      var p := Position(order, a);
      assert b in deps[order[p]];
      var q :| 0 <= q < p && order[..p][q] == b;
      assert order[q] == b && q == Position(order, b);
    }
    RankedIsAcyclic(AdjacencyGraph(deps), rank);
  }

  lemma {:induction false} SameMultiset(s: seq<nat>, t: seq<nat>)
    requires Distinct(s) && Distinct(t)
    requires forall x :: x in s <==> x in t
    ensures multiset(s) == multiset(t)
  {
    forall x ensures multiset(s)[x] == multiset(t)[x] {
      DistinctOnce(s, x);
      DistinctOnce(t, x);
      assert x in s <==> x in multiset(s);
      assert x in t <==> x in multiset(t);
    }
  }
}
