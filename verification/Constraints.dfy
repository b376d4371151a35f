/** The constraint builder of src/alchemist.rs: package constraints become clauses, wholly or not at all. */
module Constraints {
  import opened Alchemist
  import opened Cnf
  import opened Results

  datatype PkgVar = PkgVar(nameHash: nat, versionIdx: nat, selected: bool)

  const NO_VAR := PkgVar(0, 0, false)

  /** Variable `id` stands for the version of the package. */
  predicate Has(vars: seq<PkgVar>, id: nat, h: nat, v: nat) {
    id < |vars| && vars[id].nameHash == h && vars[id].versionIdx == v
  }

  ghost predicate DistinctKeys(vars: seq<PkgVar>) {
    forall i, j :: 0 <= i < j < |vars| ==> vars[i].nameHash != vars[j].nameHash || vars[i].versionIdx != vars[j].versionIdx
  }

  /** The model installs the version of the package. */
  ghost predicate Picked(vars: seq<PkgVar>, m: seq<bool>, h: nat, v: nat) {
    exists id: nat :: Has(vars, id, h, v) && id < |m| && m[id]
  }

  lemma PickedIs(vars: seq<PkgVar>, m: seq<bool>, id: nat, h: nat, v: nat)
    requires DistinctKeys(vars) && Has(vars, id, h, v) && |vars| <= |m|
    ensures Picked(vars, m, h, v) <==> m[id]
  {
    if Picked(vars, m, h, v) {
      var other: nat :| Has(vars, other, h, v) && other < |m| && m[other];
      assert other == id;
    }
  }

  /** Later variables do not change what is picked of a known one. */
  lemma PickedStays(vars: seq<PkgVar>, more: seq<PkgVar>, m: seq<bool>, id: nat, h: nat, v: nat)
    requires DistinctKeys(more) && vars <= more && Has(vars, id, h, v) && |more| <= |m|
    ensures Picked(vars, m, h, v) <==> Picked(more, m, h, v)
  {
    forall i, j | 0 <= i < j < |vars|
      ensures vars[i].nameHash != vars[j].nameHash || vars[i].versionIdx != vars[j].versionIdx
    {
      assert more[i] == vars[i] && more[j] == vars[j];
    }
    PickedIs(vars, m, id, h, v);
    PickedIs(more, m, id, h, v);
  }

  predicate StrictlyIncreasing(values: seq<nat>) {
    forall i :: 0 <= i < |values| - 1 ==> values[i] < values[i + 1]
  }

  /** Each of the values is smaller than all behind it. */
  lemma {:induction false} IncreasingThroughout(values: seq<nat>)
    ensures StrictlyIncreasing(values) <==> forall i, j :: 0 <= i < j < |values| ==> values[i] < values[j]
  {
    if |values| <= 1 {
    } else {
      var front, n := values[..|values| - 1], |values| - 1;
      IncreasingThroughout(front);
      if StrictlyIncreasing(values) {
        assert StrictlyIncreasing(front);
        assert values[n - 1] < values[n];
        forall i, j | 0 <= i < j < |values| ensures values[i] < values[j] {
          assert i < n - 1 ==> front[i] < front[n - 1];
          assert j < n ==> front[i] < front[j];
        }
      }
    }
  }

  /** A version of a package. */
  datatype Key = Key(h: nat, v: nat)

  /** The variables after a version is looked up or added, if there is room. */
  ghost function WithKey(vars: seq<PkgVar>, k: Key): Option<seq<PkgVar>> {
    if exists id: nat :: Has(vars, id, k.h, k.v) then Some(vars)
    else if |vars| >= MAX_PACKAGES then None
    else Some(vars + [PkgVar(k.h, k.v, false)])
  }

  ghost function WithKeys(vars: seq<PkgVar>, keys: seq<Key>): Option<seq<PkgVar>>
    decreases |keys|
  {
    if keys == [] then Some(vars)
    else if WithKey(vars, keys[0]).None? then None
    else WithKeys(WithKey(vars, keys[0]).value, keys[1..])
  }

  lemma WithOne(vars: seq<PkgVar>, a: Key, rest: seq<Key>)
    ensures WithKeys(vars, [a] + rest) == if WithKey(vars, a).Some? then WithKeys(WithKey(vars, a).value, rest) else None
    ensures WithKeys(vars, [a]) == WithKey(vars, a)
  {
    assert ([a] + rest)[1..] == rest && [a][1..] == [];
  }

  lemma WithTwo(vars: seq<PkgVar>, a: Key, b: Key, rest: seq<Key>)
    ensures WithKeys(vars, [a, b] + rest) ==
            if WithKeys(vars, [a, b]).Some? then WithKeys(WithKeys(vars, [a, b]).value, rest) else None
  {
    hide WithKeys, WithKey;
    WithOne(vars, a, [b] + rest);
    WithOne(vars, a, [b]);
    assert [a] + ([b] + rest) == [a, b] + rest && [a] + [b] == [a, b];
    if WithKey(vars, a).Some? {
      WithOne(WithKey(vars, a).value, b, rest);
    }
  }

  class VariableRegistry {
    const vars: array<PkgVar>
    var count: nat

    constructor ()
      ensures Valid() && Vars() == [] && fresh(vars)
    {
      vars, count := new PkgVar[MAX_PACKAGES](_ => NO_VAR), 0;
    }

    ghost predicate Valid()
      reads this, vars
    {
      && vars.Length == MAX_PACKAGES && count <= MAX_PACKAGES && DistinctKeys(vars[..count])
      && forall i :: count <= i < MAX_PACKAGES ==> vars[i] == NO_VAR
    }

    ghost function Vars(): seq<PkgVar>
      requires Valid()
      reads this, vars
    {
      vars[..count]
    }

    /** The variable of a package version, a new one if it has none and there is room. */
    method Intern(h: nat, v: nat) returns (id: Option<nat>)
      requires Valid()
      modifies this, vars
      ensures Valid()
      ensures id.Some? ==> Has(Vars(), id.value, h, v) && old(Vars()) <= Vars()
      ensures id.Some? ==> Vars() == old(Vars()) || Vars() == old(Vars()) + [PkgVar(h, v, false)]
      ensures id.None? ==> Vars() == old(Vars())
      ensures WithKey(old(Vars()), Key(h, v)) == if id.Some? then Some(Vars()) else None
    {
      for i := 0 to count
        invariant forall k :: 0 <= k < i ==> !Has(vars[..count], k, h, v)
      {
        if vars[i].nameHash == h && vars[i].versionIdx == v {
          assert Has(vars[..count], i, h, v);
          return Some(i);
        }
      }
      if count >= MAX_PACKAGES {
        return None;
      }
      ghost var was := vars[..count];
      assert forall i :: 0 <= i < |was| ==> !Has(was, i, h, v) && was[i] == vars[i];
      vars[count] := PkgVar(h, v, false);
      count := count + 1;
      assert vars[..count] == was + [PkgVar(h, v, false)];
      return Some(count - 1);
    }

    /** Forgets every variable from `n` on. */
    method Truncate(n: nat)
      requires Valid() && n <= count
      modifies this, vars
      ensures Valid() && Vars() == old(Vars())[..n]
    {
      ghost var was := vars[..count];
      forall i | n <= i < count {
        vars[i] := NO_VAR;
      }
      count := n;
      assert vars[..count] == was[..n];
    }
  }

  class ConstraintBuilder {
    const solver: DpllSolver
    const registry: VariableRegistry
    const hash: string -> nat

    constructor (solver: DpllSolver, registry: VariableRegistry, hash: string -> nat)
      ensures this.solver == solver && this.registry == registry && this.hash == hash
    {
      this.solver, this.registry, this.hash := solver, registry, hash;
    }

    ghost predicate Valid()
      reads solver`numClauses, solver`trailLen, solver.clauses, solver.activeVariables, registry, registry.vars
    {
      solver.Valid() && registry.Valid()
    }

    /** Keeps what was built, or takes it all back. */
    method Finish(registryCount: nat, clauseCount: nat, success: bool) returns (ok: bool)
      requires Valid() && registryCount <= |registry.Vars()| && clauseCount <= |solver.Clauses()|
      modifies solver`numClauses, solver.clauses, solver.activeVariables, registry, registry.vars
      ensures Valid() && ok == success
      ensures ok ==> solver.Clauses() == old(solver.Clauses()) && registry.Vars() == old(registry.Vars())
      ensures !ok ==> solver.Clauses() == old(solver.Clauses())[..clauseCount]
      ensures !ok ==> registry.Vars() == old(registry.Vars())[..registryCount]
    {
      if success {
        return true;
      }
      solver.TruncateClauses(clauseCount);
      registry.Truncate(registryCount);
      return false;
    }

    /** A unit clause for one version. */
    method BuildUnit(h: nat, v: nat) returns (built: bool, ghost id: nat)
      requires Valid()
      modifies solver`numClauses, solver.clauses, solver.activeVariables, registry, registry.vars
      ensures Valid() && old(registry.Vars()) <= registry.Vars() && old(solver.Clauses()) <= solver.Clauses()
      ensures built ==> Has(registry.Vars(), id, h, v)
      ensures built ==> solver.Clauses() == old(solver.Clauses()) + [Clause([Pos(id)], false)]
      ensures Builds(built, old(registry.Vars()), registry.Vars(), [Key(h, v)], |old(solver.Clauses())| + 1)
    {
      WithOne(registry.Vars(), Key(h, v), []);
      var found := registry.Intern(h, v);
      if found.None? {
        return false, 0;
      }
      id := found.value;
      var clause := EMPTY_CLAUSE.Push(Pos(found.value)).1;
      assert clause.lits == [Pos(id)];
      built := solver.AddClause(clause);
    }

    /** The clause that keeps two versions apart. */
    method BuildPair(h: nat, v: nat, g: nat, w: nat) returns (built: bool, ghost a: nat, ghost b: nat)
      requires Valid()
      modifies solver`numClauses, solver.clauses, solver.activeVariables, registry, registry.vars
      ensures Valid() && old(registry.Vars()) <= registry.Vars() && old(solver.Clauses()) <= solver.Clauses()
      ensures built ==> Has(registry.Vars(), a, h, v) && Has(registry.Vars(), b, g, w)
      ensures built ==> solver.Clauses() == old(solver.Clauses()) + [Clause([Neg(a), Neg(b)], false)]
      ensures Builds(built, old(registry.Vars()), registry.Vars(), [Key(h, v), Key(g, w)], |old(solver.Clauses())| + 1)
    {
      hide WithKeys, WithKey, DistinctKeys;
      WithOne(registry.Vars(), Key(h, v), [Key(g, w)]);
      assert [Key(h, v), Key(g, w)] == [Key(h, v)] + [Key(g, w)];
      a, b := 0, 0;
      var left := registry.Intern(h, v);
      if left.None? {
        return false, a, b;
      }
      WithOne(registry.Vars(), Key(g, w), []);
      var right := registry.Intern(g, w);
      if right.None? {
        return false, a, b;
      }
      a, b := left.value, right.value;
      var clause := EMPTY_CLAUSE.Push(Neg(left.value)).1.Push(Neg(right.value)).1;
      assert clause.lits == [Neg(a), Neg(b)];
      built := solver.AddClause(clause);
    }

    /** The clause of a dependency: its versions are interned newest first. */
    method BuildDependency(h: nat, v: nat, g: nat, options: seq<nat>)
      returns (built: bool, ghost a: nat, ghost ids: seq<nat>)
      requires Valid() && 0 < |options| < MAX_CLAUSE_LEN
      modifies solver`numClauses, solver.clauses, solver.activeVariables, registry, registry.vars
      ensures Valid() && old(registry.Vars()) <= registry.Vars() && old(solver.Clauses()) <= solver.Clauses()
      ensures built ==> Has(registry.Vars(), a, h, v) && AllHave(registry.Vars(), ids, g, options)
      ensures built ==> solver.Clauses() == old(solver.Clauses()) + [DependencyClause(a, ids)]
      ensures Builds(built, old(registry.Vars()), registry.Vars(), [Key(h, v)] + NewestFirst(g, options),
                     |old(solver.Clauses())| + 1)
    {
      hide DistinctKeys, AllHave, DependencyClause, WithKeys, WithKey, NewestFirst;
      built, a, ids := false, 0, [];
      WithOne(registry.Vars(), Key(h, v), NewestFirst(g, options));
      var dependent := registry.Intern(h, v);
      if dependent.None? {
        return;
      }
      a := dependent.value;
      var clause;
      clause, ids := AddOptions(dependent.value, h, v, g, options);
      if clause.None? {
        return;
      }
      AllInRange(registry.Vars(), a, h, v, ids, g, options);
      built := solver.AddClause(clause.value);
    }

    /** Interns the options newest first and adds their literals to the clause. */
    method AddOptions(a: nat, ghost h: nat, ghost v: nat, g: nat, options: seq<nat>)
      returns (r: Option<Clause>, ghost ids: seq<nat>)
      requires registry.Valid() && 0 < |options| < MAX_CLAUSE_LEN && Has(registry.Vars(), a, h, v)
      modifies registry, registry.vars
      ensures registry.Valid() && old(registry.Vars()) <= registry.Vars()
      ensures WithKeys(old(registry.Vars()), NewestFirst(g, options)) == if r.Some? then Some(registry.Vars()) else None
      ensures r.Some? ==> Has(registry.Vars(), a, h, v) && AllHave(registry.Vars(), ids, g, options)
      ensures r.Some? ==> r.value == DependencyClause(a, ids)
    {
      hide DistinctKeys, AllHave, DependencyClause, WithKeys, WithKey, NewestFirst;
      ghost var all := WithKeys(registry.Vars(), NewestFirst(g, options));
      var clause := EMPTY_CLAUSE.Push(Neg(a)).1;
      ids := [];
      NoOptions(a);
      NoneHave(registry.Vars(), g);
      assert options[|options|..] == [] && options[..|options|] == options;
      var k := |options|;
      while k > 0
        modifies registry, registry.vars
        invariant 0 <= k <= |options| && registry.Valid() && old(registry.Vars()) <= registry.Vars()
        invariant Has(registry.Vars(), a, h, v) && AllHave(registry.Vars(), ids, g, options[k..]) && |ids| == |options| - k
        invariant clause == DependencyClause(a, ids)
        invariant all == WithKeys(registry.Vars(), NewestFirst(g, options[..k]))
      {
        NewestIsFirst(g, options, k - 1);
        WithOne(registry.Vars(), Key(g, options[k - 1]), NewestFirst(g, options[..k - 1]));
        k := k - 1;
        ghost var vars := registry.Vars();
        var version := registry.Intern(g, options[k]);
        if version.None? {
          return None, ids;
        }
        AllHaveNext(vars, registry.Vars(), ids, g, options[k + 1..], version.value, options[k]);
        assert [options[k]] + options[k + 1..] == options[k..];
        DependencyNext(a, ids, version.value);
        clause := clause.Push(Pos(version.value)).1;
        ids := [version.value] + ids;
      }
      assert options[0..] == options && options[..0] == [];
      WithNone(registry.Vars(), g);
      return Some(clause), ids;
    }

    /** The version must be installed. */
    method Require(name: string, v: nat) returns (ok: bool)
      requires Valid()
      modifies solver`numClauses, solver.clauses, solver.activeVariables, registry, registry.vars
      ensures Valid() && old(registry.Vars()) <= registry.Vars()
      ensures !ok ==> solver.Clauses() == old(solver.Clauses()) && registry.Vars() == old(registry.Vars())
      ensures Builds(ok, old(registry.Vars()), registry.Vars(), [Key(hash(name), v)],
                     |old(solver.Clauses())| + 1)
      ensures ok ==> forall m :: |m| == MAX_PACKAGES ==>
                (IsModel(m, solver.Clauses()) <==> IsModel(m, old(solver.Clauses())) && Picked(registry.Vars(), m, hash(name), v))
    {
      var registryCount, clauseCount := registry.count, solver.numClauses;
      ghost var before := solver.Clauses();
      var built; ghost var id;
      built, id := BuildUnit(hash(name), v);
      if built {
        forall m | |m| == MAX_PACKAGES
          ensures IsModel(m, solver.Clauses()) <==> IsModel(m, before) && Picked(registry.Vars(), m, hash(name), v)
        {
          PickedIs(registry.Vars(), m, id, hash(name), v);
          ModelsAppend(m, before, Clause([Pos(id)], false));
          UnitHolds(m, id);
        }
      }
      ok := Finish(registryCount, clauseCount, built);
    }

    /** One version must not be installed along with another. */
    method Conflict(name: string, v: nat, other: string, w: nat) returns (ok: bool)
      requires Valid()
      modifies solver`numClauses, solver.clauses, solver.activeVariables, registry, registry.vars
      ensures Valid() && old(registry.Vars()) <= registry.Vars()
      ensures !ok ==> solver.Clauses() == old(solver.Clauses()) && registry.Vars() == old(registry.Vars())
      ensures Builds(ok, old(registry.Vars()), registry.Vars(), [Key(hash(name), v), Key(hash(other), w)],
                     |old(solver.Clauses())| + 1)
      ensures ok ==> forall m :: |m| == MAX_PACKAGES ==>
                (IsModel(m, solver.Clauses()) <==>
                 IsModel(m, old(solver.Clauses())) &&
                 !(Picked(registry.Vars(), m, hash(name), v) && Picked(registry.Vars(), m, hash(other), w)))
    {
      var registryCount, clauseCount := registry.count, solver.numClauses;
      ghost var before := solver.Clauses();
      var built; ghost var a, b;
      built, a, b := BuildPair(hash(name), v, hash(other), w);
      if built {
        forall m | |m| == MAX_PACKAGES
          ensures IsModel(m, solver.Clauses()) <==>
                  IsModel(m, before) &&
                  !(Picked(registry.Vars(), m, hash(name), v) && Picked(registry.Vars(), m, hash(other), w))
        {
          PickedIs(registry.Vars(), m, a, hash(name), v);
          PickedIs(registry.Vars(), m, b, hash(other), w);
          ModelsAppend(m, before, Clause([Neg(a), Neg(b)], false));
          PairHolds(m, a, b);
        }
      }
      ok := Finish(registryCount, clauseCount, built);
    }

    /** With one version installed, one of the listed versions of another package must be too. */
    method Dependency(name: string, v: nat, other: string, options: seq<nat>) returns (ok: bool)
      requires Valid()
      modifies solver`numClauses, solver.clauses, solver.activeVariables, registry, registry.vars
      ensures Valid() && old(registry.Vars()) <= registry.Vars()
      ensures !ok ==> solver.Clauses() == old(solver.Clauses()) && registry.Vars() == old(registry.Vars())
      ensures !Lists(options) ==> !ok
      ensures Lists(options) ==>
                Builds(ok, old(registry.Vars()), registry.Vars(), [Key(hash(name), v)] + NewestFirst(hash(other), options),
                       |old(solver.Clauses())| + 1)
      ensures ok ==> forall m :: |m| == MAX_PACKAGES ==>
                (IsModel(m, solver.Clauses()) <==>
                 IsModel(m, old(solver.Clauses())) &&
                 (Picked(registry.Vars(), m, hash(name), v) ==> AnyPicked(registry.Vars(), m, hash(other), options)))
    {
      if options == [] || |options| >= MAX_CLAUSE_LEN || !StrictlyIncreasing(options) {
        return false;
      }
      var registryCount, clauseCount := registry.count, solver.numClauses;
      ghost var before := solver.Clauses();
      var built; ghost var a, ids;
      built, a, ids := BuildDependency(hash(name), v, hash(other), options);
      if built {
        forall m | |m| == MAX_PACKAGES
          ensures IsModel(m, solver.Clauses()) <==>
                  IsModel(m, before) &&
                  (Picked(registry.Vars(), m, hash(name), v) ==> AnyPicked(registry.Vars(), m, hash(other), options))
        {
          PickedIs(registry.Vars(), m, a, hash(name), v);
          AnyPickedIs(registry.Vars(), m, ids, hash(other), options);
          ModelsAppend(m, before, DependencyClause(a, ids));
          DependencyHolds(m, a, ids);
        }
      }
      ok := Finish(registryCount, clauseCount, built);
    }

    /** At most one of the versions may be installed: a clause for every pair. */
    method AtMostOneVersion(name: string, versions: seq<nat>) returns (ok: bool)
      requires Valid()
      modifies solver`numClauses, solver.clauses, solver.activeVariables, registry, registry.vars
      ensures Valid() && old(registry.Vars()) <= registry.Vars()
      ensures !ok ==> solver.Clauses() == old(solver.Clauses()) && registry.Vars() == old(registry.Vars())
      ensures !StrictlyIncreasing(versions) ==> !ok
      ensures StrictlyIncreasing(versions) ==>
                Builds(ok, old(registry.Vars()), registry.Vars(), PairKeys(hash(name), versions, 0),
                       |old(solver.Clauses())| + |PairKeys(hash(name), versions, 0)| / 2)
      ensures ok ==> forall m :: |m| == MAX_PACKAGES ==>
                (IsModel(m, solver.Clauses()) <==>
                 IsModel(m, old(solver.Clauses())) && Apart(registry.Vars(), m, hash(name), versions, |versions|, 0))
    {
      if !StrictlyIncreasing(versions) {
        return false;
      }
      var registryCount, clauseCount := registry.count, solver.numClauses;
      var built := BuildPairs(hash(name), versions);
      ok := Finish(registryCount, clauseCount, built);
    }

    method BuildPairs(h: nat, versions: seq<nat>) returns (built: bool)
      requires Valid()
      modifies solver`numClauses, solver.clauses, solver.activeVariables, registry, registry.vars
      ensures Valid() && old(registry.Vars()) <= registry.Vars() && old(solver.Clauses()) <= solver.Clauses()
      ensures built ==> forall m :: |m| == MAX_PACKAGES ==>
                (IsModel(m, solver.Clauses()) <==>
                 IsModel(m, old(solver.Clauses())) && Apart(registry.Vars(), m, h, versions, |versions|, 0))
      ensures Builds(built, old(registry.Vars()), registry.Vars(), PairKeys(h, versions, 0),
                     |old(solver.Clauses())| + |PairKeys(h, versions, 0)| / 2)
    {
      hide Apart, IsModel, WithKeys, WithKey, Interned, RowKeys, PairKeys;
      ghost var before, start := solver.Clauses(), registry.Vars();
      ghost var all := PairKeys(h, versions, 0);
      NothingApart(start, h, versions);
      var i := 0;
      while i < |versions|
        modifies solver`numClauses, solver.clauses, solver.activeVariables, registry, registry.vars
        invariant 0 <= i <= |versions| && Valid() && before <= solver.Clauses() && start <= registry.Vars()
        invariant KeptApart(before, solver.Clauses(), registry.Vars(), h, versions, i, i)
        invariant WithKeys(start, all) == WithKeys(registry.Vars(), PairKeys(h, versions, i))
        invariant |before| + |all| / 2 == |solver.Clauses()| + |PairKeys(h, versions, i)| / 2
      {
        built := BuildRow(h, versions, i, before);
        if !built {
          return;
        }
        i := i + 1;
      }
      LastRow(before, solver.Clauses(), registry.Vars(), h, versions);
      WithNone(registry.Vars(), h);
      NoPairs(h, versions);
      built := true;
    }

    /** The clauses of one version against every later one. */
    method BuildRow(h: nat, versions: seq<nat>, i: nat, ghost before: seq<Clause>) returns (built: bool)
      requires Valid() && i < |versions| && before <= solver.Clauses()
      requires KeptApart(before, solver.Clauses(), registry.Vars(), h, versions, i, i)
      modifies solver`numClauses, solver.clauses, solver.activeVariables, registry, registry.vars
      ensures Valid() && old(registry.Vars()) <= registry.Vars() && old(solver.Clauses()) <= solver.Clauses()
      ensures built ==> KeptApart(before, solver.Clauses(), registry.Vars(), h, versions, i + 1, i + 1)
      ensures built ==> WithKeys(old(registry.Vars()), PairKeys(h, versions, i)) ==
                        WithKeys(registry.Vars(), PairKeys(h, versions, i + 1))
      ensures built ==> |old(solver.Clauses())| + |PairKeys(h, versions, i)| / 2 ==
                        |solver.Clauses()| + |PairKeys(h, versions, i + 1)| / 2
      ensures !built ==> WithKeys(old(registry.Vars()), PairKeys(h, versions, i)).None? ||
                         |old(solver.Clauses())| + |PairKeys(h, versions, i)| / 2 > MAX_CLAUSES
    {
      hide Apart, IsModel, WithKeys, WithKey, Interned, KeptApart, RowKeys, PairKeys, DistinctKeys;
      ghost var start, count := registry.Vars(), |solver.Clauses()|;
      ghost var all := PairKeys(h, versions, i);
      var j := i + 1;
      NextRow(before, solver.Clauses(), registry.Vars(), h, versions, i);
      PairsStart(h, versions, i);
      while j < |versions|
        modifies solver`numClauses, solver.clauses, solver.activeVariables, registry, registry.vars
        invariant i < j <= |versions| && Valid() && before <= solver.Clauses() && start <= registry.Vars()
        invariant old(solver.Clauses()) <= solver.Clauses()
        invariant KeptApart(before, solver.Clauses(), registry.Vars(), h, versions, i, j)
        invariant WithKeys(start, all) == WithKeys(registry.Vars(), Rest(h, versions, i, j))
        invariant count + |all| / 2 == |solver.Clauses()| + |Rest(h, versions, i, j)| / 2
      {
        ghost var clauses, vars := solver.Clauses(), registry.Vars();
        RestStarts(h, versions, i, j);
        WithTwo(vars, Key(h, versions[i]), Key(h, versions[j]), Rest(h, versions, i, j + 1));
        ghost var a, b;
        built, a, b := BuildPair(h, versions[i], h, versions[j]);
        if !built {
          return;
        }
        PairAdds(before, clauses, vars, registry.Vars(), h, versions, i, j, a, b);
        j := j + 1;
      }
      RowDone(before, solver.Clauses(), registry.Vars(), h, versions, i);
      RestEnds(h, versions, i);
      built := true;
    }
  }

  /** A constraint is built exactly when its versions have or get variables and its clauses fit. */
  ghost predicate Builds(ok: bool, vars: seq<PkgVar>, next: seq<PkgVar>, keys: seq<Key>, clauses: nat) {
    && (ok <==> WithKeys(vars, keys).Some? && clauses <= MAX_CLAUSES)
    && (ok ==> WithKeys(vars, keys) == Some(next))
  }

  /** The versions of a dependency in the order they get variables. */
  ghost function NewestFirst(g: nat, options: seq<nat>): seq<Key> {
    if options == [] then [] else [Key(g, options[|options| - 1])] + NewestFirst(g, options[..|options| - 1])
  }

  lemma NewestIsFirst(g: nat, options: seq<nat>, k: nat)
    requires k < |options|
    ensures NewestFirst(g, options[..k + 1]) == [Key(g, options[k])] + NewestFirst(g, options[..k])
  {
    assert options[..k + 1][..k] == options[..k];
  }

  lemma WithNone(vars: seq<PkgVar>, g: nat)
    ensures NewestFirst(g, []) == [] && WithKeys(vars, []) == Some(vars)
  {
  }

  lemma AllInRange(vars: seq<PkgVar>, a: nat, h: nat, v: nat, ids: seq<nat>, g: nat, options: seq<nat>)
    requires |vars| <= MAX_PACKAGES && Has(vars, a, h, v) && AllHave(vars, ids, g, options) && |options| < MAX_CLAUSE_LEN
    ensures InRange(DependencyClause(a, ids))
  {
    var c := DependencyClause(a, ids);
    forall k | 0 <= k < |c.lits| ensures c.lits[k].v < MAX_PACKAGES {
      if k > 0 {
        assert c.lits[k] == Pos(ids[|ids| - k]) && Has(vars, ids[|ids| - k], g, options[|ids| - k]);
      }
    }
  }

  predicate Lists(options: seq<nat>) {
    0 < |options| < MAX_CLAUSE_LEN && StrictlyIncreasing(options)
  }

  /** The pairs of row `i` from column `j` on. */
  ghost function RowKeys(h: nat, versions: seq<nat>, i: nat, j: nat): seq<Key>
    requires i < |versions|
    decreases |versions| - j
  {
    if j >= |versions| then [] else [Key(h, versions[i]), Key(h, versions[j])] + RowKeys(h, versions, i, j + 1)
  }

  /** The pairs from row `i` on. */
  ghost function PairKeys(h: nat, versions: seq<nat>, i: nat): (keys: seq<Key>)
    decreases |versions| - i
  {
    if i >= |versions| then [] else RowKeys(h, versions, i, i + 1) + PairKeys(h, versions, i + 1)
  }

  /** The pairs from row `i`, column `j` on. */
  ghost function Rest(h: nat, versions: seq<nat>, i: nat, j: nat): seq<Key>
    requires i < |versions|
  {
    RowKeys(h, versions, i, j) + PairKeys(h, versions, i + 1)
  }

  lemma PairsStart(h: nat, versions: seq<nat>, i: nat)
    requires i < |versions|
    ensures PairKeys(h, versions, i) == Rest(h, versions, i, i + 1)
  {
  }

  lemma RestStarts(h: nat, versions: seq<nat>, i: nat, j: nat)
    requires i < j < |versions|
    ensures Rest(h, versions, i, j) == [Key(h, versions[i]), Key(h, versions[j])] + Rest(h, versions, i, j + 1)
  {
    hide PairKeys;
    var a, b := [Key(h, versions[i]), Key(h, versions[j])], RowKeys(h, versions, i, j + 1);
    assert RowKeys(h, versions, i, j) == a + b;
  }

  lemma RestEnds(h: nat, versions: seq<nat>, i: nat)
    requires i < |versions|
    ensures Rest(h, versions, i, |versions|) == PairKeys(h, versions, i + 1)
  {
    hide PairKeys;
  }

  lemma NoPairs(h: nat, versions: seq<nat>)
    ensures PairKeys(h, versions, |versions|) == []
  {
  }

  // ----- what the clauses say -----

  lemma ModelsAppend(m: seq<bool>, cs: seq<Clause>, c: Clause)
    ensures IsModel(m, cs + [c]) <==> IsModel(m, cs) && ClauseHolds(c, m)
  {
    assert forall i :: 0 <= i < |cs| ==> (cs + [c])[i] == cs[i];
    assert (cs + [c])[|cs|] == c;
  }

  lemma UnitHolds(m: seq<bool>, id: nat)
    requires id < |m|
    ensures ClauseHolds(Clause([Pos(id)], false), m) <==> m[id]
  {
    var c := Clause([Pos(id)], false);
    assert LitHolds(c.lits[0], m) <==> m[id];
  }

  lemma PairHolds(m: seq<bool>, a: nat, b: nat)
    requires a < |m| && b < |m|
    ensures ClauseHolds(Clause([Neg(a), Neg(b)], false), m) <==> !(m[a] && m[b])
  {
    var c := Clause([Neg(a), Neg(b)], false);
    assert LitHolds(c.lits[0], m) <==> !m[a];
    assert LitHolds(c.lits[1], m) <==> !m[b];
  }

  /** Not `a`, or one of the others, the last of `ids` first. */
  function DependencyClause(a: nat, ids: seq<nat>): (c: Clause)
    ensures |c.lits| == |ids| + 1
  {
    Clause([Neg(a)] + seq(|ids|, k requires 0 <= k < |ids| => Pos(ids[|ids| - 1 - k])), false)
  }

  lemma NoOptions(a: nat)
    ensures EMPTY_CLAUSE.Push(Neg(a)).1 == DependencyClause(a, [])
  {
  }

  lemma DependencyNext(a: nat, ids: seq<nat>, id: nat)
    requires |ids| + 1 < MAX_CLAUSE_LEN
    ensures DependencyClause(a, [id] + ids) == DependencyClause(a, ids).Push(Pos(id)).1
  {
    assert DependencyClause(a, [id] + ids).lits == DependencyClause(a, ids).lits + [Pos(id)];
  }

  lemma DependencyHolds(m: seq<bool>, a: nat, ids: seq<nat>)
    requires a < |m| && forall k :: 0 <= k < |ids| ==> ids[k] < |m|
    ensures ClauseHolds(DependencyClause(a, ids), m) <==> (m[a] ==> exists k :: 0 <= k < |ids| && m[ids[k]])
  {
    var c := DependencyClause(a, ids);
    assert LitHolds(c.lits[0], m) <==> !m[a];
    if k :| 0 <= k < |ids| && m[ids[k]] {
      assert c.lits[|ids| - k] == Pos(ids[k]);
      assert LitHolds(c.lits[|ids| - k], m);
    }
    if k :| 0 < k < |c.lits| && LitHolds(c.lits[k], m) {
      assert c.lits[k] == Pos(ids[|ids| - k]);
    }
  }

  ghost predicate AllHave(vars: seq<PkgVar>, ids: seq<nat>, h: nat, versions: seq<nat>) {
    |ids| == |versions| && forall k :: 0 <= k < |ids| ==> Has(vars, ids[k], h, versions[k])
  }

  lemma NoneHave(vars: seq<PkgVar>, h: nat)
    ensures AllHave(vars, [], h, [])
  {
  }

  lemma AllHaveNext(vars: seq<PkgVar>, more: seq<PkgVar>, ids: seq<nat>, h: nat, versions: seq<nat>, id: nat, v: nat)
    requires AllHave(vars, ids, h, versions) && vars <= more && Has(more, id, h, v)
    ensures AllHave(more, [id] + ids, h, [v] + versions)
  {
    assert forall k :: 0 <= k < |vars| ==> more[k] == vars[k];
  }

  ghost predicate AnyPicked(vars: seq<PkgVar>, m: seq<bool>, h: nat, versions: seq<nat>) {
    exists k :: 0 <= k < |versions| && Picked(vars, m, h, versions[k])
  }

  lemma AnyPickedIs(vars: seq<PkgVar>, m: seq<bool>, ids: seq<nat>, h: nat, versions: seq<nat>)
    requires DistinctKeys(vars) && AllHave(vars, ids, h, versions) && |vars| <= |m|
    ensures AnyPicked(vars, m, h, versions) <==> exists k :: 0 <= k < |ids| && m[ids[k]]
  {
    forall k | 0 <= k < |ids| ensures Picked(vars, m, h, versions[k]) <==> m[ids[k]] {
      PickedIs(vars, m, ids[k], h, versions[k]);
    }
  }

  // ----- pairs -----

  /** The pairs before row `i`, column `j`. */
  predicate Before(x: nat, y: nat, i: nat, j: nat) {
    x < y && (x < i || (x == i && y < j))
  }

  /** No pair up to there is picked together. */
  ghost predicate Apart(vars: seq<PkgVar>, m: seq<bool>, h: nat, versions: seq<nat>, i: nat, j: nat) {
    forall x: nat, y: nat :: x < y < |versions| && Before(x, y, i, j) ==>
      !(Picked(vars, m, h, versions[x]) && Picked(vars, m, h, versions[y]))
  }

  /** Both versions have variables. */
  ghost predicate Known(vars: seq<PkgVar>, h: nat, v: nat, w: nat) {
    (exists id: nat :: Has(vars, id, h, v)) && exists id: nat :: Has(vars, id, h, w)
  }

  /** The versions of the pairs up to there have variables. */
  ghost predicate Interned(vars: seq<PkgVar>, h: nat, versions: seq<nat>, i: nat, j: nat) {
    forall x: nat, y: nat :: x < y < |versions| && Before(x, y, i, j) ==> Known(vars, h, versions[x], versions[y])
  }

  /** The clauses have the models from before in which no pair up to there is picked together. */
  ghost predicate KeptApart(before: seq<Clause>, clauses: seq<Clause>, vars: seq<PkgVar>, h: nat, versions: seq<nat>,
                            i: nat, j: nat) {
    && Interned(vars, h, versions, i, j)
    && forall m :: |m| == MAX_PACKAGES ==>
         (IsModel(m, clauses) <==> IsModel(m, before) && Apart(vars, m, h, versions, i, j))
  }

  lemma NothingApart(vars: seq<PkgVar>, h: nat, versions: seq<nat>)
    ensures Interned(vars, h, versions, 0, 0) && forall m :: Apart(vars, m, h, versions, 0, 0)
  {
  }

  lemma SamePairs(vars: seq<PkgVar>, h: nat, versions: seq<nat>, i: nat, j: nat, k: nat, l: nat)
    requires forall x: nat, y: nat :: x < y < |versions| ==> (Before(x, y, i, j) <==> Before(x, y, k, l))
    ensures Interned(vars, h, versions, i, j) <==> Interned(vars, h, versions, k, l)
    ensures forall m :: Apart(vars, m, h, versions, i, j) <==> Apart(vars, m, h, versions, k, l)
  {
    hide Known, Picked, Before;
  }

  lemma NextRow(before: seq<Clause>, clauses: seq<Clause>, vars: seq<PkgVar>, h: nat, versions: seq<nat>, i: nat)
    requires KeptApart(before, clauses, vars, h, versions, i, i)
    ensures KeptApart(before, clauses, vars, h, versions, i, i + 1)
  {
    hide Known, Picked, IsModel;
    forall x: nat, y: nat | x < y < |versions|
      ensures Before(x, y, i, i) <==> Before(x, y, i, i + 1)
    {
    }
    SamePairs(vars, h, versions, i, i, i, i + 1);
  }

  lemma RowDone(before: seq<Clause>, clauses: seq<Clause>, vars: seq<PkgVar>, h: nat, versions: seq<nat>, i: nat)
    requires i < |versions|
    requires KeptApart(before, clauses, vars, h, versions, i, |versions|)
    ensures KeptApart(before, clauses, vars, h, versions, i + 1, i + 1)
  {
    hide Known, Picked, IsModel;
    forall x: nat, y: nat | x < y < |versions|
      ensures Before(x, y, i, |versions|) <==> Before(x, y, i + 1, i + 1)
    {
    }
    SamePairs(vars, h, versions, i, |versions|, i + 1, i + 1);
  }

  lemma LastRow(before: seq<Clause>, clauses: seq<Clause>, vars: seq<PkgVar>, h: nat, versions: seq<nat>)
    requires KeptApart(before, clauses, vars, h, versions, |versions|, |versions|)
    ensures forall m :: |m| == MAX_PACKAGES ==>
              (IsModel(m, clauses) <==> IsModel(m, before) && Apart(vars, m, h, versions, |versions|, 0))
  {
    hide Known, Picked, IsModel;
    forall x: nat, y: nat | x < y < |versions|
      ensures Before(x, y, |versions|, |versions|) <==> Before(x, y, |versions|, 0)
    {
    }
    SamePairs(vars, h, versions, |versions|, |versions|, |versions|, 0);
  }

  lemma ApartStays(vars: seq<PkgVar>, more: seq<PkgVar>, m: seq<bool>, h: nat, versions: seq<nat>, i: nat, j: nat)
    requires Interned(vars, h, versions, i, j) && vars <= more && DistinctKeys(more) && |more| <= |m|
    ensures Apart(vars, m, h, versions, i, j) <==> Apart(more, m, h, versions, i, j)
  {
    forall x: nat, y: nat | x < y < |versions| && Before(x, y, i, j)
      ensures Picked(vars, m, h, versions[x]) == Picked(more, m, h, versions[x])
      ensures Picked(vars, m, h, versions[y]) == Picked(more, m, h, versions[y])
    {
      var a: nat :| Has(vars, a, h, versions[x]);
      var b: nat :| Has(vars, b, h, versions[y]);
      PickedStays(vars, more, m, a, h, versions[x]);
      PickedStays(vars, more, m, b, h, versions[y]);
    }
  }

  /** One more pair's clause keeps the models that keep that pair apart. */
  lemma PairAdds(before: seq<Clause>, clauses: seq<Clause>, vars: seq<PkgVar>, more: seq<PkgVar>, h: nat,
                 versions: seq<nat>, i: nat, j: nat, a: nat, b: nat)
    requires i < j < |versions| && KeptApart(before, clauses, vars, h, versions, i, j)
    requires DistinctKeys(more) && vars <= more && |more| <= MAX_PACKAGES
    requires Has(more, a, h, versions[i]) && Has(more, b, h, versions[j])
    ensures KeptApart(before, clauses + [Clause([Neg(a), Neg(b)], false)], more, h, versions, i, j + 1)
  {
    hide Apart, IsModel, Interned, DistinctKeys;
    var c := Clause([Neg(a), Neg(b)], false);
    InternedNext(vars, more, h, versions, i, j, a, b);
    forall m | |m| == MAX_PACKAGES
      ensures IsModel(m, clauses + [c]) <==> IsModel(m, before) && Apart(more, m, h, versions, i, j + 1)
    {
      ModelsAppend(m, clauses, c);
      PairHolds(m, a, b);
      PickedIs(more, m, a, h, versions[i]);
      PickedIs(more, m, b, h, versions[j]);
      ApartStays(vars, more, m, h, versions, i, j);
      ApartNext(more, m, h, versions, i, j);
    }
  }

  lemma ApartNext(vars: seq<PkgVar>, m: seq<bool>, h: nat, versions: seq<nat>, i: nat, j: nat)
    requires i < j < |versions|
    ensures Apart(vars, m, h, versions, i, j + 1) <==>
            Apart(vars, m, h, versions, i, j) &&
            !(Picked(vars, m, h, versions[i]) && Picked(vars, m, h, versions[j]))
  {
    hide Picked;
    forall x: nat, y: nat ensures Before(x, y, i, j + 1) <==> Before(x, y, i, j) || (x == i && y == j) {
    }
    if Apart(vars, m, h, versions, i, j + 1) {
      assert Before(i, j, i, j + 1);
      assert forall x: nat, y: nat :: Before(x, y, i, j) ==> Before(x, y, i, j + 1);
    }
  }

  lemma InternedNext(vars: seq<PkgVar>, more: seq<PkgVar>, h: nat, versions: seq<nat>, i: nat, j: nat, a: nat, b: nat)
    requires Interned(vars, h, versions, i, j) && vars <= more && i < j < |versions|
    requires Has(more, a, h, versions[i]) && Has(more, b, h, versions[j])
    ensures Interned(more, h, versions, i, j + 1)
  {
    forall x: nat, y: nat | x < y < |versions| && Before(x, y, i, j + 1)
      ensures Known(more, h, versions[x], versions[y])
    {
      if Before(x, y, i, j) {
        var c: nat :| Has(vars, c, h, versions[x]);
        var d: nat :| Has(vars, d, h, versions[y]);
        assert Has(more, c, h, versions[x]) && Has(more, d, h, versions[y]);
      }
    }
  }
}
