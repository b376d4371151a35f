/** Bounded dependency planning: validation, encoding, solving and ordering. */
module Planner {
  import opened Alchemist
  import opened Bytes
  import opened Cnf
  import opened Counting
  import opened Dependency
  import opened Encoding
  import opened Graphs
  import opened InstallOrder
  import opened Results
  import Search

  // ----- validation -----

  predicate ValidName(value: string) {
    && 0 < |value| <= 128
    && forall k :: 0 <= k < |value| ==>
         'a' <= value[k] <= 'z' || '0' <= value[k] <= '9' || value[k] == '-' || value[k] == '_'
  }

  predicate ValidVersion(value: string) {
    && 0 < |value| <= 256
    && forall k :: 0 <= k < |value| ==>
         ' ' < value[k] && value[k] as int != 127 && value[k] != '/' && value[k] != '\\' && value[k] != '@'
  }

  const LETTERS: string := "abcdefghijklmnopqrstuvwxyz"
  const DIGITS: string := "0123456789"

  /** A name is spelled with lower-case letters, digits, dashes and underscores. */
  lemma NameIsSpelled(value: string)
    ensures ValidName(value) <==> 1 <= |value| <= 128 && forall k :: 0 <= k < |value| ==> value[k] in LETTERS + DIGITS + "-_"
  {
    forall c: char ensures c in LETTERS + DIGITS + "-_" <==> 'a' <= c <= 'z' || '0' <= c <= '9' || c == '-' || c == '_' {
      IsLetter(c);
      IsDigit(c);
    }
  }

  lemma IsLetter(c: char)
    ensures c in LETTERS <==> 'a' <= c <= 'z'
  {
    if 'a' <= c <= 'z' {
      assert LETTERS[c as int - 97] == c;
    }
  }

  lemma IsDigit(c: char)
    ensures c in DIGITS <==> '0' <= c <= '9'
  {
    if '0' <= c <= '9' {
      assert DIGITS[c as int - 48] == c;
    }
  }

  /** A version holds no control character, no blank, and none of the separators. */
  lemma VersionIsSpelled(value: string)
    ensures ValidVersion(value) <==>
              1 <= |value| <= 256 &&
              forall k :: 0 <= k < |value| ==> value[k] as int !in CONTROL_CODES + {32} && value[k] !in "/\\@"
  {
  }

  ghost predicate ValidConstraint(c: PackageConstraint) {
    && ValidName(c.name)
    && |c.versions| <= MAX_CONSTRAINT_VERSIONS
    && (forall k :: 0 <= k < |c.versions| ==> ValidVersion(c.versions[k]))
    && forall k :: 0 <= k < |c.versions| - 1 ==> StringLess(c.versions[k], c.versions[k + 1])
  }

  ghost predicate ValidRequirement(r: PackageRequirement) {
    0 < |r.alternatives| <= MAX_REQUIREMENT_ALTERNATIVES && ValidConstraints(r.alternatives)
  }

  /** Well-formed, and none of them twice. */
  ghost predicate ValidConstraints(cs: seq<PackageConstraint>) {
    (forall k :: 0 <= k < |cs| ==> ValidConstraint(cs[k])) && Distinct(cs)
  }

  /** A well-formed name, and well-formed versions that ascend. */
  method CheckConstraint(c: PackageConstraint) returns (ok: bool)
    ensures ok <==> ValidConstraint(c)
  {
    hide ValidName, ValidVersion, StringLess;
    if !ValidName(c.name) || |c.versions| > MAX_CONSTRAINT_VERSIONS {
      return false;
    }
    for i := 0 to |c.versions|
      invariant forall k :: 0 <= k < i ==> ValidVersion(c.versions[k])
    {
      if !ValidVersion(c.versions[i]) {
        return false;
      }
    }
    var i := 1;
    while i < |c.versions|
      invariant 1 <= i && forall k :: 0 <= k < i - 1 && k + 1 < |c.versions| ==> StringLess(c.versions[k], c.versions[k + 1])
    {
      if !StringLess(c.versions[i - 1], c.versions[i]) {
        return false;
      }
      i := i + 1;
    }
    return true;
  }

  ghost predicate ValidCapability(c: PackageCapability) {
    ValidName(c.name) && (c.version.Some? ==> ValidVersion(c.version.value))
  }

  predicate OversizedMetadata(m: DependencyMetadata) {
    || |m.requirements| > MAX_PACKAGE_REQUIREMENTS
    || |m.provided| > MAX_PACKAGE_CAPABILITIES
    || |m.conflicts| > MAX_PACKAGE_CONSTRAINTS
  }

  /** Well-formed, and no two that ask for the same alternatives. */
  ghost predicate ValidRequirements(rs: seq<PackageRequirement>) {
    && (forall k :: 0 <= k < |rs| ==> ValidRequirement(rs[k]))
    && forall i, j :: 0 <= i < j < |rs| ==> Elements(rs[i].alternatives) != Elements(rs[j].alternatives)
  }

  ghost predicate ValidCapabilities(cs: seq<PackageCapability>) {
    (forall k :: 0 <= k < |cs| ==> ValidCapability(cs[k])) && Distinct(cs)
  }

  ghost predicate ValidMetadata(m: DependencyMetadata) {
    && !OversizedMetadata(m)
    && ValidRequirements(m.requirements) && ValidCapabilities(m.provided) && ValidConstraints(m.conflicts)
  }

  /** Refuses oversized metadata first, and then exactly what is malformed. */
  method ValidateMetadata(m: DependencyMetadata) returns (error: Option<DependencyError>)
    ensures error.None? <==> ValidMetadata(m)
    ensures error == Some(Capacity) <==> OversizedMetadata(m)
    ensures error.None? || error == Some(Invalid) || error == Some(Capacity)
  {
    hide ValidRequirements, ValidCapabilities, ValidConstraints;
    if |m.requirements| > MAX_PACKAGE_REQUIREMENTS || |m.provided| > MAX_PACKAGE_CAPABILITIES
       || |m.conflicts| > MAX_PACKAGE_CONSTRAINTS {
      return Some(Capacity);
    }
    var ok := CheckRequirements(m.requirements);
    if ok {
      ok := CheckCapabilities(m.provided);
    }
    if ok {
      var keys;
      ok, keys := CheckConstraints(m.conflicts);
    }
    return if ok then None else Some(Invalid);
  }

  method CheckRequirements(rs: seq<PackageRequirement>) returns (ok: bool)
    ensures ok <==> ValidRequirements(rs)
  {
    hide ValidConstraints;
    var keys: set<set<PackageConstraint>> := {};
    for i := 0 to |rs|
      invariant keys == set k | 0 <= k < i :: Elements(rs[k].alternatives)
      invariant ValidRequirements(rs[..i])
    {
      if rs[i].alternatives == [] || |rs[i].alternatives| > MAX_REQUIREMENT_ALTERNATIVES {
        return false;
      }
      var wellFormed, alternatives := CheckConstraints(rs[i].alternatives);
      if !wellFormed || alternatives in keys {
        return false;
      }
      keys := keys + {alternatives};
    }
    assert rs[..|rs|] == rs;
    return true;
  }

  /** Also gathers the constraints seen. */
  method CheckConstraints(cs: seq<PackageConstraint>) returns (ok: bool, seen: set<PackageConstraint>)
    ensures ok <==> ValidConstraints(cs)
    ensures ok ==> seen == Elements(cs)
  {
    hide ValidConstraint;
    ok, seen := true, {};
    for i := 0 to |cs|
      invariant seen == Elements(cs[..i])
      invariant ValidConstraints(cs[..i])
    {
      var wellFormed := CheckConstraint(cs[i]);
      if !wellFormed || cs[i] in seen {
        return false, seen;
      }
      assert cs[..i + 1] == cs[..i] + [cs[i]];
      seen := seen + {cs[i]};
    }
    assert cs[..|cs|] == cs;
  }

  method CheckCapabilities(cs: seq<PackageCapability>) returns (ok: bool)
    ensures ok <==> ValidCapabilities(cs)
  {
    hide ValidName, ValidVersion;
    var seen: set<PackageCapability> := {};
    for i := 0 to |cs|
      invariant seen == Elements(cs[..i])
      invariant ValidCapabilities(cs[..i])
    {
      if !ValidName(cs[i].name) || (cs[i].version.Some? && !ValidVersion(cs[i].version.value)) || cs[i] in seen {
        return false;
      }
      assert cs[..i + 1] == cs[..i] + [cs[i]];
      seen := seen + {cs[i]};
    }
    assert cs[..|cs|] == cs;
    return true;
  }

  ghost predicate ValidCandidate(c: ResolutionCandidate) {
    ValidName(c.package) && ValidVersion(c.version) && ValidMetadata(c.metadata)
  }

  ghost predicate Apart(a: ResolutionCandidate, b: ResolutionCandidate) {
    a.package == b.package ==> a.version != b.version && a.sequence != b.sequence
  }

  /** Well-formed candidates, no version and no sequence twice for a package, fixed candidates once each. */
  ghost predicate ValidCandidates(cands: seq<ResolutionCandidate>, fixed: seq<nat>) {
    && (forall c :: 0 <= c < |cands| ==> ValidCandidate(cands[c]))
    && (forall a, b :: 0 <= a < b < |cands| ==> Apart(cands[a], cands[b]))
    && Indexes(cands, fixed) && Distinct(fixed)
  }

  /** A well-formed name and version that no earlier candidate has taken. */
  ghost predicate Identified(cands: seq<ResolutionCandidate>, c: nat)
    requires c < |cands|
  {
    && ValidName(cands[c].package) && ValidVersion(cands[c].version)
    && forall b :: 0 <= b < c ==> Apart(cands[b], cands[c])
  }

  ghost predicate SoundUpTo(cands: seq<ResolutionCandidate>, n: nat) {
    n <= |cands| && forall c :: 0 <= c < n ==> Identified(cands, c) && ValidMetadata(cands[c].metadata)
  }

  /** The first candidate at fault has too much metadata, and is not at fault before that. */
  ghost predicate TooMuchMetadata(cands: seq<ResolutionCandidate>) {
    exists c: nat :: c < |cands| && SoundUpTo(cands, c) && Identified(cands, c) && OversizedMetadata(cands[c].metadata)
  }

  lemma FirstFault(cands: seq<ResolutionCandidate>, i: nat)
    requires SoundUpTo(cands, i)
    requires i == |cands| || !Identified(cands, i) || !ValidMetadata(cands[i].metadata)
    ensures TooMuchMetadata(cands) <==> i < |cands| && Identified(cands, i) && OversizedMetadata(cands[i].metadata)
  {
    hide Identified;
    forall c: nat | c < |cands| && SoundUpTo(cands, c) && Identified(cands, c) && OversizedMetadata(cands[c].metadata)
      ensures c == i
    {
    }
  }

  method ValidateCandidates(cands: seq<ResolutionCandidate>, fixed: seq<nat>) returns (error: Option<DependencyError>)
    ensures error.None? <==> ValidCandidates(cands, fixed)
    ensures error.Some? ==> error.value == Invalid || error.value == Capacity
    ensures error == Some(Capacity) <==> TooMuchMetadata(cands)
  {
    hide ValidMetadata, OversizedMetadata, ValidName, ValidVersion, TooMuchMetadata;
    var identities: set<(string, string)> := {};
    var sequences: set<(string, nat)> := {};
    var i := 0;
    while i < |cands|
      invariant 0 <= i <= |cands|
      invariant forall c :: 0 <= c < i ==> ValidCandidate(cands[c])
      invariant forall a, b :: 0 <= a < b < i ==> Apart(cands[a], cands[b])
      invariant SoundUpTo(cands, i)
      invariant identities == set c | 0 <= c < i :: (cands[c].package, cands[c].version)
      invariant sequences == set c | 0 <= c < i :: (cands[c].package, cands[c].sequence)
    {
      var c := cands[i];
      if !ValidName(c.package) || !ValidVersion(c.version) {
        FirstFault(cands, i);
        return Some(Invalid);
      }
      if (c.package, c.version) in identities || (c.package, c.sequence) in sequences {
        var b :| 0 <= b < i && cands[b].package == c.package
                 && (cands[b].version == c.version || cands[b].sequence == c.sequence);
        assert !Apart(cands[b], cands[i]);
        FirstFault(cands, i);
        return Some(Invalid);
      }
      forall a | 0 <= a < i ensures Apart(cands[a], cands[i]) {
        assert (cands[a].package, cands[a].version) in identities;
        assert (cands[a].package, cands[a].sequence) in sequences;
      }
      var metadata := ValidateMetadata(c.metadata);
      if metadata.Some? {
        FirstFault(cands, i);
        return metadata;
      }
      identities := identities + {(c.package, c.version)};
      sequences := sequences + {(c.package, c.sequence)};
      i := i + 1;
    }
    FirstFault(cands, i);
    var fixedSet: set<nat> := {};
    var j := 0;
    while j < |fixed|
      invariant 0 <= j <= |fixed|
      invariant fixedSet == Elements(fixed[..j])
      invariant Indexes(cands, fixed[..j]) && Distinct(fixed[..j])
    {
      if fixed[j] >= |cands| || fixed[j] in fixedSet {
        if fixed[j] in fixedSet {
          var k :| 0 <= k < j && fixed[k] == fixed[j];
          assert !Distinct(fixed);
        }
        return Some(Invalid);
      }
      assert fixed[..j + 1] == fixed[..j] + [fixed[j]];
      fixedSet := fixedSet + {fixed[j]};
      j := j + 1;
    }
    assert fixed[..j] == fixed;
    return None;
  }

  // ----- numbering -----

  function Indices(n: nat): (s: seq<nat>)
    ensures |s| == n && forall i :: 0 <= i < n ==> s[i] == i
  {
    seq(n, i requires 0 <= i < n => i)
  }

  /** The candidates in key order, which is also their variable order. */
  function Canonical(cands: seq<ResolutionCandidate>): (canon: seq<nat>)
    ensures Indexes(cands, canon) && SortedByKey(cands, canon)
    ensures multiset(canon) == multiset(Indices(|cands|))
  {
    SortByKey(cands, Indices(|cands|))
  }

  lemma CanonicalIsPermutation(cands: seq<ResolutionCandidate>)
    ensures |Canonical(cands)| == |cands| && Distinct(Canonical(cands))
    ensures forall c :: 0 <= c < |cands| ==> c in Canonical(cands)
  {
    SameElements(Indices(|cands|), Canonical(cands));
    forall c | 0 <= c < |cands| ensures c in Canonical(cands) {
      assert Indices(|cands|)[c] in Indices(|cands|);
    }
  }

  method NumberCandidates(cands: seq<ResolutionCandidate>, canon: seq<nat>) returns (vf: seq<nat>)
    requires canon == Canonical(cands)
    ensures IsNumbering(|cands|, canon, vf)
  {
    CanonicalIsPermutation(cands);
    vf := seq(|cands|, _ => 0);
    var i := 0;
    while i < |canon|
      invariant 0 <= i <= |canon| && |vf| == |cands|
      invariant forall k :: 0 <= k < i ==> vf[canon[k]] == k
      invariant forall c :: 0 <= c < |vf| ==> vf[c] < |cands|
    {
      vf := vf[canon[i] := i];
      i := i + 1;
    }
    forall c | 0 <= c < |cands| ensures canon[vf[c]] == c {
      assert c in canon;
      var k :| 0 <= k < |canon| && canon[k] == c;
    }
  }

  /** The package names in order of first appearance. */
  function PackageNames(cands: seq<ResolutionCandidate>, s: seq<nat>): seq<string>
    requires Indexes(cands, s)
  {
    if s == [] then []
    else
      var names := PackageNames(cands, s[..|s| - 1]);
      var name := cands[s[|s| - 1]].package;
      if name in names then names else names + [name]
  }

  lemma {:induction false} PackageNamesCover(cands: seq<ResolutionCandidate>, s: seq<nat>)
    requires Indexes(cands, s)
    ensures Distinct(PackageNames(cands, s))
    ensures forall c :: c in s && c < |cands| ==> cands[c].package in PackageNames(cands, s)
  {
    if s == [] {
    } else {
      assert s == s[..|s| - 1] + [s[|s| - 1]];
      PackageNamesCover(cands, s[..|s| - 1]);
    }
  }

  /** Groups the candidates by package; the names come in the order of the sorted candidates. */
  method GroupByPackage(cands: seq<ResolutionCandidate>, canon: seq<nat>)
    returns (names: seq<string>, domains: map<string, seq<nat>>)
    requires Indexes(cands, canon)
    ensures names == PackageNames(cands, canon)
    ensures forall n :: n in domains <==> n in names
    ensures forall n :: n in domains ==> domains[n] == DomainOf(cands, canon, n)
  {
    names, domains := [], map[];
    var i := 0;
    while i < |canon|
      invariant 0 <= i <= |canon|
      invariant names == PackageNames(cands, canon[..i])
      invariant forall n :: n in domains <==> n in names
      invariant forall n :: n in domains ==> domains[n] == DomainOf(cands, canon[..i], n)
      invariant forall n :: n !in domains ==> DomainOf(cands, canon[..i], n) == []
    {
      var name := cands[canon[i]].package;
      assert canon[..i + 1][..i] == canon[..i];
      if name in domains {
        domains := domains[name := domains[name] + [canon[i]]];
      } else {
        names := names + [name];
        domains := domains[name := [canon[i]]];
      }
      i := i + 1;
    }
    assert canon[..i] == canon;
  }

  // ----- feeding the solver -----

  method AddUnit(solver: DpllSolver, variable: nat, ghost rest: seq<Clause>, ghost full: seq<Clause>)
    returns (ok: bool)
    requires solver.Valid() && variable < MAX_PACKAGES
    requires solver.Clauses() + ([UnitClause(variable)] + rest) == full
    modifies solver`numClauses, solver.clauses, solver.activeVariables
    ensures solver.Valid()
    ensures ok ==> solver.Clauses() + rest == full
    ensures !ok ==> |full| > MAX_CLAUSES
  {
    var pushed := EMPTY_CLAUSE.Push(Pos(variable));
    assert pushed.1 == UnitClause(variable);
    assert solver.Clauses() + ([pushed.1] + rest) == (solver.Clauses() + [pushed.1]) + rest;
    ok := solver.AddClause(pushed.1);
  }

  method AddBinaryConflict(solver: DpllSolver, left: nat, right: nat, ghost rest: seq<Clause>, ghost full: seq<Clause>)
    returns (ok: bool)
    requires solver.Valid() && left < MAX_PACKAGES && right < MAX_PACKAGES
    requires solver.Clauses() + ([ConflictClause(left, right)] + rest) == full
    modifies solver`numClauses, solver.clauses, solver.activeVariables
    ensures solver.Valid()
    ensures ok ==> solver.Clauses() + rest == full
    ensures !ok ==> |full| > MAX_CLAUSES
  {
    var pushed := EMPTY_CLAUSE.Push(Neg(left)).1.Push(Neg(right));
    assert pushed.1 == ConflictClause(left, right);
    assert solver.Clauses() + ([pushed.1] + rest) == (solver.Clauses() + [pushed.1]) + rest;
    ok := solver.AddClause(pushed.1);
  }

  method AddUnits(solver: DpllSolver, vf: seq<nat>, required: nat, fixed: seq<nat>, ghost rest: seq<Clause>,
                  ghost full: seq<Clause>)
    returns (ok: bool)
    requires solver.Valid() && required < |vf| && InDomain(vf, fixed)
    requires forall c :: 0 <= c < |vf| ==> vf[c] < MAX_PACKAGES
    requires solver.Clauses() + (Units(vf, [required] + fixed, 0) + rest) == full
    modifies solver`numClauses, solver.clauses, solver.activeVariables
    ensures solver.Valid()
    ensures ok ==> solver.Clauses() + rest == full
    ensures !ok ==> |full| > MAX_CLAUSES
  {
    ghost var roots := [required] + fixed;
    assert Units(vf, roots, 0) + rest == [UnitClause(vf[required])] + (Units(vf, roots, 1) + rest);
    ok := AddUnit(solver, vf[required], Units(vf, roots, 1) + rest, full);
    var i := 0;
    while ok && i < |fixed|
      modifies solver`numClauses, solver.clauses, solver.activeVariables
      invariant 0 <= i <= |fixed| && solver.Valid()
      invariant ok ==> solver.Clauses() + (Units(vf, roots, i + 1) + rest) == full
      invariant !ok ==> |full| > MAX_CLAUSES
    {
      assert roots[i + 1] == fixed[i];
      assert Units(vf, roots, i + 1) + rest == [UnitClause(vf[fixed[i]])] + (Units(vf, roots, i + 2) + rest);
      ok := AddUnit(solver, vf[fixed[i]], Units(vf, roots, i + 2) + rest, full);
      i := i + 1;
    }
    assert ok ==> Units(vf, roots, i + 1) + rest == rest;
  }

  method AddRow(solver: DpllSolver, vf: seq<nat>, c: nat, others: seq<nat>, from: nat, ghost rest: seq<Clause>,
                ghost full: seq<Clause>)
    returns (ok: bool)
    requires solver.Valid() && c < |vf| && InDomain(vf, others)
    requires forall d :: 0 <= d < |vf| ==> vf[d] < MAX_PACKAGES
    requires solver.Clauses() + (Row(vf, c, others, from) + rest) == full
    modifies solver`numClauses, solver.clauses, solver.activeVariables
    ensures solver.Valid()
    ensures ok ==> solver.Clauses() + rest == full
    ensures !ok ==> |full| > MAX_CLAUSES
  {
    ok := true;
    var j := from;
    while ok && j < |others|
      modifies solver`numClauses, solver.clauses, solver.activeVariables
      invariant solver.Valid()
      invariant ok ==> solver.Clauses() + (Row(vf, c, others, j) + rest) == full
      invariant !ok ==> |full| > MAX_CLAUSES
      decreases |others| - j
    {
      ghost var later := Row(vf, c, others, j + 1);
      assert Row(vf, c, others, j) + rest == [ConflictClause(vf[c], vf[others[j]])] + (later + rest);
      ok := AddBinaryConflict(solver, vf[c], vf[others[j]], later + rest, full);
      j := j + 1;
    }
    assert ok ==> Row(vf, c, others, j) + rest == rest;
  }

  method AddPairs(solver: DpllSolver, vf: seq<nat>, domain: seq<nat>, ghost rest: seq<Clause>, ghost full: seq<Clause>)
    returns (ok: bool)
    requires solver.Valid() && InDomain(vf, domain)
    requires forall d :: 0 <= d < |vf| ==> vf[d] < MAX_PACKAGES
    requires solver.Clauses() + (Pairs(vf, domain, 0) + rest) == full
    modifies solver`numClauses, solver.clauses, solver.activeVariables
    ensures solver.Valid()
    ensures ok ==> solver.Clauses() + rest == full
    ensures !ok ==> |full| > MAX_CLAUSES
  {
    ok := true;
    var i := 0;
    while ok && i < |domain|
      modifies solver`numClauses, solver.clauses, solver.activeVariables
      invariant 0 <= i <= |domain| && solver.Valid()
      invariant ok ==> solver.Clauses() + (Pairs(vf, domain, i) + rest) == full
      invariant !ok ==> |full| > MAX_CLAUSES
    {
      ghost var row, later := Row(vf, domain[i], domain, i + 1), Pairs(vf, domain, i + 1);
      assert Pairs(vf, domain, i) + rest == row + (later + rest);
      ok := AddRow(solver, vf, domain[i], domain, i + 1, later + rest, full);
      i := i + 1;
    }
    assert ok ==> Pairs(vf, domain, i) + rest == rest;
  }

  method AddDomains(solver: DpllSolver, cands: seq<ResolutionCandidate>, vf: seq<nat>, canon: seq<nat>,
                    ghost rest: seq<Clause>, ghost full: seq<Clause>)
    returns (ok: bool)
    requires solver.Valid() && Indexes(cands, canon) && |vf| == |cands|
    requires forall d :: 0 <= d < |vf| ==> vf[d] < MAX_PACKAGES
    requires solver.Clauses() + (Domains(cands, vf, canon, PackageNames(cands, canon), 0) + rest) == full
    modifies solver`numClauses, solver.clauses, solver.activeVariables
    ensures solver.Valid()
    ensures ok ==> solver.Clauses() + rest == full
    ensures !ok ==> |full| > MAX_CLAUSES
  {
    hide DomainOf, PackageNames, Pairs;
    var names, domains := GroupByPackage(cands, canon);
    ok := true;
    var k := 0;
    while ok && k < |names|
      modifies solver`numClauses, solver.clauses, solver.activeVariables
      invariant 0 <= k <= |names| && solver.Valid()
      invariant ok ==> solver.Clauses() + (Domains(cands, vf, canon, names, k) + rest) == full
      invariant !ok ==> |full| > MAX_CLAUSES
    {
      var domain := domains[names[k]];
      ghost var later := Domains(cands, vf, canon, names, k + 1);
      assert Domains(cands, vf, canon, names, k) + rest == Pairs(vf, domain, 0) + (later + rest);
      ok := AddPairs(solver, vf, domain, later + rest, full);
      k := k + 1;
    }
    assert ok ==> Domains(cands, vf, canon, names, k) + rest == rest;
  }

  ghost predicate TooWide(cands: seq<ResolutionCandidate>, canon: seq<nat>, c: nat, k: nat)
    requires Indexes(cands, canon) && c < |cands|
  {
    && k < |cands[c].metadata.requirements|
    && |OptionsFor(cands, canon, cands[c].metadata.requirements[k])| + 1 > MAX_CLAUSE_LEN
  }

  ghost predicate SomeTooWide(cands: seq<ResolutionCandidate>, canon: seq<nat>)
    requires Indexes(cands, canon)
  {
    exists c, k :: 0 <= c < |cands| && TooWide(cands, canon, c, k)
  }

  /** Builds a requirement clause literal by literal; a checked width leaves room for each. */
  method BuildRequirement(vf: seq<nat>, c: nat, options: seq<nat>) returns (clause: Clause)
    requires c < |vf| && InDomain(vf, options) && |options| + 1 <= MAX_CLAUSE_LEN
    ensures clause == RequirementClause(vf, c, options)
  {
    clause := EMPTY_CLAUSE.Push(Neg(vf[c])).1;
    var i := 0;
    while i < |options|
      invariant 0 <= i <= |options|
      invariant clause == Clause([Neg(vf[c])] + Positives(vf, options)[..i], false)
    {
      clause := clause.Push(Pos(vf[options[i]])).1;
      i := i + 1;
    }
  }

  lemma RequirementInRange(vf: seq<nat>, c: nat, options: seq<nat>)
    requires c < |vf| && InDomain(vf, options) && |options| + 1 <= MAX_CLAUSE_LEN
    requires forall d :: 0 <= d < |vf| ==> vf[d] < MAX_PACKAGES
    ensures InRange(RequirementClause(vf, c, options))
  {
  }

  lemma MoveFirst(done: seq<Clause>, c: Clause, later: seq<Clause>, rest: seq<Clause>)
    ensures done + (([c] + later) + rest) == (done + [c]) + (later + rest)
  {
  }

  method AddRequirements(solver: DpllSolver, cands: seq<ResolutionCandidate>, vf: seq<nat>, canon: seq<nat>, c: nat,
                         ghost rest: seq<Clause>, ghost full: seq<Clause>)
    returns (ok: bool)
    requires solver.Valid() && Indexes(cands, canon) && |vf| == |cands| && c < |cands|
    requires forall d :: 0 <= d < |vf| ==> vf[d] < MAX_PACKAGES
    requires solver.Clauses() + (Requirements(cands, vf, canon, c, 0) + rest) == full
    modifies solver`numClauses, solver.clauses, solver.activeVariables
    ensures solver.Valid()
    ensures ok ==> solver.Clauses() + rest == full && forall k: nat :: !TooWide(cands, canon, c, k)
    ensures !ok ==> |full| > MAX_CLAUSES || SomeTooWide(cands, canon)
  {
    hide OptionsFor, RequirementClause;
    var requirements := cands[c].metadata.requirements;
    var k := 0;
    while k < |requirements|
      modifies solver`numClauses, solver.clauses, solver.activeVariables
      invariant 0 <= k <= |requirements| && solver.Valid()
      invariant solver.Clauses() + (Requirements(cands, vf, canon, c, k) + rest) == full
      invariant forall q :: 0 <= q < k ==> !TooWide(cands, canon, c, q)
    {
      var options := OptionsFor(cands, canon, requirements[k]);
      if |options| + 1 > MAX_CLAUSE_LEN {
        assert TooWide(cands, canon, c, k);
        return false;
      }
      var clause := BuildRequirement(vf, c, options);
      ghost var later := Requirements(cands, vf, canon, c, k + 1);
      MoveFirst(solver.Clauses(), clause, later, rest);
      RequirementInRange(vf, c, options);
      var added := solver.AddClause(clause);
      if !added {
        return false;
      }
      k := k + 1;
    }
    assert Requirements(cands, vf, canon, c, k) + rest == rest;
    return true;
  }

  method AddConflicts(solver: DpllSolver, cands: seq<ResolutionCandidate>, vf: seq<nat>, canon: seq<nat>, c: nat,
                      ghost rest: seq<Clause>, ghost full: seq<Clause>)
    returns (ok: bool)
    requires solver.Valid() && Indexes(cands, canon) && |vf| == |cands| && c < |cands|
    requires forall d :: 0 <= d < |vf| ==> vf[d] < MAX_PACKAGES
    requires solver.Clauses() + (Conflicts(cands, vf, canon, c, 0) + rest) == full
    modifies solver`numClauses, solver.clauses, solver.activeVariables
    ensures solver.Valid()
    ensures ok ==> solver.Clauses() + rest == full
    ensures !ok ==> |full| > MAX_CLAUSES
  {
    hide OthersFor, Row;
    var conflicts := cands[c].metadata.conflicts;
    ok := true;
    var k := 0;
    while ok && k < |conflicts|
      modifies solver`numClauses, solver.clauses, solver.activeVariables
      invariant 0 <= k <= |conflicts| && solver.Valid()
      invariant ok ==> solver.Clauses() + (Conflicts(cands, vf, canon, c, k) + rest) == full
      invariant !ok ==> |full| > MAX_CLAUSES
    {
      var others := OthersFor(cands, canon, c, conflicts[k]);
      ghost var later := Conflicts(cands, vf, canon, c, k + 1);
      assert Conflicts(cands, vf, canon, c, k) + rest == Row(vf, c, others, 0) + (later + rest);
      ok := AddRow(solver, vf, c, others, 0, later + rest, full);
      k := k + 1;
    }
    assert ok ==> Conflicts(cands, vf, canon, c, k) + rest == rest;
  }

  method AddCandidates(solver: DpllSolver, cands: seq<ResolutionCandidate>, vf: seq<nat>, canon: seq<nat>,
                       ghost full: seq<Clause>)
    returns (ok: bool)
    requires solver.Valid() && Indexes(cands, canon) && |vf| == |cands|
    requires forall d :: 0 <= d < |vf| ==> vf[d] < MAX_PACKAGES
    requires solver.Clauses() + CandidatesFrom(cands, vf, canon, 0) == full
    modifies solver`numClauses, solver.clauses, solver.activeVariables
    ensures solver.Valid()
    ensures ok ==> solver.Clauses() == full && !SomeTooWide(cands, canon)
    ensures !ok ==> |full| > MAX_CLAUSES || SomeTooWide(cands, canon)
  {
    hide TooWide, Requirements, Conflicts;
    var c := 0;
    while c < |cands|
      modifies solver`numClauses, solver.clauses, solver.activeVariables
      invariant 0 <= c <= |cands| && solver.Valid()
      invariant solver.Clauses() + CandidatesFrom(cands, vf, canon, c) == full
      invariant forall d, k: nat :: 0 <= d < c ==> !TooWide(cands, canon, d, k)
    {
      ghost var later := CandidatesFrom(cands, vf, canon, c + 1);
      ok := AddRequirements(solver, cands, vf, canon, c, Conflicts(cands, vf, canon, c, 0) + later, full);
      if !ok {
        return;
      }
      ok := AddConflicts(solver, cands, vf, canon, c, later, full);
      if !ok {
        return;
      }
      c := c + 1;
    }
    return true;
  }

  // ----- the plan -----

  ghost predicate Admissible(cands: seq<ResolutionCandidate>, required: nat, fixed: seq<nat>) {
    required < |cands| <= MAX_PACKAGES && ValidCandidates(cands, fixed)
  }

  ghost function ClausesFor(cands: seq<ResolutionCandidate>, vf: seq<nat>, required: nat, fixed: seq<nat>): seq<Clause>
    requires |vf| == |cands| && required < |cands| && Indexes(cands, fixed)
  {
    GraphClauses(cands, vf, Canonical(cands), PackageNames(cands, Canonical(cands)), [required] + fixed)
  }

  /** The graph stays within the solver's clause count and clause width. */
  ghost predicate Fits(cands: seq<ResolutionCandidate>, required: nat, fixed: seq<nat>)
    requires Admissible(cands, required, fixed)
  {
    && !SomeTooWide(cands, Canonical(cands))
    && exists vf :: IsNumbering(|cands|, Canonical(cands), vf) && |ClausesFor(cands, vf, required, fixed)| <= MAX_CLAUSES
  }

  ghost predicate FirstDiffers(canon: seq<nat>, s: set<nat>, t: set<nat>, i: nat) {
    && i < |canon| && canon[i] !in s && canon[i] in t
    && forall j :: 0 <= j < i ==> (canon[j] in s <==> canon[j] in t)
  }

  /** Valid, and before every other valid selection in key order, absent before present. */
  ghost predicate LeastSelection(cands: seq<ResolutionCandidate>, required: nat, fixed: seq<nat>, s: set<nat>) {
    && ValidSelection(cands, required, fixed, s)
    && forall t :: ValidSelection(cands, required, fixed, t) && t != s ==>
         exists i :: FirstDiffers(Canonical(cands), s, t, i)
  }

  lemma LeastIsSubsetMinimal(cands: seq<ResolutionCandidate>, required: nat, fixed: seq<nat>, s: set<nat>)
    requires LeastSelection(cands, required, fixed, s)
    ensures SubsetMinimal(cands, required, fixed, s)
  {
    forall t | ValidSelection(cands, required, fixed, t) && t <= s ensures t == s {
      assert t != s ==> exists i :: FirstDiffers(Canonical(cands), s, t, i);
    }
  }

  /** Nothing superfluous is planned. */
  lemma LeastIsNeeded(cands: seq<ResolutionCandidate>, required: nat, fixed: seq<nat>, s: set<nat>)
    requires LeastSelection(cands, required, fixed, s)
    ensures forall c :: c in s ==> c < |cands|
    ensures forall c :: c in s ==> Needed(cands, required, fixed, s, c)
  {
    hide ValidSelection, Needed;
    assert ValidSelection(cands, required, fixed, s);
    LeastIsSubsetMinimal(cands, required, fixed, s);
    SelectionIndexes(cands, required, fixed, s);
    forall c | c in s ensures Needed(cands, required, fixed, s, c) {
      MinimalIsNeeded(cands, required, fixed, s, c);
    }
  }

  lemma SelectionIndexes(cands: seq<ResolutionCandidate>, required: nat, fixed: seq<nat>, s: set<nat>)
    requires ValidSelection(cands, required, fixed, s)
    ensures forall c :: c in s ==> c < |cands|
  {
  }

  /** The solver's least model selects the least selection. */
  lemma LeastModelIsLeastSelection(m: seq<bool>, cands: seq<ResolutionCandidate>, vf: seq<nat>, required: nat,
                                   fixed: seq<nat>)
    requires Admissible(cands, required, fixed) && IsNumbering(|cands|, Canonical(cands), vf)
    requires IsLeastModel(m, ClausesFor(cands, vf, required, fixed))
    ensures LeastSelection(cands, required, fixed, SelectedBy(vf, m))
  {
    hide ValidSelection, ValidCandidates, GraphClauses;
    var canon := Canonical(cands);
    var names := PackageNames(cands, canon);
    NamesCoverAll(cands);
    var s := SelectedBy(vf, m);
    FixedIndexes(cands, fixed);
    ModelsAreSelections(m, cands, vf, canon, names, required, fixed);
    forall t | ValidSelection(cands, required, fixed, t) && t != s ensures exists i :: FirstDiffers(canon, s, t, i) {
      var o := ModelOf(canon, t);
      SelectionIndexes(cands, required, fixed, t);
      ModelSelects(|cands|, canon, vf, t);
      ModelsAreSelections(o, cands, vf, canon, names, required, fixed);
      assert LexLe(m, o);
      var v :| 0 <= v < |m| && FirstGain(m, o, v);
      assert v < |canon| && vf[canon[v]] == v;
      forall j | 0 <= j < v ensures canon[j] in s <==> canon[j] in t {
        assert vf[canon[j]] == j && m[..v][j] == o[..v][j];
      }
      assert FirstDiffers(canon, s, t, v);
    }
  }

  lemma FixedIndexes(cands: seq<ResolutionCandidate>, fixed: seq<nat>)
    requires ValidCandidates(cands, fixed)
    ensures Indexes(cands, fixed)
  {
  }

  lemma NamesCoverAll(cands: seq<ResolutionCandidate>)
    ensures NamesCover(cands, PackageNames(cands, Canonical(cands)))
  {
    CanonicalIsPermutation(cands);
    PackageNamesCover(cands, Canonical(cands));
  }

  lemma UnsatisfiableMeansNone(cands: seq<ResolutionCandidate>, vf: seq<nat>, required: nat, fixed: seq<nat>)
    requires Admissible(cands, required, fixed) && IsNumbering(|cands|, Canonical(cands), vf)
    requires !Cnf.Satisfiable(ClausesFor(cands, vf, required, fixed))
    ensures forall s :: !ValidSelection(cands, required, fixed, s)
  {
    hide ValidSelection, ValidCandidates, GraphClauses;
    var canon := Canonical(cands);
    NamesCoverAll(cands);
    FixedIndexes(cands, fixed);
    forall s ensures !ValidSelection(cands, required, fixed, s) {
      if ValidSelection(cands, required, fixed, s) {
        var m := ModelOf(canon, s);
        SelectionIndexes(cands, required, fixed, s);
        ModelSelects(|cands|, canon, vf, s);
        ModelsAreSelections(m, cands, vf, canon, PackageNames(cands, canon), required, fixed);
        assert false;
      }
    }
  }

  /** The selected candidates in key order. */
  method ReadSelection(cands: seq<ResolutionCandidate>, canon: seq<nat>, vf: seq<nat>, assignment: array<i8>)
    returns (selected: seq<nat>)
    requires canon == Canonical(cands) && IsNumbering(|cands|, canon, vf)
    requires |cands| <= MAX_PACKAGES == assignment.Length
    ensures Indexes(cands, selected) && SortedByKey(cands, selected) && Distinct(selected)
    ensures Elements(selected) == SelectedBy(vf, Search.Selection(assignment[..]))
  {
    var picked: seq<nat> := [];
    var i := 0;
    while i < |canon|
      invariant 0 <= i <= |canon|
      invariant Indexes(cands, picked) && Distinct(picked)
      invariant forall c: nat :: c in picked <==> c < |cands| && vf[c] < i && assignment[vf[c]] == 1
    {
      assert vf[canon[i]] == i;
      if assignment[vf[canon[i]]] == 1 {
        picked := picked + [canon[i]];
      }
      i := i + 1;
    }
    selected := SortByKey(cands, picked);
    SameElements(picked, selected);
  }

  lemma SelectionMeetsAll(cands: seq<ResolutionCandidate>, required: nat, fixed: seq<nat>, selected: seq<nat>)
    requires Indexes(cands, selected) && ValidSelection(cands, required, fixed, Elements(selected))
    ensures AllMet(cands, selected)
  {
    hide ChosenFor, Meets;
    forall c, k | c in selected && 0 <= k < |cands[c].metadata.requirements|
      ensures ChosenFor(cands, selected, cands[c].metadata.requirements[k]).Some?
    {
      var r := cands[c].metadata.requirements[k];
      assert c in Elements(selected);
      assert RequirementMet(cands, Elements(selected), r);
      ChosenForMeets(cands, selected, r);
    }
  }

  ghost predicate GoodPlan(cands: seq<ResolutionCandidate>, required: nat, fixed: seq<nat>, plan: DependencyPlan) {
    && Indexes(cands, plan.selected) && Distinct(plan.selected) && SortedByKey(cands, plan.selected)
    && LeastSelection(cands, required, fixed, Elements(plan.selected))
    && DependencyFirst(cands, plan.selected, plan.order)
    && Acyclic(ChosenGraph(cands, plan.selected))
  }

  ghost predicate CyclicSelection(cands: seq<ResolutionCandidate>, required: nat, fixed: seq<nat>, names: seq<string>) {
    exists selected :: CyclicThrough(cands, required, fixed, selected, names)
  }

  ghost predicate CyclicThrough(cands: seq<ResolutionCandidate>, required: nat, fixed: seq<nat>, selected: seq<nat>,
                                names: seq<string>) {
    && Indexes(cands, selected) && Distinct(selected) && SortedByKey(cands, selected)
    && LeastSelection(cands, required, fixed, Elements(selected))
    && NamesCycle(cands, ChosenGraph(cands, selected), names)
  }

  /** The required candidate is there, but the graph is too large, a candidate's metadata or the clauses are. */
  ghost predicate CapacityExceeded(cands: seq<ResolutionCandidate>, required: nat, fixed: seq<nat>) {
    && required < |cands|
    && (|cands| > MAX_PACKAGES || TooMuchMetadata(cands) || (ValidCandidates(cands, fixed) && !Fits(cands, required, fixed)))
  }

  /** Too large or malformed, unsatisfiable, or with a cycle of providers. */
  ghost predicate Unplannable(cands: seq<ResolutionCandidate>, required: nat, fixed: seq<nat>) {
    || !(Admissible(cands, required, fixed) && Fits(cands, required, fixed))
    || (forall s :: !ValidSelection(cands, required, fixed, s))
    || exists names :: CyclicSelection(cands, required, fixed, names)
  }

  // ----- there is one plan at most -----

  ghost predicate AllApart(cands: seq<ResolutionCandidate>) {
    forall a, b :: 0 <= a < b < |cands| ==> Apart(cands[a], cands[b])
  }

  lemma ApartByKey(cands: seq<ResolutionCandidate>, a: nat, b: nat)
    requires AllApart(cands) && a < |cands| && b < |cands| && a != b
    ensures KeyLess(cands[a], cands[b]) || KeyLess(cands[b], cands[a])
  {
    KeyLessTotal(cands[a], cands[b]);
    assert Apart(cands[a], cands[b]) || Apart(cands[b], cands[a]);
  }

  /** The candidates of a set have only one sequence in key order. */
  lemma {:induction false} SortedUnique(cands: seq<ResolutionCandidate>, s: seq<nat>, t: seq<nat>)
    requires AllApart(cands) && Indexes(cands, s) && Indexes(cands, t)
    requires SortedByKey(cands, s) && SortedByKey(cands, t) && Distinct(s) && Distinct(t)
    requires Elements(s) == Elements(t)
    ensures s == t
  {
    hide KeyLess, AllApart;
    NoElements(s);
    NoElements(t);
    if s == [] {
    } else {
      assert s[0] in Elements(t) && t[0] in Elements(s);
      var i :| 0 <= i < |t| && t[i] == s[0];
      var j :| 0 <= j < |s| && s[j] == t[0];
      if s[0] != t[0] {
        ApartByKey(cands, s[0], t[0]);
      }
      TailElements(s);
      TailElements(t);
      SortedUnique(cands, s[1..], t[1..]);
      assert s == [s[0]] + s[1..] && t == [t[0]] + t[1..];
    }
  }

  lemma NoElements(s: seq<nat>)
    ensures Elements(s) == {} <==> s == []
  {
    if s != [] {
      assert s[0] in Elements(s);
    }
  }

  lemma TailElements(s: seq<nat>)
    requires s != [] && Distinct(s)
    ensures Elements(s[1..]) == Elements(s) - {s[0]}
  {
    assert s == [s[0]] + s[1..];
  }

  lemma LeastUnique(cands: seq<ResolutionCandidate>, required: nat, fixed: seq<nat>, s: set<nat>, t: set<nat>)
    requires LeastSelection(cands, required, fixed, s) && LeastSelection(cands, required, fixed, t)
    ensures s == t
  {
    hide ValidSelection, FirstDiffers;
    forall i: nat, j: nat ensures !(FirstDiffers(Canonical(cands), s, t, i) && FirstDiffers(Canonical(cands), t, s, j)) {
      DiffersOneWay(Canonical(cands), s, t, i, j);
    }
  }

  lemma DiffersOneWay(canon: seq<nat>, s: set<nat>, t: set<nat>, i: nat, j: nat)
    ensures !(FirstDiffers(canon, s, t, i) && FirstDiffers(canon, t, s, j))
  {
  }

  /** Swapping a selected candidate for one that comes later in key order is never an option. */
  lemma NoBetterSwap(cands: seq<ResolutionCandidate>, required: nat, fixed: seq<nat>, s: set<nat>, a: nat, b: nat)
    requires LeastSelection(cands, required, fixed, s)
    requires a in s && b !in s && a < |cands| && b < |cands| && KeyLess(cands[a], cands[b])
    ensures !ValidSelection(cands, required, fixed, s - {a} + {b})
  {
    hide ValidSelection, KeyLess, FirstDiffers;
    assert b in s - {a} + {b};
    forall i: nat ensures !FirstDiffers(Canonical(cands), s, s - {a} + {b}, i) {
      SwapDiffersEarlier(cands, s, a, b, i);
    }
  }

  /** The candidate taken away is met before the one put in its place. */
  lemma SwapDiffersEarlier(cands: seq<ResolutionCandidate>, s: set<nat>, a: nat, b: nat, i: nat)
    requires a in s && b !in s && a < |cands| && b < |cands| && KeyLess(cands[a], cands[b])
    ensures !FirstDiffers(Canonical(cands), s, s - {a} + {b}, i)
  {
    hide KeyLess;
    var canon := Canonical(cands);
    CanonicalIsPermutation(cands);
    assert a in canon;
    var j :| 0 <= j < |canon| && canon[j] == a;
    if i < |canon| && canon[i] == b {
      KeyLessTotal(cands[a], cands[b]);
      assert j < i;
      assert canon[j] in s && canon[j] !in s - {a} + {b};
    }
  }

  predicate IsOlder(a: ResolutionCandidate, b: ResolutionCandidate) {
    a.package == b.package && a.sequence < b.sequence
  }

  /** The newest versions that will do are selected: no selected version can be swapped for a newer one. */
  ghost predicate PicksNewest(cands: seq<ResolutionCandidate>, required: nat, fixed: seq<nat>, s: set<nat>) {
    forall a: nat, b: nat :: (a in s && b !in s && a < |cands| && b < |cands| && IsOlder(cands[a], cands[b])) ==>
      !ValidSelection(cands, required, fixed, s - {a} + {b})
  }

  /** Between packages the later name is taken: no selected package can be swapped for one of a later name. */
  ghost predicate PicksLastName(cands: seq<ResolutionCandidate>, required: nat, fixed: seq<nat>, s: set<nat>) {
    forall a: nat, b: nat :: (a in s && b !in s && a < |cands| && b < |cands| &&
                              Precedes(cands[a].package, cands[b].package)) ==>
      !ValidSelection(cands, required, fixed, s - {a} + {b})
  }

  lemma LeastPicks(cands: seq<ResolutionCandidate>, required: nat, fixed: seq<nat>, s: set<nat>)
    requires LeastSelection(cands, required, fixed, s)
    ensures PicksNewest(cands, required, fixed, s) && PicksLastName(cands, required, fixed, s)
  {
    hide ValidSelection, LeastSelection, Precedes;
    forall a: nat, b: nat | a in s && b !in s && a < |cands| && b < |cands| &&
        (IsOlder(cands[a], cands[b]) || Precedes(cands[a].package, cands[b].package))
      ensures !ValidSelection(cands, required, fixed, s - {a} + {b})
    {
      StringLessExact(cands[a].package, cands[b].package);
      NoBetterSwap(cands, required, fixed, s, a, b);
    }
  }

  /** Once there is a plan nothing stands against planning. */
  lemma GoodPlanIsPlannable(cands: seq<ResolutionCandidate>, required: nat, fixed: seq<nat>, plan: DependencyPlan)
    requires Admissible(cands, required, fixed) && Fits(cands, required, fixed) && GoodPlan(cands, required, fixed, plan)
    ensures !Unplannable(cands, required, fixed)
  {
    hide Fits, LeastSelection, SortedByKey, DependencyFirst, ChosenGraph, Graphs.Cycle, ValidSelection;
    LeastIsValid(cands, required, fixed, Elements(plan.selected));
    forall names ensures !CyclicSelection(cands, required, fixed, names) {
      if selected :| CyclicThrough(cands, required, fixed, selected, names) {
        LeastUnique(cands, required, fixed, Elements(selected), Elements(plan.selected));
        SortedUnique(cands, selected, plan.selected);
      }
    }
  }

  /** The order and the repetition of the fixed candidates do not matter, only which they are. */
  lemma PlansAlike(cands: seq<ResolutionCandidate>, required: nat, f: seq<nat>, g: seq<nat>)
    requires Elements(f) == Elements(g) && Distinct(f) && Distinct(g)
    ensures forall s :: LeastSelection(cands, required, f, s) <==> LeastSelection(cands, required, g, s)
    ensures Unplannable(cands, required, f) <==> Unplannable(cands, required, g)
  {
    hide Unplannable, LeastSelection, ValidSelection;
    SelectionsAlike(cands, required, f, g);
    if Unplannable(cands, required, g) {
      UnplannableAlike(cands, required, f, g);
    }
    if Unplannable(cands, required, f) {
      UnplannableAlike(cands, required, g, f);
    }
  }

  lemma SelectionsAlike(cands: seq<ResolutionCandidate>, required: nat, f: seq<nat>, g: seq<nat>)
    requires Elements(f) == Elements(g)
    ensures forall s :: ValidSelection(cands, required, f, s) <==> ValidSelection(cands, required, g, s)
    ensures forall s :: LeastSelection(cands, required, f, s) <==> LeastSelection(cands, required, g, s)
  {
    hide OnePerPackage, RequirementsMet, ConflictFree, FirstDiffers;
    ValidAlike(cands, required, f, g);
    ValidAlike(cands, required, g, f);
    forall s ensures LeastSelection(cands, required, f, s) <==> LeastSelection(cands, required, g, s) {
      hide ValidSelection;
    }
  }

  lemma ValidAlike(cands: seq<ResolutionCandidate>, required: nat, f: seq<nat>, g: seq<nat>)
    requires Elements(f) == Elements(g)
    ensures forall s :: ValidSelection(cands, required, f, s) ==> ValidSelection(cands, required, g, s)
  {
    hide OnePerPackage, RequirementsMet, ConflictFree;
    forall s | ValidSelection(cands, required, f, s) ensures ValidSelection(cands, required, g, s) {
      forall i | 0 <= i < |g| ensures g[i] in s {
        assert g[i] in Elements(f);
      }
    }
  }

  lemma UnplannableAlike(cands: seq<ResolutionCandidate>, required: nat, f: seq<nat>, g: seq<nat>)
    requires Elements(f) == Elements(g) && Distinct(f) && Distinct(g)
    requires Unplannable(cands, required, g)
    ensures Unplannable(cands, required, f)
  {
    hide LeastSelection, ValidSelection, Fits, ChosenGraph, SortedByKey;
    SelectionsAlike(cands, required, f, g);
    if Admissible(cands, required, f) && Fits(cands, required, f) {
      FitsAlike(cands, required, f, g);
      if names :| CyclicSelection(cands, required, g, names) {
        var selected :| CyclicThrough(cands, required, g, selected, names);
        assert CyclicThrough(cands, required, f, selected, names);
        assert CyclicSelection(cands, required, f, names);
      }
    }
  }

  lemma FitsAlike(cands: seq<ResolutionCandidate>, required: nat, f: seq<nat>, g: seq<nat>)
    requires Elements(f) == Elements(g) && Distinct(f) && Distinct(g)
    requires Admissible(cands, required, f) && Fits(cands, required, f)
    ensures Admissible(cands, required, g) && Fits(cands, required, g)
  {
    hide ValidCandidate, Apart, SomeTooWide, Units, Domains, CandidatesFrom;
    forall i | 0 <= i < |g| ensures g[i] < |cands| {
      assert g[i] in Elements(f);
    }
    DistinctSize(f);
    DistinctSize(g);
    var vf :| IsNumbering(|cands|, Canonical(cands), vf) && |ClausesFor(cands, vf, required, f)| <= MAX_CLAUSES;
    UnitsLength(vf, [required] + f, 0);
    UnitsLength(vf, [required] + g, 0);
    assert |ClausesFor(cands, vf, required, g)| == |ClausesFor(cands, vf, required, f)|;
  }

  lemma {:induction false} UnitsLength(vf: seq<nat>, roots: seq<nat>, i: nat)
    requires i <= |roots| && forall k :: 0 <= k < |roots| ==> roots[k] < |vf|
    ensures |Units(vf, roots, i)| == |roots| - i
    decreases |roots| - i
  {
    if i >= |roots| {
    } else {
      UnitsLength(vf, roots, i + 1);
    }
  }

  /**
   * Plans an installation. Invalid or oversized graphs are refused, and nothing else is; an
   * unsatisfiable graph has no valid selection; otherwise the least valid selection comes back in
   * dependency-first order, unless its chosen providers form a cycle, which is then named.
   */
  method SolveDependencyGraph(cands: seq<ResolutionCandidate>, required: nat, fixed: seq<nat>)
    returns (r: Result<DependencyPlan, DependencyError>)
    ensures r == Err(Invalid) || r == Err(Capacity)
            <==> !(Admissible(cands, required, fixed) && Fits(cands, required, fixed))
    ensures r == Err(Capacity) <==> CapacityExceeded(cands, required, fixed)
    ensures r == Err(DependencyError.Unsatisfiable) ==> forall s :: !ValidSelection(cands, required, fixed, s)
    ensures r.Err? && r.error.Cycle? ==> CyclicSelection(cands, required, fixed, r.error.names)
    ensures r.Ok? ==> GoodPlan(cands, required, fixed, r.value)
    ensures r.Ok? ==> PicksNewest(cands, required, fixed, Elements(r.value.selected))
    ensures r.Ok? <==> !Unplannable(cands, required, fixed)
  {
    hide ValidCandidates, IsLeastModel, ValidSelection, LeastSelection, Mentions, GraphClauses,
      AllMet, NamesCycle, DependencyFirst, SomeTooWide, ChosenGraph, SortedByKey, TooMuchMetadata;
    if cands == [] || required >= |cands| {
      return Err(Invalid);
    }
    if |cands| > MAX_PACKAGES {
      return Err(Capacity);
    }
    var error := ValidateCandidates(cands, fixed);
    if error.Some? {
      return Err(error.value);
    }
    FixedIndexes(cands, fixed);
    var canon := Canonical(cands);
    var vf := NumberCandidates(cands, canon);
    NumberingUnique(cands, vf, required, fixed);
    var solver := new DpllSolver();
    var loaded := LoadGraph(solver, cands, canon, vf, required, fixed);
    if !loaded {
      return Err(Capacity);
    }
    var solved := solver.Solve();
    if solved.Unsatisfiable? {
      UnsatisfiableMeansNone(cands, vf, required, fixed);
      return Err(DependencyError.Unsatisfiable);
    }
    var selected := ReadSelection(cands, canon, vf, solver.assignment);
    LeastModelIsLeastSelection(Search.Selection(solver.assignment[..]), cands, vf, required, fixed);
    LeastIsValid(cands, required, fixed, Elements(selected));
    SelectionMeetsAll(cands, required, fixed, selected);
    var order := DependencyOrder(cands, selected);
    if order.Err? {
      assert CyclicThrough(cands, required, fixed, selected, order.error.names);
      return Err(order.error);
    }
    r := Ok(DependencyPlan(selected, order.value));
    GoodPlanIsPlannable(cands, required, fixed, r.value);
    LeastPicks(cands, required, fixed, Elements(selected));
  }

  lemma LeastIsValid(cands: seq<ResolutionCandidate>, required: nat, fixed: seq<nat>, s: set<nat>)
    requires LeastSelection(cands, required, fixed, s)
    ensures ValidSelection(cands, required, fixed, s)
  {
  }

  lemma NumberingUnique(cands: seq<ResolutionCandidate>, vf: seq<nat>, required: nat, fixed: seq<nat>)
    requires Admissible(cands, required, fixed) && IsNumbering(|cands|, Canonical(cands), vf)
    ensures Fits(cands, required, fixed)
            <==> !SomeTooWide(cands, Canonical(cands)) && |ClausesFor(cands, vf, required, fixed)| <= MAX_CLAUSES
  {
    hide ValidCandidates, GraphClauses, SomeTooWide;
    FixedIndexes(cands, fixed);
    forall wf | IsNumbering(|cands|, Canonical(cands), wf) ensures wf == vf {
      forall c | 0 <= c < |cands| ensures wf[c] == vf[c] {
        assert wf[Canonical(cands)[vf[c]]] == vf[c];
      }
    }
  }

  method LoadGraph(solver: DpllSolver, cands: seq<ResolutionCandidate>, canon: seq<nat>, vf: seq<nat>, required: nat,
                   fixed: seq<nat>)
    returns (ok: bool)
    requires solver.Valid() && solver.Clauses() == []
    requires canon == Canonical(cands) && IsNumbering(|cands|, canon, vf)
    requires required < |cands| <= MAX_PACKAGES && Indexes(cands, fixed)
    modifies solver`numClauses, solver.clauses, solver.activeVariables
    ensures solver.Valid()
    ensures ok ==> solver.Clauses() == ClausesFor(cands, vf, required, fixed)
    ensures ok <==> !SomeTooWide(cands, canon) && |ClausesFor(cands, vf, required, fixed)| <= MAX_CLAUSES
  {
    hide SomeTooWide;
    ghost var names := PackageNames(cands, canon);
    ghost var full := ClausesFor(cands, vf, required, fixed);
    ghost var middle, last := Domains(cands, vf, canon, names, 0), CandidatesFrom(cands, vf, canon, 0);
    assert [] + (Units(vf, [required] + fixed, 0) + (middle + last)) == full;
    ok := AddUnits(solver, vf, required, fixed, middle + last, full);
    if !ok {
      return;
    }
    ok := AddDomains(solver, cands, vf, canon, last, full);
    if !ok {
      return;
    }
    ok := AddCandidates(solver, cands, vf, canon, full);
    assert ok ==> |solver.Clauses()| <= MAX_CLAUSES;
  }
}
