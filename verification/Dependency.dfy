/** Signed package metadata, what a valid selection of candidates is, and how candidates are ordered. */
module Dependency {
  import opened Counting
  import opened Graphs
  import opened Results

  const MAX_PACKAGE_REQUIREMENTS: nat := 64
  const MAX_PACKAGE_CONSTRAINTS: nat := 64
  const MAX_PACKAGE_CAPABILITIES: nat := 64
  const MAX_REQUIREMENT_ALTERNATIVES: nat := 16
  const MAX_CONSTRAINT_VERSIONS: nat := 64

  datatype PackageConstraint = PackageConstraint(name: string, versions: seq<string>)

  datatype PackageRequirement = PackageRequirement(alternatives: seq<PackageConstraint>)

  datatype PackageCapability = PackageCapability(name: string, version: Option<string>)

  datatype DependencyMetadata = DependencyMetadata(
    requirements: seq<PackageRequirement>,
    provided: seq<PackageCapability>,
    conflicts: seq<PackageConstraint>)

  datatype ResolutionCandidate = ResolutionCandidate(
    package: string, version: string, sequence: nat, metadata: DependencyMetadata)

  datatype DependencyPlan = DependencyPlan(selected: seq<nat>, order: seq<nat>)

  datatype DependencyError = Invalid | Capacity | Unsatisfiable | Cycle(names: seq<string>)

  // ----- satisfaction -----

  predicate VersionAccepted(version: string, constraint: PackageConstraint) {
    constraint.versions == [] || version in constraint.versions
  }

  predicate PackageSatisfiesConstraint(package: string, version: string, provided: seq<PackageCapability>,
                                       constraint: PackageConstraint) {
    || (package == constraint.name && VersionAccepted(version, constraint))
    || exists k :: 0 <= k < |provided| && provided[k].name == constraint.name
                   && VersionAccepted(provided[k].version.GetOr(version), constraint)
  }

  predicate CandidateSatisfies(c: ResolutionCandidate, constraint: PackageConstraint) {
    PackageSatisfiesConstraint(c.package, c.version, c.metadata.provided, constraint)
  }

  /** A candidate without capabilities satisfies what names it and lists its version or none. */
  lemma PlainCandidateSatisfies(c: ResolutionCandidate, constraint: PackageConstraint)
    requires c.metadata.provided == []
    ensures CandidateSatisfies(c, constraint)
            <==> c.package == constraint.name && (c.version in constraint.versions || constraint.versions == [])
  {
  }

  /** A capability stands for its name, in its own version if it has one and in that of the package if not. */
  lemma ProvidedSatisfies(c: ResolutionCandidate, constraint: PackageConstraint, k: nat)
    requires k < |c.metadata.provided| && c.metadata.provided[k].name == constraint.name
    requires var v := c.metadata.provided[k].version;
             constraint.versions == [] || (if v.Some? then v.value else c.version) in constraint.versions
    ensures CandidateSatisfies(c, constraint)
  {
  }

  /** A requirement is met by whatever satisfies one of its alternatives. */
  method RequirementMetBy(c: ResolutionCandidate, r: PackageRequirement) returns (met: bool)
    ensures met <==> Meets(c, r)
  {
    for i := 0 to |r.alternatives|
      invariant forall k :: 0 <= k < i ==> !CandidateSatisfies(c, r.alternatives[k])
    {
      var ok := SatisfiesConstraint(c.package, c.version, c.metadata.provided, r.alternatives[i]);
      if ok {
        return true;
      }
    }
    return false;
  }

  predicate Meets(c: ResolutionCandidate, r: PackageRequirement) {
    exists k :: 0 <= k < |r.alternatives| && CandidateSatisfies(c, r.alternatives[k])
  }

  /** The versions a package offers under a name: its own if it has that name, then those it provides. */
  function Offered(package: string, version: string, provided: seq<PackageCapability>, name: string): seq<string> {
    if provided == [] then if package == name then [version] else []
    else
      var last := provided[|provided| - 1];
      Offered(package, version, provided[..|provided| - 1], name)
      + if last.name != name then [] else if last.version.Some? then [last.version.value] else [version]
  }

  /** A constraint is satisfied by any offered version if it lists none, and otherwise by one that it lists. */
  lemma {:induction false} OfferedSatisfies(package: string, version: string, provided: seq<PackageCapability>,
                                            constraint: PackageConstraint)
    ensures PackageSatisfiesConstraint(package, version, provided, constraint)
            <==> exists v :: v in Offered(package, version, provided, constraint.name) &&
                             (v in constraint.versions || |constraint.versions| == 0)
  {
    hide VersionAccepted;
    VersionsAccepted(constraint);
    var offered := Offered(package, version, provided, constraint.name);
    if provided == [] {
      assert package == constraint.name ==> version in offered;
    } else {
      var front, last := provided[..|provided| - 1], provided[|provided| - 1];
      OfferedSatisfies(package, version, front, constraint);
      assert provided == front + [last];
      assert offered == Offered(package, version, front, constraint.name)
                        + if last.name != constraint.name then [] else [last.version.GetOr(version)];
      LastProvided(package, version, front, last, constraint);
    }
  }

  lemma LastProvided(package: string, version: string, front: seq<PackageCapability>, last: PackageCapability,
                     constraint: PackageConstraint)
    ensures PackageSatisfiesConstraint(package, version, front + [last], constraint)
            <==> PackageSatisfiesConstraint(package, version, front, constraint)
                 || (last.name == constraint.name && VersionAccepted(last.version.GetOr(version), constraint))
  {
    hide VersionAccepted;
    var all := front + [last];
    assert all[|front|] == last;
    assert forall k :: 0 <= k < |front| ==> all[k] == front[k];
  }

  lemma VersionsAccepted(constraint: PackageConstraint)
    ensures forall v :: VersionAccepted(v, constraint) <==> v in constraint.versions || |constraint.versions| == 0
  {
  }

  /** The chain of the source: the package's own version first, then the capabilities, until one will do. */
  method SatisfiesConstraint(package: string, version: string, provided: seq<PackageCapability>,
                             constraint: PackageConstraint)
    returns (ok: bool)
    ensures ok <==> PackageSatisfiesConstraint(package, version, provided, constraint)
  {
    hide VersionAccepted;
    VersionsAccepted(constraint);
    if package == constraint.name && (|constraint.versions| == 0 || version in constraint.versions) {
      return true;
    }
    for i := 0 to |provided|
      invariant !PackageSatisfiesConstraint(package, version, provided[..i], constraint)
    {
      if provided[i].name == constraint.name {
        var effective := if provided[i].version.Some? then provided[i].version.value else version;
        if |constraint.versions| == 0 || effective in constraint.versions {
          return true;
        }
      }
    }
    assert provided[..|provided|] == provided;
    return false;
  }

  // ----- valid selections -----

  ghost predicate OnePerPackage(cands: seq<ResolutionCandidate>, s: set<nat>)
    requires forall c :: c in s ==> c < |cands|
  {
    forall a, b :: a in s && b in s && cands[a].package == cands[b].package ==> a == b
  }

  ghost predicate RequirementMet(cands: seq<ResolutionCandidate>, s: set<nat>, r: PackageRequirement)
    requires forall c :: c in s ==> c < |cands|
  {
    exists o :: o in s && Meets(cands[o], r)
  }

  ghost predicate RequirementsMet(cands: seq<ResolutionCandidate>, s: set<nat>)
    requires forall c :: c in s ==> c < |cands|
  {
    forall c, k :: c in s && 0 <= k < |cands[c].metadata.requirements| ==>
      RequirementMet(cands, s, cands[c].metadata.requirements[k])
  }

  ghost predicate ConflictFree(cands: seq<ResolutionCandidate>, s: set<nat>)
    requires forall c :: c in s ==> c < |cands|
  {
    forall c, k, o :: c in s && 0 <= k < |cands[c].metadata.conflicts| && o in s && o != c ==>
      !CandidateSatisfies(cands[o], cands[c].metadata.conflicts[k])
  }

  /** What a plan has to install: a consistent closure of the required and the fixed candidates. */
  ghost predicate ValidSelection(cands: seq<ResolutionCandidate>, required: nat, fixed: seq<nat>, s: set<nat>) {
    && (forall c :: c in s ==> c < |cands|)
    && required in s
    && (forall i :: 0 <= i < |fixed| ==> fixed[i] in s)
    && OnePerPackage(cands, s)
    && RequirementsMet(cands, s)
    && ConflictFree(cands, s)
  }

  /** The candidates of `s` that can meet a requirement of `c`. */
  ghost function Providers(cands: seq<ResolutionCandidate>, s: set<nat>, c: nat): set<nat>
    requires c < |cands| && forall o :: o in s ==> o < |cands|
  {
    set o | o in s && exists k :: 0 <= k < |cands[c].metadata.requirements|
                                  && Meets(cands[o], cands[c].metadata.requirements[k])
  }

  ghost function RequirementGraph(cands: seq<ResolutionCandidate>, s: set<nat>): Graph
    requires forall o :: o in s ==> o < |cands|
  {
    map c | c in s :: Providers(cands, s, c)
  }

  /** Reachable from the required or a fixed candidate along requirement satisfaction. */
  ghost predicate Needed(cands: seq<ResolutionCandidate>, required: nat, fixed: seq<nat>, s: set<nat>, c: nat)
    requires forall o :: o in s ==> o < |cands|
  {
    exists root :: (root == required || root in fixed) && Reachable(RequirementGraph(cands, s), root, c)
  }

  ghost predicate SubsetMinimal(cands: seq<ResolutionCandidate>, required: nat, fixed: seq<nat>, s: set<nat>) {
    forall t :: ValidSelection(cands, required, fixed, t) && t <= s ==> t == s
  }

  /** A selection none of whose proper subsets is valid holds nothing that is not needed. */
  lemma MinimalIsNeeded(cands: seq<ResolutionCandidate>, required: nat, fixed: seq<nat>, s: set<nat>, c: nat)
    requires ValidSelection(cands, required, fixed, s) && SubsetMinimal(cands, required, fixed, s)
    requires c in s
    ensures Needed(cands, required, fixed, s, c)
  {
    var g := RequirementGraph(cands, s);
    var t := set o | o in s && Needed(cands, required, fixed, s, o);
    forall root | root == required || root in fixed ensures root in t {
      assert root in s;
      ReachableSelf(g, root);
    }
    forall a, k | a in t && 0 <= k < |cands[a].metadata.requirements|
      ensures RequirementMet(cands, t, cands[a].metadata.requirements[k])
    {
      assert RequirementMet(cands, s, cands[a].metadata.requirements[k]);
      var o :| o in s && Meets(cands[o], cands[a].metadata.requirements[k]);
      assert Edge(g, a, o);
      var root :| (root == required || root in fixed) && Reachable(g, root, a);
      ReachableStep(g, root, a, o);
      assert o in t;
    }
    assert ValidSelection(cands, required, fixed, t);
    assert t == s;
  }

  // ----- the order of candidates -----

  predicate StringLess(a: string, b: string) {
    if b == [] then false
    else if a == [] then true
    else a[0] < b[0] || (a[0] == b[0] && StringLess(a[1..], b[1..]))
  }

  lemma {:induction false} StringLessTotal(a: string, b: string)
    ensures StringLess(a, b) || StringLess(b, a) || a == b
    ensures !(StringLess(a, b) && StringLess(b, a))
    ensures a == b ==> !StringLess(a, b)
  {
    if a == [] || b == [] {
    } else {
      StringLessTotal(a[1..], b[1..]);
      assert a == [a[0]] + a[1..] && b == [b[0]] + b[1..];
    }
  }

  lemma {:induction false} StringLessTransitive(a: string, b: string, c: string)
    requires StringLess(a, b) && StringLess(b, c)
    ensures StringLess(a, c)
  {
    if a != [] && a[0] == b[0] == c[0] {
      StringLessTransitive(a[1..], b[1..], c[1..]);
    }
  }

  /** In the order of a dictionary: smaller where they first differ, or a proper beginning. */
  ghost predicate Precedes(a: string, b: string) {
    exists k: nat :: DiffersFirst(a, b, k)
  }

  ghost predicate DiffersFirst(a: string, b: string, k: nat) {
    k <= |a| && k < |b| && a[..k] == b[..k] && (k == |a| || a[k] as int < b[k] as int)
  }

  lemma {:induction false} StringLessExact(a: string, b: string)
    ensures StringLess(a, b) <==> Precedes(a, b)
  {
    if a == [] || b == [] {
      assert b != [] ==> DiffersFirst(a, b, 0);
    } else {
      StringLessExact(a[1..], b[1..]);
      assert a == [a[0]] + a[1..] && b == [b[0]] + b[1..];
      if a[0] == b[0] && Precedes(a[1..], b[1..]) {
        var k: nat :| DiffersFirst(a[1..], b[1..], k);
        assert a[..k + 1] == [a[0]] + a[1..][..k] && b[..k + 1] == [b[0]] + b[1..][..k];
        assert DiffersFirst(a, b, k + 1);
      }
      if a[0] < b[0] {
        assert DiffersFirst(a, b, 0);
      }
      if Precedes(a, b) && a[0] == b[0] {
        var k: nat :| DiffersFirst(a, b, k);
        assert a[1..][..k - 1] == a[..k][1..] && b[1..][..k - 1] == b[..k][1..];
        assert DiffersFirst(a[1..], b[1..], k - 1);
      }
      if Precedes(a, b) && a[0] != b[0] {
        var k: nat :| DiffersFirst(a, b, k);
        assert k > 0 ==> a[..k][0] == b[..k][0];
      }
    }
  }

  /** Package name, then publisher sequence, then version. */
  predicate KeyLess(a: ResolutionCandidate, b: ResolutionCandidate) {
    || StringLess(a.package, b.package)
    || (a.package == b.package
        && (a.sequence < b.sequence || (a.sequence == b.sequence && StringLess(a.version, b.version))))
  }

  lemma KeyLessTotal(a: ResolutionCandidate, b: ResolutionCandidate)
    ensures !(KeyLess(a, b) && KeyLess(b, a))
    ensures a.package != b.package ==> KeyLess(a, b) || KeyLess(b, a)
    ensures a == b ==> !KeyLess(a, b)
  {
    StringLessTotal(a.package, b.package);
    StringLessTotal(a.version, b.version);
  }

  lemma KeyLessThrough(a: ResolutionCandidate, b: ResolutionCandidate, c: ResolutionCandidate)
    requires !KeyLess(b, a) && !KeyLess(c, b)
    ensures !KeyLess(c, a)
  {
    StringLessTotal(a.package, b.package);
    StringLessTotal(b.package, c.package);
    StringLessTotal(a.package, c.package);
    StringLessTotal(a.version, b.version);
    StringLessTotal(b.version, c.version);
    StringLessTotal(a.version, c.version);
    if KeyLess(c, a) {
      if StringLess(c.package, a.package) && StringLess(a.package, b.package) {
        StringLessTransitive(c.package, a.package, b.package);
      }
      if StringLess(c.version, a.version) && StringLess(a.version, b.version) {
        StringLessTransitive(c.version, a.version, b.version);
      }
      assert false;
    }
  }

  predicate Indexes(cands: seq<ResolutionCandidate>, s: seq<nat>) {
    forall i :: 0 <= i < |s| ==> s[i] < |cands|
  }

  /** The members of `s` that meet a requirement, in order. */
  function OptionsFor(cands: seq<ResolutionCandidate>, s: seq<nat>, r: PackageRequirement): (o: seq<nat>)
    requires Indexes(cands, s)
    ensures Indexes(cands, o)
  {
    if s == [] then []
    else OptionsFor(cands, s[..|s| - 1], r) + if Meets(cands[s[|s| - 1]], r) then [s[|s| - 1]] else []
  }

  lemma {:induction false} OptionsExact(cands: seq<ResolutionCandidate>, s: seq<nat>, r: PackageRequirement)
    requires Indexes(cands, s)
    ensures forall c :: c in OptionsFor(cands, s, r) <==> c in s && c < |cands| && Meets(cands[c], r)
  {
    if s == [] {
      assert OptionsFor(cands, s, r) == [];
    } else {
      assert s == s[..|s| - 1] + [s[|s| - 1]];
      OptionsExact(cands, s[..|s| - 1], r);
    }
  }

  lemma MembersAreIndexes(cands: seq<ResolutionCandidate>, s: seq<nat>)
    requires forall c :: c in s ==> c < |cands|
    ensures Indexes(cands, s)
  {
    forall i | 0 <= i < |s| ensures s[i] < |cands| {
      assert s[i] in s;
    }
  }

  predicate SortedByKey(cands: seq<ResolutionCandidate>, s: seq<nat>)
    requires Indexes(cands, s)
  {
    forall i, j :: 0 <= i < j < |s| ==> !KeyLess(cands[s[j]], cands[s[i]])
  }

  function InsertByKey(cands: seq<ResolutionCandidate>, s: seq<nat>, c: nat): (r: seq<nat>)
    requires Indexes(cands, s) && SortedByKey(cands, s) && c < |cands|
    ensures multiset(r) == multiset(s) + multiset{c}
    ensures Indexes(cands, r) && SortedByKey(cands, r)
    ensures s != [] && !KeyLess(cands[c], cands[s[0]]) ==> r[0] == s[0]
    ensures s == [] || KeyLess(cands[c], cands[s[0]]) ==> r == [c] + s
  {
    if s == [] || KeyLess(cands[c], cands[s[0]]) then
      InsertFirst(cands, s, c);
      [c] + s
    else
      SortedTail(cands, s);
      var rest := InsertByKey(cands, s[1..], c);
      InsertLater(cands, s, c, rest);
      [s[0]] + rest
  }

  lemma SortedTail(cands: seq<ResolutionCandidate>, s: seq<nat>)
    requires Indexes(cands, s) && SortedByKey(cands, s) && s != []
    ensures Indexes(cands, s[1..]) && SortedByKey(cands, s[1..])
  {
    hide KeyLess;
  }

  lemma InsertLater(cands: seq<ResolutionCandidate>, s: seq<nat>, c: nat, rest: seq<nat>)
    requires Indexes(cands, s) && SortedByKey(cands, s) && s != [] && c < |cands| && !KeyLess(cands[c], cands[s[0]])
    requires Indexes(cands, rest) && SortedByKey(cands, rest) && multiset(rest) == multiset(s[1..]) + multiset{c}
    ensures Indexes(cands, [s[0]] + rest) && SortedByKey(cands, [s[0]] + rest)
    ensures multiset([s[0]] + rest) == multiset(s) + multiset{c}
  {
    hide KeyLess;
    assert s == [s[0]] + s[1..];
    KeepFirst(cands, s[0], s[1..], c, rest);
  }

  lemma InsertFirst(cands: seq<ResolutionCandidate>, s: seq<nat>, c: nat)
    requires Indexes(cands, s) && SortedByKey(cands, s) && c < |cands|
    requires s == [] || KeyLess(cands[c], cands[s[0]])
    ensures Indexes(cands, [c] + s) && SortedByKey(cands, [c] + s) && multiset([c] + s) == multiset(s) + multiset{c}
  {
    forall j | 0 <= j < |s| ensures !KeyLess(cands[s[j]], cands[c]) {
      KeyLessTotal(cands[c], cands[s[0]]);
      if j > 0 {
        KeyLessThrough(cands[c], cands[s[0]], cands[s[j]]);
      }
    }
  }

  lemma KeepFirst(cands: seq<ResolutionCandidate>, first: nat, s: seq<nat>, c: nat, rest: seq<nat>)
    requires first < |cands| && c < |cands| && Indexes(cands, s) && Indexes(cands, rest)
    requires SortedByKey(cands, [first] + s) && !KeyLess(cands[c], cands[first])
    requires SortedByKey(cands, rest) && multiset(rest) == multiset(s) + multiset{c}
    ensures SortedByKey(cands, [first] + rest)
  {
    forall j | 0 <= j < |rest| ensures !KeyLess(cands[rest[j]], cands[first]) {
      assert rest[j] in multiset(rest);
      if rest[j] != c {
        assert rest[j] in multiset(s);
        var k :| 0 <= k < |s| && s[k] == rest[j];
        var all := [first] + s;
        assert all[k + 1] == rest[j] && !KeyLess(cands[all[k + 1]], cands[all[0]]);
      }
    }
  }

  /** The stable sort of the source: the same indexes in key order. */
  function SortByKey(cands: seq<ResolutionCandidate>, s: seq<nat>): (r: seq<nat>)
    requires Indexes(cands, s)
    ensures multiset(r) == multiset(s)
    ensures Indexes(cands, r) && SortedByKey(cands, r)
  {
    if s == [] then []
    else
      assert s == s[..|s| - 1] + [s[|s| - 1]];
      InsertByKey(cands, SortByKey(cands, s[..|s| - 1]), s[|s| - 1])
  }

  lemma SameElements(s: seq<nat>, t: seq<nat>)
    requires multiset(s) == multiset(t)
    ensures |s| == |t|
    ensures forall x :: x in s <==> x in t
    ensures Distinct(s) ==> Distinct(t)
  {
    assert |multiset(s)| == |s| && |multiset(t)| == |t|;
    forall x ensures x in s <==> x in t {
      assert x in s <==> x in multiset(s);
      assert x in t <==> x in multiset(t);
    }
    if Distinct(s) && !Distinct(t) {
      var i, j :| 0 <= i < j < |t| && t[i] == t[j];
      RepeatedTwice(t, i, j);
      DistinctOnce(s, t[i]);
      assert false;
    }
  }

  lemma RepeatedTwice(t: seq<nat>, i: nat, j: nat)
    requires i < j < |t| && t[i] == t[j]
    ensures multiset(t)[t[i]] >= 2
  {
    assert t == t[..j] + [t[j]] + t[j + 1..];
    assert t[..j][i] == t[i];
    assert t[i] in multiset(t[..j]);
  }

  lemma {:induction false} DistinctOnce(s: seq<nat>, x: nat)
    requires Distinct(s)
    ensures multiset(s)[x] <= 1
  {
    if s == [] {
    } else {
      var front := s[..|s| - 1];
      assert s == front + [s[|s| - 1]];
      DistinctOnce(front, x);
      if x == s[|s| - 1] {
        assert x !in front;
      }
    }
  }
}
