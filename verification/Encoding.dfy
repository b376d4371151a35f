/** The clauses that describe a dependency graph, and the selections that are their models. */
module Encoding {
  import opened Cnf
  import opened Counting
  import opened Dependency

  // ----- numbering candidates -----

  /** `canon` lists the candidates in variable order, `vf` gives each candidate its variable. */
  ghost predicate IsNumbering(n: nat, canon: seq<nat>, vf: seq<nat>) {
    && |canon| == n && |vf| == n
    && (forall i :: 0 <= i < n ==> canon[i] < n && vf[canon[i]] == i)
    && (forall c :: 0 <= c < n ==> vf[c] < n && canon[vf[c]] == c)
  }

  ghost function SelectedBy(vf: seq<nat>, m: seq<bool>): set<nat>
    requires forall c :: 0 <= c < |vf| ==> vf[c] < |m|
  {
    set c | 0 <= c < |vf| && m[vf[c]]
  }

  ghost function ModelOf(canon: seq<nat>, s: set<nat>): (m: seq<bool>)
    ensures |m| == MAX_PACKAGES
  {
    seq(MAX_PACKAGES, i requires 0 <= i < MAX_PACKAGES => i < |canon| && canon[i] in s)
  }

  lemma ModelSelects(n: nat, canon: seq<nat>, vf: seq<nat>, s: set<nat>)
    requires IsNumbering(n, canon, vf) && n <= MAX_PACKAGES && forall c :: c in s ==> c < n
    ensures SelectedBy(vf, ModelOf(canon, s)) == s
  {
    var m := ModelOf(canon, s);
    forall c | 0 <= c < n ensures m[vf[c]] <==> c in s {
      assert canon[vf[c]] == c;
    }
  }

  // ----- clauses -----

  ghost predicate Sat(m: seq<bool>, cs: seq<Clause>) {
    forall i :: 0 <= i < |cs| ==> ClauseHolds(cs[i], m)
  }

  lemma SatNothing(m: seq<bool>)
    ensures Sat(m, [])
  {
  }

  lemma SatConcat(m: seq<bool>, a: seq<Clause>, b: seq<Clause>)
    ensures Sat(m, a + b) <==> Sat(m, a) && Sat(m, b)
  {
    assert forall i :: 0 <= i < |a| ==> (a + b)[i] == a[i];
    assert forall i :: 0 <= i < |b| ==> (a + b)[|a| + i] == b[i];
    if Sat(m, a + b) {
      forall i | 0 <= i < |b| ensures ClauseHolds(b[i], m) {
        assert ClauseHolds((a + b)[|a| + i], m);
      }
    }
  }

  function UnitClause(v: nat): Clause {
    Clause([Pos(v)], false)
  }

  function ConflictClause(left: nat, right: nat): Clause {
    Clause([Neg(left), Neg(right)], false)
  }

  function Positives(vf: seq<nat>, options: seq<nat>): (lits: seq<Lit>)
    requires forall i :: 0 <= i < |options| ==> options[i] < |vf|
    ensures |lits| == |options| && forall i :: 0 <= i < |options| ==> lits[i] == Pos(vf[options[i]])
  {
    seq(|options|, i requires 0 <= i < |options| => Pos(vf[options[i]]))
  }

  function RequirementClause(vf: seq<nat>, c: nat, options: seq<nat>): Clause
    requires c < |vf| && forall i :: 0 <= i < |options| ==> options[i] < |vf|
  {
    Clause([Neg(vf[c])] + Positives(vf, options), false)
  }

  lemma ConflictMeans(m: seq<bool>, left: nat, right: nat)
    requires left < |m| && right < |m|
    ensures ClauseHolds(ConflictClause(left, right), m) <==> !(m[left] && m[right])
  {
    var c := ConflictClause(left, right);
    assert LitHolds(c.lits[0], m) <==> !m[left];
    assert LitHolds(c.lits[1], m) <==> !m[right];
  }

  lemma UnitMeans(m: seq<bool>, v: nat)
    requires v < |m|
    ensures ClauseHolds(UnitClause(v), m) <==> m[v]
  {
    assert LitHolds(UnitClause(v).lits[0], m) <==> m[v];
  }

  lemma RequirementMeans(m: seq<bool>, vf: seq<nat>, c: nat, options: seq<nat>)
    requires c < |vf| && forall i :: 0 <= i < |options| ==> options[i] < |vf|
    requires forall d :: 0 <= d < |vf| ==> vf[d] < |m|
    ensures ClauseHolds(RequirementClause(vf, c, options), m)
            <==> (m[vf[c]] ==> exists i :: 0 <= i < |options| && m[vf[options[i]]])
  {
    var clause := RequirementClause(vf, c, options);
    assert clause.lits[0] == Neg(vf[c]);
    forall i | 0 <= i < |options| ensures LitHolds(clause.lits[i + 1], m) <==> m[vf[options[i]]] {
      assert clause.lits[i + 1] == Pos(vf[options[i]]);
    }
    if ClauseHolds(clause, m) && m[vf[c]] {
      var k :| 0 <= k < |clause.lits| && LitHolds(clause.lits[k], m);
      assert k > 0 && m[vf[options[k - 1]]];
    }
    if !m[vf[c]] {
      assert LitHolds(clause.lits[0], m);
    } else if exists i :: 0 <= i < |options| && m[vf[options[i]]] {
      var i :| 0 <= i < |options| && m[vf[options[i]]];
      assert LitHolds(clause.lits[i + 1], m);
    }
  }

  // ----- the clause lists, each from a given position on -----

  ghost function Units(vf: seq<nat>, roots: seq<nat>, i: nat): seq<Clause>
    requires forall k :: 0 <= k < |roots| ==> roots[k] < |vf|
    decreases |roots| - i
  {
    if i >= |roots| then [] else [UnitClause(vf[roots[i]])] + Units(vf, roots, i + 1)
  }

  lemma {:induction false} UnitsMean(m: seq<bool>, vf: seq<nat>, roots: seq<nat>, i: nat)
    requires forall k :: 0 <= k < |roots| ==> roots[k] < |vf|
    requires forall d :: 0 <= d < |vf| ==> vf[d] < |m|
    ensures Sat(m, Units(vf, roots, i)) <==> forall k :: i <= k < |roots| ==> m[vf[roots[k]]]
    decreases |roots| - i
  {
    hide Sat, UnitClause, ClauseHolds;
    SatNothing(m);
    if i >= |roots| {
    } else {
      UnitsMean(m, vf, roots, i + 1);
      UnitMeans(m, vf[roots[i]]);
      SatOne(m, UnitClause(vf[roots[i]]), Units(vf, roots, i + 1));
    }
  }

  lemma SatOne(m: seq<bool>, c: Clause, cs: seq<Clause>)
    ensures Sat(m, [c] + cs) <==> ClauseHolds(c, m) && Sat(m, cs)
  {
    SatConcat(m, [c], cs);
    assert Sat(m, [c]) <==> ClauseHolds([c][0], m);
  }

  ghost predicate InDomain(vf: seq<nat>, s: seq<nat>) {
    forall k :: 0 <= k < |s| ==> s[k] < |vf|
  }

  /** `c` against each of `others[j..]`. */
  ghost function Row(vf: seq<nat>, c: nat, others: seq<nat>, j: nat): seq<Clause>
    requires c < |vf| && InDomain(vf, others)
    decreases |others| - j
  {
    if j >= |others| then [] else [ConflictClause(vf[c], vf[others[j]])] + Row(vf, c, others, j + 1)
  }

  ghost predicate Excludes(m: seq<bool>, vf: seq<nat>, c: nat, o: nat)
    requires c < |vf| && o < |vf| && forall d :: 0 <= d < |vf| ==> vf[d] < |m|
  {
    !(m[vf[c]] && m[vf[o]])
  }

  lemma ConflictExcludes(m: seq<bool>, vf: seq<nat>, c: nat, o: nat)
    requires c < |vf| && o < |vf| && forall d :: 0 <= d < |vf| ==> vf[d] < |m|
    ensures ClauseHolds(ConflictClause(vf[c], vf[o]), m) <==> Excludes(m, vf, c, o)
  {
    ConflictMeans(m, vf[c], vf[o]);
  }

  lemma {:induction false} RowMeans(m: seq<bool>, vf: seq<nat>, c: nat, others: seq<nat>, j: nat)
    requires c < |vf| && InDomain(vf, others)
    requires forall d :: 0 <= d < |vf| ==> vf[d] < |m|
    ensures Sat(m, Row(vf, c, others, j)) <==> forall k :: j <= k < |others| ==> Excludes(m, vf, c, others[k])
    decreases |others| - j
  {
    hide Sat, ConflictClause, ClauseHolds, Excludes;
    SatNothing(m);
    if j >= |others| {
    } else {
      RowMeans(m, vf, c, others, j + 1);
      ConflictExcludes(m, vf, c, others[j]);
      SatOne(m, ConflictClause(vf[c], vf[others[j]]), Row(vf, c, others, j + 1));
    }
  }

  /** Every pair of `domain` whose first member is at `i` or later. */
  ghost function Pairs(vf: seq<nat>, domain: seq<nat>, i: nat): seq<Clause>
    requires InDomain(vf, domain)
    decreases |domain| - i
  {
    if i >= |domain| then [] else Row(vf, domain[i], domain, i + 1) + Pairs(vf, domain, i + 1)
  }

  /** Member `a` of the domain excludes every later one. */
  ghost predicate RowApart(m: seq<bool>, vf: seq<nat>, domain: seq<nat>, a: nat)
    requires a < |domain| && InDomain(vf, domain) && forall d :: 0 <= d < |vf| ==> vf[d] < |m|
  {
    forall b :: a + 1 <= b < |domain| ==> !(m[vf[domain[a]]] && m[vf[domain[b]]])
  }

  lemma RowMeansApart(m: seq<bool>, vf: seq<nat>, domain: seq<nat>, a: nat)
    requires a < |domain| && InDomain(vf, domain)
    requires forall d :: 0 <= d < |vf| ==> vf[d] < |m|
    ensures Sat(m, Row(vf, domain[a], domain, a + 1)) <==> RowApart(m, vf, domain, a)
  {
    RowMeans(m, vf, domain[a], domain, a + 1);
    if RowApart(m, vf, domain, a) {
      forall b | a + 1 <= b < |domain| ensures Excludes(m, vf, domain[a], domain[b]) {
      }
    } else {
      var b :| a + 1 <= b < |domain| && m[vf[domain[a]]] && m[vf[domain[b]]];
      assert !Excludes(m, vf, domain[a], domain[b]);
    }
  }

  lemma {:induction false} PairsMean(m: seq<bool>, vf: seq<nat>, domain: seq<nat>, i: nat)
    requires InDomain(vf, domain)
    requires forall d :: 0 <= d < |vf| ==> vf[d] < |m|
    ensures Sat(m, Pairs(vf, domain, i)) <==> forall a :: i <= a < |domain| ==> RowApart(m, vf, domain, a)
    decreases |domain| - i
  {
    hide Sat, Row, RowApart;
    SatNothing(m);
    if i >= |domain| {
    } else {
      PairsMean(m, vf, domain, i + 1);
      RowMeansApart(m, vf, domain, i);
      SatConcat(m, Row(vf, domain[i], domain, i + 1), Pairs(vf, domain, i + 1));
    }
  }

  /** The candidates of one package, in variable order. */
  function DomainOf(cands: seq<ResolutionCandidate>, s: seq<nat>, name: string): (d: seq<nat>)
    requires Indexes(cands, s)
    ensures Indexes(cands, d)
  {
    if s == [] then []
    else
      var last := s[|s| - 1];
      DomainOf(cands, s[..|s| - 1], name) + if cands[last].package == name then [last] else []
  }

  lemma {:induction false} DomainExact(cands: seq<ResolutionCandidate>, s: seq<nat>, name: string)
    requires Indexes(cands, s) && Distinct(s)
    ensures Distinct(DomainOf(cands, s, name))
    ensures forall c :: c in DomainOf(cands, s, name) <==> c in s && c < |cands| && cands[c].package == name
  {
    if s == [] {
    } else {
      assert s == s[..|s| - 1] + [s[|s| - 1]];
      DomainExact(cands, s[..|s| - 1], name);
    }
  }

  ghost function Domains(cands: seq<ResolutionCandidate>, vf: seq<nat>, canon: seq<nat>, names: seq<string>, k: nat): seq<Clause>
    requires Indexes(cands, canon) && |vf| == |cands|
    decreases |names| - k
  {
    if k >= |names| then []
    else Pairs(vf, DomainOf(cands, canon, names[k]), 0) + Domains(cands, vf, canon, names, k + 1)
  }

  ghost predicate ApartIn(m: seq<bool>, vf: seq<nat>, domain: seq<nat>)
    requires InDomain(vf, domain) && forall d :: 0 <= d < |vf| ==> vf[d] < |m|
  {
    forall a, b :: 0 <= a < b < |domain| ==> !(m[vf[domain[a]]] && m[vf[domain[b]]])
  }

  lemma {:induction false} DomainsMean(m: seq<bool>, cands: seq<ResolutionCandidate>, vf: seq<nat>, canon: seq<nat>,
                                       names: seq<string>, k: nat)
    requires Indexes(cands, canon) && |vf| == |cands|
    requires forall d :: 0 <= d < |vf| ==> vf[d] < |m|
    ensures Sat(m, Domains(cands, vf, canon, names, k))
            <==> forall q :: k <= q < |names| ==> ApartIn(m, vf, DomainOf(cands, canon, names[q]))
    decreases |names| - k
  {
    hide DomainOf, Pairs, Sat, ApartIn;
    SatNothing(m);
    if k >= |names| {
    } else {
      var domain := DomainOf(cands, canon, names[k]);
      DomainsMean(m, cands, vf, canon, names, k + 1);
      PairsMeanApart(m, vf, domain);
      SatConcat(m, Pairs(vf, domain, 0), Domains(cands, vf, canon, names, k + 1));
    }
  }

  lemma PairsMeanApart(m: seq<bool>, vf: seq<nat>, domain: seq<nat>)
    requires InDomain(vf, domain)
    requires forall d :: 0 <= d < |vf| ==> vf[d] < |m|
    ensures Sat(m, Pairs(vf, domain, 0)) <==> ApartIn(m, vf, domain)
  {
    hide Sat, Pairs;
    PairsMean(m, vf, domain, 0);
    if forall a :: 0 <= a < |domain| ==> RowApart(m, vf, domain, a) {
      forall a, b | 0 <= a < b < |domain| ensures !(m[vf[domain[a]]] && m[vf[domain[b]]]) {
        assert RowApart(m, vf, domain, a);
      }
    }
    if ApartIn(m, vf, domain) {
      forall a | 0 <= a < |domain| ensures RowApart(m, vf, domain, a) {
      }
    }
  }

  ghost function Requirements(cands: seq<ResolutionCandidate>, vf: seq<nat>, canon: seq<nat>, c: nat, k: nat): seq<Clause>
    requires Indexes(cands, canon) && |vf| == |cands| && c < |cands|
    decreases |cands[c].metadata.requirements| - k
  {
    if k >= |cands[c].metadata.requirements| then []
    else
      [RequirementClause(vf, c, OptionsFor(cands, canon, cands[c].metadata.requirements[k]))]
      + Requirements(cands, vf, canon, c, k + 1)
  }

  ghost predicate SomeOption(m: seq<bool>, vf: seq<nat>, options: seq<nat>)
    requires InDomain(vf, options) && forall d :: 0 <= d < |vf| ==> vf[d] < |m|
  {
    exists i :: 0 <= i < |options| && m[vf[options[i]]]
  }

  lemma {:induction false} RequirementsMean(m: seq<bool>, cands: seq<ResolutionCandidate>, vf: seq<nat>,
                                            canon: seq<nat>, c: nat, k: nat)
    requires Indexes(cands, canon) && |vf| == |cands| && c < |cands|
    requires forall d :: 0 <= d < |vf| ==> vf[d] < |m|
    ensures Sat(m, Requirements(cands, vf, canon, c, k))
            <==> (m[vf[c]] ==> forall q :: k <= q < |cands[c].metadata.requirements| ==>
                    SomeOption(m, vf, OptionsFor(cands, canon, cands[c].metadata.requirements[q])))
    decreases |cands[c].metadata.requirements| - k
  {
    hide Sat, SomeOption, RequirementClause, OptionsFor;
    SatNothing(m);
    if k >= |cands[c].metadata.requirements| {
    } else {
      var options := OptionsFor(cands, canon, cands[c].metadata.requirements[k]);
      RequirementsMean(m, cands, vf, canon, c, k + 1);
      RequirementMeansSome(m, vf, c, options);
      SatOne(m, RequirementClause(vf, c, options), Requirements(cands, vf, canon, c, k + 1));
    }
  }

  lemma RequirementMeansSome(m: seq<bool>, vf: seq<nat>, c: nat, options: seq<nat>)
    requires c < |vf| && InDomain(vf, options) && forall d :: 0 <= d < |vf| ==> vf[d] < |m|
    ensures ClauseHolds(RequirementClause(vf, c, options), m) <==> (m[vf[c]] ==> SomeOption(m, vf, options))
  {
    RequirementMeans(m, vf, c, options);
  }

  /** The other candidates a conflict of `c` names, in variable order. */
  function OthersFor(cands: seq<ResolutionCandidate>, s: seq<nat>, c: nat, conflict: PackageConstraint): (o: seq<nat>)
    requires Indexes(cands, s)
    ensures Indexes(cands, o)
  {
    if s == [] then []
    else
      var last := s[|s| - 1];
      OthersFor(cands, s[..|s| - 1], c, conflict)
      + if last != c && CandidateSatisfies(cands[last], conflict) then [last] else []
  }

  lemma {:induction false} OthersExact(cands: seq<ResolutionCandidate>, s: seq<nat>, c: nat, conflict: PackageConstraint)
    requires Indexes(cands, s)
    ensures forall o :: o in OthersFor(cands, s, c, conflict)
                        <==> o in s && o < |cands| && o != c && CandidateSatisfies(cands[o], conflict)
  {
    if s == [] {
    } else {
      assert s == s[..|s| - 1] + [s[|s| - 1]];
      OthersExact(cands, s[..|s| - 1], c, conflict);
    }
  }

  ghost function Conflicts(cands: seq<ResolutionCandidate>, vf: seq<nat>, canon: seq<nat>, c: nat, k: nat): seq<Clause>
    requires Indexes(cands, canon) && |vf| == |cands| && c < |cands|
    decreases |cands[c].metadata.conflicts| - k
  {
    if k >= |cands[c].metadata.conflicts| then []
    else
      Row(vf, c, OthersFor(cands, canon, c, cands[c].metadata.conflicts[k]), 0)
      + Conflicts(cands, vf, canon, c, k + 1)
  }

  ghost predicate NoneOf(m: seq<bool>, vf: seq<nat>, others: seq<nat>)
    requires InDomain(vf, others) && forall d :: 0 <= d < |vf| ==> vf[d] < |m|
  {
    forall i :: 0 <= i < |others| ==> !m[vf[others[i]]]
  }

  lemma {:induction false} ConflictsMean(m: seq<bool>, cands: seq<ResolutionCandidate>, vf: seq<nat>,
                                         canon: seq<nat>, c: nat, k: nat)
    requires Indexes(cands, canon) && |vf| == |cands| && c < |cands|
    requires forall d :: 0 <= d < |vf| ==> vf[d] < |m|
    ensures Sat(m, Conflicts(cands, vf, canon, c, k))
            <==> (m[vf[c]] ==> forall q :: k <= q < |cands[c].metadata.conflicts| ==>
                    NoneOf(m, vf, OthersFor(cands, canon, c, cands[c].metadata.conflicts[q])))
    decreases |cands[c].metadata.conflicts| - k
  {
    hide OthersFor, Row, Sat, NoneOf;
    SatNothing(m);
    if k >= |cands[c].metadata.conflicts| {
    } else {
      var others := OthersFor(cands, canon, c, cands[c].metadata.conflicts[k]);
      ConflictsMean(m, cands, vf, canon, c, k + 1);
      RowMeansNone(m, vf, c, others);
      SatConcat(m, Row(vf, c, others, 0), Conflicts(cands, vf, canon, c, k + 1));
    }
  }

  lemma RowMeansNone(m: seq<bool>, vf: seq<nat>, c: nat, others: seq<nat>)
    requires c < |vf| && InDomain(vf, others)
    requires forall d :: 0 <= d < |vf| ==> vf[d] < |m|
    ensures Sat(m, Row(vf, c, others, 0)) <==> (m[vf[c]] ==> NoneOf(m, vf, others))
  {
    RowMeans(m, vf, c, others, 0);
    if m[vf[c]] && !NoneOf(m, vf, others) {
      var i :| 0 <= i < |others| && m[vf[others[i]]];
      assert !Excludes(m, vf, c, others[i]);
    }
    if m[vf[c]] ==> NoneOf(m, vf, others) {
      forall k | 0 <= k < |others| ensures Excludes(m, vf, c, others[k]) {
      }
    }
  }

  ghost function CandidatesFrom(cands: seq<ResolutionCandidate>, vf: seq<nat>, canon: seq<nat>, c: nat): seq<Clause>
    requires Indexes(cands, canon) && |vf| == |cands|
    decreases |cands| - c
  {
    if c >= |cands| then []
    else
      Requirements(cands, vf, canon, c, 0)
      + (Conflicts(cands, vf, canon, c, 0) + CandidatesFrom(cands, vf, canon, c + 1))
  }

  ghost predicate CandidateHolds(m: seq<bool>, cands: seq<ResolutionCandidate>, vf: seq<nat>, canon: seq<nat>, c: nat)
    requires Indexes(cands, canon) && |vf| == |cands| && c < |cands|
    requires forall d :: 0 <= d < |vf| ==> vf[d] < |m|
  {
    && (forall q :: 0 <= q < |cands[c].metadata.requirements| ==>
          SomeOption(m, vf, OptionsFor(cands, canon, cands[c].metadata.requirements[q])))
    && (forall q :: 0 <= q < |cands[c].metadata.conflicts| ==>
          NoneOf(m, vf, OthersFor(cands, canon, c, cands[c].metadata.conflicts[q])))
  }

  lemma {:induction false} CandidatesMean(m: seq<bool>, cands: seq<ResolutionCandidate>, vf: seq<nat>,
                                          canon: seq<nat>, c: nat)
    requires Indexes(cands, canon) && |vf| == |cands|
    requires forall d :: 0 <= d < |vf| ==> vf[d] < |m|
    ensures Sat(m, CandidatesFrom(cands, vf, canon, c))
            <==> forall d :: c <= d < |cands| && m[vf[d]] ==> CandidateHolds(m, cands, vf, canon, d)
    decreases |cands| - c
  {
    hide Sat, SomeOption, NoneOf, OptionsFor, OthersFor, Requirements, Conflicts;
    SatNothing(m);
    if c >= |cands| {
    } else {
      CandidatesMean(m, cands, vf, canon, c + 1);
      RequirementsMean(m, cands, vf, canon, c, 0);
      ConflictsMean(m, cands, vf, canon, c, 0);
      var rest := CandidatesFrom(cands, vf, canon, c + 1);
      SatConcat(m, Conflicts(cands, vf, canon, c, 0), rest);
      SatConcat(m, Requirements(cands, vf, canon, c, 0), Conflicts(cands, vf, canon, c, 0) + rest);
    }
  }

  /** The clauses the planner gives to the solver, in the order it adds them. */
  ghost function GraphClauses(cands: seq<ResolutionCandidate>, vf: seq<nat>, canon: seq<nat>, names: seq<string>,
                              roots: seq<nat>): seq<Clause>
    requires Indexes(cands, canon) && |vf| == |cands| && InDomain(vf, roots)
  {
    Units(vf, roots, 0) + (Domains(cands, vf, canon, names, 0) + CandidatesFrom(cands, vf, canon, 0))
  }

  ghost predicate NamesCover(cands: seq<ResolutionCandidate>, names: seq<string>) {
    forall c :: 0 <= c < |cands| ==> cands[c].package in names
  }

  // ----- models are selections -----

  lemma DomainsApart(m: seq<bool>, cands: seq<ResolutionCandidate>, vf: seq<nat>, canon: seq<nat>, names: seq<string>)
    requires IsNumbering(|cands|, canon, vf) && |m| == MAX_PACKAGES && |cands| <= MAX_PACKAGES
    requires NamesCover(cands, names) && Indexes(cands, canon)
    ensures (forall q :: 0 <= q < |names| ==> ApartIn(m, vf, DomainOf(cands, canon, names[q])))
            <==> OnePerPackage(cands, SelectedBy(vf, m))
  {
    var s := SelectedBy(vf, m);
    assert Distinct(canon);
    if forall q :: 0 <= q < |names| ==> ApartIn(m, vf, DomainOf(cands, canon, names[q])) {
      forall a, b | a in s && b in s && cands[a].package == cands[b].package ensures a == b {
        var q :| 0 <= q < |names| && names[q] == cands[a].package;
        DomainExact(cands, canon, names[q]);
        assert canon[vf[a]] == a && canon[vf[b]] == b;
        var d := DomainOf(cands, canon, names[q]);
        assert a in d && b in d;
        var i :| 0 <= i < |d| && d[i] == a;
        var j :| 0 <= j < |d| && d[j] == b;
        assert ApartIn(m, vf, d);
      }
    }
    if OnePerPackage(cands, s) {
      forall q | 0 <= q < |names| ensures ApartIn(m, vf, DomainOf(cands, canon, names[q])) {
        DomainExact(cands, canon, names[q]);
        var d := DomainOf(cands, canon, names[q]);
        forall a, b | 0 <= a < b < |d| ensures !(m[vf[d[a]]] && m[vf[d[b]]]) {
          assert d[a] in d && d[b] in d && d[a] != d[b];
        }
      }
    }
  }

  lemma CandidateHoldsMeans(m: seq<bool>, cands: seq<ResolutionCandidate>, vf: seq<nat>, canon: seq<nat>, c: nat)
    requires IsNumbering(|cands|, canon, vf) && |m| == MAX_PACKAGES && |cands| <= MAX_PACKAGES
    requires Indexes(cands, canon) && c < |cands|
    ensures CandidateHolds(m, cands, vf, canon, c) <==>
            && (forall k :: 0 <= k < |cands[c].metadata.requirements| ==>
                  RequirementMet(cands, SelectedBy(vf, m), cands[c].metadata.requirements[k]))
            && (forall k, o :: 0 <= k < |cands[c].metadata.conflicts| && o in SelectedBy(vf, m) && o != c ==>
                  !CandidateSatisfies(cands[o], cands[c].metadata.conflicts[k]))
  {
    forall k | 0 <= k < |cands[c].metadata.requirements|
      ensures SomeOption(m, vf, OptionsFor(cands, canon, cands[c].metadata.requirements[k]))
              <==> RequirementMet(cands, SelectedBy(vf, m), cands[c].metadata.requirements[k])
    {
      OptionMeans(m, cands, vf, canon, cands[c].metadata.requirements[k]);
    }
    forall k | 0 <= k < |cands[c].metadata.conflicts|
      ensures NoneOf(m, vf, OthersFor(cands, canon, c, cands[c].metadata.conflicts[k]))
              <==> forall o :: o in SelectedBy(vf, m) && o != c ==>
                     !CandidateSatisfies(cands[o], cands[c].metadata.conflicts[k])
    {
      OtherMeans(m, cands, vf, canon, c, cands[c].metadata.conflicts[k]);
    }
  }

  lemma OptionMeans(m: seq<bool>, cands: seq<ResolutionCandidate>, vf: seq<nat>, canon: seq<nat>, r: PackageRequirement)
    requires IsNumbering(|cands|, canon, vf) && |m| == MAX_PACKAGES && |cands| <= MAX_PACKAGES
    requires Indexes(cands, canon)
    ensures SomeOption(m, vf, OptionsFor(cands, canon, r)) <==> RequirementMet(cands, SelectedBy(vf, m), r)
  {
    hide Meets;
    var options := OptionsFor(cands, canon, r);
    OptionsExact(cands, canon, r);
    if SomeOption(m, vf, options) {
      var i :| 0 <= i < |options| && m[vf[options[i]]];
      assert options[i] in options && options[i] in SelectedBy(vf, m);
    }
    if RequirementMet(cands, SelectedBy(vf, m), r) {
      var o :| o in SelectedBy(vf, m) && Meets(cands[o], r);
      assert canon[vf[o]] == o;
      assert o in options;
      var i :| 0 <= i < |options| && options[i] == o;
    }
  }

  lemma OtherMeans(m: seq<bool>, cands: seq<ResolutionCandidate>, vf: seq<nat>, canon: seq<nat>, c: nat,
                   conflict: PackageConstraint)
    requires IsNumbering(|cands|, canon, vf) && |m| == MAX_PACKAGES && |cands| <= MAX_PACKAGES
    requires Indexes(cands, canon) && c < |cands|
    ensures NoneOf(m, vf, OthersFor(cands, canon, c, conflict))
            <==> forall o :: o in SelectedBy(vf, m) && o != c ==> !CandidateSatisfies(cands[o], conflict)
  {
    hide CandidateSatisfies;
    var others := OthersFor(cands, canon, c, conflict);
    OthersExact(cands, canon, c, conflict);
    if NoneOf(m, vf, others) {
      forall o | o in SelectedBy(vf, m) && o != c ensures !CandidateSatisfies(cands[o], conflict) {
        assert canon[vf[o]] == o;
        assert forall i :: 0 <= i < |others| ==> others[i] != o;
      }
    }
    if forall o :: o in SelectedBy(vf, m) && o != c ==> !CandidateSatisfies(cands[o], conflict) {
      forall i | 0 <= i < |others| ensures !m[vf[others[i]]] {
        assert others[i] in others;
      }
    }
  }

  /** The encoding is exact: its models are the valid selections. */
  lemma ModelsAreSelections(m: seq<bool>, cands: seq<ResolutionCandidate>, vf: seq<nat>, canon: seq<nat>,
                            names: seq<string>, required: nat, fixed: seq<nat>)
    requires IsNumbering(|cands|, canon, vf) && |m| == MAX_PACKAGES && |cands| <= MAX_PACKAGES
    requires Indexes(cands, canon) && NamesCover(cands, names)
    requires required < |cands| && Indexes(cands, fixed)
    ensures IsModel(m, GraphClauses(cands, vf, canon, names, [required] + fixed))
            <==> ValidSelection(cands, required, fixed, SelectedBy(vf, m))
  {
    hide RequirementsMet, ConflictFree, OnePerPackage, ApartIn;
    var roots := [required] + fixed;
    var middle, last := Domains(cands, vf, canon, names, 0), CandidatesFrom(cands, vf, canon, 0);
    SatConcat(m, Units(vf, roots, 0), middle + last);
    SatConcat(m, middle, last);
    UnitsMean(m, vf, roots, 0);
    RootsSelected(m, vf, required, fixed);
    DomainsMean(m, cands, vf, canon, names, 0);
    DomainsApart(m, cands, vf, canon, names);
    CandidatesSelected(m, cands, vf, canon);
  }

  lemma CandidatesSelected(m: seq<bool>, cands: seq<ResolutionCandidate>, vf: seq<nat>, canon: seq<nat>)
    requires IsNumbering(|cands|, canon, vf) && |m| == MAX_PACKAGES && |cands| <= MAX_PACKAGES
    requires Indexes(cands, canon)
    ensures Sat(m, CandidatesFrom(cands, vf, canon, 0))
            <==> RequirementsMet(cands, SelectedBy(vf, m)) && ConflictFree(cands, SelectedBy(vf, m))
  {
    hide CandidateHolds, RequirementMet, CandidateSatisfies;
    CandidatesMean(m, cands, vf, canon, 0);
    forall c | 0 <= c < |cands| {
      CandidateHoldsMeans(m, cands, vf, canon, c);
    }
  }

  lemma RootsSelected(m: seq<bool>, vf: seq<nat>, required: nat, fixed: seq<nat>)
    requires required < |vf| && InDomain(vf, fixed) && forall d :: 0 <= d < |vf| ==> vf[d] < |m|
    ensures (forall k :: 0 <= k < |[required] + fixed| ==> m[vf[([required] + fixed)[k]]])
            <==> required in SelectedBy(vf, m) && forall i :: 0 <= i < |fixed| ==> fixed[i] in SelectedBy(vf, m)
  {
    var roots := [required] + fixed;
    assert roots[0] == required && forall i :: 0 <= i < |fixed| ==> roots[i + 1] == fixed[i];
    if forall k :: 0 <= k < |roots| ==> m[vf[roots[k]]] {
      forall i | 0 <= i < |fixed| ensures fixed[i] in SelectedBy(vf, m) {
        assert m[vf[roots[i + 1]]];
      }
    }
  }
}
