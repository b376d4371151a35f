/** Propositional clauses over package variables, and what a model of them is. */
module Cnf {

  const MAX_PACKAGES: nat := 256
  const MAX_CLAUSES: nat := 1024
  const MAX_CLAUSE_LEN: nat := 16
  const MAX_TRAIL: nat := 512

  type i8 = x: int | -128 <= x < 128

  const UNSET: i8 := -1

  /** A package variable (`sign` for installed) or its negation. */
  datatype Lit = Lit(v: nat, sign: bool)

  function Pos(v: nat): Lit {
    Lit(v, true)
  }

  function Neg(v: nat): Lit {
    Lit(v, false)
  }

  /** `lits` is the filled part of the source's fixed literal array. */
  datatype Clause = Clause(lits: seq<Lit>, learned: bool) {

    /** Appends a literal unless the clause is full. */
    function Push(lit: Lit): (r: (bool, Clause))
      ensures r.0 <==> |lits| < MAX_CLAUSE_LEN
      ensures r.1.lits == if r.0 then lits + [lit] else lits
    {
      if |lits| >= MAX_CLAUSE_LEN then (false, this) else (true, Clause(lits + [lit], learned))
    }
  }

  const EMPTY_CLAUSE := Clause([], false)

  datatype ClauseStatus = Satisfied | Unit(lit: Lit) | Conflict | Unresolved

  // ----- models -----

  predicate LitHolds(l: Lit, m: seq<bool>) {
    l.v < |m| && m[l.v] == l.sign
  }

  predicate ClauseHolds(c: Clause, m: seq<bool>) {
    exists k :: 0 <= k < |c.lits| && LitHolds(c.lits[k], m)
  }

  /** A truth value for every package variable that makes every clause true. */
  predicate IsModel(m: seq<bool>, cs: seq<Clause>) {
    |m| == MAX_PACKAGES && forall i :: 0 <= i < |cs| ==> ClauseHolds(cs[i], m)
  }

  ghost predicate Satisfiable(cs: seq<Clause>) {
    exists m :: IsModel(m, cs)
  }

  /** Lexicographic order, absent before present, in variable order. */
  ghost predicate LexLe(a: seq<bool>, b: seq<bool>)
    requires |a| == |b|
  {
    a == b || exists v :: 0 <= v < |a| && FirstGain(a, b, v)
  }

  ghost predicate FirstGain(a: seq<bool>, b: seq<bool>, v: nat)
    requires |a| == |b| && v < |a|
  {
    a[..v] == b[..v] && !a[v] && b[v]
  }

  ghost predicate IsLeastModel(m: seq<bool>, cs: seq<Clause>) {
    IsModel(m, cs) && forall o :: IsModel(o, cs) ==> LexLe(m, o)
  }

  /** The first difference decides the lexicographic order. */
  lemma FirstDifferenceDecides(a: seq<bool>, b: seq<bool>, v: nat)
    requires |a| == |b| && LexLe(a, b) && v < |a| && a[..v] == b[..v] && a[v] != b[v]
    ensures b[v]
  {
    var u :| 0 <= u < |a| && FirstGain(a, b, u);
    assert u < v ==> a[..v][u] == b[..v][u];
  }

  /** The lexicographic order has one least model at most. */
  lemma LeastModelUnique(a: seq<bool>, b: seq<bool>, cs: seq<Clause>)
    requires IsLeastModel(a, cs) && IsLeastModel(b, cs)
    ensures a == b
  {
    assert LexLe(a, b) && LexLe(b, a);
    if a != b {
      var v := FirstDifference(a, b);
      FirstDifferenceDecides(a, b, v);
      FirstDifferenceDecides(b, a, v);
    }
  }

  /** A least model loses a package only by ceasing to be a model. */
  lemma LeastModelIsSubsetMinimal(m: seq<bool>, o: seq<bool>, cs: seq<Clause>)
    requires IsLeastModel(m, cs) && IsModel(o, cs)
    requires forall v :: 0 <= v < |o| && o[v] ==> m[v]
    ensures o == m
  {
    assert LexLe(m, o);
  }

  lemma {:induction false} FirstDifference(a: seq<bool>, b: seq<bool>) returns (v: nat)
    requires |a| == |b| && a != b
    ensures v < |a| && a[..v] == b[..v] && a[v] != b[v]
  {
    if a[0] != b[0] {
      v := 0;
    } else {
      assert a == [a[0]] + a[1..] && b == [b[0]] + b[1..];
      var w := FirstDifference(a[1..], b[1..]);
      v := w + 1;
      assert a[..v] == [a[0]] + a[1..][..w] && b[..v] == [b[0]] + b[1..][..w];
    }
  }

  // ----- clauses under a partial assignment -----

  predicate InRange(c: Clause) {
    |c.lits| <= MAX_CLAUSE_LEN && forall k :: 0 <= k < |c.lits| ==> c.lits[k].v < MAX_PACKAGES
  }

  predicate IsUnset(l: Lit, a: seq<i8>)
    requires l.v < |a|
  {
    a[l.v] == UNSET
  }

  predicate IsTrue(l: Lit, a: seq<i8>)
    requires l.v < |a|
  {
    a[l.v] != UNSET && (a[l.v] == 1) == l.sign
  }

  predicate IsFalse(l: Lit, a: seq<i8>)
    requires l.v < |a|
  {
    a[l.v] != UNSET && (a[l.v] == 1) != l.sign
  }

  /**
   * What a clause can say about itself under `a`. An unset literal written twice counts twice,
   * so a clause is unit only when one position is unset.
   */
  predicate HasStatus(c: Clause, a: seq<i8>, s: ClauseStatus)
    requires InRange(c) && |a| == MAX_PACKAGES
  {
    match s
    case Satisfied =>
      exists k :: 0 <= k < |c.lits| && IsTrue(c.lits[k], a)
    case Conflict =>
      forall k :: 0 <= k < |c.lits| ==> IsFalse(c.lits[k], a)
    case Unit(l) =>
      exists k :: 0 <= k < |c.lits| && c.lits[k] == l && IsUnset(l, a)
        && forall j :: 0 <= j < |c.lits| && j != k ==> IsFalse(c.lits[j], a)
    case Unresolved =>
      && (forall k :: 0 <= k < |c.lits| ==> !IsTrue(c.lits[k], a))
      && exists j, k :: 0 <= j < k < |c.lits| && IsUnset(c.lits[j], a) && IsUnset(c.lits[k], a)
  }

  /** The four statuses exclude each other. */
  lemma StatusUnique(c: Clause, a: seq<i8>, s: ClauseStatus, t: ClauseStatus)
    requires InRange(c) && |a| == MAX_PACKAGES
    requires HasStatus(c, a, s) && HasStatus(c, a, t)
    ensures s == t
  {
  }

  ghost predicate Mentions(cs: seq<Clause>, v: nat) {
    exists i :: 0 <= i < |cs| && ClauseMentions(cs[i], v)
  }

  ghost predicate ClauseMentions(c: Clause, v: nat) {
    exists k :: 0 <= k < |c.lits| && c.lits[k].v == v
  }
}
