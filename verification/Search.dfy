/**
 * The state of a backtracking search: a trail of literals and a stack of decisions, each decision
 * trying "absent" before "present". The lemmas say what each search step keeps.
 */
module Search {
  import opened Cnf
  import opened Counting

  datatype DecisionFrame = DecisionFrame(variable: nat, trailStart: nat, triedPositive: bool)

  const EMPTY_FRAME := DecisionFrame(0, 0, false)

  // ----- the trail -----

  ghost predicate OnTrail(ts: seq<Lit>, v: nat) {
    exists i :: 0 <= i < |ts| && ts[i].v == v
  }

  ghost function ValueOf(sign: bool): i8 {
    if sign then 1 else 0
  }

  /** The assignment holds exactly the literals of the trail, each variable once. */
  ghost predicate TrailMatches(ts: seq<Lit>, a: seq<i8>) {
    && |a| == MAX_PACKAGES
    && (forall i :: 0 <= i < |ts| ==> ts[i].v < MAX_PACKAGES && a[ts[i].v] == ValueOf(ts[i].sign))
    && (forall i, j :: 0 <= i < j < |ts| ==> ts[i].v != ts[j].v)
    && (forall v :: 0 <= v < |a| && a[v] != UNSET ==> OnTrail(ts, v))
  }

  ghost function Variables(ts: seq<Lit>): (vs: seq<nat>)
    ensures |vs| == |ts| && forall i :: 0 <= i < |ts| ==> vs[i] == ts[i].v
  {
    seq(|ts|, i requires 0 <= i < |ts| => ts[i].v)
  }

  lemma TrailFits(ts: seq<Lit>, a: seq<i8>)
    requires TrailMatches(ts, a)
    ensures |ts| <= MAX_PACKAGES
  {
    BelowSize(MAX_PACKAGES);
    DistinctFits(Variables(ts), Below(MAX_PACKAGES));
  }

  /** While a variable is unset the trail has room left. */
  lemma TrailHasRoom(ts: seq<Lit>, a: seq<i8>, v: nat)
    requires TrailMatches(ts, a) && v < MAX_PACKAGES && a[v] == UNSET
    ensures |ts| < MAX_PACKAGES
  {
    TrailPush(ts, a, Pos(v));
    TrailFits(ts + [Pos(v)], a[v := ValueOf(true)]);
  }

  lemma TrailPush(ts: seq<Lit>, a: seq<i8>, l: Lit)
    requires TrailMatches(ts, a) && l.v < MAX_PACKAGES && a[l.v] == UNSET
    ensures TrailMatches(ts + [l], a[l.v := ValueOf(l.sign)])
  {
    var b := a[l.v := ValueOf(l.sign)];
    forall v | 0 <= v < |b| && b[v] != UNSET ensures OnTrail(ts + [l], v) {
      if v == l.v {
        assert (ts + [l])[|ts|].v == v;
      } else {
        assert OnTrail(ts, v);
        var i :| 0 <= i < |ts| && ts[i].v == v;
        assert (ts + [l])[i].v == v;
      }
    }
  }

  lemma TrailPop(ts: seq<Lit>, a: seq<i8>)
    requires TrailMatches(ts, a) && ts != []
    ensures TrailMatches(ts[..|ts| - 1], a[ts[|ts| - 1].v := UNSET])
  {
    var last := ts[|ts| - 1];
    var us := ts[..|ts| - 1];
    var b := a[last.v := UNSET];
    forall v | 0 <= v < |b| && b[v] != UNSET ensures OnTrail(us, v) {
      assert OnTrail(ts, v);
      var i :| 0 <= i < |ts| && ts[i].v == v;
      assert us[i].v == v;
    }
  }

  ghost predicate Agrees(m: seq<bool>, ts: seq<Lit>) {
    forall i :: 0 <= i < |ts| ==> LitHolds(ts[i], m)
  }

  // ----- decisions -----

  /** The model lies in the branch that an untried decision `f` still has to visit. */
  ghost predicate DeferredAt(m: seq<bool>, ts: seq<Lit>, f: DecisionFrame) {
    !f.triedPositive && f.trailStart <= |ts| && Agrees(m, ts[..f.trailStart]) && LitHolds(Pos(f.variable), m)
  }

  ghost predicate Deferred(m: seq<bool>, ts: seq<Lit>, fs: seq<DecisionFrame>) {
    exists k :: 0 <= k < |fs| && DeferredAt(m, ts, fs[k])
  }

  /** Every active variable below `v` was already assigned. */
  ghost predicate LowerAssigned(ts: seq<Lit>, v: nat, active: seq<bool>) {
    forall w :: 0 <= w < v && w < |active| && active[w] ==> OnTrail(ts, w)
  }

  ghost predicate FrameFits(f: DecisionFrame, k: nat, ts: seq<Lit>, active: seq<bool>) {
    && k <= f.trailStart < |ts|
    && ts[f.trailStart] == Lit(f.variable, f.triedPositive)
    && LowerAssigned(ts[..f.trailStart], f.variable, active)
  }

  ghost predicate FramesFit(fs: seq<DecisionFrame>, ts: seq<Lit>, active: seq<bool>) {
    && (forall k :: 0 <= k < |fs| ==> FrameFits(fs[k], k, ts, active))
    && (forall j, k :: 0 <= j < k < |fs| ==> fs[j].trailStart < fs[k].trailStart)
  }

  /** No model was passed over: each one agrees with the trail or waits behind an untried decision. */
  ghost predicate NothingLost(cs: seq<Clause>, ts: seq<Lit>, fs: seq<DecisionFrame>) {
    forall m :: IsModel(m, cs) ==> Agrees(m, ts) || Deferred(m, ts, fs)
  }

  /** The current branch holds no model. */
  ghost predicate BranchEmpty(cs: seq<Clause>, ts: seq<Lit>, fs: seq<DecisionFrame>) {
    forall m :: IsModel(m, cs) ==> Deferred(m, ts, fs)
  }

  lemma FramesFitExtend(fs: seq<DecisionFrame>, ts: seq<Lit>, l: Lit, active: seq<bool>)
    requires FramesFit(fs, ts, active)
    ensures FramesFit(fs, ts + [l], active)
  {
    forall k | 0 <= k < |fs| ensures FrameFits(fs[k], k, ts + [l], active) {
      assert FrameFits(fs[k], k, ts, active);
      assert (ts + [l])[..fs[k].trailStart] == ts[..fs[k].trailStart];
    }
  }

  lemma DeferredExtend(m: seq<bool>, ts: seq<Lit>, fs: seq<DecisionFrame>, l: Lit)
    requires Deferred(m, ts, fs)
    ensures Deferred(m, ts + [l], fs)
  {
    var k :| 0 <= k < |fs| && DeferredAt(m, ts, fs[k]);
    assert (ts + [l])[..fs[k].trailStart] == ts[..fs[k].trailStart];
    assert DeferredAt(m, ts + [l], fs[k]);
  }

  lemma TrueIffHolds(l: Lit, ts: seq<Lit>, a: seq<i8>, m: seq<bool>)
    requires TrailMatches(ts, a) && l.v < MAX_PACKAGES && |m| == MAX_PACKAGES && Agrees(m, ts)
    ensures IsTrue(l, a) ==> LitHolds(l, m)
    ensures IsFalse(l, a) ==> !LitHolds(l, m)
  {
    if a[l.v] != UNSET {
      assert OnTrail(ts, l.v);
      var i :| 0 <= i < |ts| && ts[i].v == l.v;
      assert LitHolds(ts[i], m);
    }
  }

  /** Forcing the literal of a unit clause passes over no model. */
  lemma UnitKeeps(cs: seq<Clause>, ts: seq<Lit>, a: seq<i8>, fs: seq<DecisionFrame>, ci: nat, l: Lit)
    requires NothingLost(cs, ts, fs) && TrailMatches(ts, a)
    requires ci < |cs| && InRange(cs[ci]) && HasStatus(cs[ci], a, Unit(l))
    ensures NothingLost(cs, ts + [l], fs)
  {
    forall m | IsModel(m, cs) ensures Agrees(m, ts + [l]) || Deferred(m, ts + [l], fs) {
      if Agrees(m, ts) {
        assert ClauseHolds(cs[ci], m);
        var k :| 0 <= k < |cs[ci].lits| && LitHolds(cs[ci].lits[k], m);
        TrueIffHolds(cs[ci].lits[k], ts, a, m);
        assert cs[ci].lits[k] == l;
      } else {
        DeferredExtend(m, ts, fs, l);
      }
    }
  }

  /** A clause with every literal false leaves no model in the current branch. */
  lemma ConflictEmpties(cs: seq<Clause>, ts: seq<Lit>, a: seq<i8>, fs: seq<DecisionFrame>, ci: nat)
    requires NothingLost(cs, ts, fs) && TrailMatches(ts, a)
    requires ci < |cs| && InRange(cs[ci]) && HasStatus(cs[ci], a, Conflict)
    ensures BranchEmpty(cs, ts, fs)
  {
    forall m | IsModel(m, cs) ensures Deferred(m, ts, fs) {
      if Agrees(m, ts) {
        assert ClauseHolds(cs[ci], m);
        var k :| 0 <= k < |cs[ci].lits| && LitHolds(cs[ci].lits[k], m);
        TrueIffHolds(cs[ci].lits[k], ts, a, m);
        assert false;
      }
    }
  }

  /** Assuming a variable absent puts the models that have it behind the new decision. */
  lemma DecideKeeps(cs: seq<Clause>, ts: seq<Lit>, fs: seq<DecisionFrame>, v: nat, active: seq<bool>)
    requires NothingLost(cs, ts, fs) && FramesFit(fs, ts, active)
    requires v < MAX_PACKAGES && |fs| <= |ts| && LowerAssigned(ts, v, active)
    ensures NothingLost(cs, ts + [Neg(v)], fs + [DecisionFrame(v, |ts|, false)])
    ensures FramesFit(fs + [DecisionFrame(v, |ts|, false)], ts + [Neg(v)], active)
  {
    var f := DecisionFrame(v, |ts|, false);
    var us, gs := ts + [Neg(v)], fs + [f];
    assert us[..|ts|] == ts;
    FramesFitExtend(fs, ts, Neg(v), active);
    forall m | IsModel(m, cs) ensures Agrees(m, us) || Deferred(m, us, gs) {
      if Agrees(m, ts) {
        assert m[v] ==> DeferredAt(m, us, gs[|fs|]);
      } else {
        DeferredExtend(m, ts, fs, Neg(v));
        var k :| 0 <= k < |fs| && DeferredAt(m, us, fs[k]);
        assert DeferredAt(m, us, gs[k]);
      }
    }
  }

  lemma DeferredCut(m: seq<bool>, ts: seq<Lit>, f: DecisionFrame, n: nat)
    requires DeferredAt(m, ts, f) && f.trailStart <= n <= |ts|
    ensures DeferredAt(m, ts[..n], f)
  {
    assert ts[..n][..f.trailStart] == ts[..f.trailStart];
  }

  lemma FramesFitCut(fs: seq<DecisionFrame>, ts: seq<Lit>, active: seq<bool>)
    requires fs != [] && FramesFit(fs, ts, active)
    ensures fs[|fs| - 1].trailStart < |ts|
    ensures FramesFit(fs[..|fs| - 1], ts[..fs[|fs| - 1].trailStart], active)
  {
    var n := |fs| - 1;
    assert FrameFits(fs[n], n, ts, active);
    var us := ts[..fs[n].trailStart];
    forall k | 0 <= k < n ensures FrameFits(fs[k], k, us, active) {
      assert FrameFits(fs[k], k, ts, active);
      assert us[..fs[k].trailStart] == ts[..fs[k].trailStart];
    }
  }

  /** Dropping a decision with both sides tried keeps the branch empty. */
  lemma PopKeeps(cs: seq<Clause>, ts: seq<Lit>, fs: seq<DecisionFrame>, active: seq<bool>)
    requires fs != [] && FramesFit(fs, ts, active) && BranchEmpty(cs, ts, fs)
    requires fs[|fs| - 1].triedPositive
    ensures FrameFits(fs[|fs| - 1], |fs| - 1, ts, active)
    ensures BranchEmpty(cs, ts[..fs[|fs| - 1].trailStart], fs[..|fs| - 1])
  {
    var n := |fs| - 1;
    assert FrameFits(fs[n], n, ts, active);
    forall m | IsModel(m, cs) ensures Deferred(m, ts[..fs[n].trailStart], fs[..n]) {
      var k :| 0 <= k < |fs| && DeferredAt(m, ts, fs[k]);
      assert k < n;
      DeferredCut(m, ts, fs[k], fs[n].trailStart);
      assert fs[..n][k] == fs[k];
    }
  }

  ghost function Flipped(fs: seq<DecisionFrame>): seq<DecisionFrame>
    requires fs != []
  {
    fs[..|fs| - 1] + [fs[|fs| - 1].(triedPositive := true)]
  }

  /** Turning the last untried decision to "present" reaches the models it kept back. */
  lemma FlipKeeps(cs: seq<Clause>, ts: seq<Lit>, fs: seq<DecisionFrame>, active: seq<bool>)
    requires fs != [] && FramesFit(fs, ts, active) && BranchEmpty(cs, ts, fs)
    ensures fs[|fs| - 1].trailStart < |ts|
    ensures var f := fs[|fs| - 1];
            var us := ts[..f.trailStart] + [Pos(f.variable)];
            NothingLost(cs, us, Flipped(fs)) && FramesFit(Flipped(fs), us, active)
  {
    var n := |fs| - 1;
    var f := fs[n];
    assert FrameFits(f, n, ts, active);
    var cut := ts[..f.trailStart];
    var us := cut + [Pos(f.variable)];
    var gs := Flipped(fs);
    assert us[..f.trailStart] == cut;
    FramesFitCut(fs, ts, active);
    FramesFitExtend(fs[..n], cut, Pos(f.variable), active);
    forall k | 0 <= k < |gs| ensures FrameFits(gs[k], k, us, active) {
      assert k < n ==> gs[k] == fs[..n][k] && FrameFits(fs[..n][k], k, us, active);
    }
    forall m | IsModel(m, cs) ensures Agrees(m, us) || Deferred(m, us, gs) {
      var k :| 0 <= k < |fs| && DeferredAt(m, ts, fs[k]);
      if k < n {
        DeferredCut(m, ts, fs[k], f.trailStart);
        assert us[..fs[k].trailStart] == cut[..fs[k].trailStart];
        assert DeferredAt(m, us, gs[k]);
      }
    }
  }

  // ----- the end of the search -----

  ghost function Selection(a: seq<i8>): (m: seq<bool>)
    ensures |m| == |a| && forall v :: 0 <= v < |a| ==> m[v] == (a[v] == 1)
  {
    seq(|a|, v requires 0 <= v < |a| => a[v] == 1)
  }

  /** A complete conflict-free assignment is the least model, whatever the search passed through. */
  lemma FinalIsLeast(cs: seq<Clause>, ts: seq<Lit>, a: seq<i8>, fs: seq<DecisionFrame>, active: seq<bool>)
    requires TrailMatches(ts, a) && NothingLost(cs, ts, fs) && FramesFit(fs, ts, active)
    requires |active| == MAX_PACKAGES
    requires forall i :: 0 <= i < |ts| ==> active[ts[i].v]
    requires forall i :: 0 <= i < |cs| ==> InRange(cs[i]) && HasStatus(cs[i], a, Satisfied)
    ensures IsLeastModel(Selection(a), cs)
  {
    var r := Selection(a);
    forall i | 0 <= i < |cs| ensures ClauseHolds(cs[i], r) {
      var k :| 0 <= k < |cs[i].lits| && IsTrue(cs[i].lits[k], a);
      SetValue(ts, a, cs[i].lits[k].v);
      assert LitHolds(cs[i].lits[k], r);
    }
    forall m | IsModel(m, cs) ensures LexLe(r, m) {
      if r != m {
        var d := FirstDifference(r, m);
        if r[d] {
          SetValue(ts, a, d);
          if Agrees(m, ts) {
            TrueIffHolds(Pos(d), ts, a, m);
          } else {
            var k :| 0 <= k < |fs| && DeferredAt(m, ts, fs[k]);
            DeferredDiffersLater(ts, a, fs[k], k, active, r, m, d);
          }
          assert false;
        }
        assert FirstGain(r, m, d);
      }
    }
  }

  lemma SetValue(ts: seq<Lit>, a: seq<i8>, v: nat)
    requires TrailMatches(ts, a) && v < MAX_PACKAGES && a[v] != UNSET
    ensures OnTrail(ts, v) && (a[v] == 0 || a[v] == 1)
  {
  }

  lemma DeferredDiffersLater(ts: seq<Lit>, a: seq<i8>, f: DecisionFrame, k: nat, active: seq<bool>,
                             r: seq<bool>, m: seq<bool>, d: nat)
    requires TrailMatches(ts, a) && |active| == |m| == MAX_PACKAGES && r == Selection(a)
    requires forall i :: 0 <= i < |ts| ==> active[ts[i].v]
    requires FrameFits(f, k, ts, active) && DeferredAt(m, ts, f)
    requires d < |r| && r[..d] == m[..d] && r[d] != m[d]
    ensures !r[d]
  {
    if r[d] {
      assert false;
    }
  }

  // ----- termination -----

  /** Nodes of a full binary tree of depth `depth`. */
  ghost function TreeSize(depth: nat): (r: nat)
    ensures r >= 1
  {
    if depth == 0 then 1 else 2 * TreeSize(depth - 1) + 1
  }

  /** The positive sides that the decision stack still has to visit. */
  ghost function UntriedWork(fs: seq<DecisionFrame>): nat
    requires |fs| <= MAX_PACKAGES
  {
    if fs == [] then 0
    else
      var n := |fs| - 1;
      UntriedWork(fs[..n]) + if fs[n].triedPositive then 0 else TreeSize(MAX_PACKAGES - |fs|)
  }

  ghost function Work(fs: seq<DecisionFrame>): nat
    requires |fs| <= MAX_PACKAGES
  {
    TreeSize(MAX_PACKAGES - |fs|) + UntriedWork(fs)
  }

  lemma DecideWorks(fs: seq<DecisionFrame>, f: DecisionFrame)
    requires |fs| < MAX_PACKAGES && !f.triedPositive
    ensures Work(fs + [f]) < Work(fs)
  {
    assert (fs + [f])[..|fs|] == fs;
  }

  lemma FlipWorks(fs: seq<DecisionFrame>)
    requires 0 < |fs| <= MAX_PACKAGES && !fs[|fs| - 1].triedPositive
    ensures Work(Flipped(fs)) == UntriedWork(fs)
  {
    var gs := Flipped(fs);
    assert gs[..|gs| - 1] == fs[..|fs| - 1];
  }
}
