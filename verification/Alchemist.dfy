/** The backtracking satisfiability solver of src/alchemist.rs. */
module Alchemist {
  import opened Cnf
  import opened Search

  datatype SolveResult =
    | Satisfiable(decisions: nat, propagations: nat, conflicts: nat)
    | Unsatisfiable

  /** Classifies a clause under the current assignment. */
  method Status(c: Clause, assignment: array<i8>) returns (s: ClauseStatus)
    requires InRange(c) && assignment.Length == MAX_PACKAGES
    ensures HasStatus(c, assignment[..], s)
  {
    var unsetCount := 0;
    var lastUnset := Pos(0);
    ghost var first, last := 0, 0;
    var i := 0;
    while i < |c.lits|
      invariant 0 <= i <= |c.lits|
      invariant forall k :: 0 <= k < i ==> !IsTrue(c.lits[k], assignment[..])
      invariant unsetCount == 0 ==> forall k :: 0 <= k < i ==> IsFalse(c.lits[k], assignment[..])
      invariant unsetCount >= 1 ==> 0 <= last < i && c.lits[last] == lastUnset && IsUnset(lastUnset, assignment[..])
      invariant unsetCount == 1 ==> forall k :: 0 <= k < i && k != last ==> IsFalse(c.lits[k], assignment[..])
      invariant unsetCount >= 2 ==> 0 <= first < last && IsUnset(c.lits[first], assignment[..])
    {
      var lit := c.lits[i];
      var val := assignment[lit.v];
      if val == UNSET {
        unsetCount := unsetCount + 1;
        lastUnset := lit;
        first, last := last, i;
      } else {
        var assignedTrue := val == 1;
        if assignedTrue == lit.sign {
          assert IsTrue(c.lits[i], assignment[..]);
          return Satisfied;
        }
      }
      i := i + 1;
    }
    match unsetCount {
      case 0 => return Conflict;
      case 1 => return Unit(lastUnset);
      case _ => return Unresolved;
    }
  }

  class DpllSolver {
    const clauses: array<Clause>
    var numClauses: nat
    const activeVariables: array<bool>
    const assignment: array<i8>
    const trail: array<Lit>
    var trailLen: nat
    var decisionLevel: nat
    var conflicts: nat
    var propagations: nat
    var backtracks: nat

    constructor ()
      ensures Valid() && Clauses() == []
      ensures fresh(clauses) && fresh(activeVariables) && fresh(assignment) && fresh(trail)
    {
      clauses := new Clause[MAX_CLAUSES](_ => EMPTY_CLAUSE);
      numClauses := 0;
      activeVariables := new bool[MAX_PACKAGES](_ => false);
      assignment := new i8[MAX_PACKAGES](_ => UNSET);
      trail := new Lit[MAX_TRAIL](_ => Pos(0));
      trailLen, decisionLevel, conflicts, propagations, backtracks := 0, 0, 0, 0, 0;
    }

    ghost predicate Sized()
      reads this`numClauses, this`trailLen
    {
      && clauses.Length == MAX_CLAUSES
      && numClauses <= MAX_CLAUSES
      && activeVariables.Length == MAX_PACKAGES
      && assignment.Length == MAX_PACKAGES
      && trail.Length == MAX_TRAIL
      && trailLen <= MAX_TRAIL
    }

    ghost function Clauses(): seq<Clause>
      requires Sized()
      reads this`numClauses, this`trailLen, clauses
    {
      clauses[..numClauses]
    }

    ghost function Trail(): seq<Lit>
      requires Sized()
      reads this`numClauses, this`trailLen, trail
    {
      trail[..trailLen]
    }

    ghost predicate ClausesInRange()
      requires Sized()
      reads this`numClauses, this`trailLen, clauses
    {
      forall i :: 0 <= i < |Clauses()| ==> InRange(Clauses()[i])
    }

    /** The active variables are exactly those some clause mentions. */
    ghost predicate ActiveExact()
      requires Sized()
      reads this`numClauses, this`trailLen, clauses, activeVariables
    {
      forall v :: 0 <= v < MAX_PACKAGES ==> (activeVariables[v] <==> Mentions(Clauses(), v))
    }

    ghost predicate Valid()
      reads this`numClauses, this`trailLen, clauses, activeVariables
    {
      Sized() && ClausesInRange() && ActiveExact()
    }

    ghost predicate Searching()
      reads this`numClauses, this`trailLen, clauses, activeVariables, assignment, trail
    {
      && Valid()
      && TrailMatches(Trail(), assignment[..])
      && forall i :: 0 <= i < trailLen ==> activeVariables[Trail()[i].v]
    }

    /** Adds a clause unless there is no room for it or it is out of range. */
    method AddClause(clause: Clause) returns (added: bool)
      requires Valid()
      modifies this`numClauses, clauses, activeVariables
      ensures Valid()
      ensures added <==> |old(Clauses())| < MAX_CLAUSES && InRange(clause)
      ensures Clauses() == if added then old(Clauses()) + [clause] else old(Clauses())
    {
      if numClauses >= MAX_CLAUSES || |clause.lits| > MAX_CLAUSE_LEN
         || exists k :: 0 <= k < |clause.lits| && clause.lits[k].v >= MAX_PACKAGES {
        return false;
      }
      ghost var before := Clauses();
      var i := 0;
      while i < |clause.lits|
        modifies activeVariables
        invariant 0 <= i <= |clause.lits|
        invariant forall v :: 0 <= v < MAX_PACKAGES ==>
          (activeVariables[v] <==> Mentions(before, v) || exists k :: 0 <= k < i && clause.lits[k].v == v)
      {
        activeVariables[clause.lits[i].v] := true;
        i := i + 1;
      }
      clauses[numClauses] := clause;
      numClauses := numClauses + 1;
      assert Clauses() == before + [clause];
      forall v | 0 <= v < MAX_PACKAGES ensures activeVariables[v] <==> Mentions(Clauses(), v) {
        MentionsAppend(before, clause, v);
      }
      return true;
    }

    /** Cuts the clause list back and rebuilds the active variables from what is left. */
    method TruncateClauses(count: nat)
      requires Valid()
      modifies this`numClauses, clauses, activeVariables
      ensures Valid()
      ensures Clauses() == if count < |old(Clauses())| then old(Clauses())[..count] else old(Clauses())
      ensures forall j :: numClauses <= j < old(numClauses) ==> clauses[j] == EMPTY_CLAUSE
    {
      if count >= numClauses {
        return;
      }
      ghost var kept := Clauses()[..count];
      var oldCount := numClauses;
      var j := count;
      while j < oldCount
        modifies clauses
        invariant count <= j <= oldCount
        invariant clauses[..count] == kept
        invariant forall k :: count <= k < j ==> clauses[k] == EMPTY_CLAUSE
      {
        clauses[j] := EMPTY_CLAUSE;
        j := j + 1;
      }
      numClauses := count;
      assert Clauses() == kept;
      forall v | 0 <= v < MAX_PACKAGES {
        activeVariables[v] := false;
      }
      var i := 0;
      while i < count
        modifies activeVariables
        invariant 0 <= i <= count
        invariant Sized() && Clauses() == kept && ClausesInRange()
        invariant forall v :: 0 <= v < MAX_PACKAGES ==> (activeVariables[v] <==> Mentions(kept[..i], v))
      {
        var lits := clauses[i].lits;
        assert InRange(Clauses()[i]);
        var k := 0;
        while k < |lits|
          modifies activeVariables
          invariant 0 <= k <= |lits|
          invariant forall v :: 0 <= v < MAX_PACKAGES ==>
            (activeVariables[v] <==> Mentions(kept[..i], v) || exists n :: 0 <= n < k && lits[n].v == v)
        {
          activeVariables[lits[k].v] := true;
          k := k + 1;
        }
        assert kept[..i + 1] == kept[..i] + [clauses[i]];
        forall v | 0 <= v < MAX_PACKAGES ensures activeVariables[v] <==> Mentions(kept[..i + 1], v) {
          MentionsAppend(kept[..i], clauses[i], v);
        }
        i := i + 1;
      }
      assert kept[..count] == kept;
    }

    /**
     * Records a literal. The trail-full guard never bites: an unset variable leaves the trail
     * shorter than the number of variables, which the trail can hold.
     */
    method Assign(lit: Lit)
      requires Searching()
      requires lit.v < MAX_PACKAGES && assignment[lit.v] == UNSET && activeVariables[lit.v]
      modifies this`trailLen, assignment, trail
      ensures Searching()
      ensures Trail() == old(Trail()) + [lit]
      ensures Clauses() == old(Clauses()) && activeVariables[..] == old(activeVariables[..])
    {
      ghost var ts, a := Trail(), assignment[..];
      TrailHasRoom(ts, a, lit.v);
      TrailPush(ts, a, lit);
      assignment[lit.v] := if lit.sign then 1 else 0;
      if trailLen < MAX_TRAIL {
        trail[trailLen] := lit;
        trailLen := trailLen + 1;
      }
      assert Trail() == ts + [lit];
      assert assignment[..] == a[lit.v := ValueOf(lit.sign)];
    }

    method UnassignBackTo(targetLen: nat)
      requires Searching() && targetLen <= trailLen
      modifies this`trailLen, assignment
      ensures Searching()
      ensures Trail() == old(Trail())[..targetLen]
      ensures Clauses() == old(Clauses()) && activeVariables[..] == old(activeVariables[..])
    {
      ghost var before := Trail();
      while trailLen > targetLen
        modifies this`trailLen, assignment
        invariant targetLen <= trailLen <= |before|
        invariant Searching() && Trail() == before[..trailLen]
        decreases trailLen
      {
        ghost var ts, a := Trail(), assignment[..];
        TrailPop(ts, a);
        trailLen := trailLen - 1;
        var lit := trail[trailLen];
        assignment[lit.v] := UNSET;
        assert Trail() == ts[..|ts| - 1];
        assert assignment[..] == a[lit.v := UNSET];
      }
    }

    /** Forces the literal of the unit clause `ci`. */
    method Force(ghost ci: nat, forced: Lit, ghost fs: seq<DecisionFrame>)
      requires Searching() && ci < |Clauses()| && HasStatus(Clauses()[ci], assignment[..], Unit(forced))
      requires NothingLost(Clauses(), Trail(), fs) && FramesFit(fs, Trail(), activeVariables[..])
      modifies this`trailLen, this`propagations, assignment, trail
      ensures Searching() && Trail() == old(Trail()) + [forced] && propagations == old(propagations) + 1
      ensures Clauses() == old(Clauses()) && activeVariables[..] == old(activeVariables[..])
      ensures NothingLost(Clauses(), Trail(), fs) && FramesFit(fs, Trail(), activeVariables[..])
    {
      UnitKeeps(Clauses(), Trail(), assignment[..], fs, ci, forced);
      FramesFitExtend(fs, Trail(), forced, activeVariables[..]);
      UnitIsActive(ci, forced);
      propagations := propagations + 1;
      Assign(forced);
    }

    /**
     * Forces unit clauses until none is left or a clause fails. Forcing passes over no model, and
     * without a conflict every clause ends satisfied or with two unset positions.
     */
    method Propagate(ghost fs: seq<DecisionFrame>) returns (conflict: bool)
      requires Searching()
      requires NothingLost(Clauses(), Trail(), fs) && FramesFit(fs, Trail(), activeVariables[..])
      modifies this`trailLen, this`conflicts, this`propagations, assignment, trail
      ensures Searching()
      ensures Clauses() == old(Clauses()) && activeVariables[..] == old(activeVariables[..])
      ensures NothingLost(Clauses(), Trail(), fs) && FramesFit(fs, Trail(), activeVariables[..])
      ensures conflict ==> BranchEmpty(Clauses(), Trail(), fs)
      ensures propagations - old(propagations) == trailLen - old(trailLen)
      ensures conflicts == old(conflicts) + if conflict then 1 else 0
      ensures !conflict ==> forall i :: 0 <= i < |Clauses()| ==> Settled(Clauses()[i], assignment[..])
    {
      hide NothingLost, FramesFit, BranchEmpty, TrailMatches, ActiveExact;
      ghost var cs, active := Clauses(), activeVariables[..];
      while true
        modifies this`trailLen, this`conflicts, this`propagations, assignment, trail
        invariant Searching() && Clauses() == cs && activeVariables[..] == active
        invariant NothingLost(cs, Trail(), fs) && FramesFit(fs, Trail(), active)
        invariant propagations - old(propagations) == trailLen - old(trailLen) && conflicts == old(conflicts)
        decreases MAX_PACKAGES - trailLen
      {
        var propagatedAny := false;
        ghost var start := trailLen;
        var ci := 0;
        while ci < numClauses
          modifies this`trailLen, this`conflicts, this`propagations, assignment, trail
          invariant 0 <= ci <= numClauses
          invariant Searching() && Clauses() == cs && activeVariables[..] == active
          invariant NothingLost(cs, Trail(), fs) && FramesFit(fs, Trail(), active)
          invariant propagations - old(propagations) == trailLen - old(trailLen) && conflicts == old(conflicts)
          invariant if propagatedAny then start < trailLen else start == trailLen
          invariant !propagatedAny ==> forall i :: 0 <= i < ci ==> Settled(cs[i], assignment[..])
        {
          var c := clauses[ci];
          assert c == cs[ci];
          var status := Status(c, assignment);
          match status {
            case Unit(forced) =>
              Force(ci, forced, fs);
              propagatedAny := true;
            case Conflict =>
              ConflictEmpties(cs, Trail(), assignment[..], fs, ci);
              conflicts := conflicts + 1;
              return true;
            case _ =>
          }
          ci := ci + 1;
        }
        TrailFits(Trail(), assignment[..]);
        if !propagatedAny {
          break;
        }
      }
      return false;
    }

    lemma UnitIsActive(ci: nat, l: Lit)
      requires Searching() && ci < |Clauses()|
      requires HasStatus(Clauses()[ci], assignment[..], Unit(l))
      ensures l.v < MAX_PACKAGES && activeVariables[l.v] && assignment[l.v] == UNSET
    {
      assert ClauseMentions(Clauses()[ci], l.v);
    }

    /** The lowest active variable without a value. */
    method PickBranchVar() returns (variable: nat, found: bool)
      requires Searching()
      ensures found ==> variable < MAX_PACKAGES && activeVariables[variable] && assignment[variable] == UNSET
      ensures found ==> LowerAssigned(Trail(), variable, activeVariables[..])
      ensures !found ==> forall v :: 0 <= v < MAX_PACKAGES && activeVariables[v] ==> assignment[v] != UNSET
    {
      variable := 0;
      while variable < MAX_PACKAGES
        invariant 0 <= variable <= MAX_PACKAGES
        invariant forall v :: 0 <= v < variable && activeVariables[v] ==> assignment[v] != UNSET
      {
        if activeVariables[variable] && assignment[variable] == UNSET {
          forall w | 0 <= w < variable && activeVariables[..][w] ensures OnTrail(Trail(), w) {
            assert assignment[..][w] != UNSET;
          }
          return variable, true;
        }
        variable := variable + 1;
      }
      found := false;
    }

    /** Tries the positive side of the last decision, once the trail is cut back to it. */
    method Flip(frame: DecisionFrame, ghost ts: seq<Lit>, ghost fs: seq<DecisionFrame>)
      requires Searching() && 0 < |fs| <= MAX_PACKAGES && fs[|fs| - 1] == frame && !frame.triedPositive
      requires FramesFit(fs, ts, activeVariables[..]) && BranchEmpty(Clauses(), ts, fs)
      requires TrailVariablesFit(ts, activeVariables[..])
      requires frame.trailStart <= |ts| && Trail() == ts[..frame.trailStart]
      modifies this`trailLen, assignment, trail
      ensures Searching()
      ensures Clauses() == old(Clauses()) && activeVariables[..] == old(activeVariables[..])
      ensures FramesFit(Flipped(fs), Trail(), activeVariables[..])
      ensures NothingLost(Clauses(), Trail(), Flipped(fs))
      ensures Work(Flipped(fs)) == UntriedWork(fs)
    {
      FlipKeeps(Clauses(), ts, fs, activeVariables[..]);
      FlipWorks(fs);
      DecidedIsFree(ts, frame, |fs| - 1);
      Assign(Pos(frame.variable));
    }

    /**
     * Unwinds finished decisions and turns the last one with an untried side. Without such a
     * decision the clauses have no model.
     */
    method Backtrack(decisions: seq<DecisionFrame>, count: nat)
      returns (resumed: bool, decisions': seq<DecisionFrame>, count': nat)
      requires Searching() && count <= |decisions| == MAX_PACKAGES
      requires FramesFit(decisions[..count], Trail(), activeVariables[..])
      requires BranchEmpty(Clauses(), Trail(), decisions[..count])
      modifies this`trailLen, this`decisionLevel, this`backtracks, assignment, trail
      ensures Searching() && count' <= |decisions'| == MAX_PACKAGES
      ensures Clauses() == old(Clauses()) && activeVariables[..] == old(activeVariables[..])
      ensures count' <= count && (resumed ==> decisionLevel == count')
      ensures backtracks == old(backtracks) + (count - count') + if resumed then 1 else 0
      ensures resumed ==> FramesFit(decisions'[..count'], Trail(), activeVariables[..])
      ensures resumed ==> NothingLost(Clauses(), Trail(), decisions'[..count'])
      ensures resumed ==> Work(decisions'[..count']) < Work(decisions[..count])
      ensures !resumed ==> !Cnf.Satisfiable(Clauses())
    {
      hide NothingLost, TrailMatches, ActiveExact, TrailVariablesFit, FramesFit, FrameFits;
      decisions', count' := decisions, count;
      ghost var cs, active, fs := Clauses(), activeVariables[..], decisions[..count];
      while count' != 0
        modifies this`trailLen, this`decisionLevel, this`backtracks, assignment, trail
        invariant Searching() && Clauses() == cs && activeVariables[..] == active
        invariant |fs| == count' <= |decisions'| == MAX_PACKAGES && decisions'[..count'] == fs
        invariant FramesFit(fs, Trail(), active) && BranchEmpty(cs, Trail(), fs)
        invariant UntriedWork(fs) < Work(decisions[..count])
        invariant count' <= count && backtracks == old(backtracks) + (count - count')
        decreases count'
      {
        var frameIndex := count' - 1;
        var frame := decisions'[frameIndex];
        ghost var ts := Trail();
        assert fs[frameIndex] == frame;
        FramesFitCut(fs, ts, active);
        SearchingTrail();
        UnassignBackTo(frame.trailStart);
        backtracks := backtracks + 1;
        if !frame.triedPositive {
          Flip(frame, ts, fs);
          decisions' := decisions'[frameIndex := frame.(triedPositive := true)];
          decisionLevel := count';
          assert decisions'[..count'] == Flipped(fs);
          return true, decisions', count';
        }
        PopKeeps(cs, ts, fs, active);
        decisions' := decisions'[frameIndex := EMPTY_FRAME];
        count' := count' - 1;
        decisionLevel := count';
        fs := fs[..count'];
      }
      resumed := false;
    }

    lemma SearchingTrail()
      requires Searching()
      ensures TrailVariablesFit(Trail(), activeVariables[..])
    {
    }

    /** Once the trail is cut at a decision, the decided variable is unset and active. */
    lemma DecidedIsFree(ts: seq<Lit>, f: DecisionFrame, k: nat)
      requires Searching() && FrameFits(f, k, ts, activeVariables[..])
      requires TrailVariablesFit(ts, activeVariables[..])
      requires Trail() == ts[..f.trailStart]
      ensures f.variable < MAX_PACKAGES && activeVariables[f.variable]
      ensures assignment[f.variable] == UNSET
    {
      var v := f.variable;
      assert ts[f.trailStart].v == v;
      assert !OnTrail(Trail(), v);
      assert assignment[..][v] == UNSET;
    }

    /**
     * Decides the clause set. A satisfying run ends on the lexicographically least model and gives
     * a value to the active variables only; the frame-limit exit is never the one taken.
     */
    method Solve() returns (result: SolveResult)
      requires Valid()
      modifies this, assignment, trail
      ensures Valid() && Clauses() == old(Clauses())
      ensures result.Satisfiable? ==> IsLeastModel(Selection(assignment[..]), Clauses())
      ensures result.Satisfiable? ==>
        forall v :: 0 <= v < MAX_PACKAGES ==> (assignment[v] != UNSET <==> Mentions(Clauses(), v))
      ensures result.Satisfiable? ==> result == Satisfiable(decisionLevel, propagations, conflicts)
      ensures result.Unsatisfiable? ==> !Cnf.Satisfiable(Clauses())
    {
      hide NothingLost, FramesFit, FrameFits, TrailMatches, ActiveExact, HasStatus, IsLeastModel;
      ResetSearch();
      var decisions := seq(MAX_PACKAGES, _ => EMPTY_FRAME);
      var decisionCount := 0;
      ghost var cs, active := Clauses(), activeVariables[..];
      ghost var fs: seq<DecisionFrame> := [];
      NothingLostAtStart(cs, active);
      while true
        modifies this`trailLen, this`decisionLevel, this`conflicts, this`propagations, this`backtracks,
                 assignment, trail
        invariant Searching() && Clauses() == cs && activeVariables[..] == active
        invariant |fs| == decisionCount == decisionLevel <= |decisions| == MAX_PACKAGES
        invariant decisions[..decisionCount] == fs
        invariant FramesFit(fs, Trail(), active) && NothingLost(cs, Trail(), fs)
        decreases Work(fs)
      {
        var conflict := Propagate(fs);
        if conflict {
          var resumed;
          resumed, decisions, decisionCount := Backtrack(decisions, decisionCount);
          fs := decisions[..decisionCount];
          if resumed {
            continue;
          }
          return Unsatisfiable;
        }
        var variable, found := PickBranchVar();
        if !found {
          Finished(fs);
          return Satisfiable(decisionLevel, propagations, conflicts);
        }
        RoomForDecision(fs, variable);
        if decisionCount == MAX_PACKAGES {
          assert false;
          return Unsatisfiable;
        }
        var frame := DecisionFrame(variable, trailLen, false);
        decisions := decisions[decisionCount := frame];
        decisionCount := decisionCount + 1;
        decisionLevel := decisionCount;
        Decide(frame, fs);
        fs := fs + [frame];
      }
    }

    method ResetSearch()
      requires Valid()
      modifies this`trailLen, this`decisionLevel, this`conflicts, this`propagations, this`backtracks,
               assignment, trail
      ensures Searching() && Trail() == [] && decisionLevel == 0
      ensures conflicts == 0 && propagations == 0 && backtracks == 0
      ensures Clauses() == old(Clauses()) && activeVariables[..] == old(activeVariables[..])
    {
      ghost var cs := Clauses();
      forall v | 0 <= v < MAX_PACKAGES {
        assignment[v] := UNSET;
      }
      assert Clauses() == cs;
      forall i | 0 <= i < MAX_TRAIL {
        trail[i] := Pos(0);
      }
      assert Clauses() == cs;
      trailLen, decisionLevel, conflicts, propagations, backtracks := 0, 0, 0, 0, 0;
    }

    /** Assumes the branching variable absent. */
    method Decide(frame: DecisionFrame, ghost fs: seq<DecisionFrame>)
      requires Searching() && frame.variable < MAX_PACKAGES && |fs| < MAX_PACKAGES
      requires frame == DecisionFrame(frame.variable, trailLen, false)
      requires activeVariables[frame.variable] && assignment[frame.variable] == UNSET
      requires LowerAssigned(Trail(), frame.variable, activeVariables[..])
      requires NothingLost(Clauses(), Trail(), fs) && FramesFit(fs, Trail(), activeVariables[..])
      modifies this`trailLen, assignment, trail
      ensures Searching()
      ensures Clauses() == old(Clauses()) && activeVariables[..] == old(activeVariables[..])
      ensures FramesFit(fs + [frame], Trail(), activeVariables[..])
      ensures NothingLost(Clauses(), Trail(), fs + [frame])
      ensures Work(fs + [frame]) < Work(fs)
    {
      FramesFitTrail(fs, Trail(), activeVariables[..]);
      DecideKeeps(Clauses(), Trail(), fs, frame.variable, activeVariables[..]);
      DecideWorks(fs, frame);
      Assign(Neg(frame.variable));
    }

    lemma RoomForDecision(fs: seq<DecisionFrame>, v: nat)
      requires Searching() && v < MAX_PACKAGES && assignment[v] == UNSET
      requires FramesFit(fs, Trail(), activeVariables[..])
      ensures |fs| < MAX_PACKAGES
    {
      FramesFitTrail(fs, Trail(), activeVariables[..]);
      TrailHasRoom(Trail(), assignment[..], v);
    }

    lemma AllSatisfied()
      requires Searching()
      requires forall v :: 0 <= v < MAX_PACKAGES && activeVariables[v] ==> assignment[v] != UNSET
      requires forall i :: 0 <= i < |Clauses()| ==> Settled(Clauses()[i], assignment[..])
      ensures forall i :: 0 <= i < |Clauses()| ==> HasStatus(Clauses()[i], assignment[..], Satisfied)
    {
      forall i | 0 <= i < |Clauses()| ensures HasStatus(Clauses()[i], assignment[..], Satisfied) {
        var c := Clauses()[i];
        forall k | 0 <= k < |c.lits| ensures !IsUnset(c.lits[k], assignment[..]) {
          assert ClauseMentions(Clauses()[i], c.lits[k].v);
        }
      }
    }

    lemma Finished(fs: seq<DecisionFrame>)
      requires Searching()
      requires NothingLost(Clauses(), Trail(), fs) && FramesFit(fs, Trail(), activeVariables[..])
      requires forall v :: 0 <= v < MAX_PACKAGES && activeVariables[v] ==> assignment[v] != UNSET
      requires forall i :: 0 <= i < |Clauses()| ==> Settled(Clauses()[i], assignment[..])
      ensures IsLeastModel(Selection(assignment[..]), Clauses())
      ensures forall v :: 0 <= v < MAX_PACKAGES ==> (assignment[v] != UNSET <==> Mentions(Clauses(), v))
    {
      AllSatisfied();
      FinalIsLeast(Clauses(), Trail(), assignment[..], fs, activeVariables[..]);
      forall v | 0 <= v < MAX_PACKAGES && assignment[v] != UNSET ensures activeVariables[v] {
        assert assignment[..][v] != UNSET;
        assert OnTrail(Trail(), v);
      }
    }
  }

  /** Neither forced nor failed. */
  ghost predicate Settled(c: Clause, a: seq<i8>)
    requires InRange(c) && |a| == MAX_PACKAGES
  {
    HasStatus(c, a, Satisfied) || HasStatus(c, a, Unresolved)
  }

  ghost predicate TrailVariablesFit(ts: seq<Lit>, active: seq<bool>) {
    && |active| == MAX_PACKAGES
    && (forall i :: 0 <= i < |ts| ==> ts[i].v < MAX_PACKAGES && active[ts[i].v])
    && forall i, j :: 0 <= i < j < |ts| ==> ts[i].v != ts[j].v
  }

  lemma NothingLostAtStart(cs: seq<Clause>, active: seq<bool>)
    ensures NothingLost(cs, [], []) && FramesFit([], [], active)
  {
  }

  lemma FramesFitTrail(fs: seq<DecisionFrame>, ts: seq<Lit>, active: seq<bool>)
    requires FramesFit(fs, ts, active)
    ensures |fs| <= |ts|
  {
    if fs != [] {
      assert FrameFits(fs[|fs| - 1], |fs| - 1, ts, active);
    }
  }

  lemma MentionsAppend(cs: seq<Clause>, c: Clause, v: nat)
    ensures Mentions(cs + [c], v) <==> Mentions(cs, v) || exists k :: 0 <= k < |c.lits| && c.lits[k].v == v
  {
    var ds := cs + [c];
    if Mentions(cs, v) {
      var i :| 0 <= i < |cs| && ClauseMentions(cs[i], v);
      assert ClauseMentions(ds[i], v);
    }
    if ClauseMentions(c, v) {
      assert ClauseMentions(ds[|cs|], v);
    }
    if Mentions(ds, v) {
      var i :| 0 <= i < |ds| && ClauseMentions(ds[i], v);
      assert i < |cs| ==> ClauseMentions(cs[i], v);
    }
  }
}
