/** Structured execution of jump-free programs, and its agreement with the small-step machine. */
module Structured {
  import opened Bytes
  import opened Ir

  /** What scanning for a loop end finds: its index, or the depth left open. */
  datatype ScanResult = Closed(at: nat) | Open(depth: nat) {
    function Later(n: nat): ScanResult {
      match this
      case Closed(k) => Closed(k + n)
      case Open(d) => Open(d)
    }
  }

  /** Scans at a depth of `d` open loops for the end of the outermost one. */
  function Scan(s: seq<Instr>, d: nat): (r: ScanResult)
    requires d >= 1
    ensures r.Closed? ==> r.at < |s| && s[r.at].IsLoopEnd()
    ensures r.Open? ==> r.depth >= 1
  {
    if s == [] then Open(d)
    else if s[0].IsLoopBegin() then Scan(s[1..], d + 1).Later(1)
    else if s[0].IsLoopEnd() then if d == 1 then Closed(0) else Scan(s[1..], d - 1).Later(1)
    else Scan(s[1..], d).Later(1)
  }

  /** The depth behind an instruction that does not close the scan. */
  function Deeper(i: Instr, d: nat): nat
    requires i.IsLoopEnd() ==> d > 1
  {
    if i.IsLoopBegin() then d + 1 else if i.IsLoopEnd() then d - 1 else d
  }

  lemma ScanNothing(d: nat)
    requires d >= 1
    ensures Scan([], d) == Open(d)
  {
  }

  lemma ScanUnfolds(s: seq<Instr>, d: nat)
    requires s != [] && d >= 1
    ensures s[0].IsLoopEnd() && d == 1 ==> Scan(s, d) == Closed(0)
    ensures !(s[0].IsLoopEnd() && d == 1) ==> Deeper(s[0], d) >= 1 && Scan(s, d) == Scan(s[1..], Deeper(s[0], d)).Later(1)
  {
  }

  lemma {:induction false} ScanConcat(a: seq<Instr>, b: seq<Instr>, d: nat)
    requires d >= 1
    ensures Scan(a + b, d) == if Scan(a, d).Closed? then Scan(a, d) else Scan(b, Scan(a, d).depth).Later(|a|)
  {
    hide Scan;
    if a == [] {
      assert a + b == b;
      ScanNothing(d);
    } else {
      assert (a + b)[1..] == a[1..] + b && (a + b)[0] == a[0];
      ScanUnfolds(a, d);
      ScanUnfolds(a + b, d);
      if !(a[0].IsLoopEnd() && d == 1) {
        hide Deeper;
        ScanConcat(a[1..], b, Deeper(a[0], d));
      }
    }
  }

  lemma {:induction false} ScanDeeper(s: seq<Instr>, d: nat, k: nat)
    requires d >= 1 && Scan(s, d).Open?
    ensures Scan(s, d + k) == Open(Scan(s, d).depth + k)
  {
    if s == [] {
    } else {
      if s[0].IsLoopBegin() {
        ScanDeeper(s[1..], d + 1, k);
      } else if s[0].IsLoopEnd() {
        ScanDeeper(s[1..], d - 1, k);
      } else {
        ScanDeeper(s[1..], d, k);
      }
    }
  }

  /** Closes every loop it opens and none of its surroundings. */
  ghost predicate Balanced(s: seq<Instr>) {
    Scan(s, 1) == Open(1)
  }

  lemma {:induction false} ScanBefore(s: seq<Instr>, d: nat)
    requires d >= 1 && Scan(s, d).Closed?
    ensures Scan(s[..Scan(s, d).at], d) == Open(1)
  {
    var k := Scan(s, d).at;
    if k == 0 {
    } else {
      assert s[..k][1..] == s[1..][..k - 1] && s[..k][0] == s[0];
      if s[0].IsLoopBegin() {
        ScanBefore(s[1..], d + 1);
      } else if s[0].IsLoopEnd() {
        ScanBefore(s[1..], d - 1);
      } else {
        ScanBefore(s[1..], d);
      }
    }
  }

  /** A matched loop: its body is balanced, and scanning goes on behind its end at the old depth. */
  lemma LoopSplits(s: seq<Instr>, d: nat)
    requires s != [] && s[0].IsLoopBegin() && Scan(s[1..], 1).Closed? && d >= 1
    ensures var k := Scan(s[1..], 1).at;
            && k + 2 <= |s| && s[1 + k].IsLoopEnd()
            && Balanced(s[1..1 + k])
            && Scan(s, d) == Scan(s[k + 2..], d).Later(k + 2)
  {
    hide Scan;
    var k := Scan(s[1..], 1).at;
    ScanBefore(s[1..], 1);
    assert s[1..][..k] == s[1..1 + k] && s[1..][k] == s[1 + k];
    ScanPastBody(s[1..1 + k], s[1 + k..], d);
    assert s[1..] == s[1..1 + k] + s[1 + k..];
    assert s[1 + k..][1..] == s[k + 2..];
    ScanEnters(s, d);
  }

  /** Behind a balanced body and its end the scan goes on one level up. */
  lemma ScanPastBody(body: seq<Instr>, tail: seq<Instr>, d: nat)
    requires Balanced(body) && tail != [] && tail[0].IsLoopEnd() && d >= 1
    ensures Scan(body + tail, d + 1) == Scan(tail[1..], d).Later(|body| + 1)
  {
    hide *;
    BalancedDeeper(body, d);
    ScanLeaves(tail, d + 1);
    ScanConcat(body, tail, d + 1);
    LaterTwice(Scan(tail[1..], d), 1, |body|);
  }

  lemma BalancedDeeper(body: seq<Instr>, d: nat)
    requires Balanced(body)
    ensures Scan(body, d + 1) == Open(d + 1)
  {
    ScanDeeper(body, 1, d);
  }

  lemma LaterTwice(r: ScanResult, a: nat, b: nat)
    ensures r.Later(a).Later(b) == r.Later(b + a)
  {
  }

  lemma ScanEnters(s: seq<Instr>, d: nat)
    requires s != [] && s[0].IsLoopBegin() && d >= 1
    ensures Scan(s, d) == Scan(s[1..], d + 1).Later(1)
  {
  }

  lemma ScanLeaves(s: seq<Instr>, d: nat)
    requires s != [] && s[0].IsLoopEnd() && d > 1
    ensures Scan(s, d) == Scan(s[1..], d - 1).Later(1)
  {
  }

  lemma ScanOpenTail(s: seq<Instr>)
    requires s != [] && Scan(s, 1).Open? && !s[0].IsLoopBegin()
    ensures !s[0].IsLoopEnd() && Scan(s[1..], 1).Open?
  {
  }

  lemma BalancedTail(s: seq<Instr>)
    requires s != [] && Balanced(s) && !s[0].IsLoopBegin()
    ensures !s[0].IsLoopEnd() && Balanced(s[1..])
  {
  }

  lemma SliceOfSlice(p: seq<Instr>, lo: nat, hi: nat, i: nat, j: nat)
    requires lo <= hi <= |p| && i <= j <= hi - lo
    ensures p[lo..hi][i..j] == p[lo + i..lo + j]
  {
    assert forall x :: 0 <= x < j - i ==> p[lo..hi][i..j][x] == p[lo + i..lo + j][x];
  }

  lemma SliceOfSuffix(p: seq<Instr>, lo: nat, k: nat)
    requires lo + k + 2 <= |p|
    ensures p[lo..][1..1 + k] == p[lo + 1..lo + 1 + k] && p[lo..][k + 2..] == p[lo + k + 2..]
  {
  }

  /** A balanced program that opens with a loop begin matches it inside. */
  lemma BalancedMatches(s: seq<Instr>)
    requires Balanced(s) && s != [] && s[0].IsLoopBegin()
    ensures Scan(s[1..], 1).Closed?
    ensures Balanced(s[Scan(s[1..], 1).at + 2..])
  {
    if Scan(s[1..], 1).Open? {
      ScanDeeper(s[1..], 1, 1);
      assert false;
    }
    LoopSplits(s, 1);
  }

  // ----- execution -----

  datatype Outcome<S> = Outcome(data: S, halted: bool)

  /** A loop runs its body at least once. */
  function Passes(a: u8): nat {
    if a == 0 then 1 else a
  }

  /** The effect of a jump-free program; a loop begin without an end, or an end without a begin, does nothing. */
  function Exec<S>(p: seq<Instr>, m: Machine<S>, data: S): Outcome<S>
    decreases |p|, 0
  {
    if p == [] then Outcome(data, false)
    else if p[0].Halts() then Outcome(data, true)
    else if p[0].IsLoopBegin() && Scan(p[1..], 1).Closed? then
      var k := Scan(p[1..], 1).at;
      var r := Repeat(p[1..1 + k], Passes(p[0].a), m, data);
      if r.halted then r else Exec(p[k + 2..], m, r.data)
    else if p[0].Silent() then Exec(p[1..], m, data)
    else Exec(p[1..], m, m.exec(p[0], data))
  }

  function Repeat<S>(body: seq<Instr>, n: nat, m: Machine<S>, data: S): Outcome<S>
    decreases |body|, n + 1
  {
    if n == 0 then Outcome(data, false)
    else
      var r := Exec(body, m, data);
      if r.halted then r else Repeat(body, n - 1, m, r.data)
  }

  function Then<S>(first: Outcome<S>, p: seq<Instr>, m: Machine<S>): Outcome<S> {
    if first.halted then first else Exec(p, m, first.data)
  }

  lemma ExecMatched<S(!new)>(p: seq<Instr>, k: nat, m: Machine<S>, data: S)
    requires p != [] && p[0].IsLoopBegin() && Scan(p[1..], 1) == Closed(k)
    ensures k + 2 <= |p|
    ensures Exec(p, m, data) == Then(Repeat(p[1..1 + k], Passes(p[0].a), m, data), p[k + 2..], m)
  {
  }

  lemma ExecUnmatched<S(!new)>(p: seq<Instr>, m: Machine<S>, data: S)
    requires p != [] && p[0].IsLoopBegin() && Scan(p[1..], 1).Open?
    ensures Exec(p, m, data) == Exec(p[1..], m, data)
  {
  }

  lemma {:induction false} ExecConcat<S(!new)>(a: seq<Instr>, b: seq<Instr>, m: Machine<S>, data: S)
    requires Balanced(a)
    ensures Exec(a + b, m, data) == Then(Exec(a, m, data), b, m)
    decreases |a|
  {
    if a == [] {
      assert a + b == b;
    } else if !a[0].Halts() {
      assert (a + b)[0] == a[0] && (a + b)[1..] == a[1..] + b;
      if a[0].IsLoopBegin() {
        BalancedMatches(a);
        ScanConcat(a[1..], b, 1);
        var k := Scan(a[1..], 1).at;
        var r := Repeat(a[1..1 + k], Passes(a[0].a), m, data);
        assert (a + b)[1..1 + k] == a[1..1 + k] && (a + b)[k + 2..] == a[k + 2..] + b;
        if !r.halted {
          ExecConcat(a[k + 2..], b, m, r.data);
        }
      } else {
        ExecConcat(a[1..], b, m, if a[0].Silent() then data else m.exec(a[0], data));
      }
    }
  }

  // ----- agreement with the machine -----

  ghost predicate JumpFree(p: seq<Instr>) {
    forall i :: 0 <= i < |p| ==> !p[i].IsJump()
  }

  ghost predicate Reaches<S(!new)>(p: seq<Instr>, m: Machine<S>, c: Config<S>, d: Config<S>) {
    exists n :: Run(p, m, c, n) == d
  }

  lemma ReachesSelf<S(!new)>(p: seq<Instr>, m: Machine<S>, c: Config<S>)
    ensures Reaches(p, m, c, c)
  {
    assert Run(p, m, c, 0) == c;
  }

  lemma ReachesStep<S(!new)>(p: seq<Instr>, m: Machine<S>, c: Config<S>, d: Config<S>)
    requires Reaches(p, m, Step(p, m, c), d)
    ensures Reaches(p, m, c, d)
  {
    var n: nat :| Run(p, m, Step(p, m, c), n) == d;
    assert Run(p, m, c, n + 1) == d;
  }

  lemma ReachesTransitive<S(!new)>(p: seq<Instr>, m: Machine<S>, c: Config<S>, d: Config<S>, e: Config<S>)
    requires Reaches(p, m, c, d) && Reaches(p, m, d, e)
    ensures Reaches(p, m, c, e)
  {
    var k: nat :| Run(p, m, c, k) == d;
    var n: nat :| Run(p, m, d, n) == e;
    RunSplits(p, m, c, k, n);
    assert Run(p, m, c, k + n) == e;
  }

  /** From `c` the machine gets to `pc` with `loops` open, or stops on the way, as the outcome says. */
  ghost predicate RunsTo<S(!new)>(p: seq<Instr>, m: Machine<S>, c: Config<S>, pc: nat, loops: seq<Loop>, out: Outcome<S>) {
    if out.halted then exists d :: Reaches(p, m, c, d) && Stopped(p, d) && d.data == out.data
    else Reaches(p, m, c, Config(pc, loops, out.data))
  }

  lemma RunsToAfter<S(!new)>(p: seq<Instr>, m: Machine<S>, c: Config<S>, d: Config<S>, pc: nat, loops: seq<Loop>, out: Outcome<S>)
    requires Reaches(p, m, c, d) && RunsTo(p, m, d, pc, loops, out)
    ensures RunsTo(p, m, c, pc, loops, out)
  {
    if out.halted {
      var e :| Reaches(p, m, d, e) && Stopped(p, e) && e.data == out.data;
      ReachesTransitive(p, m, c, d, e);
    } else {
      ReachesTransitive(p, m, c, d, Config(pc, loops, out.data));
    }
  }

  lemma RunsToStep<S(!new)>(p: seq<Instr>, m: Machine<S>, c: Config<S>, pc: nat, loops: seq<Loop>, out: Outcome<S>)
    requires RunsTo(p, m, Step(p, m, c), pc, loops, out)
    ensures RunsTo(p, m, c, pc, loops, out)
  {
    ReachesSelf(p, m, Step(p, m, c));
    ReachesStep(p, m, c, Step(p, m, c));
    RunsToAfter(p, m, c, Step(p, m, c), pc, loops, out);
  }

  lemma RunsToStopped<S(!new)>(p: seq<Instr>, m: Machine<S>, c: Config<S>, pc: nat, loops: seq<Loop>)
    requires Stopped(p, c)
    ensures RunsTo(p, m, c, pc, loops, Outcome(c.data, true))
  {
    ReachesSelf(p, m, c);
  }

  /** A balanced stretch of the program does on the machine what `Exec` says, under any open loops. */
  lemma {:induction false} BalancedRuns<S(!new)>(p: seq<Instr>, lo: nat, hi: nat, m: Machine<S>, loops: seq<Loop>, data: S)
    requires lo <= hi <= |p| && JumpFree(p) && Balanced(p[lo..hi])
    ensures RunsTo(p, m, Config(lo, loops, data), hi, loops, Exec(p[lo..hi], m, data))
    decreases hi - lo, 0
  {
    hide RunsTo, Scan;
    var s, c := p[lo..hi], Config(lo, loops, data);
    if lo == hi {
      RunsToHere(p, m, c);
    } else if p[lo].Halts() {
      RunsToStopped(p, m, c, hi, loops);
    } else if p[lo].IsLoopBegin() {
      BalancedMatches(s);
      LoopSplits(s, 1);
      var k := Scan(s[1..], 1).at;
      var end := lo + 1 + k;
      SliceOfSlice(p, lo, hi, 1, 1 + k);
      SliceOfSlice(p, lo, hi, k + 2, hi - lo);
      var r := Repeat(p[lo + 1..end], Passes(p[lo].a), m, data);
      LoopRuns(p, lo + 1, end, Passes(p[lo].a) - 1, m, loops, data);
      RunsToStep(p, m, c, end + 1, loops, r);
      if !r.halted {
        BalancedRuns(p, end + 1, hi, m, loops, r.data);
        RunsToChain(p, m, c, end + 1, loops, r, hi, Exec(p[end + 1..hi], m, r.data));
      } else {
        RunsToHalted(p, m, c, end + 1, loops, hi, loops, r);
      }
    } else {
      BalancedTail(s);
      assert s[1..] == p[lo + 1..hi];
      var next := if p[lo].Silent() then data else m.exec(p[lo], data);
      BalancedRuns(p, lo + 1, hi, m, loops, next);
      RunsToStep(p, m, c, hi, loops, Exec(s, m, data));
    }
  }

  lemma RunsToHere<S(!new)>(p: seq<Instr>, m: Machine<S>, c: Config<S>)
    requires c.pc >= 0
    ensures RunsTo(p, m, c, c.pc, c.loops, Outcome(c.data, false))
  {
    ReachesSelf(p, m, c);
  }

  lemma RunsToChain<S(!new)>(p: seq<Instr>, m: Machine<S>, c: Config<S>, mid: nat, loops: seq<Loop>, r: Outcome<S>, pc: nat,
                       out: Outcome<S>)
    requires RunsTo(p, m, c, mid, loops, r) && !r.halted
    requires RunsTo(p, m, Config(mid, loops, r.data), pc, loops, out)
    ensures RunsTo(p, m, c, pc, loops, out)
  {
    RunsToAfter(p, m, c, Config(mid, loops, r.data), pc, loops, out);
  }

  lemma RunsToHalted<S(!new)>(p: seq<Instr>, m: Machine<S>, c: Config<S>, pc: nat, loops: seq<Loop>, pc': nat,
                        loops': seq<Loop>, out: Outcome<S>)
    requires RunsTo(p, m, c, pc, loops, out) && out.halted
    ensures RunsTo(p, m, c, pc', loops', out)
  {
  }

  lemma {:induction false} LoopRuns<S(!new)>(p: seq<Instr>, start: nat, end: nat, remaining: nat, m: Machine<S>,
                                       loops: seq<Loop>, data: S)
    requires start <= end < |p| && JumpFree(p) && Balanced(p[start..end]) && p[end].IsLoopEnd()
    ensures RunsTo(p, m, Config(start, loops + [Loop(start, remaining)], data), end + 1, loops,
                   Repeat(p[start..end], remaining + 1, m, data))
    decreases end - start, remaining + 1
  {
    hide RunsTo;
    var body := p[start..end];
    var inner := loops + [Loop(start, remaining)];
    var c := Config(start, inner, data);
    var r := Exec(body, m, data);
    var out := Repeat(body, remaining + 1, m, data);
    BalancedRuns(p, start, end, m, inner, data);
    if r.halted {
      RunsToHalted(p, m, c, end, inner, end + 1, loops, r);
    } else {
      var back := Config(end, inner, r.data);
      assert inner[..|inner| - 1] == loops;
      if remaining == 0 {
        RunsToHere(p, m, Config(end + 1, loops, r.data));
        assert Repeat(body, 0, m, r.data) == Outcome(r.data, false);
      } else {
        LoopRuns(p, start, end, remaining - 1, m, loops, r.data);
      }
      RunsToStep(p, m, back, end + 1, loops, out);
      RunsToResume(p, m, c, end, inner, r, end + 1, loops, out);
    }
  }

  lemma RunsToResume<S(!new)>(p: seq<Instr>, m: Machine<S>, c: Config<S>, mid: nat, inner: seq<Loop>, r: Outcome<S>, pc: nat,
                        loops: seq<Loop>, out: Outcome<S>)
    requires RunsTo(p, m, c, mid, inner, r) && !r.halted
    requires RunsTo(p, m, Config(mid, inner, r.data), pc, loops, out)
    ensures RunsTo(p, m, c, pc, loops, out)
  {
    RunsToAfter(p, m, c, Config(mid, inner, r.data), pc, loops, out);
  }

  // ----- whole programs -----

  /** Started on `data` the program stops with `result`. */
  ghost predicate Finishes<S(!new)>(p: seq<Instr>, m: Machine<S>, c: Config<S>, result: S) {
    exists n :: FinishesIn(p, m, c, result, n)
  }

  ghost predicate FinishesIn<S(!new)>(p: seq<Instr>, m: Machine<S>, c: Config<S>, result: S, n: nat) {
    Stopped(p, Run(p, m, c, n)) && Run(p, m, c, n).data == result
  }

  lemma FinishIsUnique<S(!new)>(p: seq<Instr>, m: Machine<S>, c: Config<S>, r: S, t: S)
    requires Finishes(p, m, c, r) && Finishes(p, m, c, t)
    ensures r == t
  {
    var j: nat :| FinishesIn(p, m, c, r, j);
    var k: nat :| FinishesIn(p, m, c, t, k);
    if j <= k {
      RunSplits(p, m, c, j, k - j);
      StoppedStays(p, m, Run(p, m, c, j), k - j);
    } else {
      RunSplits(p, m, c, k, j - k);
      StoppedStays(p, m, Run(p, m, c, k), j - k);
    }
  }

  lemma FinishesAfter<S(!new)>(p: seq<Instr>, m: Machine<S>, c: Config<S>, d: Config<S>, r: S)
    requires Reaches(p, m, c, d) && Finishes(p, m, d, r)
    ensures Finishes(p, m, c, r)
  {
    var k: nat :| Run(p, m, c, k) == d;
    var n: nat :| FinishesIn(p, m, d, r, n);
    RunSplits(p, m, c, k, n);
    assert FinishesIn(p, m, c, r, k + n);
  }

  lemma FinishesStep<S(!new)>(p: seq<Instr>, m: Machine<S>, c: Config<S>, r: S)
    requires Finishes(p, m, Step(p, m, c), r)
    ensures Finishes(p, m, c, r)
  {
    ReachesSelf(p, m, Step(p, m, c));
    ReachesStep(p, m, c, Step(p, m, c));
    FinishesAfter(p, m, c, Step(p, m, c), r);
  }

  lemma FinishesNow<S(!new)>(p: seq<Instr>, m: Machine<S>, c: Config<S>)
    requires Stopped(p, c)
    ensures Finishes(p, m, c, c.data)
  {
    assert FinishesIn(p, m, c, c.data, 0);
  }

  lemma FinishesThrough<S(!new)>(p: seq<Instr>, m: Machine<S>, c: Config<S>, mid: nat, loops: seq<Loop>, r: Outcome<S>,
                           result: S)
    requires RunsTo(p, m, c, mid, loops, r)
    requires if r.halted then result == r.data else Finishes(p, m, Config(mid, loops, r.data), result)
    ensures Finishes(p, m, c, result)
  {
    if r.halted {
      var d :| Reaches(p, m, c, d) && Stopped(p, d) && d.data == r.data;
      FinishesNow(p, m, d);
      FinishesAfter(p, m, c, d, result);
    } else {
      FinishesAfter(p, m, c, Config(mid, loops, r.data), result);
    }
  }

  /** From any point with no open loop that the rest could close, the machine finishes as `Exec` says. */
  lemma {:induction false} SuffixFinishes<S(!new)>(p: seq<Instr>, lo: nat, m: Machine<S>, loops: seq<Loop>, data: S)
    requires lo <= |p| && JumpFree(p) && (loops == [] || Scan(p[lo..], 1).Open?)
    ensures Finishes(p, m, Config(lo, loops, data), Exec(p[lo..], m, data).data)
    decreases |p| - lo, 1
  {
    hide Finishes, Scan;
    if lo == |p| || p[lo].Halts() {
      FinishesNow(p, m, Config(lo, loops, data));
    } else if p[lo].IsLoopBegin() && Scan(p[lo..][1..], 1).Closed? {
      SuffixLoopFinishes(p, lo, m, loops, data);
    } else {
      var s, c := p[lo..], Config(lo, loops, data);
      assert s[1..] == p[lo + 1..];
      if !p[lo].IsLoopBegin() && loops != [] {
        ScanOpenTail(s);
      }
      var next := Step(p, m, c);
      SuffixFinishes(p, lo + 1, m, next.loops, next.data);
      FinishesStep(p, m, c, Exec(s, m, data).data);
    }
  }

  lemma {:induction false} SuffixLoopFinishes<S(!new)>(p: seq<Instr>, lo: nat, m: Machine<S>, loops: seq<Loop>, data: S)
    requires lo < |p| && JumpFree(p) && (loops == [] || Scan(p[lo..], 1).Open?)
    requires p[lo].IsLoopBegin() && Scan(p[lo..][1..], 1).Closed?
    ensures Finishes(p, m, Config(lo, loops, data), Exec(p[lo..], m, data).data)
    decreases |p| - lo, 0
  {
    hide Finishes, RunsTo, Scan, Exec, Repeat, JumpFree;
    var s, c := p[lo..], Config(lo, loops, data);
    LoopSplits(s, 1);
    var k := Scan(s[1..], 1).at;
    var end := lo + 1 + k;
    SliceOfSuffix(p, lo, k);
    ExecMatched(s, k, m, data);
    var r := Repeat(p[lo + 1..end], Passes(p[lo].a), m, data);
    LoopRuns(p, lo + 1, end, Passes(p[lo].a) - 1, m, loops, data);
    RunsToStep(p, m, c, end + 1, loops, r);
    if !r.halted {
      SuffixFinishes(p, end + 1, m, loops, r.data);
    }
    FinishesThrough(p, m, c, end + 1, loops, r, Exec(s, m, data).data);
  }

  /** The machine and structured execution agree on every jump-free program. */
  lemma ExecIsWhatRuns<S(!new)>(p: seq<Instr>, m: Machine<S>, data: S, result: S)
    requires JumpFree(p)
    ensures Finishes(p, m, Start(data), result) <==> result == Exec(p, m, data).data
  {
    assert p[0..] == p;
    SuffixFinishes(p, 0, m, [], data);
    if Finishes(p, m, Start(data), result) {
      FinishIsUnique(p, m, Start(data), result, Exec(p, m, data).data);
    }
  }
}
