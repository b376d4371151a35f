/** Dead code elimination: reachability from the entry, and everything else marked dead. */
module DeadCode {
  import opened Counting
  import opened Graphs
  import opened Ir

  ghost function Flow(p: seq<Instr>): Graph {
    map pc: nat | pc in Below(|p|) :: Successors(p, pc)
  }

  ghost predicate Live(p: seq<Instr>, pc: nat) {
    Reachable(Flow(p), 0, pc)
  }

  /** The program with every unreachable instruction dead. */
  ghost function Swept(p: seq<Instr>): (q: seq<Instr>)
    ensures |q| == |p|
    ensures forall i :: 0 <= i < |p| ==> q[i] == if Live(p, i) || p[i].IsDead() then p[i] else DEAD
  {
    seq(|p|, i requires 0 <= i < |p| => if Live(p, i) || p[i].IsDead() then p[i] else DEAD)
  }

  function DeadCount(p: seq<Instr>): nat {
    if p == [] then 0 else DeadCount(p[..|p| - 1]) + if p[|p| - 1].IsDead() then 1 else 0
  }

  lemma FlowEdge(p: seq<Instr>, a: nat, b: nat)
    ensures Edge(Flow(p), a, b) <==> a < |p| && b in Successors(p, a)
  {
  }

  /**
   * Control that is at any of `s` stays in `s`: it falls through unless it jumps for good or stops, and
   * a jump byte up to 127 leads that far forward, 256 - k leads k back.
   */
  ghost predicate HoldsControl(p: seq<Instr>, s: set<nat>) {
    && (p != [] ==> 0 in s)
    && forall pc :: pc in s && pc < |p| ==> FallsInto(p, s, pc) && JumpsInto(p, s, pc)
  }

  ghost predicate FallsInto(p: seq<Instr>, s: set<nat>, pc: nat)
    requires pc < |p|
  {
    p[pc].opcode != 0x03 && p[pc].opcode != 0x06 && p[pc].opcode != 0xFF && pc + 1 < |p| ==> pc + 1 in s
  }

  ghost predicate JumpsInto(p: seq<Instr>, s: set<nat>, pc: nat)
    requires pc < |p|
  {
    p[pc].opcode == 0x03 || p[pc].opcode == 0x04 ==>
      && (p[pc].a < 128 && pc + p[pc].a < |p| ==> pc + p[pc].a in s)
      && (p[pc].a >= 128 && 256 - p[pc].a <= pc ==> pc - (256 - p[pc].a) in s)
  }

  ghost function LiveSet(p: seq<Instr>): set<nat> {
    set pc | pc in Below(|p|) && Live(p, pc)
  }

  /** What is live is the least set of instructions that control stays in. */
  lemma LiveIsWhatControlReaches(p: seq<Instr>, s: set<nat>)
    ensures HoldsControl(p, LiveSet(p))
    ensures HoldsControl(p, s) ==> LiveSet(p) <= s
  {
    ReachableSelf(Flow(p), 0);
    forall pc | pc in LiveSet(p) ensures FallsInto(p, LiveSet(p), pc) && JumpsInto(p, LiveSet(p), pc) {
      forall b | b in Successors(p, pc) ensures b in LiveSet(p) {
        FlowEdge(p, pc, b);
        ReachableStep(Flow(p), 0, pc, b);
      }
    }
    if HoldsControl(p, s) {
      forall pc | pc in LiveSet(p) ensures pc in s {
        ControlStays(p, s, pc);
      }
    }
  }

  lemma ControlStays(p: seq<Instr>, s: set<nat>, pc: nat)
    requires HoldsControl(p, s) && pc < |p| && Live(p, pc)
    ensures pc in s
  {
    forall a, b | a in s && Edge(Flow(p), a, b) ensures b in s {
      FlowEdge(p, a, b);
      SuccessorsHeld(p, s, a, b);
    }
    ReachableStaysIn(Flow(p), s, 0, pc);
  }

  lemma SuccessorsHeld(p: seq<Instr>, s: set<nat>, a: nat, b: nat)
    requires a < |p| && FallsInto(p, s, a) && JumpsInto(p, s, a) && b in Successors(p, a)
    ensures b in s
  {
    OffsetIsSigned(p[a].a);
    if p[a].IsJump() && b == Target(a, p[a]) {
      if p[a].a < 128 {
        assert b == a + p[a].a;
      } else {
        var k := 256 - p[a].a;
        assert b == a - k;
      }
    }
  }

  lemma LiveSame(p: seq<Instr>, pc: nat)
    requires pc < |p| && Live(p, pc)
    ensures Swept(p)[pc] == p[pc]
    ensures Successors(Swept(p), pc) == Successors(p, pc)
  {
  }

  /** Sweeping changes no reachability. */
  lemma LiveAfterSweep(p: seq<Instr>, pc: nat)
    requires p != [] && pc < |p|
    ensures Live(Swept(p), pc) <==> Live(p, pc)
  {
    var q := Swept(p);
    var both := set i | i in Below(|p|) && Live(p, i) && Live(q, i);
    ReachableSelf(Flow(p), 0);
    ReachableSelf(Flow(q), 0);
    forall a, b | a in both && (Edge(Flow(p), a, b) || Edge(Flow(q), a, b)) ensures b in both {
      LiveSame(p, a);
      FlowEdge(p, a, b);
      FlowEdge(q, a, b);
      ReachableStep(Flow(p), 0, a, b);
      ReachableStep(Flow(q), 0, a, b);
    }
    if Live(p, pc) {
      ReachableStaysIn(Flow(p), both, 0, pc);
    }
    if Live(q, pc) {
      ReachableStaysIn(Flow(q), both, 0, pc);
    }
  }

  /** A second sweep changes nothing. */
  lemma SweepTwice(p: seq<Instr>)
    ensures Swept(Swept(p)) == Swept(p)
  {
    forall i | 0 <= i < |p| ensures Swept(Swept(p))[i] == Swept(p)[i] {
      LiveAfterSweep(p, i);
    }
  }

  /** The machine stands on a live instruction, and so does every open loop's first body instruction. */
  ghost predicate OnLive<S>(p: seq<Instr>, c: Config<S>) {
    && (0 <= c.pc < |p| ==> Live(p, c.pc))
    && forall k :: 0 <= k < |c.loops| && c.loops[k].start < |p| ==> Live(p, c.loops[k].start)
  }

  lemma StepStaysLive<S>(p: seq<Instr>, m: Machine<S>, c: Config<S>)
    requires OnLive(p, c)
    ensures OnLive(p, Step(p, m, c))
    ensures Step(Swept(p), m, c) == Step(p, m, c)
    ensures Stopped(Swept(p), c) <==> Stopped(p, c)
  {
    if !Stopped(p, c) {
      var d := Step(p, m, c);
      forall b: nat | b in Successors(p, c.pc) ensures Live(p, b) {
        FlowEdge(p, c.pc, b);
        ReachableStep(Flow(p), 0, c.pc, b);
      }
    }
  }

  /** The swept program runs in step with the original, whatever its instructions do and wherever it jumps. */
  lemma {:induction false} SweepRuns<S>(p: seq<Instr>, m: Machine<S>, c: Config<S>, n: nat)
    requires OnLive(p, c)
    ensures Run(Swept(p), m, c, n) == Run(p, m, c, n)
    ensures OnLive(p, Run(p, m, c, n))
    decreases n
  {
    if n == 0 {
    } else {
      StepStaysLive(p, m, c);
      SweepRuns(p, m, Step(p, m, c), n - 1);
    }
  }

  lemma SweepPreservesExecution<S>(p: seq<Instr>, m: Machine<S>, data: S, n: nat)
    ensures Run(Swept(p), m, Start(data), n) == Run(p, m, Start(data), n)
    ensures Stopped(Swept(p), Run(p, m, Start(data), n)) <==> Stopped(p, Run(p, m, Start(data), n))
  {
    ReachableSelf(Flow(p), 0);
    SweepRuns(p, m, Start(data), n);
    StepStaysLive(p, m, Run(p, m, Start(data), n));
  }

  // ----- the pass -----

  /** The search so far: the queue holds each marked instruction once, all of them live. */
  ghost predicate Searched(p: seq<Instr>, marked: seq<bool>, queued: seq<nat>) {
    && |marked| == MAX_IR_INSTRUCTIONS && |p| <= MAX_IR_INSTRUCTIONS
    && Distinct(queued)
    && (forall k :: 0 <= k < |queued| ==> queued[k] < |p| && Live(p, queued[k]))
    && (forall i :: 0 <= i < |marked| ==> (marked[i] <==> i in queued))
  }

  lemma QueueHasRoom(p: seq<Instr>, marked: seq<bool>, queued: seq<nat>)
    requires Searched(p, marked, queued)
    ensures |queued| <= |p|
    ensures forall i :: 0 <= i < |p| && !marked[i] ==> |queued| < |p|
  {
    BelowSize(|p|);
    DistinctFits(queued, Below(|p|));
    forall i | 0 <= i < |p| && !marked[i] ensures |queued| < |p| {
      DistinctFits(queued + [i], Below(|p|));
    }
  }

  /** Expanded entries have all their successors in the queue. */
  ghost predicate Expanded(p: seq<Instr>, queued: seq<nat>, head: nat)
    requires head <= |queued| && forall k :: 0 <= k < |queued| ==> queued[k] < |p|
  {
    forall k, b :: 0 <= k < head && b in Successors(p, queued[k]) ==> b in queued
  }

  lemma SearchIsComplete(p: seq<Instr>, marked: seq<bool>, queued: seq<nat>)
    requires Searched(p, marked, queued) && Expanded(p, queued, |queued|) && 0 in queued
    ensures forall i :: 0 <= i < |p| ==> (marked[i] <==> Live(p, i))
  {
    var s := Elements(queued);
    forall a, b | a in s && Edge(Flow(p), a, b) ensures b in s {
      FlowEdge(p, a, b);
      var k :| 0 <= k < |queued| && queued[k] == a;
    }
    forall i | 0 <= i < |p| ensures marked[i] <==> Live(p, i) {
      if Live(p, i) {
        ReachableStaysIn(Flow(p), s, 0, i);
      }
    }
  }

  class DcePass {
    var deadCount: nat
    var bytesRemoved: nat

    /** Enqueues an unmarked instruction; the queue always has room for it. */
    static method Visit(ghost p: seq<Instr>, marked: seq<bool>, queue: seq<nat>, qtail: nat, next: nat)
      returns (marked': seq<bool>, queue': seq<nat>, qtail': nat)
      requires |queue| == MAX_IR_INSTRUCTIONS && qtail <= |queue| && Searched(p, marked, queue[..qtail])
      requires next < |p| && Live(p, next)
      ensures |queue'| == MAX_IR_INSTRUCTIONS && qtail <= qtail' <= |queue'| && queue'[..qtail] == queue[..qtail]
      ensures Searched(p, marked', queue'[..qtail']) && next in queue'[..qtail']
    {
      marked', queue', qtail' := marked, queue, qtail;
      if !marked[next] {
        QueueHasRoom(p, marked, queue[..qtail]);
        marked' := marked[next := true];
        if qtail < MAX_IR_INSTRUCTIONS {
          queue' := queue[qtail := next];
          qtail' := qtail + 1;
        }
        assert queue'[..qtail'] == queue[..qtail] + [next];
      }
    }

    /** Marks everything reachable from instruction 0. */
    method MarkLive(buf: IrBuffer) returns (marked: seq<bool>)
      requires buf.Valid() && buf.len > 0
      ensures |marked| == MAX_IR_INSTRUCTIONS
      ensures forall i :: 0 <= i < buf.len ==> (marked[i] <==> Live(buf.Program(), i))
    {
      hide Live, Successors;
      ghost var p := buf.Program();
      marked := seq(MAX_IR_INSTRUCTIONS, i => i == 0);
      var queue := seq(MAX_IR_INSTRUCTIONS, _ => 0);
      var qhead, qtail := 0, 1;
      EntryIsLive(p);
      assert queue[..1] == [0];
      while qhead < qtail
        invariant 0 <= qhead <= qtail <= |queue| == MAX_IR_INSTRUCTIONS
        invariant Searched(p, marked, queue[..qtail]) && 0 in queue[..qtail]
        invariant Expanded(p, queue[..qtail], qhead)
        decreases |p| - qhead
      {
        QueueHasRoom(p, marked, queue[..qtail]);
        var pc := queue[qhead];
        assert pc == queue[..qtail][qhead];
        ghost var before := queue[..qtail];
        marked, queue, qtail := Expand(buf, pc, marked, queue, qtail);
        ExpandedMore(p, before, queue[..qtail], qhead);
        qhead := qhead + 1;
      }
      SearchIsComplete(p, marked, queue[..qtail]);
    }

    /** Queues the successors of a live instruction. */
    static method Expand(buf: IrBuffer, pc: nat, marked: seq<bool>, queue: seq<nat>, qtail: nat)
      returns (marked': seq<bool>, queue': seq<nat>, qtail': nat)
      requires buf.Valid() && pc < buf.len && Live(buf.Program(), pc)
      requires |queue| == MAX_IR_INSTRUCTIONS && qtail <= |queue| && Searched(buf.Program(), marked, queue[..qtail])
      ensures |queue'| == MAX_IR_INSTRUCTIONS && qtail <= qtail' <= |queue'| && queue'[..qtail] == queue[..qtail]
      ensures Searched(buf.Program(), marked', queue'[..qtail'])
      ensures forall b :: b in Successors(buf.Program(), pc) ==> b in queue'[..qtail']
    {
      hide Live;
      ghost var p := buf.Program();
      marked', queue', qtail' := marked, queue, qtail;
      var instr := buf.instrs[pc];
      assert instr == p[pc];
      forall b | b in Successors(p, pc) ensures Live(p, b) {
        SuccessorIsLive(p, pc, b);
      }
      if instr.IsDead() {
        return;
      }
      if instr.opcode != 0x03 && instr.opcode != 0x06 {
        var next := pc + 1;
        if next < buf.len {
          assert next in Successors(p, pc);
          marked', queue', qtail' := Visit(p, marked', queue', qtail', next);
        }
      }
      if instr.opcode == 0x03 || instr.opcode == 0x04 {
        var target := Target(pc, instr);
        if 0 <= target < buf.len {
          assert target in Successors(p, pc);
          ghost var middle := queue'[..qtail'];
          marked', queue', qtail' := Visit(p, marked', queue', qtail', target);
          assert queue'[..qtail'][..|middle|] == middle;
          assert queue'[..qtail] == middle[..qtail];
        }
      }
    }

    /** Sweeps the buffer and counts what died. */
    method Run(buf: IrBuffer)
      requires buf.Valid()
      modifies this, buf.instrs
      ensures buf.Valid() && buf.Program() == Swept(old(buf.Program()))
      ensures deadCount - old(deadCount) == DeadCount(buf.Program()) - DeadCount(old(buf.Program()))
      ensures bytesRemoved - old(bytesRemoved) == 4 * (deadCount - old(deadCount))
    {
      hide Live, Swept, DeadCount;
      ghost var p := buf.Program();
      NothingSwept(p);
      if buf.len == 0 {
        return;
      }
      var marked := MarkLive(buf);
      var i := 0;
      while i < buf.len
        modifies this, buf.instrs
        invariant 0 <= i <= buf.len
        invariant forall k :: 0 <= k < i ==> buf.instrs[k] == Swept(p)[k]
        invariant forall k :: i <= k < buf.len ==> buf.instrs[k] == p[k]
        invariant deadCount - old(deadCount) == DeadCount(Swept(p)[..i]) - DeadCount(p[..i])
        invariant bytesRemoved - old(bytesRemoved) == 4 * (deadCount - old(deadCount))
      {
        SweptAt(p, i);
        DeadCountNext(p, i);
        DeadCountNext(Swept(p), i);
        if !marked[i] && !buf.instrs[i].IsDead() {
          buf.instrs[i] := DEAD;
          deadCount := deadCount + 1;
          bytesRemoved := bytesRemoved + 4;
        }
        i := i + 1;
      }
      assert p[..i] == p && Swept(p)[..i] == Swept(p);
      assert buf.Program() == Swept(p);
    }
  }

  lemma SweptAt(p: seq<Instr>, i: nat)
    requires i < |p|
    ensures i < |Swept(p)| && Swept(p)[i] == if Live(p, i) || p[i].IsDead() then p[i] else DEAD
  {
  }

  lemma NothingSwept(p: seq<Instr>)
    ensures |Swept(p)| == |p| && DeadCount(p[..0]) == 0 && DeadCount(Swept(p)[..0]) == 0
    ensures |p| == 0 ==> Swept(p) == p
  {
  }

  lemma DeadCountNext(s: seq<Instr>, i: nat)
    requires i < |s|
    ensures DeadCount(s[..i + 1]) == DeadCount(s[..i]) + if s[i].IsDead() then 1 else 0
  {
    assert s[..i + 1][..i] == s[..i];
  }

  lemma EntryIsLive(p: seq<Instr>)
    ensures Live(p, 0)
  {
    ReachableSelf(Flow(p), 0);
  }

  lemma SuccessorIsLive(p: seq<Instr>, pc: nat, b: nat)
    requires pc < |p| && Live(p, pc) && b in Successors(p, pc)
    ensures Live(p, b)
  {
    ReachableStep(Flow(p), 0, pc, b);
  }

  lemma ExpandedMore(p: seq<Instr>, before: seq<nat>, after: seq<nat>, head: nat)
    requires (forall k :: 0 <= k < |before| ==> before[k] < |p|) && (forall k :: 0 <= k < |after| ==> after[k] < |p|)
    requires head < |before| <= |after| && after[..|before|] == before
    requires Expanded(p, before, head) && forall b :: b in Successors(p, before[head]) ==> b in after
    ensures Expanded(p, after, head + 1)
  {
    hide Successors;
    assert forall b :: b in before ==> b in after by {
      assert after == before + after[|before|..];
    }
    forall k, b | 0 <= k < head + 1 && b in Successors(p, after[k]) ensures b in after {
      assert after[k] == before[k];
    }
  }
}
