/** The loop unroller of src/crucible.rs and what it preserves. */
module Unroller {
  import opened Ir
  import opened Structured

  function Times(body: seq<Instr>, n: nat): (r: seq<Instr>)
    ensures |r| == n * |body|
  {
    if n == 0 then [] else Times(body, n - 1) + body
  }

  // ----- the pass as a function of the program -----

  /** The number of copies a loop begin asks for, cut at the unroll factor. */
  function Trip(i: Instr): nat {
    if i.a <= MAX_UNROLL_FACTOR then i.a else MAX_UNROLL_FACTOR
  }

  /** The loop at `i` is matched, small enough, and fits the buffer once unrolled. */
  predicate Unrollable(p: seq<Instr>, i: nat)
    requires i < |p|
  {
    && p[i].IsLoopBegin() && Trip(p[i]) >= 2
    && var r := Scan(p[i + 1..], 1);
       r.Closed? && 0 < r.at <= MAX_BODY && r.at * Trip(p[i]) + |p| <= MAX_IR_INSTRUCTIONS
  }

  function BodyLength(p: seq<Instr>, i: nat): nat
    requires i < |p| && Unrollable(p, i)
  {
    Scan(p[i + 1..], 1).at
  }

  /** The loop at `i` with its markers blanked and the further copies of its body behind it. */
  function UnrollLoop(p: seq<Instr>, i: nat): (q: seq<Instr>)
    requires i < |p| && Unrollable(p, i)
    ensures |q| == |p| + (Trip(p[i]) - 1) * BodyLength(p, i)
  {
    var k := BodyLength(p, i);
    var body := p[i + 1..i + 1 + k];
    p[..i] + ([NOP] + body + [NOP] + Times(body, Trip(p[i]) - 1)) + p[i + k + 2..]
  }

  function NextIndex(p: seq<Instr>, i: nat): nat
    requires i < |p| && Unrollable(p, i)
  {
    i + BodyLength(p, i) + 2 + BodyLength(p, i) * (Trip(p[i]) - 1)
  }

  lemma NextIndexAdvances(p: seq<Instr>, i: nat)
    requires i < |p| && Unrollable(p, i)
    ensures |UnrollLoop(p, i)| - NextIndex(p, i) == |p| - (i + BodyLength(p, i) + 2)
    ensures |UnrollLoop(p, i)| <= MAX_IR_INSTRUCTIONS
  {
  }

  /** What is left of the pass at index `i`. */
  function UnrollFrom(p: seq<Instr>, i: nat): seq<Instr>
    decreases |p| - i
  {
    if i >= |p| then p
    else if !Unrollable(p, i) then UnrollFrom(p, i + 1)
    else
      NextIndexAdvances(p, i);
      UnrollFrom(UnrollLoop(p, i), NextIndex(p, i))
  }

  predicate AllSilent(s: seq<Instr>) {
    forall k :: 0 <= k < |s| ==> s[k].Silent()
  }

  /** The index of the first RET or dead slot, or the length. */
  function FirstHalt(p: seq<Instr>): (h: nat)
    ensures h <= |p| && (forall k :: 0 <= k < h ==> !p[k].Halts()) && (h < |p| ==> p[h].Halts())
  {
    if p == [] || p[0].Halts() then 0
    else
      var h := FirstHalt(p[1..]);
      assert forall k :: 1 <= k < h + 1 ==> p[k] == p[1..][k - 1];
      h + 1
  }

  /** The loop at `i` asks for more than the unroll factor, does something, and ends before the program does. */
  predicate CutsHere(p: seq<Instr>, i: nat)
    requires i < |p| && Unrollable(p, i)
  {
    var end := i + 1 + BodyLength(p, i);
    p[i].a > MAX_UNROLL_FACTOR && !AllSilent(p[i + 1..end]) && end < FirstHalt(p)
  }

  /** The pass cuts such a loop short. */
  predicate CutsShort(p: seq<Instr>, i: nat)
    decreases |p| - i
  {
    if i >= |p| then false
    else if !Unrollable(p, i) then CutsShort(p, i + 1)
    else
      NextIndexAdvances(p, i);
      CutsHere(p, i) || CutsShort(UnrollLoop(p, i), NextIndex(p, i))
  }

  ghost predicate CountsWithin(p: seq<Instr>) {
    forall k :: 0 <= k < |p| && p[k].IsLoopBegin() ==> p[k].a <= MAX_UNROLL_FACTOR
  }

  // ----- replacing a balanced stretch -----

  ghost predicate SameEffect<S(!new)>(p: seq<Instr>, q: seq<Instr>, m: Machine<S>) {
    forall data :: Exec(p, m, data) == Exec(q, m, data)
  }

  lemma {:induction false} ReplaceMiddle<S(!new)>(before: seq<Instr>, mid: seq<Instr>, mid': seq<Instr>, after: seq<Instr>,
                                                  m: Machine<S>, data: S)
    requires Balanced(mid) && Balanced(mid')
    requires SameEffect(mid, mid', m)
    ensures Exec(before + mid + after, m, data) == Exec(before + mid' + after, m, data)
    decreases |before| + |after|, 2
  {
    hide Scan, Balanced;
    var p, q := before + mid + after, before + mid' + after;
    if before == [] {
      assert p == mid + after && q == mid' + after;
      ExecConcat(mid, after, m, data);
      ExecConcat(mid', after, m, data);
    } else if !before[0].Halts() {
      var b := before[1..];
      assert p[0] == q[0] == before[0] && p[1..] == b + mid + after && q[1..] == b + mid' + after;
      if before[0].IsLoopBegin() {
        ReplaceInLoop(before, mid, mid', after, m, data);
      } else {
        ReplaceMiddle(b, mid, mid', after, m, if before[0].Silent() then data else m.exec(before[0], data));
      }
    }
  }

  lemma {:induction false} ReplaceInLoop<S(!new)>(before: seq<Instr>, mid: seq<Instr>, mid': seq<Instr>, after: seq<Instr>,
                                                  m: Machine<S>, data: S)
    requires Balanced(mid) && Balanced(mid')
    requires SameEffect(mid, mid', m)
    requires before != [] && before[0].IsLoopBegin()
    ensures Exec(before + mid + after, m, data) == Exec(before + mid' + after, m, data)
    decreases |before| + |after|, 1
  {
    hide Scan, Balanced, SameEffect, Exec, Repeat, Passes;
    var p, q := before + mid + after, before + mid' + after;
    var b := before[1..];
    assert p[0] == q[0] == before[0] && p[1..] == b + mid + after && q[1..] == b + mid' + after;
    ScanAround(b, mid, after);
    ScanAround(b, mid', after);
    var n := Passes(before[0].a);
    if Scan(b, 1).Closed? {
      var k := Scan(b, 1).at;
      ExecMatched(p, k, m, data);
      ExecMatched(q, k, m, data);
      EndBefore(p, b, mid, after, k);
      EndBefore(q, b, mid', after, k);
      ReplaceMiddle(b[k + 1..], mid, mid', after, m, Repeat(b[..k], n, m, data).data);
    } else if Scan(after, Scan(b, 1).depth).Closed? {
      var k := Scan(after, Scan(b, 1).depth).at;
      var inner := after[..k];
      var i, j := |b| + |mid| + k, |b| + |mid'| + k;
      ExecMatched(p, i, m, data);
      ExecMatched(q, j, m, data);
      EndBehind(p, b, mid, after, k);
      EndBehind(q, b, mid', after, k);
      ReplaceRepeated(b, mid, mid', inner, n, m, data);
    } else {
      ExecUnmatched(p, m, data);
      ExecUnmatched(q, m, data);
      ReplaceMiddle(b, mid, mid', after, m, data);
    }
  }

  /** A balanced stretch does not disturb the search for a loop end. */
  lemma ScanAround(b: seq<Instr>, mid: seq<Instr>, after: seq<Instr>)
    requires Balanced(mid)
    ensures Scan(b + mid + after, 1)
            == if Scan(b, 1).Closed? then Scan(b, 1) else Scan(after, Scan(b, 1).depth).Later(|b| + |mid|)
  {
    hide Scan;
    assert b + mid + after == b + (mid + after);
    ScanConcat(b, mid + after, 1);
    if Scan(b, 1).Open? {
      ScanDeeper(mid, 1, Scan(b, 1).depth - 1);
      ScanConcat(mid, after, Scan(b, 1).depth);
    }
  }

  lemma {:induction false} ReplaceRepeated<S(!new)>(b: seq<Instr>, mid: seq<Instr>, mid': seq<Instr>, inner: seq<Instr>,
                                                    n: nat, m: Machine<S>, data: S)
    requires Balanced(mid) && Balanced(mid')
    requires SameEffect(mid, mid', m)
    ensures Repeat(b + mid + inner, n, m, data) == Repeat(b + mid' + inner, n, m, data)
    decreases |b| + |inner|, n + 3
  {
    if n == 0 {
    } else {
      ReplaceMiddle(b, mid, mid', inner, m, data);
      var r := Exec(b + mid + inner, m, data);
      if !r.halted {
        ReplaceRepeated(b, mid, mid', inner, n - 1, m, r.data);
      }
    }
  }

  // ----- one loop -----

  lemma {:induction false} BalancedConcat(a: seq<Instr>, b: seq<Instr>)
    requires Balanced(a) && Balanced(b)
    ensures Balanced(a + b)
  {
    ScanConcat(a, b, 1);
  }

  lemma {:induction false} TimesBalanced(body: seq<Instr>, n: nat)
    requires Balanced(body)
    ensures Balanced(Times(body, n))
  {
    if n == 0 {
    } else {
      TimesBalanced(body, n - 1);
      BalancedConcat(Times(body, n - 1), body);
    }
  }

  lemma {:induction false} TimesFirst(body: seq<Instr>, n: nat)
    requires n > 0
    ensures Times(body, n) == body + Times(body, n - 1)
  {
    if n <= 1 {
    } else {
      TimesFirst(body, n - 1);
      assert body + Times(body, n - 2) + body == body + (Times(body, n - 2) + body);
    }
  }

  lemma {:induction false} ExecTimes<S(!new)>(body: seq<Instr>, n: nat, m: Machine<S>, data: S)
    requires Balanced(body)
    ensures Exec(Times(body, n), m, data) == Repeat(body, n, m, data)
  {
    if n == 0 {
    } else {
      TimesFirst(body, n);
      ExecConcat(body, Times(body, n - 1), m, data);
      var r := Exec(body, m, data);
      if !r.halted {
        ExecTimes(body, n - 1, m, r.data);
      }
    }
  }

  ghost function LoopText(begin: Instr, body: seq<Instr>, end: Instr): seq<Instr> {
    [begin] + body + [end]
  }

  function FlatText(body: seq<Instr>, copies: nat): seq<Instr>
    requires copies >= 1
  {
    [NOP] + body + [NOP] + Times(body, copies - 1)
  }

  lemma LoopTextRuns<S(!new)>(begin: Instr, body: seq<Instr>, end: Instr, m: Machine<S>, data: S)
    requires begin.IsLoopBegin() && end.IsLoopEnd() && Balanced(body)
    ensures Balanced(LoopText(begin, body, end))
    ensures Exec(LoopText(begin, body, end), m, data) == Repeat(body, Passes(begin.a), m, data)
  {
    var t := LoopText(begin, body, end);
    assert t[1..] == body + [end];
    ScanConcat(body, [end], 1);
    assert Scan([end], 1) == Closed(0);
    ScanDeeper(body, 1, 1);
    ScanConcat(body, [end], 2);
    assert Scan([end], 2) == Open(1);
    assert t[1..1 + |body|] == body && t[|body| + 2..] == [];
    var r := Repeat(body, Passes(begin.a), m, data);
  }

  lemma FlatTextRuns<S(!new)>(body: seq<Instr>, copies: nat, m: Machine<S>, data: S)
    requires copies >= 1 && Balanced(body)
    ensures Balanced(FlatText(body, copies))
    ensures Exec(FlatText(body, copies), m, data) == Repeat(body, copies, m, data)
  {
    hide Scan, Balanced, Exec, Repeat, Times;
    var rest := Times(body, copies - 1);
    FlatIsBalanced(body, copies);
    assert FlatText(body, copies) == [NOP] + (body + ([NOP] + rest));
    SkipNop(body + ([NOP] + rest), m, data);
    ExecConcat(body, [NOP] + rest, m, data);
    var r := Exec(body, m, data);
    if !r.halted {
      SkipNop(rest, m, r.data);
      ExecTimes(body, copies - 1, m, r.data);
    }
    RepeatUnfolds(body, copies, m, data);
  }

  lemma RepeatUnfolds<S(!new)>(body: seq<Instr>, n: nat, m: Machine<S>, data: S)
    requires n >= 1
    ensures var r := Exec(body, m, data);
            Repeat(body, n, m, data) == if r.halted then r else Repeat(body, n - 1, m, r.data)
  {
  }

  lemma FlatIsBalanced(body: seq<Instr>, copies: nat)
    requires copies >= 1 && Balanced(body)
    ensures Balanced(FlatText(body, copies))
  {
    hide Scan, Balanced, Times;
    NopIsBalanced();
    TimesBalanced(body, copies - 1);
    BalancedConcat([NOP], body);
    BalancedConcat([NOP] + body, [NOP]);
    BalancedConcat([NOP] + body + [NOP], Times(body, copies - 1));
  }

  lemma NopIsBalanced()
    ensures Balanced([NOP])
  {
    assert Scan([NOP][1..], 1) == Open(1);
  }

  lemma SkipNop<S(!new)>(p: seq<Instr>, m: Machine<S>, data: S)
    ensures Exec([NOP] + p, m, data) == Exec(p, m, data)
  {
    assert ([NOP] + p)[1..] == p;
  }

  lemma {:induction false} SilentDoesNothing<S(!new)>(s: seq<Instr>, m: Machine<S>, data: S)
    requires AllSilent(s)
    ensures Exec(s, m, data) == Outcome(data, false)
    decreases |s|, 0
  {
    if s == [] {
    } else {
      if s[0].IsLoopBegin() && Scan(s[1..], 1).Closed? {
        var k := Scan(s[1..], 1).at;
        SilentRepeats(s[1..1 + k], Passes(s[0].a), m, data);
        SilentDoesNothing(s[k + 2..], m, data);
      } else {
        SilentDoesNothing(s[1..], m, data);
      }
    }
  }

  lemma {:induction false} SilentRepeats<S(!new)>(s: seq<Instr>, n: nat, m: Machine<S>, data: S)
    requires AllSilent(s)
    ensures Repeat(s, n, m, data) == Outcome(data, false)
    decreases |s|, n + 1
  {
    if n == 0 {
    } else {
      SilentDoesNothing(s, m, data);
      SilentRepeats(s, n - 1, m, data);
    }
  }

  /** The pieces around and inside the loop at `i`. */
  lemma LoopPieces(p: seq<Instr>, i: nat)
    requires i < |p| && Unrollable(p, i)
    ensures var k := BodyLength(p, i);
            && i + k + 2 <= |p| && p[i + 1 + k].IsLoopEnd() && Balanced(p[i + 1..i + 1 + k])
            && p == p[..i] + LoopText(p[i], p[i + 1..i + 1 + k], p[i + 1 + k]) + p[i + k + 2..]
            && UnrollLoop(p, i) == p[..i] + FlatText(p[i + 1..i + 1 + k], Trip(p[i])) + p[i + k + 2..]
  {
    var k := BodyLength(p, i);
    ScanBefore(p[i + 1..], 1);
    assert p[i + 1..][..k] == p[i + 1..i + 1 + k];
    assert p[i + 1..][k] == p[i + 1 + k];
  }

  lemma UnrollLoopRuns<S(!new)>(p: seq<Instr>, i: nat, m: Machine<S>, data: S)
    requires i < |p| && Unrollable(p, i)
    requires p[i].a <= MAX_UNROLL_FACTOR || AllSilent(p[i + 1..i + 1 + BodyLength(p, i)])
    ensures Exec(UnrollLoop(p, i), m, data) == Exec(p, m, data)
  {
    hide Scan, Balanced, Unrollable, Trip;
    TripCounts(p[i]);
    LoopPieces(p, i);
    UnrollableTrip(p, i);
    var k := BodyLength(p, i);
    var body := p[i + 1..i + 1 + k];
    var mid, mid' := LoopText(p[i], body, p[i + 1 + k]), FlatText(body, Trip(p[i]));
    LoopTextRuns(p[i], body, p[i + 1 + k], m, data);
    FlatTextRuns(body, Trip(p[i]), m, data);
    forall other ensures Exec(mid, m, other) == Exec(mid', m, other) {
      LoopTextRuns(p[i], body, p[i + 1 + k], m, other);
      FlatTextRuns(body, Trip(p[i]), m, other);
      if AllSilent(body) {
        SilentRepeats(body, Passes(p[i].a), m, other);
        SilentRepeats(body, Trip(p[i]), m, other);
      }
    }
    assert SameEffect(mid, mid', m);
    ReplaceMiddle(p[..i], mid, mid', p[i + k + 2..], m, data);
  }

  lemma TripCounts(i: Instr)
    ensures i.a <= MAX_UNROLL_FACTOR ==> Trip(i) == i.a
  {
  }

  lemma UnrollableTrip(p: seq<Instr>, i: nat)
    requires i < |p| && Unrollable(p, i)
    ensures p[i].IsLoopBegin() && Trip(p[i]) >= 2 && p[i].a >= 2
  {
  }

  // ----- what lies behind a halt -----

  ghost predicate HaltFree(p: seq<Instr>) {
    forall k :: 0 <= k < |p| ==> !p[k].Halts()
  }

  /** What the program gets to: control never passes its first halt. */
  ghost function Live(p: seq<Instr>): (s: seq<Instr>)
    ensures HaltFree(s)
  {
    p[..FirstHalt(p)]
  }

  lemma {:induction false} FirstHaltConcat(a: seq<Instr>, b: seq<Instr>)
    ensures FirstHalt(a + b) == if HaltFree(a) then |a| + FirstHalt(b) else FirstHalt(a)
  {
    if a == [] {
      assert a + b == b;
    } else {
      assert (a + b)[1..] == a[1..] + b && (a + b)[0] == a[0];
      if !a[0].Halts() {
        FirstHaltConcat(a[1..], b);
        assert a == [a[0]] + a[1..];
      }
    }
  }

  lemma {:induction false} HaltFreeRuns<S(!new)>(p: seq<Instr>, m: Machine<S>, data: S)
    requires HaltFree(p)
    ensures !Exec(p, m, data).halted
    decreases |p|, 0
  {
    if p == [] {
    } else {
      if p[0].IsLoopBegin() && Scan(p[1..], 1).Closed? {
        var k := Scan(p[1..], 1).at;
        HaltFreeRepeats(p[1..1 + k], Passes(p[0].a), m, data);
        HaltFreeRuns(p[k + 2..], m, Repeat(p[1..1 + k], Passes(p[0].a), m, data).data);
      } else {
        HaltFreeRuns(p[1..], m, if p[0].Silent() then data else m.exec(p[0], data));
      }
    }
  }

  lemma {:induction false} HaltFreeRepeats<S(!new)>(body: seq<Instr>, n: nat, m: Machine<S>, data: S)
    requires HaltFree(body)
    ensures !Repeat(body, n, m, data).halted
    decreases |body|, n + 1
  {
    if n == 0 {
    } else {
      HaltFreeRuns(body, m, data);
      HaltFreeRepeats(body, n - 1, m, Exec(body, m, data).data);
    }
  }

  /** A prefix closes what the whole closes within it, and nothing else. */
  lemma ScanPrefix(s: seq<Instr>, n: nat)
    requires n <= |s|
    ensures if Scan(s, 1).Closed? && Scan(s, 1).at < n then Scan(s[..n], 1) == Scan(s, 1) else Scan(s[..n], 1).Open?
  {
    hide Scan;
    assert s == s[..n] + s[n..];
    ScanConcat(s[..n], s[n..], 1);
  }

  /** The program does what its live part does, and halts if there is more of it. */
  lemma {:induction false} LiveRuns<S(!new)>(p: seq<Instr>, m: Machine<S>, data: S)
    ensures Exec(p, m, data) == Outcome(Exec(Live(p), m, data).data, FirstHalt(p) < |p|)
    decreases |p|
  {
    hide Scan, Repeat, Exec, FirstHalt;
    FirstHaltStep(p);
    var h := FirstHalt(p);
    if p == [] {
      ExecNothing(m, data);
      assert Live(p) == [];
    } else if p[0].Halts() {
      ExecHalts(p, m, data);
      ExecNothing(m, data);
    } else {
      var s := Live(p);
      assert s[0] == p[0] && s[1..] == p[1..][..h - 1] == Live(p[1..]);
      ScanPrefix(p[1..], h - 1);
      if p[0].IsLoopBegin() && Scan(p[1..], 1).Closed? {
        LiveLoopRuns(p, m, data);
      } else {
        ExecOther(p, m, data);
        ExecOther(s, m, data);
        LiveRuns(p[1..], m, if p[0].Silent() then data else m.exec(p[0], data));
      }
    }
  }

  lemma {:induction false} LiveLoopRuns<S(!new)>(p: seq<Instr>, m: Machine<S>, data: S)
    requires p != [] && p[0].IsLoopBegin() && Scan(p[1..], 1).Closed?
    ensures Exec(p, m, data) == Outcome(Exec(Live(p), m, data).data, FirstHalt(p) < |p|)
    decreases |p|, 0
  {
    hide Scan, Repeat, Exec, FirstHalt;
    var s, h, k, n := Live(p), FirstHalt(p), Scan(p[1..], 1).at, Passes(p[0].a);
    ScanPrefix(p[1..], h - 1);
    ExecMatched(p, k, m, data);
    var body, rest := p[1..1 + k], p[k + 2..];
    LoopHalts(p, k);
    assert s[1..] == p[1..][..h - 1];
    if k + 1 < h {
      ExecMatched(s, k, m, data);
      assert s[1..1 + k] == body && s[k + 2..] == Live(rest);
      HaltFreeRepeats(body, n, m, data);
      LiveRuns(rest, m, Repeat(body, n, m, data).data);
      HaltFreeRuns(Live(rest), m, Repeat(body, n, m, data).data);
    } else {
      ExecUnmatched(s, m, data);
      assert s[1..] == Live(body);
      LiveRuns(body, m, data);
      RepeatHalts(body, n, m, data);
    }
  }

  /** Where the first halt is, seen from a loop: inside its body or behind its end. */
  lemma LoopHalts(p: seq<Instr>, k: nat)
    requires p != [] && p[0].IsLoopBegin() && k + 1 < |p| && p[1 + k].IsLoopEnd()
    ensures FirstHalt(p) != 0
    ensures if k + 1 < FirstHalt(p) then HaltFree(p[1..1 + k]) && FirstHalt(p) == k + 2 + FirstHalt(p[k + 2..])
            else FirstHalt(p) == 1 + FirstHalt(p[1..1 + k]) && !HaltFree(p[1..1 + k]) && FirstHalt(p) < 1 + k
  {
    hide FirstHalt;
    var body := p[1..1 + k];
    assert p == [p[0]] + (body + ([p[1 + k]] + p[k + 2..]));
    FirstHaltConcat([p[0]], body + ([p[1 + k]] + p[k + 2..]));
    FirstHaltConcat(body, [p[1 + k]] + p[k + 2..]);
    FirstHaltConcat([p[1 + k]], p[k + 2..]);
    assert p[1..1 + k] == body;
  }

  lemma RepeatHalts<S(!new)>(body: seq<Instr>, n: nat, m: Machine<S>, data: S)
    requires n >= 1 && Exec(body, m, data).halted
    ensures Repeat(body, n, m, data) == Exec(body, m, data)
  {
  }

  lemma FirstHaltStep(p: seq<Instr>)
    ensures p != [] ==> FirstHalt(p) == if p[0].Halts() then 0 else 1 + FirstHalt(p[1..])
  {
  }

  lemma ExecNothing<S(!new)>(m: Machine<S>, data: S)
    ensures Exec([], m, data) == Outcome(data, false)
  {
  }

  lemma ExecHalts<S(!new)>(p: seq<Instr>, m: Machine<S>, data: S)
    requires p != [] && p[0].Halts()
    ensures Exec(p, m, data) == Outcome(data, true)
  {
  }

  lemma ExecOther<S(!new)>(p: seq<Instr>, m: Machine<S>, data: S)
    requires p != [] && !p[0].Halts() && (p[0].IsLoopBegin() ==> Scan(p[1..], 1).Open?)
    ensures Exec(p, m, data) == Exec(p[1..], m, if p[0].Silent() then data else m.exec(p[0], data))
  {
  }

  /** A loop begin that nothing behind it closes may be blanked. */
  lemma {:induction false} BlankOpenBegin<S(!new)>(before: seq<Instr>, begin: Instr, rest: seq<Instr>, m: Machine<S>, data: S)
    requires begin.IsLoopBegin() && Scan(rest, 1).Open?
    ensures Exec(before + [begin] + rest, m, data) == Exec(before + [NOP] + rest, m, data)
    decreases |before|
  {
    hide Scan, Exec, Repeat;
    var p, q := before + [begin] + rest, before + [NOP] + rest;
    if before == [] {
      assert p == [begin] + rest && q == [NOP] + rest && p[1..] == rest;
      ExecUnmatched(p, m, data);
      SkipNop(rest, m, data);
    } else if before[0].Halts() {
      ExecHalts(p, m, data);
      ExecHalts(q, m, data);
    } else {
      var b := before[1..];
      assert p[0] == q[0] == before[0] && p[1..] == b + [begin] + rest && q[1..] == b + [NOP] + rest;
      ScanOverBegin(b, begin, rest);
      if before[0].IsLoopBegin() && Scan(b, 1).Closed? {
        var k := Scan(b, 1).at;
        ExecMatched(p, k, m, data);
        ExecMatched(q, k, m, data);
        assert p[1..1 + k] == b[..k] == q[1..1 + k];
        assert p[k + 2..] == b[k + 1..] + [begin] + rest && q[k + 2..] == b[k + 1..] + [NOP] + rest;
        BlankOpenBegin(b[k + 1..], begin, rest, m, Repeat(b[..k], Passes(before[0].a), m, data).data);
      } else {
        ExecOther(p, m, data);
        ExecOther(q, m, data);
        BlankOpenBegin(b, begin, rest, m, if before[0].Silent() then data else m.exec(before[0], data));
      }
    }
  }

  lemma ScanOverBegin(b: seq<Instr>, begin: Instr, rest: seq<Instr>)
    requires begin.IsLoopBegin() && Scan(rest, 1).Open?
    ensures if Scan(b, 1).Closed? then Scan(b + [begin] + rest, 1) == Scan(b, 1) == Scan(b + [NOP] + rest, 1)
            else Scan(b + [begin] + rest, 1).Open? && Scan(b + [NOP] + rest, 1).Open?
  {
    hide Scan, Deeper;
    assert b + [begin] + rest == b + ([begin] + rest) && b + [NOP] + rest == b + ([NOP] + rest);
    ScanConcat(b, [begin] + rest, 1);
    ScanConcat(b, [NOP] + rest, 1);
    if Scan(b, 1).Open? {
      var d := Scan(b, 1).depth;
      assert ([begin] + rest)[1..] == rest && ([NOP] + rest)[1..] == rest;
      ScanEnters([begin] + rest, d);
      ScanSkips(rest, d);
      ScanDeeper(rest, 1, d);
      ScanDeeper(rest, 1, d - 1);
    }
  }

  lemma ScanSkips(rest: seq<Instr>, d: nat)
    requires d >= 1
    ensures Scan([NOP] + rest, d) == Scan(rest, d).Later(1)
  {
    assert ([NOP] + rest)[1..] == rest;
  }

  /** Unrolling a loop that control never gets out of leaves the live part, but for its begin. */
  lemma UnfinishedLive(p: seq<Instr>, i: nat)
    requires i < |p| && Unrollable(p, i) && FirstHalt(p) <= i + 1 + BodyLength(p, i)
    ensures FirstHalt(p) < |p| && FirstHalt(UnrollLoop(p, i)) == FirstHalt(p) < |UnrollLoop(p, i)|
    ensures Live(UnrollLoop(p, i)) == if i < FirstHalt(p) then Live(p)[i := NOP] else Live(p)
  {
    hide Scan, Balanced, Unrollable, UnrollLoop, FirstHalt, Times;
    LoopPieces(p, i);
    UnrollableTrip(p, i);
    var q, h, k := UnrollLoop(p, i), FirstHalt(p), BodyLength(p, i);
    assert h != i && h != i + 1 + k && h < |p|;
    forall x | 0 <= x <= h ensures x < |q| && q[x] == if x == i then NOP else p[x] {
      UnrolledPrefix(p, i, x);
    }
    SameFirstHalt(q, h);
  }

  lemma UnrolledPrefix(p: seq<Instr>, i: nat, x: nat)
    requires i < |p| && Unrollable(p, i) && x < i + 1 + BodyLength(p, i)
    ensures x < |p| && x < |UnrollLoop(p, i)| && UnrollLoop(p, i)[x] == if x == i then NOP else p[x]
  {
  }

  lemma UnrollUnfinished<S(!new)>(p: seq<Instr>, i: nat, m: Machine<S>, data: S)
    requires i < |p| && Unrollable(p, i) && FirstHalt(p) <= i + 1 + BodyLength(p, i)
    ensures Exec(UnrollLoop(p, i), m, data) == Exec(p, m, data)
  {
    hide Scan, Balanced, Unrollable, UnrollLoop, Exec, FirstHalt, FlatText, LoopText;
    UnfinishedLive(p, i);
    LiveRuns(p, m, data);
    LiveRuns(UnrollLoop(p, i), m, data);
    if i < FirstHalt(p) {
      OpenInLive(p, i);
      var s := Live(p);
      BlankOpenBegin(s[..i], s[i], s[i + 1..], m, data);
      assert s == s[..i] + [s[i]] + s[i + 1..] && s[i := NOP] == s[..i] + [NOP] + s[i + 1..];
    }
  }

  lemma OpenInLive(p: seq<Instr>, i: nat)
    requires i < |p| && Unrollable(p, i) && i < FirstHalt(p) <= i + 1 + BodyLength(p, i)
    ensures Live(p)[i].IsLoopBegin() && Scan(Live(p)[i + 1..], 1).Open?
  {
    hide Scan, Balanced, Unrollable, UnrollLoop, FirstHalt, FlatText, LoopText;
    LoopPieces(p, i);
    UnrollableTrip(p, i);
    var h, k := FirstHalt(p), BodyLength(p, i);
    assert p[i + 1..i + 1 + k][..h - (i + 1)] == p[i + 1..h] == Live(p)[i + 1..];
    ScanPrefixOpen(p[i + 1..i + 1 + k], h - (i + 1));
  }

  lemma ScanPrefixOpen(body: seq<Instr>, n: nat)
    requires Balanced(body) && n <= |body|
    ensures Scan(body[..n], 1).Open?
  {
    ScanPrefix(body, n);
  }

  lemma SameFirstHalt(q: seq<Instr>, h: nat)
    requires h < |q| && q[h].Halts() && HaltFree(q[..h])
    ensures FirstHalt(q) == h
  {
    assert q == q[..h] + q[h..];
    FirstHaltConcat(q[..h], q[h..]);
  }

  // ----- the whole pass -----

  /** A pass that cuts no working loop short changes nothing any machine can tell. */
  lemma {:induction false} UnrollRuns<S(!new)>(p: seq<Instr>, i: nat, m: Machine<S>, data: S)
    requires !CutsShort(p, i)
    ensures Exec(UnrollFrom(p, i), m, data) == Exec(p, m, data)
    decreases |p| - i
  {
    hide Unrollable, UnrollLoop, NextIndex, Exec;
    if i >= |p| {
    } else {
      if Unrollable(p, i) {
        NextIndexAdvances(p, i);
        NextIndexForward(p, i);
        UncutLoopRuns(p, i, m, data);
        UnrollRuns(UnrollLoop(p, i), NextIndex(p, i), m, data);
      } else {
        UnrollRuns(p, i + 1, m, data);
      }
    }
  }

  lemma UncutLoopRuns<S(!new)>(p: seq<Instr>, i: nat, m: Machine<S>, data: S)
    requires i < |p| && Unrollable(p, i) && !CutsHere(p, i)
    ensures Exec(UnrollLoop(p, i), m, data) == Exec(p, m, data)
  {
    hide Unrollable, UnrollLoop, Exec, FirstHalt;
    if FirstHalt(p) <= i + 1 + BodyLength(p, i) {
      UnrollUnfinished(p, i, m, data);
    } else {
      UnrollLoopRuns(p, i, m, data);
    }
  }

  lemma NextIndexForward(p: seq<Instr>, i: nat)
    requires i < |p| && Unrollable(p, i)
    ensures |UnrollLoop(p, i)| - NextIndex(p, i) < |p| - i
  {
    NextIndexAdvances(p, i);
  }

  /** With every count within the unroll factor no loop is cut short. */
  lemma {:induction false} SmallCountsAreKept(p: seq<Instr>, i: nat)
    requires CountsWithin(p)
    ensures !CutsShort(p, i)
    decreases |p| - i
  {
    if i >= |p| {
    } else {
      if Unrollable(p, i) {
        NextIndexForward(p, i);
        NextIndexAdvances(p, i);
        OnlyOldInstructions(p, i);
        SmallCountsAreKept(UnrollLoop(p, i), NextIndex(p, i));
      } else {
        SmallCountsAreKept(p, i + 1);
      }
    }
  }

  lemma {:induction false} TimesMembers(body: seq<Instr>, n: nat, k: nat)
    requires k < |Times(body, n)|
    ensures Times(body, n)[k] in body
  {
    if n > 0 && k < |Times(body, n - 1)| {
      TimesMembers(body, n - 1, k);
    }
  }

  lemma OnlyOldInstructions(p: seq<Instr>, i: nat)
    requires i < |p| && Unrollable(p, i)
    ensures forall k :: 0 <= k < |UnrollLoop(p, i)| ==> UnrollLoop(p, i)[k] == NOP || UnrollLoop(p, i)[k] in p
  {
    hide Scan, Unrollable, UnrollLoop;
    LoopPieces(p, i);
    UnrollableTrip(p, i);
    var k := BodyLength(p, i);
    var body := p[i + 1..i + 1 + k];
    var q := UnrollLoop(p, i);
    var copies := Times(body, Trip(p[i]) - 1);
    forall x | 0 <= x < |q| ensures q[x] == NOP || q[x] in p {
      if i + k + 2 <= x < i + k + 2 + |copies| {
        assert q[x] == copies[x - (i + k + 2)];
        TimesMembers(body, Trip(p[i]) - 1, x - (i + k + 2));
      }
    }
  }

  lemma JumpFreeKept(p: seq<Instr>, i: nat)
    requires i < |p| && Unrollable(p, i) && JumpFree(p)
    ensures JumpFree(UnrollLoop(p, i))
  {
    OnlyOldInstructions(p, i);
  }

  lemma {:induction false} UnrollJumpFree(p: seq<Instr>, i: nat)
    requires JumpFree(p)
    ensures JumpFree(UnrollFrom(p, i))
    decreases |p| - i
  {
    hide Unrollable, UnrollLoop, NextIndex, JumpFree;
    if i >= |p| {
    } else {
      if Unrollable(p, i) {
        NextIndexAdvances(p, i);
        NextIndexForward(p, i);
        JumpFreeKept(p, i);
        UnrollJumpFree(UnrollLoop(p, i), NextIndex(p, i));
      } else {
        UnrollJumpFree(p, i + 1);
      }
    }
  }

  /** Unrolling preserves what the machine computes. */
  lemma UnrollPreservesExecution<S(!new)>(p: seq<Instr>, m: Machine<S>, data: S, result: S)
    requires JumpFree(p) && !CutsShort(p, 0)
    ensures Finishes(UnrollFrom(p, 0), m, Start(data), result) <==> Finishes(p, m, Start(data), result)
  {
    UnrollJumpFree(p, 0);
    UnrollRuns(p, 0, m, data);
    ExecIsWhatRuns(p, m, data, result);
    ExecIsWhatRuns(UnrollFrom(p, 0), m, data, result);
  }

  // ----- loops that are cut short -----

  /** A machine whose data is the list of instructions it executed. */
  function Recorder(): Machine<seq<Instr>> {
    Machine((i, log) => log + [i], (reg, log) => false)
  }

  lemma LoopEndFits(p: seq<Instr>)
    requires p != [] && Scan(p[1..], 1).Closed?
    ensures Scan(p[1..], 1).at + 2 <= |p|
  {
    hide Scan;
  }

  /** How many instructions a program without halts executes, NOPs and loop markers not counted. */
  ghost function Executed(p: seq<Instr>): nat
    decreases |p|
  {
    hide Scan;
    if p == [] then 0
    else if p[0].IsLoopBegin() && Scan(p[1..], 1).Closed? then
      LoopEndFits(p);
      var k := Scan(p[1..], 1).at;
      Passes(p[0].a) * Executed(p[1..1 + k]) + Executed(p[k + 2..])
    else (if p[0].Silent() then 0 else 1) + Executed(p[1..])
  }

  lemma ExecutedMatched(p: seq<Instr>, k: nat)
    requires p != [] && p[0].IsLoopBegin() && Scan(p[1..], 1) == Closed(k)
    ensures k + 2 <= |p| && Executed(p) == Passes(p[0].a) * Executed(p[1..1 + k]) + Executed(p[k + 2..])
  {
  }

  lemma ExecutedOther(p: seq<Instr>)
    requires p != [] && (p[0].IsLoopBegin() ==> Scan(p[1..], 1).Open?)
    ensures Executed(p) == (if p[0].Silent() then 0 else 1) + Executed(p[1..])
  {
  }

  lemma {:induction false} RecorderCounts(p: seq<Instr>, log: seq<Instr>)
    requires HaltFree(p)
    ensures var r := Exec(p, Recorder(), log); !r.halted && |r.data| == |log| + Executed(p)
    decreases |p|, 0
  {
    if p == [] {
    } else {
      if p[0].IsLoopBegin() && Scan(p[1..], 1).Closed? {
        var k := Scan(p[1..], 1).at;
        RecorderRepeats(p[1..1 + k], Passes(p[0].a), log);
        RecorderCounts(p[k + 2..], Repeat(p[1..1 + k], Passes(p[0].a), Recorder(), log).data);
      } else {
        RecorderCounts(p[1..], if p[0].Silent() then log else log + [p[0]]);
      }
    }
  }

  lemma {:induction false} RecorderRepeats(body: seq<Instr>, n: nat, log: seq<Instr>)
    requires HaltFree(body)
    ensures var r := Repeat(body, n, Recorder(), log); !r.halted && |r.data| == |log| + n * Executed(body)
    decreases |body|, n + 1
  {
    if n == 0 {
    } else {
      RecorderCounts(body, log);
      RecorderRepeats(body, n - 1, Exec(body, Recorder(), log).data);
      assert n * Executed(body) == Executed(body) + (n - 1) * Executed(body);
    }
  }

  lemma {:induction false} ExecutedConcat(a: seq<Instr>, b: seq<Instr>)
    requires Balanced(a)
    ensures Executed(a + b) == Executed(a) + Executed(b)
    decreases |a|
  {
    if a == [] {
      assert a + b == b;
    } else {
      assert (a + b)[0] == a[0] && (a + b)[1..] == a[1..] + b;
      if a[0].IsLoopBegin() {
        BalancedMatches(a);
        ScanConcat(a[1..], b, 1);
        var k := Scan(a[1..], 1).at;
        assert (a + b)[1..1 + k] == a[1..1 + k] && (a + b)[k + 2..] == a[k + 2..] + b;
        ExecutedConcat(a[k + 2..], b);
      } else {
        ExecutedConcat(a[1..], b);
      }
    }
  }

  lemma Scale(n: nat, a: nat, b: nat)
    requires a < b && n >= 1
    ensures n * a < n * b
  {
  }

  /** The loop that ends in front of the middle. */
  lemma EndBefore(p: seq<Instr>, b: seq<Instr>, mid: seq<Instr>, after: seq<Instr>, k: nat)
    requires p != [] && p[1..] == b + mid + after && k < |b|
    ensures p[1..1 + k] == b[..k] && p[k + 2..] == b[k + 1..] + mid + after
  {
    assert p[1..][..k] == p[1..1 + k] && p[1..][k + 1..] == p[k + 2..];
  }

  /** The loop that ends behind the middle. */
  lemma EndBehind(p: seq<Instr>, b: seq<Instr>, mid: seq<Instr>, after: seq<Instr>, k: nat)
    requires p != [] && p[1..] == b + mid + after && k < |after|
    ensures var i := |b| + |mid| + k; p[1..1 + i] == b + mid + after[..k] && p[i + 2..] == after[k + 1..]
  {
    var i := |b| + |mid| + k;
    assert p[1..][..i] == p[1..1 + i] && p[1..][i + 1..] == p[i + 2..];
  }

  /** A balanced stretch that executes less makes every program around it execute less. */
  lemma {:induction false} FewerInMiddle(before: seq<Instr>, mid: seq<Instr>, mid': seq<Instr>, after: seq<Instr>)
    requires Balanced(mid) && Balanced(mid') && Executed(mid') < Executed(mid)
    ensures Executed(before + mid' + after) < Executed(before + mid + after)
    decreases |before| + |after|
  {
    hide Scan, Balanced, Executed;
    var p, q := before + mid + after, before + mid' + after;
    if before == [] {
      assert p == mid + after && q == mid' + after;
      ExecutedConcat(mid, after);
      ExecutedConcat(mid', after);
    } else {
      var b := before[1..];
      assert p[0] == q[0] == before[0] && p[1..] == b + mid + after && q[1..] == b + mid' + after;
      ScanAround(b, mid, after);
      ScanAround(b, mid', after);
      if !before[0].IsLoopBegin() || (Scan(b, 1).Open? && Scan(after, Scan(b, 1).depth).Open?) {
        ExecutedOther(p);
        ExecutedOther(q);
        FewerInMiddle(b, mid, mid', after);
      } else if Scan(b, 1).Closed? {
        var k := Scan(b, 1).at;
        EndBefore(p, b, mid, after, k);
        EndBefore(q, b, mid', after, k);
        FewerInMiddle(b[k + 1..], mid, mid', after);
        FewerBehindLoop(p, q, k, k);
      } else {
        var k := Scan(after, Scan(b, 1).depth).at;
        var inner := after[..k];
        var i, j := |b| + |mid| + k, |b| + |mid'| + k;
        EndBehind(p, b, mid, after, k);
        EndBehind(q, b, mid', after, k);
        FewerInMiddle(b, mid, mid', inner);
        FewerBehindLoop(p, q, i, j);
      }
    }
  }

  /** Less in the body with the same rest, or the same body with less behind it, is less in all. */
  lemma FewerBehindLoop(p: seq<Instr>, q: seq<Instr>, i: nat, j: nat)
    requires p != [] && q != [] && p[0] == q[0] && p[0].IsLoopBegin()
    requires Scan(p[1..], 1) == Closed(i) && Scan(q[1..], 1) == Closed(j)
    requires Executed(q[1..1 + j]) <= Executed(p[1..1 + i]) && Executed(q[j + 2..]) <= Executed(p[i + 2..])
    requires Executed(q[1..1 + j]) < Executed(p[1..1 + i]) || Executed(q[j + 2..]) < Executed(p[i + 2..])
    ensures Executed(q) < Executed(p)
  {
    hide Executed, Scan;
    ExecutedMatched(p, i);
    ExecutedMatched(q, j);
    if Executed(q[1..1 + j]) < Executed(p[1..1 + i]) {
      Scale(Passes(p[0].a), Executed(q[1..1 + j]), Executed(p[1..1 + i]));
    }
  }

  lemma {:induction false} WorkingBodyExecutes(s: seq<Instr>)
    ensures Executed(s) == 0 <==> AllSilent(s)
    decreases |s|
  {
    hide Scan, Executed, AllSilent;
    if s == [] {
      NothingExecutes();
    } else if s[0].IsLoopBegin() && Scan(s[1..], 1).Closed? {
      var k := Scan(s[1..], 1).at;
      ExecutedMatched(s, k);
      assert s[1 + k] == s[1..][k];
      WorkingBodyExecutes(s[1..1 + k]);
      WorkingBodyExecutes(s[k + 2..]);
      SilentLoop(s, k);
      Positive(Passes(s[0].a), Executed(s[1..1 + k]));
    } else {
      ExecutedOther(s);
      WorkingBodyExecutes(s[1..]);
      SilentTail(s);
    }
  }

  lemma NothingExecutes()
    ensures Executed([]) == 0 && AllSilent([])
  {
  }

  lemma Positive(n: nat, a: nat)
    requires n >= 1
    ensures n * a == 0 <==> a == 0
  {
  }

  lemma SilentTail(s: seq<Instr>)
    requires s != []
    ensures AllSilent(s) <==> s[0].Silent() && AllSilent(s[1..])
  {
    assert s == [s[0]] + s[1..];
  }

  lemma SilentLoop(s: seq<Instr>, k: nat)
    requires k + 2 <= |s| && s[0].Silent() && s[1 + k].Silent()
    ensures AllSilent(s) <==> AllSilent(s[1..1 + k]) && AllSilent(s[k + 2..])
  {
    if AllSilent(s[1..1 + k]) && AllSilent(s[k + 2..]) {
      forall x | 0 <= x < |s| ensures s[x].Silent() {
        assert 1 <= x < 1 + k ==> s[x] == s[1..1 + k][x - 1];
        assert k + 2 <= x ==> s[x] == s[k + 2..][x - (k + 2)];
      }
    }
  }

  lemma ExecutedByTexts(begin: Instr, body: seq<Instr>, end: Instr, copies: nat)
    requires begin.IsLoopBegin() && end.IsLoopEnd() && Balanced(body) && HaltFree(body) && copies >= 1
    ensures Executed(LoopText(begin, body, end)) == Passes(begin.a) * Executed(body)
    ensures Executed(FlatText(body, copies)) == copies * Executed(body)
  {
    hide Scan, Balanced, Exec, Repeat, Executed;
    LoopTextRuns(begin, body, end, Recorder(), []);
    FlatTextRuns(body, copies, Recorder(), []);
    RecorderRepeats(body, Passes(begin.a), []);
    RecorderRepeats(body, copies, []);
    RecorderCounts(LoopText(begin, body, end), []);
    TimesHaltFree(body, copies - 1);
    RecorderCounts(FlatText(body, copies), []);
  }

  lemma TimesHaltFree(body: seq<Instr>, n: nat)
    requires HaltFree(body)
    ensures HaltFree(Times(body, n))
  {
    forall k | 0 <= k < |Times(body, n)| ensures !Times(body, n)[k].Halts() {
      TimesMembers(body, n, k);
    }
  }

  lemma LivePieces(p: seq<Instr>, a: seq<Instr>, b: seq<Instr>, rest: seq<Instr>)
    requires HaltFree(a) && HaltFree(b) && p == a + b + rest
    ensures Live(p) == a + b + Live(rest)
  {
    hide FirstHalt;
    FirstHaltConcat(a + b, rest);
  }

  lemma FlatHaltFree(body: seq<Instr>, copies: nat)
    requires HaltFree(body) && copies >= 1
    ensures HaltFree(FlatText(body, copies))
  {
    hide Times;
    TimesHaltFree(body, copies - 1);
  }

  /** What a loop that ends before the first halt looks like in the live part, as it is and unrolled. */
  lemma LiveReplaced(p: seq<Instr>, q: seq<Instr>, i: nat, k: nat, copies: nat)
    requires i + 1 + k < FirstHalt(p) && copies >= 1
    requires q == p[..i] + FlatText(p[i + 1..i + 1 + k], copies) + p[i + k + 2..]
    ensures var body, tail := p[i + 1..i + 1 + k], Live(p[i + k + 2..]);
            && HaltFree(body)
            && Live(p) == p[..i] + LoopText(p[i], body, p[i + 1 + k]) + tail
            && Live(q) == p[..i] + FlatText(body, copies) + tail
  {
    hide FirstHalt, FlatText, HaltFree, Live;
    var body, rest := p[i + 1..i + 1 + k], p[i + k + 2..];
    HaltFreeParts(p, i, k);
    FlatHaltFree(body, copies);
    assert p == p[..i] + LoopText(p[i], body, p[i + 1 + k]) + rest;
    LivePieces(p, p[..i], LoopText(p[i], body, p[i + 1 + k]), rest);
    LivePieces(q, p[..i], FlatText(body, copies), rest);
  }

  lemma HaltFreeParts(p: seq<Instr>, i: nat, k: nat)
    requires i + 1 + k < FirstHalt(p)
    ensures HaltFree(p[i + 1..i + 1 + k]) && HaltFree(p[..i])
    ensures HaltFree(LoopText(p[i], p[i + 1..i + 1 + k], p[i + 1 + k]))
  {
    hide FirstHalt;
    HaltFreeSlice(p, 0, i);
    HaltFreeSlice(p, i + 1, i + 1 + k);
    HaltFreeSlice(p, i, i + k + 2);
    assert LoopText(p[i], p[i + 1..i + 1 + k], p[i + 1 + k]) == p[i..i + k + 2];
  }

  lemma HaltFreeSlice(p: seq<Instr>, lo: nat, hi: nat)
    requires lo <= hi <= FirstHalt(p)
    ensures HaltFree(p[lo..hi])
  {
    hide FirstHalt;
    forall x | 0 <= x < hi - lo ensures !p[lo..hi][x].Halts() {
      assert p[lo..hi][x] == p[lo + x];
    }
  }

  lemma CutLoopExecutesLess(p: seq<Instr>, i: nat)
    requires i < |p| && Unrollable(p, i) && CutsHere(p, i)
    ensures Executed(Live(UnrollLoop(p, i))) < Executed(Live(p))
  {
    hide Scan, Balanced, Unrollable, UnrollLoop, Executed, AllSilent, FlatText, LoopText, Live, FirstHalt, HaltFree;
    LoopPieces(p, i);
    UnrollableTrip(p, i);
    CutTrip(p[i]);
    var k := BodyLength(p, i);
    LiveReplaced(p, UnrollLoop(p, i), i, k, Trip(p[i]));
    CutTextExecutesLess(p[..i], p[i], p[i + 1..i + 1 + k], p[i + 1 + k], Live(p[i + k + 2..]));
  }

  /** Fewer passes over a working body execute less, wherever the loop stands. */
  lemma CutTextExecutesLess(before: seq<Instr>, begin: Instr, body: seq<Instr>, end: Instr, after: seq<Instr>)
    requires begin.IsLoopBegin() && end.IsLoopEnd() && Balanced(body) && HaltFree(body)
    requires begin.a > MAX_UNROLL_FACTOR && !AllSilent(body)
    ensures Executed(before + FlatText(body, MAX_UNROLL_FACTOR) + after) < Executed(before + LoopText(begin, body, end) + after)
  {
    hide Scan, Balanced, Executed, Exec, Repeat, AllSilent, FlatText, LoopText, HaltFree;
    ExecutedByTexts(begin, body, end, MAX_UNROLL_FACTOR);
    WorkingBodyExecutes(body);
    Scale(Executed(body), MAX_UNROLL_FACTOR, begin.a);
    LoopTextRuns(begin, body, end, Recorder(), []);
    FlatTextRuns(body, MAX_UNROLL_FACTOR, Recorder(), []);
    FewerInMiddle(before, LoopText(begin, body, end), FlatText(body, MAX_UNROLL_FACTOR), after);
  }

  lemma CutTrip(i: Instr)
    requires i.a > MAX_UNROLL_FACTOR
    ensures Trip(i) == MAX_UNROLL_FACTOR && Passes(i.a) == i.a
  {
  }

  /** The recorder's log grows by what the live part executes. */
  lemma LogCounts(p: seq<Instr>)
    ensures |Exec(p, Recorder(), []).data| == Executed(Live(p))
  {
    LiveRuns(p, Recorder(), []);
    RecorderCounts(Live(p), []);
  }

  /** Unrolling never adds work, and loses some exactly when it cuts a working loop short. */
  lemma {:induction false} UnrollExecutes(p: seq<Instr>, i: nat)
    ensures if CutsShort(p, i) then Executed(Live(UnrollFrom(p, i))) < Executed(Live(p))
            else Executed(Live(UnrollFrom(p, i))) == Executed(Live(p))
    decreases |p| - i
  {
    hide Unrollable, UnrollLoop, NextIndex, CutsHere, Executed, Live;
    if i >= |p| {
    } else {
      if Unrollable(p, i) {
        NextIndexAdvances(p, i);
        NextIndexForward(p, i);
        var q := UnrollLoop(p, i);
        UnrollExecutes(q, NextIndex(p, i));
        if CutsHere(p, i) {
          CutLoopExecutesLess(p, i);
        } else {
          UncutLoopRuns(p, i, Recorder(), []);
          LogCounts(p);
          LogCounts(q);
        }
      } else {
        UnrollExecutes(p, i + 1);
      }
    }
  }

  /** On every jump-free program the executed instructions stay the same if and only if no loop is cut short. */
  lemma UnrollExact(p: seq<Instr>)
    requires JumpFree(p)
    ensures (forall log :: Finishes(UnrollFrom(p, 0), Recorder(), Start([]), log) <==> Finishes(p, Recorder(), Start([]), log))
            <==> !CutsShort(p, 0)
  {
    hide Finishes, Exec, CutsShort, UnrollFrom, JumpFree, Live;
    if CutsShort(p, 0) {
      UnrollJumpFree(p, 0);
      UnrollExecutes(p, 0);
      LogCounts(p);
      LogCounts(UnrollFrom(p, 0));
      var log := Exec(p, Recorder(), []).data;
      ExecIsWhatRuns(p, Recorder(), [], log);
      ExecIsWhatRuns(UnrollFrom(p, 0), Recorder(), [], log);
    } else {
      forall log
        ensures Finishes(UnrollFrom(p, 0), Recorder(), Start([]), log) <==> Finishes(p, Recorder(), Start([]), log)
      {
        UnrollPreservesExecution(p, Recorder(), [], log);
      }
    }
  }

  /** Nine passes over one MOV come out as fewer, also in front of a RET. */
  lemma NineAreCutShort(p: seq<Instr>, mov: Instr)
    requires p == [Instr(0x07, 9, 0, 0), mov, Instr(0x08, 0, 0, 0), Instr(0x06, 0, 0, 0)] && mov.opcode == 0x01
    ensures CutsShort(p, 0) && Executed(Live(p)) == 9 && Executed(Live(UnrollFrom(p, 0))) < 9
  {
    hide CutsShort, UnrollFrom, UnrollLoop, Executed, Scan, Unrollable, FirstHalt, Live;
    NineLive(p);
    var s := Live(p);
    assert s[1..] == [s[1], s[2]];
    ScanPair(s[1], s[2]);
    assert s[1..1 + 1] == [s[1]] && s[1 + 2..] == [];
    ExecutedOne(s[1]);
    ExecutedMatched(s, 1);
    assert p[1..] == s[1..] + [p[3]];
    ScanConcat(s[1..], [p[3]], 1);
    NineIsCut(p);
    UnrollExecutes(p, 0);
  }

  /** Eight passes are not cut, whatever the loop does. */
  lemma EightAreKept(p: seq<Instr>, i: nat)
    requires i < |p| && Unrollable(p, i) && p[i].a == 8
    ensures !CutsHere(p, i) && Trip(p[i]) == 8
  {
  }

  lemma NineLive(p: seq<Instr>)
    requires |p| == 4 && p[0].IsLoopBegin() && p[1].opcode == 0x01 && p[2].IsLoopEnd() && p[3].Halts()
    ensures FirstHalt(p) == 3 && Live(p) == [p[0], p[1], p[2]]
  {
    var h := FirstHalt(p);
  }

  /** Behind a RET nothing is cut, whatever its count. */
  lemma NothingIsCutBehindRet(p: seq<Instr>)
    requires p != [] && p[0].Halts()
    ensures !CutsShort(p, 0)
  {
    hide CutsShort, UnrollFrom, Executed;
    assert Live(p) == [];
    NothingExecutes();
    UnrollExecutes(p, 0);
  }

  lemma ScanPair(i: Instr, end: Instr)
    requires !i.IsLoopBegin() && !i.IsLoopEnd() && end.IsLoopEnd()
    ensures Scan([i, end], 1) == Closed(1)
  {
    assert [i, end][1..] == [end];
  }

  lemma ExecutedOne(i: Instr)
    requires !i.Silent()
    ensures Executed([i]) == 1 && Executed([]) == 0
  {
    assert [i][1..] == [];
  }

  lemma NineIsCut(p: seq<Instr>)
    requires |p| == 4 && p[0] == Instr(0x07, 9, 0, 0) && p[1].opcode == 0x01
    requires Scan(p[1..], 1) == Closed(1) && FirstHalt(p) == 3
    ensures CutsShort(p, 0)
  {
    hide Scan, FirstHalt;
    assert p[0 + 1..] == p[1..];
    assert Unrollable(p, 0);
    assert p[0 + 1..0 + 1 + 1][0] == p[1];
  }

  // ----- jumps -----

  /** A jump over an unrolled loop lands in its copies: the pass does not adjust offsets. */
  lemma JumpsMissTheirTarget(p: seq<Instr>, a: Instr, b: Instr)
    requires p == [Instr(0x03, 4, 0, 0), Instr(0x07, 2, 0, 0), a, Instr(0x08, 0, 0, 0), b]
    requires a.opcode == 0x01 && b.opcode == 0x01
    ensures Finishes(p, Recorder(), Start([]), [b])
    ensures Finishes(UnrollFrom(p, 0), Recorder(), Start([]), [a, b])
  {
    hide Finishes, UnrollFrom, Scan;
    JumpThenOne(p, b, []);
    assert [] + [b] == [b];
    assert p[1 + 1..] == [p[2], p[3]] + [p[4]];
    ScanPair(p[2], p[3]);
    ScanConcat([p[2], p[3]], [p[4]], 1);
    var q := UnrollFrom(p, 0);
    UnrolledTwice(p);
    FinishesNow(q, Recorder(), Config(6, [], [a, b]));
    assert [a] + [q[5]] == [a, b] && [] + [q[4]] == [a];
    RunsPlain(q, 5, [a], [a, b]);
    RunsPlain(q, 4, [], [a, b]);
    assert Step(q, Recorder(), Start([])) == Config(4, [], []);
    FinishesStep(q, Recorder(), Start([]), [a, b]);
  }

  lemma JumpThenOne(p: seq<Instr>, b: Instr, log: seq<Instr>)
    requires |p| == 5 && p[0] == Instr(0x03, 4, 0, 0) && p[4] == b && b.opcode == 0x01
    ensures Finishes(p, Recorder(), Start(log), log + [b])
  {
    hide Finishes;
    var m := Recorder();
    FinishesNow(p, m, Config(5, [], log + [b]));
    RunsPlain(p, 4, log, log + [b]);
    assert Step(p, m, Start(log)) == Config(4, [], log);
    FinishesStep(p, m, Start(log), log + [b]);
  }

  lemma UnrolledTwice(p: seq<Instr>)
    requires |p| == 5 && p[0].opcode == 0x03 && p[1] == Instr(0x07, 2, 0, 0) && p[4].opcode == 0x01
    requires Scan(p[1 + 1..], 1) == Closed(1)
    ensures UnrollFrom(p, 0) == [p[0], NOP, p[2], NOP, p[2], p[4]]
  {
    hide Scan;
    assert Times([p[2]], 1) == [p[2]] by {
      assert Times([p[2]], 0) == [];
    }
    assert p[1 + 1..1 + 1 + 1] == [p[2]];
    var q := UnrollLoop(p, 1);
    assert q == [p[0], NOP, p[2], NOP, p[2], p[4]];
    assert !Unrollable(q, 5);
    assert UnrollFrom(q, 6) == q;
    assert UnrollFrom(q, 5) == q;
    assert UnrollFrom(p, 1) == q;
  }

  lemma RunsPlain(q: seq<Instr>, pc: nat, log: seq<Instr>, r: seq<Instr>)
    requires pc < |q| && q[pc].opcode == 0x01
    requires Finishes(q, Recorder(), Config(pc + 1, [], log + [q[pc]]), r)
    ensures Finishes(q, Recorder(), Config(pc, [], log), r)
  {
    hide Finishes;
    assert Step(q, Recorder(), Config(pc, [], log)) == Config(pc + 1, [], log + [q[pc]]);
    FinishesStep(q, Recorder(), Config(pc, [], log), r);
  }
}
