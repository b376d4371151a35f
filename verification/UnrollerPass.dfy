/** The unroller as it runs, in place on the instruction buffer. */
module UnrollerPass {
  import opened Ir
  import opened Results
  import opened Structured
  import opened Unroller

  class Pass {
    var loopsUnrolled: nat
    var instrsAdded: nat

    /** Walks the buffer once, unrolling each loop it meets and skipping what it wrote. */
    method Run(buf: IrBuffer)
      requires buf.Valid()
      modifies this, buf`len, buf.instrs
      ensures buf.Valid() && buf.Program() == UnrollFrom(old(buf.Program()), 0)
      ensures instrsAdded - old(instrsAdded) == buf.len - old(buf.len)
      ensures loopsUnrolled - old(loopsUnrolled) == UnrollCount(old(buf.Program()), 0)
    {
      hide Unrollable, UnrollLoop, Scan, NextIndex, UnrollFrom, BodyLength, UnrollCount;
      var i := 0;
      while i < buf.len
        modifies this, buf`len, buf.instrs
        invariant 0 <= i && buf.Valid() && UnrollFrom(buf.Program(), i) == UnrollFrom(old(buf.Program()), 0)
        invariant instrsAdded - old(instrsAdded) == buf.len - old(buf.len)
        invariant loopsUnrolled - old(loopsUnrolled) + UnrollCount(buf.Program(), i) == UnrollCount(old(buf.Program()), 0)
        decreases buf.len - i
      {
        ghost var p := buf.Program();
        assert buf.instrs[i] == p[i];
        var bodyLen := FindUnrollable(buf, i);
        UnrollFromStep(p, i);
        if bodyLen.None? {
          i := i + 1;
          continue;
        }
        var tripCount := Trip(buf.instrs[i]);
        NextIndexForward(p, i);
        var extra := Rewrite(buf, i, bodyLen.value, tripCount);
        loopsUnrolled := loopsUnrolled + 1;
        instrsAdded := instrsAdded + extra;
        i := i + 1 + bodyLen.value + 1 + extra;
      }
      UnrollFromEnd(buf.Program(), i);
    }

    /** The length of the body when the instruction at `i` begins a loop that can be unrolled. */
    method FindUnrollable(buf: IrBuffer, i: nat) returns (bodyLen: Option<nat>)
      requires buf.Valid() && i < buf.len
      ensures bodyLen.Some? <==> Unrollable(buf.Program(), i)
      ensures bodyLen.Some? ==> bodyLen.value == BodyLength(buf.Program(), i)
    {
      if !buf.instrs[i].IsLoopBegin() {
        return None;
      }
      var tripCount := Trip(buf.instrs[i]);
      if tripCount < 2 {
        return None;
      }
      var loopEnd := FindLoopEnd(buf, i);
      if loopEnd.None? {
        return None;
      }
      var length := loopEnd.value - (i + 1);
      if length == 0 || length > MAX_BODY || length * tripCount + buf.len > MAX_IR_INSTRUCTIONS {
        return None;
      }
      return Some(length);
    }

    /** The loop end that matches the loop begin at `begin`. */
    method FindLoopEnd(buf: IrBuffer, begin: nat) returns (end: Option<nat>)
      requires buf.Valid() && begin < buf.len
      ensures end.Some? <==> Scan(buf.Program()[begin + 1..], 1).Closed?
      ensures end.Some? ==> end.value == begin + 1 + Scan(buf.Program()[begin + 1..], 1).at
    {
      hide Scan;
      ghost var p := buf.Program();
      var depth := 1;
      var j := begin + 1;
      while j < buf.len
        invariant begin + 1 <= j <= buf.len && depth >= 1
        invariant Scan(p[begin + 1..], 1) == Scan(p[j..], depth).Later(j - (begin + 1))
      {
        ScanUnfolds(p[j..], depth);
        assert p[j..][1..] == p[j + 1..] && p[j..][0] == p[j];
        var opcode := buf.instrs[j].opcode;
        if opcode == 0x07 {
          depth := depth + 1;
        } else if opcode == 0x08 {
          depth := depth - 1;
          if depth == 0 {
            return Some(j);
          }
        }
        j := j + 1;
      }
      ScanNothing(depth);
      return None;
    }

    /** Blanks the markers of the loop at `i` and inserts the further copies of its body. */
    method Rewrite(buf: IrBuffer, i: nat, bodyLen: nat, tripCount: nat) returns (extra: nat)
      requires buf.Valid() && i < buf.len && Unrollable(buf.Program(), i)
      requires bodyLen == BodyLength(buf.Program(), i) && tripCount == Trip(buf.instrs[i])
      modifies buf`len, buf.instrs
      ensures buf.Valid() && buf.Program() == UnrollLoop(old(buf.Program()), i)
      ensures buf.len == old(buf.len) + extra
      ensures NextIndex(old(buf.Program()), i) == i + 1 + bodyLen + 1 + extra
    {
      hide Unrollable, Scan, UnrollLoop, BodyLength, Times, NextIndex, LoopText, FlatText, Gapped, Copied;
      ghost var p := buf.Program();
      RoomToUnroll(p, i);
      NextIndexIs(p, i);
      var body, insertAt := buf.instrs[i + 1..i + 1 + bodyLen], i + 2 + bodyLen;
      extra := bodyLen * (tripCount - 1);
      assert body == p[i + 1..i + 1 + bodyLen];
      OpenGap(buf, i, bodyLen, extra);
      ghost var gap := buf.instrs[..];
      WriteCopies(buf, insertAt, body, tripCount - 1);
      Stitched(p, gap, buf.instrs[..], i, extra);
      buf.len := buf.len + extra;
      assert buf.Program() == buf.instrs[..][..buf.len];
    }

    /** Blanks the loop markers and makes room behind the loop. */
    static method OpenGap(buf: IrBuffer, i: nat, bodyLen: nat, extra: nat)
      requires buf.Valid() && i + bodyLen + 2 <= buf.len && buf.len + extra <= MAX_IR_INSTRUCTIONS
      modifies buf.instrs
      ensures Gapped(old(buf.Program()), buf.instrs[..], i, bodyLen, extra)
    {
      ghost var p := buf.Program();
      var loopEnd := i + 1 + bodyLen;
      buf.instrs[i] := NOP;
      buf.instrs[loopEnd] := NOP;
      ghost var blanked := buf.instrs[..];
      assert blanked[..loopEnd + 1] == p[..i] + [NOP] + p[i + 1..i + 1 + bodyLen] + [NOP];
      assert blanked[loopEnd + 1..buf.len] == p[loopEnd + 1..];
      ShiftTail(buf, loopEnd + 1, extra);
      ghost var q := buf.instrs[..];
      assert q[..loopEnd + 1] == blanked[..loopEnd + 1];
      assert q[loopEnd + 1 + extra..][..buf.len - (loopEnd + 1)] == q[loopEnd + 1 + extra..buf.len + extra];
    }

    /** Writes `copies` copies of the body from `at` on. */
    static method WriteCopies(buf: IrBuffer, at: nat, body: seq<Instr>, copies: nat)
      requires buf.Valid() && at + |body| * copies <= MAX_IR_INSTRUCTIONS
      modifies buf.instrs
      ensures Copied(old(buf.instrs[..]), buf.instrs[..], at, body, copies)
    {
      ghost var end := at + |body| * copies;
      var copy := 0;
      while copy < copies
        modifies buf.instrs
        invariant 0 <= copy <= copies && at + copy * |body| <= end
        invariant buf.instrs[..at] == old(buf.instrs[..at])
        invariant buf.instrs[at..at + copy * |body|] == Times(body, copy)
        invariant buf.instrs[end..] == old(buf.instrs[end..])
      {
        var start := at + copy * |body|;
        CopyFits(|body|, copy + 1, copies + 1);
        ghost var before := buf.instrs[..];
        WriteCopy(buf, start, body);
        CopyExtends(before, buf.instrs[..], at, start, body, end);
        copy := copy + 1;
      }
    }

    /** Moves everything from `at` on `extra` places to the right. */
    static method ShiftTail(buf: IrBuffer, at: nat, extra: nat)
      requires buf.Valid() && at <= buf.len && buf.len + extra <= MAX_IR_INSTRUCTIONS
      modifies buf.instrs
      ensures buf.instrs[at + extra..buf.len + extra] == old(buf.instrs[at..buf.len])
      ensures buf.instrs[..at] == old(buf.instrs[..at])
    {
      hide Shifted;
      var k := buf.len - at;
      ghost var was := buf.instrs[..];
      ShiftStarts(was, at, buf.len, extra);
      while k > 0
        modifies buf.instrs
        invariant 0 <= k <= buf.len - at && Shifted(was, buf.instrs[..], at, buf.len, extra, k)
      {
        k := k - 1;
        var src := at + k;
        var dst := src + extra;
        ShiftOne(was, buf.instrs[..], at, buf.len, extra, k);
        if dst < MAX_IR_INSTRUCTIONS {
          ghost var cur := buf.instrs[..];
          buf.instrs[dst] := buf.instrs[src];
          assert buf.instrs[..] == cur[dst := cur[src]];
        }
      }
      ShiftEnds(was, buf.instrs[..], at, buf.len, extra);
      assert buf.instrs[..at] == buf.instrs[..][..at];
      assert buf.instrs[at + extra..buf.len + extra] == buf.instrs[..][at + extra..buf.len + extra];
    }

    static method WriteCopy(buf: IrBuffer, start: nat, body: seq<Instr>)
      requires buf.Valid() && start + |body| <= MAX_IR_INSTRUCTIONS
      modifies buf.instrs
      ensures buf.instrs[start..start + |body|] == body
      ensures buf.instrs[..start] == old(buf.instrs[..start])
      ensures buf.instrs[start + |body|..] == old(buf.instrs[start + |body|..])
    {
      var k := 0;
      while k < |body|
        modifies buf.instrs
        invariant 0 <= k <= |body|
        invariant forall j :: 0 <= j < k ==> buf.instrs[start + j] == body[j]
        invariant forall j :: 0 <= j < start ==> buf.instrs[j] == old(buf.instrs[j])
        invariant forall j :: start + |body| <= j < buf.instrs.Length ==> buf.instrs[j] == old(buf.instrs[j])
      {
        var dst := start + k;
        if dst < MAX_IR_INSTRUCTIONS {
          buf.instrs[dst] := body[k];
        }
        k := k + 1;
      }
    }
  }

  /** The instructions from `at + k` on have moved. */
  ghost predicate Shifted(was: seq<Instr>, now: seq<Instr>, at: nat, len: nat, extra: nat, k: nat) {
    && |now| == |was| && at + k <= len && len + extra <= |was|
    && (forall j :: 0 <= j < at + k ==> now[j] == was[j])
    && forall x :: at + extra + k <= x < len + extra ==> now[x] == was[x - extra]
  }

  lemma ShiftStarts(was: seq<Instr>, at: nat, len: nat, extra: nat)
    requires at <= len && len + extra <= |was|
    ensures Shifted(was, was, at, len, extra, len - at)
  {
  }

  lemma ShiftOne(was: seq<Instr>, now: seq<Instr>, at: nat, len: nat, extra: nat, k: nat)
    requires Shifted(was, now, at, len, extra, k + 1)
    ensures at + k + extra < |now| && Shifted(was, now[at + k + extra := now[at + k]], at, len, extra, k)
  {
  }

  lemma ShiftEnds(was: seq<Instr>, now: seq<Instr>, at: nat, len: nat, extra: nat)
    requires Shifted(was, now, at, len, extra, 0)
    ensures now[..at] == was[..at] && now[at + extra..len + extra] == was[at..len]
  {
  }

  /** How many loops the pass unrolls from index `i` on. */
  ghost function UnrollCount(p: seq<Instr>, i: nat): nat
    decreases |p| - i
  {
    if i >= |p| then 0
    else if !Unrollable(p, i) then UnrollCount(p, i + 1)
    else
      NextIndexAdvances(p, i);
      1 + UnrollCount(UnrollLoop(p, i), NextIndex(p, i))
  }

  lemma ThreePieces(q: seq<Instr>, i: nat, j: nat, n: nat)
    requires i <= j <= n <= |q|
    ensures q[..n] == q[..i] + q[i..j] + q[j..][..n - j]
  {
  }

  lemma RoomToUnroll(p: seq<Instr>, i: nat)
    requires i < |p| <= MAX_IR_INSTRUCTIONS && Unrollable(p, i)
    ensures i + 2 + BodyLength(p, i) <= |p| && Trip(p[i]) >= 2
    ensures |p| + BodyLength(p, i) * (Trip(p[i]) - 1) <= MAX_IR_INSTRUCTIONS
  {
    NextIndexAdvances(p, i);
    LoopPieces(p, i);
    NextIndexIs(p, i);
  }

  lemma Assembled(p: seq<Instr>, i: nat)
    requires i < |p| && Unrollable(p, i)
    ensures var k := BodyLength(p, i);
            var body := p[i + 1..i + 1 + k];
            UnrollLoop(p, i) == p[..i] + [NOP] + body + [NOP] + Times(body, Trip(p[i]) - 1) + p[i + k + 2..]
  {
  }

  /** The markers are blank and there is a gap behind the loop. */
  ghost predicate Gapped(p: seq<Instr>, q: seq<Instr>, i: nat, bodyLen: nat, extra: nat) {
    && i + 2 + bodyLen <= |p| && |p| + extra <= |q|
    && q[..i + 2 + bodyLen] == p[..i] + [NOP] + p[i + 1..i + 1 + bodyLen] + [NOP]
    && q[i + 2 + bodyLen + extra..][..|p| - (i + 2 + bodyLen)] == p[i + 2 + bodyLen..]
  }

  /** The copies fill the place behind `at`, and nothing else changed. */
  ghost predicate Copied(before: seq<Instr>, q: seq<Instr>, at: nat, body: seq<Instr>, copies: nat) {
    var end := at + |body| * copies;
    && |q| == |before| && end <= |q|
    && q[..at] == before[..at] && q[at..end] == Times(body, copies) && q[end..] == before[end..]
  }

  /** Head, copies and tail make up the unrolled program. */
  lemma Stitched(p: seq<Instr>, gap: seq<Instr>, q: seq<Instr>, i: nat, extra: nat)
    requires i < |p| && Unrollable(p, i) && Trip(p[i]) >= 2 && extra == BodyLength(p, i) * (Trip(p[i]) - 1)
    requires i + 1 + BodyLength(p, i) <= |p| && Gapped(p, gap, i, BodyLength(p, i), extra)
    requires Copied(gap, q, i + 2 + BodyLength(p, i), p[i + 1..i + 1 + BodyLength(p, i)], Trip(p[i]) - 1)
    ensures |p| + extra <= |q| && q[..|p| + extra] == UnrollLoop(p, i)
  {
    assert |p[i + 1..i + 1 + BodyLength(p, i)]| == BodyLength(p, i);
    hide Unrollable, Scan, BodyLength, Times, UnrollLoop;
    var at := i + 2 + BodyLength(p, i);
    ThreePieces(q, at, at + extra, |p| + extra);
    Assembled(p, i);
  }

  /** One more copy behind the others leaves the rest alone. */
  lemma CopyExtends(before: seq<Instr>, after: seq<Instr>, at: nat, start: nat, body: seq<Instr>, end: nat)
    requires at <= start && start + |body| <= end <= |before| == |after|
    requires after[start..start + |body|] == body && after[..start] == before[..start]
    requires after[start + |body|..] == before[start + |body|..]
    ensures after[..at] == before[..at] && after[end..] == before[end..]
    ensures after[at..start + |body|] == before[at..start] + body
  {
    assert after[..at] == after[..start][..at] == before[..start][..at];
    assert after[at..start] == after[..start][at..] == before[..start][at..];
    assert after[end..] == after[start + |body|..][end - start - |body|..]
           == before[start + |body|..][end - start - |body|..];
    assert after[at..start + |body|] == after[at..start] + after[start..start + |body|];
  }

  lemma CopyFits(bodyLen: nat, copy: nat, tripCount: nat)
    requires 1 <= copy < tripCount
    ensures (copy - 1) * bodyLen + bodyLen == copy * bodyLen <= bodyLen * (tripCount - 1)
  {
    assert copy * bodyLen <= (tripCount - 1) * bodyLen;
  }

  lemma UnrollFromStep(p: seq<Instr>, i: nat)
    requires i < |p|
    ensures !Unrollable(p, i) ==> UnrollFrom(p, i) == UnrollFrom(p, i + 1)
    ensures Unrollable(p, i) ==> UnrollFrom(p, i) == UnrollFrom(UnrollLoop(p, i), NextIndex(p, i))
    ensures UnrollCount(p, i) == if Unrollable(p, i) then 1 + UnrollCount(UnrollLoop(p, i), NextIndex(p, i))
                                 else UnrollCount(p, i + 1)
  {
  }

  lemma UnrollFromEnd(p: seq<Instr>, i: nat)
    requires i >= |p|
    ensures UnrollFrom(p, i) == p && UnrollCount(p, i) == 0
  {
  }

  lemma NextIndexIs(p: seq<Instr>, i: nat)
    requires i < |p| && Unrollable(p, i)
    ensures NextIndex(p, i) == i + 1 + BodyLength(p, i) + 1 + BodyLength(p, i) * (Trip(p[i]) - 1)
    ensures Trip(p[i]) >= 2
  {
  }
}
