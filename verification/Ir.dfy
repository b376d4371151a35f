/** The instruction buffer of src/crucible.rs and a small-step machine that runs it. */
module Ir {
  import opened Bytes

  const MAX_IR_INSTRUCTIONS: nat := 16384
  const MAX_UNROLL_FACTOR: nat := 8
  const MAX_BODY: nat := 256

  datatype Instr = Instr(opcode: u8, a: u8, b: u8, flags: u8) {
    predicate IsDead() { opcode == 0xFF }
    predicate IsJump() { opcode == 0x03 || opcode == 0x04 }
    predicate IsLoopBegin() { opcode == 0x07 }
    predicate IsLoopEnd() { opcode == 0x08 }
    /** Stops the machine: RET or a dead slot. */
    predicate Halts() { opcode == 0x06 || opcode == 0xFF }
    /** Leaves the machine's data alone: NOP and the loop markers. */
    predicate Silent() { opcode == 0x00 || opcode == 0x07 || opcode == 0x08 }
  }

  const NOP := Instr(0x00, 0, 0, 0)
  const DEAD := Instr(0xFF, 0, 0, 0)

  class IrBuffer {
    const instrs: array<Instr>
    var len: nat

    ghost predicate Valid()
      reads this`len
    {
      instrs.Length == MAX_IR_INSTRUCTIONS && len <= MAX_IR_INSTRUCTIONS
    }

    ghost function Program(): seq<Instr>
      requires Valid()
      reads this`len, instrs
    {
      instrs[..len]
    }
  }

  // ----- control flow -----

  /** A jump offset is a signed byte. */
  function Offset(a: u8): int {
    if a < 128 then a else a - 256
  }

  lemma OffsetIsSigned(a: u8)
    ensures -128 <= Offset(a) < 128 && (Offset(a) - a) % 256 == 0
  {
  }

  function Target(pc: nat, i: Instr): int {
    pc + Offset(i.a)
  }

  function Following(p: seq<Instr>, pc: nat): set<nat> {
    if pc + 1 < |p| then {pc + 1} else {}
  }

  function Jumped(p: seq<Instr>, pc: nat): set<nat>
    requires pc < |p|
  {
    var target := Target(pc, p[pc]);
    if 0 <= target < |p| then {target} else {}
  }

  /** Where control may go next inside the program, loop repetition excepted. */
  function Successors(p: seq<Instr>, pc: nat): set<nat>
    requires pc < |p|
  {
    if p[pc].Halts() then {}
    else if p[pc].opcode == 0x03 then Jumped(p, pc)
    else if p[pc].opcode == 0x04 then Following(p, pc) + Jumped(p, pc)
    else Following(p, pc)
  }

  // ----- the machine -----

  /** What instructions do to the data `S`, and which register values send a JZ away. */
  datatype Machine<!S> = Machine(exec: (Instr, S) -> S, isZero: (u8, S) -> bool)

  /** An open loop: where its body starts and how many passes are still to come. */
  datatype Loop = Loop(start: nat, remaining: nat)

  /** `pc` may lie outside the program, where the machine stops. */
  datatype Config<S> = Config(pc: int, loops: seq<Loop>, data: S)

  predicate Stopped<S>(p: seq<Instr>, c: Config<S>) {
    c.pc < 0 || c.pc >= |p| || p[c.pc].Halts()
  }

  /** One instruction. A loop runs its body at least once; a loop end without an open loop does nothing. */
  function Step<S>(p: seq<Instr>, m: Machine<S>, c: Config<S>): Config<S> {
    if Stopped(p, c) then c
    else
      var i := p[c.pc];
      match i.opcode
      case 0x00 => c.(pc := c.pc + 1)
      case 0x03 => c.(pc := Target(c.pc, i))
      case 0x04 => c.(pc := if m.isZero(i.b, c.data) then Target(c.pc, i) else c.pc + 1)
      case 0x07 => Config(c.pc + 1, c.loops + [Loop(c.pc + 1, if i.a == 0 then 0 else i.a - 1)], c.data)
      case 0x08 =>
        if c.loops == [] then c.(pc := c.pc + 1)
        else
          var n := |c.loops| - 1;
          var top := c.loops[n];
          if top.remaining == 0 then Config(c.pc + 1, c.loops[..n], c.data)
          else Config(top.start, c.loops[..n] + [Loop(top.start, top.remaining - 1)], c.data)
      case _ => Config(c.pc + 1, c.loops, m.exec(i, c.data))
  }

  function Run<S>(p: seq<Instr>, m: Machine<S>, c: Config<S>, n: nat): Config<S>
    decreases n
  {
    if n == 0 then c else Run(p, m, Step(p, m, c), n - 1)
  }

  lemma {:induction false} RunSplits<S>(p: seq<Instr>, m: Machine<S>, c: Config<S>, k: nat, n: nat)
    ensures Run(p, m, c, k + n) == Run(p, m, Run(p, m, c, k), n)
    decreases k
  {
    if k == 0 {
    } else {
      RunSplits(p, m, Step(p, m, c), k - 1, n);
    }
  }

  lemma {:induction false} StoppedStays<S>(p: seq<Instr>, m: Machine<S>, c: Config<S>, n: nat)
    requires Stopped(p, c)
    ensures Run(p, m, c, n) == c
  {
    if n == 0 {
    } else {
      StoppedStays(p, m, c, n - 1);
    }
  }

  function Start<S>(data: S): Config<S> {
    Config(0, [], data)
  }
}
