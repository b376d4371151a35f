/**
 * The transactional package service of src/service.rs. Every primitive step on disk meets the
 * fault the environment has ready for it: it may fail or the process may stop, before or after
 * the step took effect. A stopped process goes on with recovery.
 */
module Service {
  import opened Dependency
  import opened Faults
  import opened Results
  import opened ServiceState

  // ----- journal shape -----

  ghost predicate ValidGraphEntry(j: GraphJournal, i: nat)
    requires i < |j.entries|
  {
    var e := j.entries[i];
    var last := i + 1 == |j.entries|;
    && e.next.package == e.package
    && (e.prior.Some? ==> e.prior.value.package == e.package)
    && match j.action
       case Install => e.prior.None?
       case Update => last == e.prior.Some?
       case Remove => false
  }

  ghost predicate ValidGraphJournal(j: GraphJournal) {
    && 0 < |j.entries| <= MAX_ENTRIES && j.action != Remove
    && (forall i :: 0 <= i < |j.entries| ==> ValidGraphEntry(j, i))
    && (forall i, k :: 0 <= i < k < |j.entries| ==> j.entries[i].package != j.entries[k].package)
    && j.entries[|j.entries| - 1].package == j.root
  }

  /** The journal's own validation, entry by entry. */
  method ValidateGraphJournal(j: GraphJournal) returns (ok: bool)
    ensures ok <==> ValidGraphJournal(j)
  {
    if j.entries == [] || |j.entries| > MAX_ENTRIES || j.action == Remove {
      return false;
    }
    var packages: set<string> := {};
    for i := 0 to |j.entries|
      invariant forall k :: 0 <= k < i ==> ValidGraphEntry(j, k)
      invariant forall k, l :: 0 <= k < l < i ==> j.entries[k].package != j.entries[l].package
      invariant packages == set k | 0 <= k < i :: j.entries[k].package
    {
      var entry := j.entries[i];
      if entry.package in packages {
        var k :| 0 <= k < i && j.entries[k].package == entry.package;
        assert k < i < |j.entries| && j.entries[k].package == j.entries[i].package;
        return false;
      }
      if entry.next.package != entry.package || (entry.prior.Some? && entry.prior.value.package != entry.package) {
        assert !ValidGraphEntry(j, i);
        return false;
      }
      var root := i + 1 == |j.entries|;
      if (j.action == Install && entry.prior.Some?) || (j.action == Update && root != entry.prior.Some?) {
        assert !ValidGraphEntry(j, i);
        return false;
      }
      packages := packages + {entry.package};
    }
    return j.entries[|j.entries| - 1].package == j.root;
  }

  ghost predicate ValidJournal(j: Journal) {
    && (j.prior.Some? ==> j.prior.value.package == j.package)
    && (j.next.Some? ==> j.next.value.package == j.package)
    && match j.action
       case Install => j.prior.None? && j.next.Some?
       case Update => j.prior.Some? && j.next.Some?
       case Remove => j.prior.Some? && j.next.None?
  }

  method ValidateJournal(j: Journal) returns (ok: bool)
    ensures ok <==> ValidJournal(j)
  {
    if j.prior.Some? && j.prior.value.package != j.package {
      return false;
    }
    if j.next.Some? && j.next.value.package != j.package {
      return false;
    }
    return j.prior.Some? == (j.action != Install) && j.next.Some? == (j.action != Remove);
  }

  lemma RecordIsValid(plan: Plan)
    requires plan.Valid()
    ensures ValidGraphJournal(plan.Record())
  {
    var j := plan.Record();
    forall i | 0 <= i < |j.entries| ensures ValidGraphEntry(j, i) {
      assert plan.EntryFits(i);
      EntrySlots(plan, i);
    }
  }

  // ----- the schedules that defeat the in-process rollback -----

  /** The entry whose install took effect without being noticed, and the tick after that. */
  datatype Loss = Loss(entry: nat, tick: nat)

  function Later(loss: Option<Loss>, n: nat): Option<Loss> {
    if loss.Some? then Some(Loss(loss.value.entry + n, loss.value.tick)) else None
  }

  /**
   * Where applying `entries` from tick `t` loses sight of an install: one that takes effect, reports
   * failure, and whose ownership receipt then cannot be read.
   */
  function LossFrom(faults: nat -> Fault, t: nat, entries: seq<PreparedEntry>): Option<Loss>
    decreases |entries|
  {
    if entries == [] || !faults(t).NoFault? then None
    else if !entries[0].mutate then Later(LossFrom(faults, t + 1, entries[1..]), 1)
    else
      match faults(t + 1)
      case NoFault => Later(LossFrom(faults, t + 2, entries[1..]), 1)
      case FailsAfter =>
        if faults(t + 2).NoFault? then Later(LossFrom(faults, t + 3, entries[1..]), 1)
        else if faults(t + 2).Status() == Failed then Some(Loss(0, t + 3))
        else None
      case _ => None
  }

  /** The transaction that starts at tick `t` loses sight of an install. */
  predicate Blind(faults: nat -> Fault, t: nat, entries: seq<PreparedEntry>) {
    faults(t).NoFault? && LossFrom(faults, t + 1, entries).Some?
  }

  predicate NoFaults(faults: nat -> Fault, t: nat, n: nat) {
    forall k: nat :: t <= k < t + n ==> faults(k).NoFault?
  }

  /** A rollback from tick `t`, of `undone` installs and the receipts of `all` entries, clears the journal. */
  predicate ClearsFrom(faults: nat -> Fault, t: nat, undone: nat, all: nat) {
    NoFaults(faults, t, undone + all) && faults(t + undone + all).TakesEffect()
  }

  /** A rollback from tick `t` takes dependencies away from an updated root that it does not know to be new. */
  predicate Uproots(faults: nat -> Fault, t: nat, plan: Plan, lost: nat) {
    plan.action == Update && 0 < lost && lost + 1 == |plan.entries| && faults(t).TakesEffect()
  }

  /**
   * The transaction that starts at tick `t` loses sight of an install, and the rollback then goes so
   * far that recovery cannot make up for it.
   */
  predicate Stranded(faults: nat -> Fault, t: nat, plan: Plan) {
    && Blind(faults, t, plan.entries)
    && var loss := LossFrom(faults, t + 1, plan.entries).value;
       || ClearsFrom(faults, loss.tick, loss.entry, |plan.entries|)
       || Uproots(faults, loss.tick, plan, loss.entry)
  }

  /** A first install that fails late and unseen, and no fault afterwards. */
  function LoseTheFirst(): nat -> Fault {
    t => if t == 2 then FailsAfter else if t == 3 then FailsBefore else NoFault
  }

  lemma LosingTheFirstStrands(plan: Plan)
    requires plan.entries != [] && plan.entries[0].mutate
    ensures Stranded(LoseTheFirst(), 0, plan)
    ensures LossFrom(LoseTheFirst(), 1, plan.entries) == Some(Loss(0, 4))
    ensures ClearsFrom(LoseTheFirst(), 4, 0, |plan.entries|)
  {
    assert LossFrom(LoseTheFirst(), 1, plan.entries) == Some(Loss(0, 4));
  }

  /** The last of `n` installs fails late and unseen, and the first step of the rollback fails late. */
  function LoseTheRoot(n: nat): nat -> Fault {
    t => if t == 2 * n || t == 2 * n + 2 then FailsAfter else if t == 2 * n + 1 then FailsBefore else NoFault
  }

  lemma LosingTheRootStrands(plan: Plan)
    requires plan.Valid() && plan.action == Update && 1 < |plan.entries| && plan.entries[|plan.entries| - 1].mutate
    ensures Stranded(LoseTheRoot(|plan.entries|), 0, plan)
    ensures var loss := LossFrom(LoseTheRoot(|plan.entries|), 1, plan.entries).value;
            !ClearsFrom(LoseTheRoot(|plan.entries|), loss.tick, loss.entry, |plan.entries|)
  {
    var n := |plan.entries|;
    forall i | 0 <= i < n ensures plan.entries[i].mutate {
      assert plan.EntryFits(i);
    }
    assert plan.entries[0..] == plan.entries;
    LossAtRoot(plan.entries, 0);
    assert LoseTheRoot(n)(2 * n + 2) == FailsAfter;
  }

  lemma {:induction false} LossAtRoot(entries: seq<PreparedEntry>, i: nat)
    requires i < |entries| && forall k :: 0 <= k < |entries| ==> entries[k].mutate
    ensures LossFrom(LoseTheRoot(|entries|), 1 + 2 * i, entries[i..]) == Some(Loss(|entries| - 1 - i, 2 * |entries| + 2))
    decreases |entries| - i
  {
    assert entries[i..][1..] == entries[i + 1..] && entries[i..][0] == entries[i];
    if i + 1 < |entries| {
      LossAtRoot(entries, i + 1);
    }
  }

  class PackageService {
    const faults: nat -> Fault
    var tick: nat
    var journal: Option<Journal>
    var graph: Option<GraphJournal>
    var services: map<string, ServiceReceipt>
    var binaries: map<string, BinaryReceipt>

    constructor (faults: nat -> Fault, start: Snapshot)
      ensures this.faults == faults && tick == 0 && Quiet(Now(), start)
    {
      this.faults, tick := faults, 0;
      journal, graph, services, binaries := None, None, start.services, start.binaries;
    }

    ghost function Now(): State
      reads this
    {
      State(journal, graph, services, binaries)
    }

    /** From here on the environment lets every step succeed. */
    ghost predicate Calm()
      reads this`tick
    {
      forall k: nat :: tick <= k ==> faults(k) == NoFault
    }

    /** The process stopped at the last step since tick `t`. */
    predicate StoppedSince(t: nat)
      reads this`tick
    {
      t < tick && faults(tick - 1).Status() == Crashed
    }

    method NextFault() returns (f: Fault)
      modifies this`tick
      ensures f == faults(old(tick)) && tick == old(tick) + 1
    {
      f := faults(tick);
      tick := tick + 1;
    }

    // ----- primitive steps -----

    method WriteServiceReceipt(receipt: ServiceReceipt) returns (status: Status)
      modifies this`tick, this`services
      ensures tick == old(tick) + 1 && status == faults(old(tick)).Status()
      ensures services == if faults(old(tick)).TakesEffect() then old(services)[receipt.package := receipt] else old(services)
    {
      var f := NextFault();
      if f.TakesEffect() {
        services := services[receipt.package := receipt];
      }
      return f.Status();
    }

    method RemoveServiceReceipt(package: string) returns (status: Status)
      modifies this`tick, this`services
      ensures tick == old(tick) + 1 && status == faults(old(tick)).Status()
      ensures services == if faults(old(tick)).TakesEffect() then old(services) - {package} else old(services)
    {
      var f := NextFault();
      if f.TakesEffect() {
        services := services - {package};
      }
      return f.Status();
    }

    method WriteGraphJournal(j: GraphJournal) returns (status: Status)
      modifies this`tick, this`graph
      ensures old(tick) <= tick
      ensures status == Refused <==> !ValidGraphJournal(j) || journal.Some? || old(graph).Some?
      ensures status == Refused ==> graph == old(graph)
      ensures status != Refused ==> tick == old(tick) + 1 && status == faults(old(tick)).Status()
      ensures status != Refused ==> graph == if faults(old(tick)).TakesEffect() then Some(j) else old(graph)
    {
      var valid := ValidateGraphJournal(j);
      if !valid || journal.Some? || graph.Some? {
        return Refused;
      }
      var f := NextFault();
      if f.TakesEffect() {
        graph := Some(j);
      }
      return f.Status();
    }

    method ClearGraphJournal() returns (status: Status)
      modifies this`tick, this`graph
      ensures tick == old(tick) + 1
      ensures status == faults(old(tick)).Status()
      ensures graph == if faults(old(tick)).TakesEffect() then None else old(graph)
    {
      var f := NextFault();
      if f.TakesEffect() {
        graph := None;
      }
      return f.Status();
    }

    method WriteJournal(j: Journal) returns (status: Status)
      modifies this`tick, this`journal
      ensures old(tick) <= tick
      ensures status == Refused <==> !ValidJournal(j) || old(journal).Some? || graph.Some?
      ensures status == Refused ==> journal == old(journal)
      ensures status != Refused ==> tick == old(tick) + 1 && status == faults(old(tick)).Status()
      ensures status != Refused ==> journal == if faults(old(tick)).TakesEffect() then Some(j) else old(journal)
    {
      var valid := ValidateJournal(j);
      if !valid || journal.Some? || graph.Some? {
        return Refused;
      }
      var f := NextFault();
      if f.TakesEffect() {
        journal := Some(j);
      }
      return f.Status();
    }

    method ClearJournal() returns (status: Status)
      modifies this`tick, this`journal
      ensures tick == old(tick) + 1
      ensures status == faults(old(tick)).Status()
      ensures journal == if faults(old(tick)).TakesEffect() then None else old(journal)
    {
      var f := NextFault();
      if f.TakesEffect() {
        journal := None;
      }
      return f.Status();
    }

    method InstalledReceipt(package: string) returns (status: Status, receipt: Option<BinaryReceipt>)
      modifies this`tick
      ensures tick == old(tick) + 1 && status == faults(old(tick)).Status()
      ensures status == Done ==> receipt == Slot(binaries, package)
    {
      var f := NextFault();
      return f.Status(), if f.NoFault? then Slot(binaries, package) else None;
    }

    /** The store's install as one step: it refuses a package in the wrong state, or takes ownership. */
    method InstallPayload(e: PreparedEntry, replace: bool) returns (status: Status)
      modifies this`tick, this`binaries
      ensures var fits := replace == (e.payload.package in old(binaries));
              && tick == old(tick) + 1
              && status == (if fits || faults(old(tick)).Status() == Crashed then faults(old(tick)).Status() else Failed)
              && binaries == if fits && faults(old(tick)).TakesEffect()
                             then old(binaries)[e.payload.package := e.Binary()] else old(binaries)
    {
      var f := NextFault();
      if replace != (e.payload.package in binaries) {
        return if f.Status() == Crashed then Crashed else Failed;
      }
      if f.TakesEffect() {
        binaries := binaries[e.payload.package := e.Binary()];
      }
      return f.Status();
    }

    method RemoveBinary(package: string) returns (status: Status)
      modifies this`tick, this`binaries
      ensures tick == old(tick) + 1
      ensures status == if package in old(binaries) || faults(old(tick)).Status() == Crashed then faults(old(tick)).Status()
                        else Failed
      ensures binaries == if package in old(binaries) && faults(old(tick)).TakesEffect()
                          then old(binaries) - {package} else old(binaries)
    {
      var f := NextFault();
      if package !in binaries {
        return if f.Status() == Crashed then Crashed else Failed;
      }
      if f.TakesEffect() {
        binaries := binaries - {package};
      }
      return f.Status();
    }

    // ----- writing and restoring the receipts of a graph -----

    method WriteNewReceipts(ghost plan: Plan, entries: seq<GraphEntry>) returns (status: Status)
      requires plan.Valid() && entries == Journaled(plan.entries)
      requires Between(services, plan.before.services, plan.After().services)
      modifies this`tick, this`services
      ensures Between(services, plan.before.services, plan.After().services) && status != Refused
      ensures old(tick) <= tick && (old(Calm()) ==> status == Done)
      ensures status == Crashed <==> StoppedSince(old(tick))
      ensures status == Done ==> services == plan.After().services
    {
      hide Between;
      var i := 0;
      while i < |entries|
        modifies this`tick, this`services
        invariant old(tick) <= tick && !StoppedSince(old(tick))
        invariant 0 <= i <= |entries| && Between(services, plan.before.services, plan.After().services)
        invariant forall k :: 0 <= k < i ==> Slot(services, plan.entries[k].receipt.package) == Some(plan.entries[k].receipt)
      {
        assert plan.EntryFits(i);
        EntrySlots(plan, i);
        BetweenSet(services, plan.before.services, plan.After().services, entries[i].package, entries[i].next);
        status := WriteServiceReceipt(entries[i].next);
        if status != Done {
          return;
        }
        i := i + 1;
      }
      ServicesAllNew(plan, services);
      return Done;
    }

    method RestoreReceipts(ghost plan: Plan, entries: seq<GraphEntry>) returns (status: Status)
      requires plan.Valid() && entries == Journaled(plan.entries)
      requires Between(services, plan.before.services, plan.After().services)
      modifies this`tick, this`services
      ensures Between(services, plan.before.services, plan.After().services) && status != Refused
      ensures old(tick) <= tick && (old(Calm()) ==> status == Done)
      ensures status == Crashed <==> StoppedSince(old(tick))
      ensures status == Done ==> services == plan.before.services && tick == old(tick) + |entries|
      ensures status == Done <==> NoFaults(faults, old(tick), |entries|)
    {
      hide Between;
      var i := 0;
      while i < |entries|
        modifies this`tick, this`services
        invariant tick == old(tick) + i && NoFaults(faults, old(tick), i)
        invariant 0 <= i <= |entries| && Between(services, plan.before.services, plan.After().services)
        invariant forall k :: 0 <= k < i ==> Slot(services, plan.entries[k].receipt.package) == plan.entries[k].prior
      {
        var p := entries[i].package;
        EntrySlots(plan, i);
        assert plan.EntryFits(i);
        if entries[i].prior.Some? {
          BetweenSet(services, plan.before.services, plan.After().services, p, entries[i].prior.value);
          status := WriteServiceReceipt(entries[i].prior.value);
        } else {
          BetweenDrop(services, plan.before.services, plan.After().services, p);
          status := RemoveServiceReceipt(p);
        }
        if status != Done {
          return;
        }
        i := i + 1;
      }
      ServicesAllOld(plan, services);
      return Done;
    }

    // ----- recovery of a package graph -----

    method ReadOwnership(entries: seq<GraphEntry>) returns (status: Status, ownership: seq<Option<BinaryReceipt>>)
      modifies this`tick
      ensures status != Refused
      ensures old(tick) <= tick && (old(Calm()) ==> status == Done)
      ensures status == Crashed <==> StoppedSince(old(tick))
      ensures status == Done ==> |ownership| == |entries|
      ensures status == Done ==> forall i :: 0 <= i < |entries| ==> ownership[i] == Slot(binaries, entries[i].package)
    {
      ownership := [];
      while |ownership| < |entries|
        modifies this`tick
        invariant old(tick) <= tick && !StoppedSince(old(tick))
        invariant |ownership| <= |entries|
        invariant forall i :: 0 <= i < |ownership| ==> ownership[i] == Slot(binaries, entries[i].package)
        decreases |entries| - |ownership|
      {
        var receipt;
        status, receipt := InstalledReceipt(entries[|ownership|].package);
        if status != Done {
          return;
        }
        ownership := ownership + [receipt];
      }
      status := Done;
    }

    static predicate OwnsNew(e: GraphEntry, binary: Option<BinaryReceipt>) {
      binary.Some? && Matches(binary.value, e.next)
    }

    /** The check that refuses ownership the journal cannot explain. */
    static predicate Explained(action: JournalAction, e: GraphEntry, binary: Option<BinaryReceipt>, root: bool) {
      match action
      case Install => binary.Some? ==> Matches(binary.value, e.next)
      case Update =>
        if root then e.prior.Some? && binary.Some? && Matches(binary.value, e.prior.value)
        else binary.Some? ==> Matches(binary.value, e.next)
      case Remove => false
    }

    method AllExplained(j: GraphJournal, ownership: seq<Option<BinaryReceipt>>) returns (ok: bool)
      requires |ownership| == |j.entries|
      ensures ok <==> forall i :: 0 <= i < |ownership| ==> Explained(j.action, j.entries[i], ownership[i], i + 1 == |j.entries|)
    {
      var i := 0;
      while i < |j.entries|
        invariant 0 <= i <= |j.entries|
        invariant forall k :: 0 <= k < i ==> Explained(j.action, j.entries[k], ownership[k], k + 1 == |j.entries|)
      {
        if !Explained(j.action, j.entries[i], ownership[i], i + 1 == |j.entries|) {
          return false;
        }
        i := i + 1;
      }
      return true;
    }

    /**
     * The ownership read from disk tells whether a graph under way is all new, and if it is not,
     * whether it can be undone.
     */
    lemma OwnershipTells(plan: Plan, ownership: seq<Option<BinaryReceipt>>)
      requires plan.Valid() && UnderWay(plan, Now()) && |ownership| == |plan.entries|
      requires forall i :: 0 <= i < |plan.entries| ==> ownership[i] == Slot(binaries, plan.entries[i].receipt.package)
      ensures binaries == plan.After().binaries
              <==> forall i :: 0 <= i < |plan.entries| ==> OwnsNew(plan.entries[i].Journaled(), ownership[i])
      ensures binaries != plan.After().binaries ==>
        (Pending(plan, Now()) <==> forall i :: 0 <= i < |plan.entries| ==>
          Explained(plan.action, plan.entries[i].Journaled(), ownership[i], i + 1 == |plan.entries|))
    {
      hide Explained, RootIsLast;
      forall i | 0 <= i < |plan.entries|
        ensures OwnsNew(plan.entries[i].Journaled(), ownership[i])
                <==> Slot(binaries, plan.entries[i].receipt.package)
                     == Slot(plan.After().binaries, plan.entries[i].receipt.package)
      {
        MatchTellsNew(plan, Now(), i);
      }
      if forall i :: 0 <= i < |plan.entries| ==> OwnsNew(plan.entries[i].Journaled(), ownership[i]) {
        AllNew(plan, Now());
      }
      if binaries != plan.After().binaries {
        if Pending(plan, Now()) {
          forall i | 0 <= i < |plan.entries|
            ensures Explained(plan.action, plan.entries[i].Journaled(), ownership[i], i + 1 == |plan.entries|)
          {
            PendingIsExplained(plan, i);
          }
        } else {
          UprootedIsUnexplained(plan);
        }
      }
    }

    /** A root that is new before its dependencies are is refused. */
    lemma UprootedIsUnexplained(plan: Plan)
      requires plan.Valid() && UnderWay(plan, Now()) && !Pending(plan, Now())
      ensures var e := plan.entries[|plan.entries| - 1].Journaled();
              !Explained(plan.action, e, Slot(binaries, e.package), true)
    {
      var last := |plan.entries| - 1;
      assert plan.EntryFits(last);
      EntrySlots(plan, last);
      SlotIsEither(plan, last);
    }

    /** A pending graph that is not all new has its ownership explained entry by entry. */
    lemma PendingIsExplained(plan: Plan, i: nat)
      requires plan.Valid() && Pending(plan, Now()) && i < |plan.entries|
      requires binaries != plan.After().binaries
      ensures var e := plan.entries[i].Journaled();
              Explained(plan.action, e, Slot(binaries, e.package), i + 1 == |plan.entries|)
    {
      assert plan.EntryFits(i);
      EntrySlots(plan, i);
      var p := plan.entries[i].receipt.package;
      assert Slot(binaries, p) == Slot(plan.before.binaries, p) || Slot(binaries, p) == Slot(plan.After().binaries, p);
    }

    /** Gives up one package: a removal that failed is settled by looking at the ownership receipt. */
    method GiveUp(package: string) returns (status: Status)
      requires package in binaries
      modifies this`tick, this`binaries
      ensures status != Refused
      ensures old(tick) <= tick && (old(Calm()) ==> status == Done)
      ensures status == Crashed <==> StoppedSince(old(tick))
      ensures binaries == if faults(old(tick)).TakesEffect() then old(binaries) - {package} else old(binaries)
      ensures status == Done <==>
              faults(old(tick)).NoFault? || (faults(old(tick)).FailsAfter? && faults(old(tick) + 1).NoFault?)
    {
      status := RemoveBinary(package);
      if status == Failed {
        var receipt;
        status, receipt := InstalledReceipt(package);
        if status == Done && receipt.Some? {
          return Failed;
        }
      }
    }

    /** What is owned while the entries from `i` on have been gone through and those before have not. */
    ghost predicate Removing(plan: Plan, b: map<string, BinaryReceipt>, ownership: seq<Option<BinaryReceipt>>, i: nat) {
      && i <= |plan.entries| == |ownership|
      && Between(b, plan.before.binaries, plan.After().binaries)
      && (plan.action == Update ==> Slot(b, plan.root) == Slot(plan.before.binaries, plan.root))
      && (forall k :: 0 <= k < i ==> ownership[k] == Slot(b, plan.entries[k].receipt.package))
      && forall k :: i <= k < |plan.entries| ==>
           Slot(b, plan.entries[k].receipt.package) == Slot(plan.before.binaries, plan.entries[k].receipt.package)
    }

    lemma RemovingStep(plan: Plan, b: map<string, BinaryReceipt>, ownership: seq<Option<BinaryReceipt>>, i: nat)
      requires plan.Valid() && Removing(plan, b, ownership, i + 1)
      ensures var e := plan.entries[i].Journaled();
              if e.prior.None? && OwnsNew(e, ownership[i])
              then e.package in b && Removing(plan, b - {e.package}, ownership, i)
              else Removing(plan, b, ownership, i)
    {
      hide Between, Corresponds;
      var e := plan.entries[i].Journaled();
      if e.prior.None? && OwnsNew(e, ownership[i]) {
        NewIsNotRoot(plan, i);
        BetweenDrop(b, plan.before.binaries, plan.After().binaries, e.package);
      } else {
        RootStaysOld(plan, b, i);
      }
    }

    lemma RemovingPends(plan: Plan, b: map<string, BinaryReceipt>, ownership: seq<Option<BinaryReceipt>>, i: nat)
      requires plan.Valid() && Removing(plan, b, ownership, i)
      ensures Between(b, plan.before.binaries, plan.After().binaries) && RootIsLast(plan, b)
      ensures i == 0 ==> b == plan.before.binaries
    {
      if i == 0 {
        AllOld(plan, b);
      }
    }

    /** Removes what the interrupted graph newly owns, last entry first. */
    method RemoveNew(ghost plan: Plan, entries: seq<GraphEntry>, ownership: seq<Option<BinaryReceipt>>)
      returns (status: Status)
      requires plan.Valid() && entries == Journaled(plan.entries) && Pending(plan, Now())
      requires |ownership| == |entries|
      requires forall i :: 0 <= i < |entries| ==> ownership[i] == Slot(binaries, entries[i].package)
      requires binaries != plan.After().binaries
      modifies this`tick, this`binaries
      ensures Pending(plan, Now()) && status != Refused
      ensures old(tick) <= tick && (old(Calm()) ==> status == Done)
      ensures status == Crashed <==> StoppedSince(old(tick))
      ensures status == Done ==> binaries == plan.before.binaries
    {
      hide Between, Removing, RootIsLast, plan.Valid, OwnsNew;
      RemovingStarts(plan, ownership);
      var i := |entries|;
      while i > 0
        modifies this`tick, this`binaries
        invariant old(tick) <= tick && !StoppedSince(old(tick))
        invariant 0 <= i <= |entries| && Removing(plan, binaries, ownership, i) && Pending(plan, Now())
      {
        i := i - 1;
        var p := entries[i].package;
        RemovingStep(plan, binaries, ownership, i);
        if entries[i].prior.None? && OwnsNew(entries[i], ownership[i]) {
          RemovingPends(plan, binaries - {p}, ownership, i);
          status := GiveUp(p);
          if status != Done {
            return;
          }
        }
      }
      RemovingPends(plan, binaries, ownership, 0);
      return Done;
    }

    lemma RemovingStarts(plan: Plan, ownership: seq<Option<BinaryReceipt>>)
      requires plan.Valid() && Pending(plan, Now()) && binaries != plan.After().binaries && |ownership| == |plan.entries|
      requires forall i :: 0 <= i < |plan.entries| ==> ownership[i] == Slot(binaries, plan.entries[i].receipt.package)
      ensures Removing(plan, binaries, ownership, |plan.entries|)
    {
    }

    /** A package that was not there before is not the updated root, and its old slot is empty. */
    lemma NewIsNotRoot(plan: Plan, i: nat)
      requires plan.Valid() && i < |plan.entries| && plan.entries[i].prior.None?
      ensures Slot(plan.before.binaries, plan.entries[i].receipt.package).None?
      ensures plan.action == Update ==> plan.entries[i].receipt.package != plan.root
    {
      assert plan.EntryFits(i);
      EntrySlots(plan, i);
    }

    lemma SlotIsEither(plan: Plan, i: nat)
      requires plan.Valid() && i < |plan.entries| && Between(binaries, plan.before.binaries, plan.After().binaries)
      ensures var p := plan.entries[i].receipt.package;
              Slot(binaries, p) == Slot(plan.before.binaries, p) || Slot(binaries, p) == Slot(plan.After().binaries, p)
    {
    }

    /** An entry that is not removed already has its old slot. */
    lemma RootStaysOld(plan: Plan, b: map<string, BinaryReceipt>, i: nat)
      requires plan.Valid() && i < |plan.entries| && Between(b, plan.before.binaries, plan.After().binaries)
      requires plan.action == Update ==> Slot(b, plan.root) == Slot(plan.before.binaries, plan.root)
      requires var e := plan.entries[i].Journaled();
               !(e.prior.None? && OwnsNew(e, Slot(b, e.package)))
      ensures var p := plan.entries[i].receipt.package;
              Slot(b, p) == Slot(plan.before.binaries, p)
    {
      var p := plan.entries[i].receipt.package;
      assert plan.EntryFits(i);
      EntrySlots(plan, i);
      MatchTellsNew(plan, State(None, None, plan.before.services, b), i);
      assert Slot(b, p) == Slot(plan.before.binaries, p) || Slot(b, p) == Slot(plan.After().binaries, p);
    }

    /** Clears the journal of a graph that is all old or all new. */
    method FinishGraph(ghost plan: Plan) returns (status: Status)
      requires plan.Valid() && Pending(plan, Now())
      requires Snapshot(services, binaries) == plan.before || Snapshot(services, binaries) == plan.After()
      modifies this`tick, this`graph
      ensures Settled(plan, Now()) && status != Refused
      ensures old(tick) <= tick && (old(Calm()) ==> status == Done)
      ensures status == Crashed <==> StoppedSince(old(tick))
      ensures status == Done ==> graph.None?
    {
      status := ClearGraphJournal();
    }

    /** Completes a graph whose ownership is all new. */
    method CompleteGraph(ghost plan: Plan, entries: seq<GraphEntry>) returns (status: Status)
      requires plan.Valid() && Pending(plan, Now()) && entries == Journaled(plan.entries)
      requires binaries == plan.After().binaries
      modifies this`tick, this`graph, this`services
      ensures Settled(plan, Now()) && status != Refused
      ensures old(tick) <= tick && (old(Calm()) ==> status == Done)
      ensures status == Crashed <==> StoppedSince(old(tick))
      ensures status == Done ==> Quiet(Now(), plan.After())
    {
      hide Between;
      status := WriteNewReceipts(plan, entries);
      if status != Done {
        return;
      }
      status := FinishGraph(plan);
    }

    /** Takes a graph that is not all new back to the old receipts. */
    method UndoGraph(ghost plan: Plan, entries: seq<GraphEntry>, ownership: seq<Option<BinaryReceipt>>)
      returns (status: Status)
      requires plan.Valid() && Pending(plan, Now()) && entries == Journaled(plan.entries)
      requires binaries != plan.After().binaries && |ownership| == |entries|
      requires forall i :: 0 <= i < |entries| ==> ownership[i] == Slot(binaries, entries[i].package)
      modifies this`tick, this`graph, this`services, this`binaries
      ensures Settled(plan, Now()) && status != Refused
      ensures old(tick) <= tick && (old(Calm()) ==> status == Done)
      ensures status == Crashed <==> StoppedSince(old(tick))
      ensures status == Done ==> Quiet(Now(), plan.before)
    {
      hide Between;
      status := RemoveNew(plan, entries, ownership);
      if status != Done {
        return;
      }
      status := RestoreReceipts(plan, entries);
      if status != Done {
        return;
      }
      status := FinishGraph(plan);
    }

    /**
     * Recovery brings a pending graph to its old or its new state and never refuses it. A graph under
     * way that is not pending it refuses again and again, and changes nothing.
     */
    method RecoverGraphPending(ghost plan: Plan) returns (status: Status)
      requires plan.Valid() && UnderWay(plan, Now())
      modifies this`tick, this`graph, this`services, this`binaries
      ensures old(tick) <= tick
      ensures old(Pending(plan, Now())) ==> Settled(plan, Now()) && status != Refused && (old(Calm()) ==> status == Done)
      ensures old(Pending(plan, Now())) && status == Done ==> Quiet(Now(), plan.before) || Quiet(Now(), plan.After())
      ensures !old(Pending(plan, Now())) ==>
                Now() == old(Now()) && status != Done && (old(Calm()) ==> status == Refused)
    {
      hide Between, RootIsLast;
      var f := NextFault();
      if !f.NoFault? {
        return f.Status();
      }
      var j := graph.value;
      RecordIsValid(plan);
      var valid := ValidateGraphJournal(j);
      if !valid {
        assert false;
        return Refused;
      }
      var ownership;
      status, ownership := ReadOwnership(j.entries);
      if status != Done {
        return;
      }
      OwnershipTells(plan, ownership);
      NewIsPending(plan);
      if forall i :: 0 <= i < |j.entries| ==> OwnsNew(j.entries[i], ownership[i]) {
        status := CompleteGraph(plan, j.entries);
        return;
      }
      var explained := AllExplained(j, ownership);
      if !explained {
        return Refused;
      }
      status := UndoGraph(plan, j.entries, ownership);
    }

    lemma NewIsPending(plan: Plan)
      requires UnderWay(plan, Now())
      ensures binaries == plan.After().binaries ==> Pending(plan, Now())
    {
    }

    // ----- a package graph in one process -----

    /** The receipts after the first `i` entries. */
    ghost predicate AppliedUpTo(plan: Plan, i: nat)
      requires i <= |plan.entries|
      reads this
    {
      && journal.None? && graph == Some(plan.Record())
      && services == WithServices(plan.before.services, plan.entries[..i])
      && binaries == WithBinaries(plan.before.binaries, plan.entries[..i])
    }

    /** `applied` lists the entries before `n` whose payload was installed. */
    ghost predicate AppliedList(plan: Plan, n: nat, applied: seq<nat>)
      requires n <= |plan.entries|
    {
      && (forall k :: 0 <= k < |applied| ==> applied[k] < n && plan.entries[applied[k]].mutate)
      && (forall j, k :: 0 <= j < k < |applied| ==> applied[j] < applied[k])
      && forall i :: 0 <= i < n && plan.entries[i].mutate ==> i in applied
    }

    /** Installs one entry. When the install reports failure the ownership receipt settles whether it happened. */
    method InstallEntry(plan: Plan, i: nat) returns (status: Status, ghost blind: bool)
      requires plan.Valid() && i < |plan.entries| && plan.entries[i].mutate
      requires binaries == WithBinaries(plan.before.binaries, plan.entries[..i])
      modifies this`tick, this`binaries
      ensures status != Refused && (blind ==> status == Failed)
      ensures old(tick) <= tick && (old(Calm()) ==> status == Done)
      ensures status == Crashed <==> StoppedSince(old(tick))
      ensures blind <==> faults(old(tick)).FailsAfter? && faults(old(tick) + 1).Status() == Failed
      ensures status == Done <==>
              faults(old(tick)).NoFault? || (faults(old(tick)).FailsAfter? && faults(old(tick) + 1).NoFault?)
      ensures status == Done || blind ==> tick == old(tick) + if faults(old(tick)).NoFault? then 1 else 2
      ensures status == Done || blind ==> binaries == WithBinaries(plan.before.binaries, plan.entries[..i + 1])
      ensures status == Failed && !blind ==> binaries == old(binaries)
      ensures binaries == old(binaries) || binaries == WithBinaries(plan.before.binaries, plan.entries[..i + 1])
    {
      hide WithServices, WithBinaries;
      var entry := plan.entries[i];
      assert plan.EntryFits(i);
      PrefixNext(plan, i);
      EntrySlots(plan, i);
      blind := false;
      status := InstallPayload(entry, entry.prior.Some?);
      if status == Done || status == Crashed {
        return;
      }
      ghost var tookEffect := faults(tick - 1).TakesEffect();
      var binary;
      status, binary := InstalledReceipt(entry.receipt.package);
      if status != Done {
        blind := tookEffect && status == Failed;
        return;
      }
      OwnsTells(plan, i, tookEffect);
      if !(binary.Some? && Matches(binary.value, entry.receipt)) {
        status := Failed;
      }
    }

    /** How one entry bears on where sight is lost. */
    lemma LossStep(entries: seq<PreparedEntry>, i: nat, t: nat)
      requires i < |entries|
      ensures var here, rest := LossFrom(faults, t, entries[i..]), entries[i + 1..];
              && (!faults(t).NoFault? ==> here == None)
              && (faults(t).NoFault? && !entries[i].mutate ==> here == Later(LossFrom(faults, t + 1, rest), 1))
              && (faults(t).NoFault? && entries[i].mutate ==>
                    && (faults(t + 1).NoFault? ==> here == Later(LossFrom(faults, t + 2, rest), 1))
                    && (faults(t + 1).FailsAfter? && faults(t + 2).NoFault? ==>
                          here == Later(LossFrom(faults, t + 3, rest), 1))
                    && (faults(t + 1).FailsAfter? && !faults(t + 2).NoFault? ==>
                          here == if faults(t + 2).Status() == Failed then Some(Loss(0, t + 3)) else None)
                    && (!faults(t + 1).NoFault? && !faults(t + 1).FailsAfter? ==> here == None))
    {
      assert entries[i..][0] == entries[i] && entries[i..][1..] == entries[i + 1..];
    }

    /** Writes one entry's service receipt, then installs its payload if the build changes. */
    method ApplyEntry(plan: Plan, i: nat) returns (status: Status, ghost blind: bool)
      requires plan.Valid() && i < |plan.entries| && AppliedUpTo(plan, i)
      modifies this`tick, this`services, this`binaries
      ensures status != Refused && (blind ==> status == Failed && plan.entries[i].mutate)
      ensures old(tick) <= tick && (old(Calm()) ==> status == Done)
      ensures status == Crashed <==> StoppedSince(old(tick))
      ensures LossFrom(faults, old(tick), plan.entries[i..])
              == if blind then Some(Loss(0, tick))
                 else if status == Done then Later(LossFrom(faults, tick, plan.entries[i + 1..]), 1)
                 else None
      ensures status == Done ==> AppliedUpTo(plan, i + 1)
      ensures !blind ==> Pending(plan, Now())
      ensures services == WithServices(plan.before.services, plan.entries[..i]) ||
              services == WithServices(plan.before.services, plan.entries[..i + 1])
      ensures status == Failed ==>
        binaries == WithBinaries(plan.before.binaries, plan.entries[..if blind then i + 1 else i])
    {
      hide Between, WithServices, WithBinaries, Pending, Corresponds, plan.EntryFits, LossFrom;
      LossStep(plan.entries, i, tick);
      PrefixPending(plan, i, i);
      PrefixPending(plan, i + 1, i);
      PrefixPending(plan, i + 1, i + 1);
      PrefixNext(plan, i);
      blind := false;
      status := WriteServiceReceipt(plan.entries[i].receipt);
      if status != Done || !plan.entries[i].mutate {
        return;
      }
      status, blind := InstallEntry(plan, i);
    }

    /** Applies the entries in turn. On a failure everything installed is listed, unless the run was blind. */
    method ApplyEntries(plan: Plan) returns (status: Status, applied: seq<nat>, ghost reached: nat, ghost blind: bool)
      requires plan.Valid() && AppliedUpTo(plan, 0)
      modifies this`tick, this`services, this`binaries
      ensures status != Refused
      ensures old(tick) <= tick && (old(Calm()) ==> status == Done)
      ensures status == Crashed <==> StoppedSince(old(tick))
      ensures LossFrom(faults, old(tick), plan.entries) == if blind then Some(Loss(reached, tick)) else None
      ensures blind ==> status == Failed
      ensures reached <= |plan.entries| && AppliedList(plan, reached, applied)
      ensures status == Done ==> reached == |plan.entries| && AppliedUpTo(plan, reached)
      ensures !blind ==> Pending(plan, Now())
      ensures status == Failed ==> reached < |plan.entries| && |applied| == reached
      ensures status == Failed ==>
        (services == WithServices(plan.before.services, plan.entries[..reached]) ||
         services == WithServices(plan.before.services, plan.entries[..reached + 1]))
      ensures status == Failed ==> binaries == WithBinaries(plan.before.binaries, plan.entries[..if blind then reached + 1 else reached])
      ensures blind ==> plan.entries[reached].mutate
    {
      hide LossFrom, Pending, plan.Valid, AppliedUpTo, AppliedList;
      applied, reached, blind := [], 0, false;
      var i := 0;
      assert plan.entries[0..] == plan.entries;
      NothingApplied(plan);
      PendingNow(plan, 0);
      while i < |plan.entries|
        modifies this`tick, this`services, this`binaries
        invariant old(tick) <= tick && !StoppedSince(old(tick))
        invariant 0 <= i <= |plan.entries| && reached == i && !blind
        invariant AppliedUpTo(plan, i) && AppliedList(plan, i, applied) && Pending(plan, Now())
        invariant i < |plan.entries| ==> |applied| == i
        invariant LossFrom(faults, old(tick), plan.entries) == Later(LossFrom(faults, tick, plan.entries[i..]), i)
      {
        status, blind := ApplyEntry(plan, i);
        if status != Done {
          return;
        }
        DependencyMutates(plan, i);
        AppliedGrows(plan, i, applied);
        if plan.entries[i].mutate {
          applied := applied + [i];
        }
        i, reached := i + 1, i + 1;
      }
      assert plan.entries[i..] == [];
      NothingIsLost(tick);
      status := Done;
    }

    lemma NothingApplied(plan: Plan)
      ensures AppliedList(plan, 0, [])
    {
    }

    lemma AppliedGrows(plan: Plan, i: nat, applied: seq<nat>)
      requires i < |plan.entries| && AppliedList(plan, i, applied)
      ensures AppliedList(plan, i + 1, if plan.entries[i].mutate then applied + [i] else applied)
    {
      if plan.entries[i].mutate {
        var more := applied + [i];
        assert more[|applied|] == i;
        forall k | 0 <= k <= i && plan.entries[k].mutate ensures k in more {
          assert k < i ==> k in applied;
        }
        forall j, k | 0 <= j < k < |more| ensures more[j] < more[k] {
          assert more[j] == applied[j];
        }
      }
    }

    lemma NothingIsLost(t: nat)
      ensures LossFrom(faults, t, []) == None
    {
    }

    lemma DependencyMutates(plan: Plan, i: nat)
      requires plan.Valid() && i < |plan.entries|
      ensures i + 1 < |plan.entries| ==> plan.entries[i].mutate
    {
      assert plan.EntryFits(i);
    }

    lemma PendingNow(plan: Plan, i: nat)
      requires plan.Valid() && i <= |plan.entries| && AppliedUpTo(plan, i)
      ensures Pending(plan, Now())
    {
      PrefixPending(plan, i, i);
    }

    /** The next prefix adds the next entry. */
    lemma PrefixNext(plan: Plan, i: nat)
      requires plan.Valid() && i < |plan.entries|
      ensures var e := plan.entries[i];
              && WithServices(plan.before.services, plan.entries[..i + 1])
                 == WithServices(plan.before.services, plan.entries[..i])[e.receipt.package := e.receipt]
              && WithBinaries(plan.before.binaries, plan.entries[..i + 1])
                 == (if e.mutate then WithBinaries(plan.before.binaries, plan.entries[..i])[e.receipt.package := e.Binary()]
                     else WithBinaries(plan.before.binaries, plan.entries[..i]))
              && Slot(WithBinaries(plan.before.binaries, plan.entries[..i]), e.receipt.package)
                 == Slot(plan.before.binaries, e.receipt.package)
    {
      assert plan.entries[..i + 1][..i] == plan.entries[..i];
      BinariesElsewhere(plan.before.binaries, plan.entries[..i], plan.entries[i].receipt.package);
      EntrySlots(plan, i);
    }

    /** A prefix of the services with a prefix of the binaries no longer is pending. */
    lemma PrefixPending(plan: Plan, i: nat, k: nat)
      requires plan.Valid() && k <= i <= |plan.entries|
      ensures Pending(plan, State(None, Some(plan.Record()), WithServices(plan.before.services, plan.entries[..i]),
                                  WithBinaries(plan.before.binaries, plan.entries[..k])))
    {
      PrefixBetween(plan, i);
      PrefixBetween(plan, k);
      if k < |plan.entries| {
        BinariesElsewhere(plan.before.binaries, plan.entries[..k], plan.root);
      } else {
        assert plan.entries[..k] == plan.entries;
      }
    }

    lemma {:induction false} PrefixBetween(plan: Plan, i: nat)
      requires plan.Valid() && i <= |plan.entries|
      ensures Between(WithServices(plan.before.services, plan.entries[..i]), plan.before.services, plan.After().services)
      ensures Between(WithBinaries(plan.before.binaries, plan.entries[..i]), plan.before.binaries, plan.After().binaries)
    {
      if i == 0 {
        assert plan.entries[..0] == [];
      } else {
        PrefixBetween(plan, i - 1);
        PrefixNext(plan, i - 1);
        EntrySlots(plan, i - 1);
        var e := plan.entries[i - 1];
        BetweenSet(WithServices(plan.before.services, plan.entries[..i - 1]), plan.before.services, plan.After().services,
                   e.receipt.package, e.receipt);
        if e.mutate {
          BetweenSet(WithBinaries(plan.before.binaries, plan.entries[..i - 1]), plan.before.binaries, plan.After().binaries,
                     e.receipt.package, e.Binary());
        }
      }
    }

    /** After a failed install the ownership receipt tells whether it took effect. */
    lemma OwnsTells(plan: Plan, i: nat, tookEffect: bool)
      requires plan.Valid() && i < |plan.entries| && plan.entries[i].mutate
      requires binaries == WithBinaries(plan.before.binaries, plan.entries[..if tookEffect then i + 1 else i])
      ensures var e := plan.entries[i];
              var slot := Slot(binaries, e.receipt.package);
              (slot.Some? && Matches(slot.value, e.receipt)) <==> tookEffect
    {
      PrefixNext(plan, i);
      EntrySlots(plan, i);
      assert plan.EntryFits(i);
    }

    /** The indexes in `applied[..k]`, and the lost one of a blind run. */
    ghost function Remaining(applied: seq<nat>, k: nat, reached: nat, blind: bool): set<nat>
      requires k <= |applied|
    {
      (set i | i in applied[..k]) + if blind then {reached} else {}
    }

    /**
     * Undoes a failed graph: removes what was installed, then restores the service receipts. The
     * branch for a committed update is dead, since the root is the last entry. The journal goes
     * exactly when nothing failed before. A blind rollback leaves the lost package behind.
     */
    method RollbackGraphEntries(plan: Plan, applied: seq<nat>, ghost reached: nat, ghost blind: bool)
      returns (status: Status)
      requires plan.Valid() && reached < |plan.entries| && AppliedList(plan, reached, applied)
      requires journal.None? && graph == Some(plan.Record())
      requires Between(services, plan.before.services, plan.After().services)
      requires binaries == WithBinaries(plan.before.binaries, plan.entries[..if blind then reached + 1 else reached])
      requires blind ==> plan.entries[reached].mutate
      modifies this`tick, this`graph, this`services, this`binaries
      ensures status != Refused
      ensures old(tick) <= tick && (old(Calm()) ==> status == Done)
      ensures status == Crashed <==> StoppedSince(old(tick))
      ensures graph.None? <==> ClearsFrom(faults, old(tick), |applied|, |plan.entries|)
      ensures status == Done ==> graph.None?
      ensures !blind ==> Pending(plan, Now()) || Quiet(Now(), plan.before)
      ensures !blind && status == Done ==> Quiet(Now(), plan.before)
      ensures journal.None? && (graph.None? || UnderWay(plan, Now()))
      ensures graph.None? ==> services == plan.before.services
      ensures blind && graph.Some? ==>
                (Pending(plan, Now()) <==> !(UprootsOf(plan, reached) && 0 < |applied| && faults(old(tick)).TakesEffect()))
      ensures blind ==> Slot(binaries, plan.entries[reached].receipt.package) == Some(plan.entries[reached].Binary())
    {
      hide Between, WithBinaries;
      status := RemoveApplied(plan, applied, reached, blind);
      if status != Done {
        return;
      }
      status := RestoreReceipts(plan, Journaled(plan.entries));
      if status != Done {
        return;
      }
      status := ClearGraphJournal();
    }

    method RemoveApplied(plan: Plan, applied: seq<nat>, ghost reached: nat, ghost blind: bool) returns (status: Status)
      requires plan.Valid() && reached < |plan.entries| && AppliedList(plan, reached, applied)
      requires binaries == WithBinaries(plan.before.binaries, plan.entries[..if blind then reached + 1 else reached])
      requires blind ==> plan.entries[reached].mutate
      modifies this`tick, this`binaries
      ensures status != Refused
      ensures old(tick) <= tick && (old(Calm()) ==> status == Done)
      ensures status == Crashed <==> StoppedSince(old(tick))
      ensures status == Done ==> tick == old(tick) + |applied|
      ensures status == Done <==> NoFaults(faults, old(tick), |applied|)
      ensures !blind ==> RootIsLast(plan, binaries)
      ensures Between(binaries, plan.before.binaries, plan.After().binaries)
      ensures !blind && status == Done ==> binaries == plan.before.binaries
      ensures blind ==>
                (RootIsLast(plan, binaries) <==> !(UprootsOf(plan, reached) && 0 < |applied| && faults(old(tick)).TakesEffect()))
      ensures blind ==> Slot(binaries, plan.entries[reached].receipt.package) == Some(plan.entries[reached].Binary())
    {
      hide InstalledExactly, RootIsLast, UprootsOf, WithBinaries, Remaining, Between, Corresponds, plan.Valid;
      UndoStarts(plan, applied, reached, blind, binaries);
      UndoFits(plan, binaries, applied, |applied|, reached, blind);
      var k := |applied|;
      while k > 0
        modifies this`tick, this`binaries
        invariant 0 <= k <= |applied| && tick == old(tick) + |applied| - k
        invariant NoFaults(faults, old(tick), |applied| - k)
        invariant InstalledExactly(plan, binaries, Remaining(applied, k, reached, blind))
        invariant Undoing(plan, binaries, applied, k, reached, blind)
      {
        k := k - 1;
        var index := applied[k];
        var entry := plan.entries[index];
        NotTheRoot(plan, index);
        if entry.prior.Some? {
          assert false;
          return Refused;
        }
        RemainingShrinks(applied, k, reached, blind);
        UndoOne(plan, binaries, Remaining(applied, k + 1, reached, blind), index);
        UndoFits(plan, binaries - {entry.receipt.package}, applied, k, reached, blind);
        status := RemoveBinary(entry.receipt.package);
        if status != Done {
          return;
        }
      }
      UndoEnds(plan, binaries, applied, reached, blind);
      return Done;
    }

    /** An entry before the last one replaces nothing. */
    lemma NotTheRoot(plan: Plan, index: nat)
      requires plan.Valid() && index + 1 < |plan.entries|
      ensures plan.entries[index].prior.None?
    {
      assert plan.EntryFits(index);
    }

    lemma RemainingShrinks(applied: seq<nat>, k: nat, reached: nat, blind: bool)
      requires k < |applied| && (forall i :: 0 <= i < |applied| ==> applied[i] < reached)
      requires forall i, j :: 0 <= i < j < |applied| ==> applied[i] < applied[j]
      ensures Remaining(applied, k, reached, blind) == Remaining(applied, k + 1, reached, blind) - {applied[k]}
      ensures applied[k] in Remaining(applied, k + 1, reached, blind)
    {
      assert applied[..k + 1] == applied[..k] + [applied[k]];
    }

    lemma UndoStarts(plan: Plan, applied: seq<nat>, reached: nat, blind: bool, b: map<string, BinaryReceipt>)
      requires plan.Valid() && reached < |plan.entries| && AppliedList(plan, reached, applied)
      requires b == WithBinaries(plan.before.binaries, plan.entries[..if blind then reached + 1 else reached])
      requires blind ==> plan.entries[reached].mutate
      ensures InstalledExactly(plan, b, Remaining(applied, |applied|, reached, blind))
    {
      var n := if blind then reached + 1 else reached;
      var here := Remaining(applied, |applied|, reached, blind);
      var prefix := plan.entries[..n];
      assert applied[..|applied|] == applied;
      forall i | i in here ensures i < n && plan.entries[i].mutate
          && Slot(b, plan.entries[i].receipt.package) == Some(plan.entries[i].Binary())
      {
        BinariesAt(plan.before.binaries, prefix, i);
      }
      forall p | forall i :: i in here ==> plan.entries[i].receipt.package != p
        ensures Slot(b, p) == Slot(plan.before.binaries, p)
      {
        forall i | 0 <= i < n ensures prefix[i].receipt.package != p || !prefix[i].mutate {
          assert prefix[i].mutate ==> i in here;
        }
        BinariesElsewhere(plan.before.binaries, prefix, p);
      }
    }

    /** Removing the last installed entry leaves the others. */
    lemma UndoOne(plan: Plan, b: map<string, BinaryReceipt>, here: set<nat>, index: nat)
      requires plan.Valid() && InstalledExactly(plan, b, here) && index in here && plan.entries[index].prior.None?
      ensures plan.entries[index].receipt.package in b
      ensures InstalledExactly(plan, b - {plan.entries[index].receipt.package}, here - {index})
    {
      EntrySlots(plan, index);
      var p, rest := plan.entries[index].receipt.package, b - {plan.entries[index].receipt.package};
      assert Slot(b, p) == Some(plan.entries[index].Binary());
      forall q | forall i :: i in here - {index} ==> plan.entries[i].receipt.package != q
        ensures Slot(rest, q) == Slot(plan.before.binaries, q)
      {
        if q != p {
          assert forall i :: i in here ==> plan.entries[i].receipt.package != q;
          assert Slot(rest, q) == Slot(b, q);
        }
      }
      forall i | i in here - {index} ensures Slot(rest, plan.entries[i].receipt.package) == Some(plan.entries[i].Binary()) {
        assert plan.entries[i].receipt.package != p;
        assert Slot(b, plan.entries[i].receipt.package) == Some(plan.entries[i].Binary());
      }
    }

    /**
     * What is owned while a graph is undone. Only a blind run that lost an updated root, and has
     * removed a dependency since, has a root that is new before everything is.
     */
    ghost predicate Undoing(plan: Plan, b: map<string, BinaryReceipt>, applied: seq<nat>, k: nat, reached: nat, blind: bool)
      requires reached < |plan.entries| && k <= |applied|
    {
      && Between(b, plan.before.binaries, plan.After().binaries)
      && (RootIsLast(plan, b) <==> !(blind && UprootsOf(plan, reached) && k < |applied|))
      && (blind ==> Slot(b, plan.entries[reached].receipt.package) == Some(plan.entries[reached].Binary()))
    }

    lemma UndoFits(plan: Plan, b: map<string, BinaryReceipt>, applied: seq<nat>, k: nat, reached: nat, blind: bool)
      requires plan.Valid() && reached < |plan.entries| && AppliedList(plan, reached, applied) && k <= |applied|
      requires blind ==> plan.entries[reached].mutate
      requires InstalledExactly(plan, b, Remaining(applied, k, reached, blind))
      ensures Undoing(plan, b, applied, k, reached, blind)
    {
      var here := Remaining(applied, k, reached, blind);
      forall p ensures Slot(b, p) == Slot(plan.before.binaries, p) || Slot(b, p) == Slot(plan.After().binaries, p) {
        if exists i :: i in here && plan.entries[i].receipt.package == p {
          var i :| i in here && plan.entries[i].receipt.package == p;
          EntrySlots(plan, i);
        }
      }
      if !(blind && reached + 1 == |plan.entries|) {
        forall i | i in here ensures plan.entries[i].receipt.package != plan.root {
          assert i + 1 < |plan.entries|;
        }
      } else if plan.action == Update {
        UndoneRoot(plan, b, applied, k, reached);
      }
    }

    /** A lost root is new; it is with everything else only before the first dependency goes. */
    lemma UndoneRoot(plan: Plan, b: map<string, BinaryReceipt>, applied: seq<nat>, k: nat, reached: nat)
      requires plan.Valid() && reached + 1 == |plan.entries| && AppliedList(plan, reached, applied) && k <= |applied|
      requires plan.action == Update && plan.entries[reached].mutate
      requires Between(b, plan.before.binaries, plan.After().binaries)
      requires InstalledExactly(plan, b, Remaining(applied, k, reached, true))
      ensures RootIsLast(plan, b) <==> k == |applied|
    {
      var here := Remaining(applied, k, reached, true);
      LostIsNew(plan, reached);
      assert reached in here && plan.entries[reached].receipt.package == plan.root;
      if k < |applied| {
        var gone := applied[k];
        assert gone !in here;
        EntrySlots(plan, gone);
        forall i | i in here ensures plan.entries[i].receipt.package != plan.entries[gone].receipt.package {
          assert i < gone || gone < i;
        }
        NotTheRoot(plan, gone);
        assert Slot(b, plan.entries[gone].receipt.package) == Slot(plan.before.binaries, plan.entries[gone].receipt.package);
      } else {
        assert applied[..k] == applied;
        forall i | 0 <= i < |plan.entries|
          ensures Slot(b, plan.entries[i].receipt.package) == Slot(plan.After().binaries, plan.entries[i].receipt.package)
        {
          DependencyMutates(plan, i);
          assert i in here;
          EntrySlots(plan, i);
        }
        AllNew(plan, State(None, None, plan.before.services, b));
      }
    }

    lemma UndoEnds(plan: Plan, b: map<string, BinaryReceipt>, applied: seq<nat>, reached: nat, blind: bool)
      requires plan.Valid() && InstalledExactly(plan, b, Remaining(applied, 0, reached, blind))
      ensures !blind ==> b == plan.before.binaries
    {
      if !blind {
        assert Remaining(applied, 0, reached, blind) == {};
        SameSlots(b, plan.before.binaries);
      }
    }

    /**
     * Commits a prepared graph or undoes it. Whatever fails and wherever the process stops, the
     * receipts end old, new or recoverable, exactly when the schedule does not strand the graph.
     */
    method CommitGraph(plan: Plan) returns (status: Status, ghost blind: bool)
      requires plan.Valid() && Quiet(Now(), plan.before)
      modifies this`tick, this`graph, this`services, this`binaries
      ensures status != Refused
      ensures old(tick) <= tick && (old(Calm()) ==> status == Done)
      ensures status == Crashed <==> StoppedSince(old(tick))
      ensures blind <==> Blind(faults, old(tick), plan.entries)
      ensures Settled(plan, Now()) <==> !Stranded(faults, old(tick), plan)
      ensures !Settled(plan, Now()) ==> graph.None? || UnderWay(plan, Now())
      ensures blind ==>
                var loss := LossFrom(faults, old(tick) + 1, plan.entries).value;
                (graph.None? <==> ClearsFrom(faults, loss.tick, loss.entry, |plan.entries|))
      ensures status == Done ==> Quiet(Now(), plan.After())
    {
      hide Between, WithBinaries, WithServices, LossFrom, plan.Valid, ValidGraphJournal, Pending;
      blind := false;
      RecordIsValid(plan);
      StartPending(plan);
      status := WriteGraphJournal(plan.Record());
      if status != Done {
        return;
      }
      var applied;
      ghost var reached;
      status, applied, reached, blind := ApplyEntries(plan);
      if status == Crashed {
        return;
      }
      if status != Done {
        status := Withdraw(plan, applied, reached, blind);
        return;
      }
      assert plan.entries[..reached] == plan.entries;
      status := FinishGraph(plan);
    }

    /** Rolls a failed graph back and reports the failure, or the crash that cut the rollback short. */
    method Withdraw(plan: Plan, applied: seq<nat>, ghost reached: nat, ghost blind: bool) returns (status: Status)
      requires plan.Valid() && reached < |plan.entries| && AppliedList(plan, reached, applied)
      requires journal.None? && graph == Some(plan.Record())
      requires services == WithServices(plan.before.services, plan.entries[..reached])
            || services == WithServices(plan.before.services, plan.entries[..reached + 1])
      requires binaries == WithBinaries(plan.before.binaries, plan.entries[..if blind then reached + 1 else reached])
      requires blind ==> plan.entries[reached].mutate
      modifies this`tick, this`graph, this`services, this`binaries
      ensures (status == Failed || status == Crashed) && old(tick) <= tick && (old(Calm()) ==> graph.None?)
      ensures status == Crashed <==> StoppedSince(old(tick))
      ensures !blind ==> Settled(plan, Now())
      ensures graph.None? <==> ClearsFrom(faults, old(tick), |applied|, |plan.entries|)
      ensures blind ==>
                (Settled(plan, Now()) <==>
                 graph.Some? && !(UprootsOf(plan, reached) && 0 < |applied| && faults(old(tick)).TakesEffect()))
      ensures graph.None? || UnderWay(plan, Now())
    {
      hide Between, WithBinaries, WithServices, UprootsOf;
      FailedServices(plan, reached);
      var undone := RollbackGraphEntries(plan, applied, reached, blind);
      if blind {
        LostIsNew(plan, reached);
      }
      return if undone == Crashed then Crashed else Failed;
    }

    /** The lost entry is an updated root. */
    ghost predicate UprootsOf(plan: Plan, lost: nat) {
      plan.action == Update && lost + 1 == |plan.entries|
    }

    lemma StartPending(plan: Plan)
      requires plan.Valid()
      ensures Pending(plan, State(None, Some(plan.Record()), plan.before.services, plan.before.binaries))
      ensures WithServices(plan.before.services, plan.entries[..0]) == plan.before.services
      ensures WithBinaries(plan.before.binaries, plan.entries[..0]) == plan.before.binaries
    {
    }

    lemma FailedServices(plan: Plan, reached: nat)
      requires plan.Valid() && reached < |plan.entries|
      ensures Between(WithServices(plan.before.services, plan.entries[..reached]), plan.before.services, plan.After().services)
      ensures Between(WithServices(plan.before.services, plan.entries[..reached + 1]), plan.before.services, plan.After().services)
    {
      PrefixBetween(plan, reached);
      PrefixBetween(plan, reached + 1);
    }

    /** The lost package is new in the one map and old in the other. */
    lemma LostIsNew(plan: Plan, i: nat)
      requires plan.Valid() && i < |plan.entries| && plan.entries[i].mutate
      ensures Slot(plan.before.binaries, plan.entries[i].receipt.package) != Some(plan.entries[i].Binary())
      ensures plan.before.services != plan.After().services
    {
      EntrySlots(plan, i);
      assert plan.EntryFits(i);
      assert Slot(plan.before.services, plan.entries[i].receipt.package) != Some(plan.entries[i].receipt);
    }
  }

  /** A run that ends with the receipts neither old nor new and no journal to recover from. */
  method LoseAnInstall(plan: Plan) returns (service: PackageService)
    requires plan.Valid() && plan.entries[0].mutate
    ensures fresh(service) && !Settled(plan, service.Now()) && service.graph.None?
  {
    service := new PackageService(LoseTheFirst(), plan.before);
    LosingTheFirstStrands(plan);
    var status, blind := service.CommitGraph(plan);
  }

  /** A run that ends with a journal that recovery refuses. */
  method LoseAnUpdatedRoot(plan: Plan) returns (service: PackageService)
    requires plan.Valid() && plan.action == Update && 1 < |plan.entries| && plan.entries[|plan.entries| - 1].mutate
    ensures fresh(service) && !Settled(plan, service.Now()) && service.graph.Some?
  {
    service := new PackageService(LoseTheRoot(|plan.entries|), plan.before);
    LosingTheRootStrands(plan);
    var status, blind := service.CommitGraph(plan);
    var recovery := service.RecoverGraphPending(plan);
    assert recovery != Done;
  }

  /** Exactly the entries `here` are installed over the old ownership. */
  ghost predicate InstalledExactly(plan: Plan, b: map<string, BinaryReceipt>, here: set<nat>) {
    && (forall i :: i in here ==>
          i < |plan.entries| && plan.entries[i].mutate &&
          Slot(b, plan.entries[i].receipt.package) == Some(plan.entries[i].Binary()))
    && forall p :: (forall i :: i in here ==> i < |plan.entries| && plan.entries[i].receipt.package != p) ==>
         Slot(b, p) == Slot(plan.before.binaries, p)
  }
}
