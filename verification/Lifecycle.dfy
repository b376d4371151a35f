/**
 * Install, update, remove and recovery of src/service.rs over the transactional store of receipts.
 * Each operation first recovers what an earlier one left pending.
 */
module Lifecycle {
  import opened Counting
  import opened Dependency
  import opened Faults
  import opened Graphs
  import opened InstallOrder
  import opened Planner
  import opened Results
  import opened Service
  import opened ServiceState
  import opened Transactions

  // ----- recovery -----

  /** Recovery of a single package brings it to its old or its new state and never refuses. */
  method RecoverSinglePending(service: PackageService, ghost one: Single) returns (status: Status)
    requires one.Valid() && SinglePending(one, service.Now())
    modifies service
    ensures SingleSettled(one, service.Now()) && status != Refused
    ensures old(service.tick) <= service.tick && (old(service.Calm()) ==> status == Done)
    ensures status == Done ==> Quiet(service.Now(), one.before) || Quiet(service.Now(), one.after)
  {
    hide Between;
    var f := service.NextFault();
    if !f.NoFault? {
      return f.Status();
    }
    var j := service.journal.value;
    var valid := ValidateJournal(j);
    if !valid {
      assert false;
      return Refused;
    }
    var binary;
    status, binary := service.InstalledReceipt(j.package);
    if status != Done {
      return;
    }
    SlotsOfOne(one, service.Now());
    var receipt: Option<ServiceReceipt> := None;
    if binary.Some? {
      if j.next.Some? && Matches(binary.value, j.next.value) {
        receipt := j.next;
      } else if j.prior.Some? && Matches(binary.value, j.prior.value) {
        receipt := j.prior;
      } else {
        assert false;
        return Refused;
      }
    } else if j.action == Update {
      assert false;
      return Refused;
    }
    status := SettleSingle(service, one, receipt);
  }

  /** Brings the service receipt in line with the ownership and drops the journal. */
  method SettleSingle(service: PackageService, ghost one: Single, receipt: Option<ServiceReceipt>) returns (status: Status)
    requires one.Valid() && SinglePending(one, service.Now())
    requires || (receipt == one.record.prior && service.binaries == one.before.binaries)
             || (receipt == one.record.next && service.binaries == one.after.binaries)
    modifies service
    ensures SingleSettled(one, service.Now()) && status != Refused
    ensures old(service.tick) <= service.tick && (old(service.Calm()) ==> status == Done)
    ensures status == Done ==> Quiet(service.Now(), one.before) || Quiet(service.Now(), one.after)
  {
    hide Between;
    SlotsOfOne(one, service.Now());
    BetweenEnds(one.before.services, one.after.services);
    if receipt.Some? {
      status := service.WriteServiceReceipt(receipt.value);
    } else {
      status := service.RemoveServiceReceipt(service.journal.value.package);
    }
    if status != Done {
      return;
    }
    status := service.ClearJournal();
  }

  lemma BetweenEnds<T(!new)>(a: map<string, T>, b: map<string, T>)
    ensures Between(a, a, b) && Between(b, a, b)
  {
  }

  /** What the two slots of a pending single package can be, and what repairing its receipt gives. */
  lemma SlotsOfOne(one: Single, st: State)
    requires one.Valid() && SinglePending(one, st)
    ensures var p := one.record.package;
            var b := Slot(st.binaries, p);
            && ValidJournal(one.record)
            && (b.Some? && one.record.next.Some? && Matches(b.value, one.record.next.value) ==>
                  st.binaries == one.after.binaries && one.record.next.value.package == p)
            && (b.Some? && !(one.record.next.Some? && Matches(b.value, one.record.next.value)) ==>
                  one.record.prior.Some? && Matches(b.value, one.record.prior.value) &&
                  st.binaries == one.before.binaries && one.record.prior.value.package == p)
            && (b.None? ==> one.record.action != Update)
            && (b.None? && one.record.action == Install ==> st.binaries == one.before.binaries)
            && (b.None? && one.record.action.Remove? ==> st.binaries == one.after.binaries)
    ensures forall r :: one.record.prior == Some(r) ==> st.services[one.record.package := r] == one.before.services
    ensures forall r :: one.record.next == Some(r) ==> st.services[one.record.package := r] == one.after.services
    ensures one.record.prior.None? ==> st.services - {one.record.package} == one.before.services
    ensures one.record.next.None? ==> st.services - {one.record.package} == one.after.services
  {
    var p := one.record.package;
    OneSlotDecides(st.binaries, one.before.binaries, one.after.binaries, p);
    assert Slot(st.binaries, p) == Slot(one.before.binaries, p) || Slot(st.binaries, p) == Slot(one.after.binaries, p);
    RepairsSlot(st.services, one, one.before.services);
    RepairsSlot(st.services, one, one.after.services);
  }

  lemma RepairsSlot(services: map<string, ServiceReceipt>, one: Single, goal: map<string, ServiceReceipt>)
    requires one.Valid() && Between(services, one.before.services, one.after.services)
    requires goal == one.before.services || goal == one.after.services
    ensures one.record.package in goal ==> services[one.record.package := goal[one.record.package]] == goal
    ensures one.record.package !in goal ==> services - {one.record.package} == goal
  {
    var p := one.record.package;
    forall q | q != p ensures Slot(services, q) == Slot(goal, q) {
      assert Slot(services, q) == Slot(one.before.services, q) || Slot(services, q) == Slot(one.after.services, q);
      assert Slot(one.before.services, q) == Slot(one.after.services, q);
    }
    if p in goal {
      SameSlots(services[p := goal[p]], goal);
    } else {
      SameSlots(services - {p}, goal);
    }
  }

  /** Recovers whichever journal is pending. Two journals at once, which it refuses, cannot arise. */
  method RecoverPending(service: PackageService, ghost t: Transaction) returns (status: Status)
    requires t.Valid() && t.Settles(service.Now())
    modifies service
    ensures t.Settles(service.Now()) && status != Refused
    ensures status == Done ==> Quiet(service.Now(), t.Before()) || Quiet(service.Now(), t.After())
    ensures old(service.journal.None? && service.graph.None?) ==> service.Now() == old(service.Now())
    ensures old(service.tick) <= service.tick && (old(service.Calm()) ==> status == Done)
  {
    hide Sound;
    var f := service.NextFault();
    if !f.NoFault? {
      return f.Status();
    }
    if service.journal.Some? && service.graph.Some? {
      assert false;
      return Refused;
    }
    if service.journal.Some? {
      status := RecoverSinglePending(service, t.one);
    } else if service.graph.Some? {
      status := service.RecoverGraphPending(t.plan);
    } else {
      status := Done;
    }
  }

  // ----- removal -----

  /** A package may go exactly when the requirements of all the others stay met. */
  method EnsureRemovalSafe(service: PackageService, package: string) returns (safe: bool)
    ensures safe <==> RequirementClosed(service.services - {package})
  {
    var remaining := service.services - {package};
    var unchecked := remaining.Keys;
    while unchecked != {}
      invariant unchecked <= remaining.Keys
      invariant forall p, k :: p in remaining && p !in unchecked &&
                               0 <= k < |remaining[p].provenance.metadata.requirements| ==>
                  MetBy(remaining, remaining[p].provenance.metadata.requirements[k])
      decreases |unchecked|
    {
      var p :| p in unchecked;
      var requirements := remaining[p].provenance.metadata.requirements;
      for k := 0 to |requirements|
        invariant forall i :: 0 <= i < k ==> MetBy(remaining, requirements[i])
      {
        if !exists q :: q in remaining && Meets(CandidateOf(remaining[q]), requirements[k]) {
          assert !MetBy(remaining, remaining[p].provenance.metadata.requirements[k]);
          return false;
        }
      }
      unchecked := unchecked - {p};
    }
    return true;
  }

  /** From tick `t` both receipts go, or the step that gives up ownership fails in what it reports only. */
  predicate DropCompletes(faults: nat -> Fault, t: nat) {
    && faults(t).NoFault?
    && (if faults(t + 1).NoFault? then faults(t + 2).NoFault?
        else faults(t + 1).FailsAfter? && faults(t + 2).NoFault? && faults(t + 3).NoFault?)
  }

  /** From tick `t` the step that gives up ownership fails without effect, and all is put back. */
  predicate DropIsPutBack(faults: nat -> Fault, t: nat) {
    && faults(t).NoFault? && faults(t + 1).FailsBefore? && faults(t + 2).NoFault? && faults(t + 3).NoFault?
    && faults(t + 4).TakesEffect()
  }

  /** Records the removal, drops both receipts and clears the record; a failed removal is put back. */
  method CommitRemoval(service: PackageService, ghost before: Snapshot, package: string, prior: ServiceReceipt)
    returns (status: Status)
    requires Sound(before) && Slot(before.services, package) == Some(prior) && Quiet(service.Now(), before)
    modifies service
    ensures status != Refused && SingleSettled(Removal(before, package), service.Now())
    ensures status == Done ==> Quiet(service.Now(), Removal(before, package).after)
    ensures var f, t := service.faults, old(service.tick);
            && (status == Done <==> f(t).NoFault? && DropCompletes(f, t + 1))
            && (Quiet(service.Now(), before) <==> !f(t).TakesEffect() || (f(t).NoFault? && DropIsPutBack(f, t + 1)))
    ensures status == Crashed <==> service.StoppedSince(old(service.tick))
    ensures old(service.tick) <= service.tick && (old(service.Calm()) ==> status == Done)
  {
    hide Between, Sound, SinglePending, RequirementClosed, NoConflicts, Corresponds, Single.Valid;
    SoundOwns(before, package);
    RemovalStates(before, package);
    status := service.WriteJournal(Journal(JournalAction.Remove, package, Some(prior), None));
    if status != Done {
      return;
    }
    status := DropReceipts(service, before, package, prior);
  }

  method DropReceipts(service: PackageService, ghost before: Snapshot, package: string, prior: ServiceReceipt)
    returns (status: Status)
    requires Sound(before) && Slot(before.services, package) == Some(prior)
    requires service.Now() == State(Some(Removal(before, package).record), None, before.services, before.binaries)
    modifies service
    ensures status != Refused && SingleSettled(Removal(before, package), service.Now())
    ensures status == Done ==> Quiet(service.Now(), Removal(before, package).after)
    ensures status == Done <==> DropCompletes(service.faults, old(service.tick))
    ensures Quiet(service.Now(), before) <==> DropIsPutBack(service.faults, old(service.tick))
    ensures old(service.tick) < service.tick && (status == Crashed <==> service.StoppedSince(old(service.tick)))
  {
    hide Between, Sound, SinglePending, RequirementClosed, NoConflicts, Corresponds, Single.Valid;
    SoundOwns(before, package);
    RemovalStates(before, package);
    status := service.RemoveServiceReceipt(package);
    if status != Done {
      return;
    }
    status := service.RemoveBinary(package);
    if status == Crashed {
      return;
    }
    if status != Done {
      status := SettleRemoval(service, before, package, prior);
      return;
    }
    status := service.ClearJournal();
  }

  /** After a removal that reported failure the ownership receipt decides: finish it, or put it back. */
  method SettleRemoval(service: PackageService, ghost before: Snapshot, package: string, prior: ServiceReceipt)
    returns (status: Status)
    requires Sound(before) && Slot(before.services, package) == Some(prior)
    requires service.journal == Some(Removal(before, package).record) && service.graph == None
    requires service.services == before.services - {package}
    requires service.binaries == before.binaries || service.binaries == before.binaries - {package}
    modifies service
    ensures status != Refused && SingleSettled(Removal(before, package), service.Now())
    ensures old(service.tick) < service.tick && (status == Crashed <==> service.StoppedSince(old(service.tick)))
    ensures status == Done ==> Quiet(service.Now(), Removal(before, package).after)
    ensures var f, t := service.faults, old(service.tick);
            && (status == Done <==> package !in old(service.binaries) && f(t).NoFault? && f(t + 1).NoFault?)
            && (Quiet(service.Now(), before) <==>
                  package in old(service.binaries) && f(t).NoFault? && f(t + 1).NoFault? && f(t + 2).TakesEffect())
  {
    hide Between, Sound, SinglePending;
    SoundOwns(before, package);
    RemovalStates(before, package);
    var binary;
    status, binary := service.InstalledReceipt(package);
    if status != Done {
      return;
    }
    if binary.Some? {
      if !Matches(binary.value, prior) {
        assert false;
        return Refused;
      }
      status := service.WriteServiceReceipt(prior);
      if status == Done {
        status := service.ClearJournal();
      }
      return if status == Crashed then Crashed else Failed;
    }
    status := service.ClearJournal();
  }

  ghost predicate RemovesOne(t: Transaction, package: string) {
    package in t.Before().services && t == OfOne(Removal(t.Before(), package))
  }

  /**
   * Removes one package. It ends removed, untouched or recoverable, whatever fails; it is done only
   * if what remains is closed, and without faults exactly then.
   */
  method Remove(service: PackageService, package: string, ghost t: Transaction)
    returns (status: Status, ghost next: Transaction)
    requires t.Valid() && t.Settles(service.Now())
    modifies service
    ensures next.Valid() && next.Settles(service.Now()) && status != Refused
    ensures || Stays(t, old(service.Now()), next, service.Now())
            || (RemovesOne(next, package) && Continues(t, old(service.Now()), next))
    ensures status == Done ==>
              && RemovesOne(next, package) && Continues(t, old(service.Now()), next)
              && Quiet(service.Now(), next.After())
    ensures old(service.tick) <= service.tick
    ensures old(service.Calm() && service.journal.None? && service.graph.None?) ==>
              (status == Done <==> package in old(service.services) && RequirementClosed(old(service.services) - {package}))
  {
    hide Between, Sound, RequirementClosed;
    next := t;
    status := RecoverPending(service, t);
    if status != Done {
      return;
    }
    status := CheckRemoval(service, package);
    if status != Done {
      return;
    }
    ghost var before := Snapshot(service.services, service.binaries);
    RemovalIsValid(before, package);
    next := OfOne(Removal(before, package));
    status := CommitRemoval(service, before, package, service.services[package]);
  }

  /** Whether the package may be removed at all: it is installed and the others do not need it. */
  method CheckRemoval(service: PackageService, package: string) returns (status: Status)
    requires Sound(Snapshot(service.services, service.binaries))
    modifies service`tick
    ensures old(service.tick) <= service.tick && status != Refused
    ensures status == Done ==> package in service.services && RequirementClosed(service.services - {package})
    ensures old(service.Calm()) ==>
              (status == Done <==> package in service.services && RequirementClosed(service.services - {package}))
  {
    hide Sound, RequirementClosed;
    var f := service.NextFault();
    if !f.NoFault? {
      return f.Status();
    }
    if package !in service.services {
      return Failed;
    }
    var binary;
    status, binary := service.InstalledReceipt(package);
    if status != Done {
      return;
    }
    SoundOwns(Snapshot(service.services, service.binaries), package);
    if binary.None? || !Matches(binary.value, service.services[package]) {
      assert false;
      return Failed;
    }
    var safe := EnsureRemovalSafe(service, package);
    return if safe then Done else Failed;
  }

  lemma SoundOwns(s: Snapshot, p: string)
    requires Sound(s) && p in s.services
    ensures p in s.binaries && Matches(s.binaries[p], s.services[p]) && s.services[p].package == p
  {
  }

  /** Each intermediate state of a removal is pending. */
  lemma RemovalStates(before: Snapshot, p: string)
    requires Sound(before) && p in before.services
    ensures var one := Removal(before, p);
            var gone := before.services - {p};
            && SinglePending(one, State(Some(one.record), None, before.services, before.binaries))
            && SinglePending(one, State(Some(one.record), None, gone, before.binaries))
            && SinglePending(one, State(Some(one.record), None, gone, before.binaries - {p}))
            && gone[p := before.services[p]] == before.services
  {
  }

  // ----- installing and updating -----

  predicate KeyedByPackage(services: map<string, ServiceReceipt>) {
    forall p :: p in services ==> services[p].package == p
  }

  ghost predicate NotRetained(universe: seq<Prepared>, receipt: ServiceReceipt) {
    forall i :: 0 <= i < |universe| ==> !Retains(universe[i], receipt)
  }

  method FindRetained(universe: seq<Prepared>, receipt: ServiceReceipt) returns (index: Option<nat>)
    ensures index.Some? ==> index.value < |universe| && Retains(universe[index.value], receipt)
    ensures index.None? ==> NotRetained(universe, receipt)
  {
    for i := 0 to |universe|
      invariant forall k :: 0 <= k < i ==> !Retains(universe[k], receipt)
    {
      var offered, wanted := universe[i].receipt.provenance, receipt.provenance;
      if universe[i].receipt.package == receipt.package && universe[i].receipt.version == receipt.version
         && offered.packageSequence == wanted.packageSequence && universe[i].receipt.release == receipt.release
         && offered.provider == wanted.provider && offered.channel == wanted.channel
         && offered.origin.Native? == wanted.origin.Native? && offered.metadata == wanted.metadata {
        return Some(i);
      }
    }
    return None;
  }

  lemma NothingFixed(universe: seq<Prepared>, services: map<string, ServiceReceipt>)
    ensures FixedIsInstalled(universe, services, {}, [])
  {
  }

  lemma FixedForMore(universe: seq<Prepared>, services: map<string, ServiceReceipt>, kept: set<string>, p: string, c: nat)
    requires c < |universe| && FixedFor(universe, services, kept, c)
    ensures FixedFor(universe, services, kept + {p}, c)
  {
    hide Retains;
    var q :| q in kept && q in services && Retains(universe[c], services[q]);
    assert q in kept + {p};
  }

  lemma FixedForOne(universe: seq<Prepared>, services: map<string, ServiceReceipt>, kept: set<string>, p: string, c: nat)
    requires p in kept && p in services && c < |universe| && Retains(universe[c], services[p])
    ensures FixedFor(universe, services, kept, c)
  {
    hide Retains;
  }

  /** Different packages are retained by different candidates. */
  lemma FixedElsewhere(universe: seq<Prepared>, services: map<string, ServiceReceipt>, kept: set<string>, p: string,
                       a: nat, c: nat)
    requires KeyedByPackage(services) && a < |universe| && FixedFor(universe, services, kept, a)
    requires p in services && p !in kept && c < |universe| && Retains(universe[c], services[p])
    ensures a != c
  {
  }

  /** Which candidates are held fixed depends on what is installed only. */
  lemma FixedAlike(universe: seq<Prepared>, services: map<string, ServiceReceipt>, kept: set<string>, f: seq<nat>, g: seq<nat>)
    requires FixedIsInstalled(universe, services, kept, f) && FixedIsInstalled(universe, services, kept, g)
    requires AllApart(Candidates(universe))
    ensures Elements(f) == Elements(g)
  {
    hide FixedFor, Retains;
    forall i | 0 <= i < |f| ensures f[i] in g {
      FixedAmong(universe, services, kept, g, f[i]);
    }
    forall i | 0 <= i < |g| ensures g[i] in f {
      FixedAmong(universe, services, kept, f, g[i]);
    }
  }

  lemma FixedAmong(universe: seq<Prepared>, services: map<string, ServiceReceipt>, kept: set<string>, g: seq<nat>, c: nat)
    requires FixedIsInstalled(universe, services, kept, g) && AllApart(Candidates(universe))
    requires c < |universe| && FixedFor(universe, services, kept, c)
    ensures c in g
  {
    hide Retains, AllApart;
    var p :| p in kept && p in services && Retains(universe[c], services[p]);
    var i :| 0 <= i < |g| && Retains(universe[g[i]], services[p]);
    RetainedOnce(universe, services[p], c, g[i]);
  }

  lemma RetainedOnce(universe: seq<Prepared>, receipt: ServiceReceipt, a: nat, c: nat)
    requires AllApart(Candidates(universe)) && a < |universe| && c < |universe|
    requires Retains(universe[a], receipt) && Retains(universe[c], receipt)
    ensures a == c
  {
    hide AllApart, KeyLess;
    var cands := Candidates(universe);
    KeyLessTotal(cands[a], cands[c]);
    if a != c {
      ApartByKey(cands, a, c);
    }
  }

  lemma FixedExtends(universe: seq<Prepared>, services: map<string, ServiceReceipt>, kept: set<string>, fixed: seq<nat>,
                     p: string, c: nat)
    requires FixedIsInstalled(universe, services, kept, fixed) && p !in kept && KeyedByPackage(services)
    requires p in services && c < |universe| && Retains(universe[c], services[p])
    ensures FixedIsInstalled(universe, services, kept + {p}, fixed + [c])
  {
    hide Retains, FixedFor;
    var more := fixed + [c];
    assert more[|fixed|] == c;
    forall i | 0 <= i < |fixed| ensures fixed[i] != c {
      FixedElsewhere(universe, services, kept, p, fixed[i], c);
    }
    forall i | 0 <= i < |more| ensures more[i] < |universe| && FixedFor(universe, services, kept + {p}, more[i]) {
      if i < |fixed| {
        assert more[i] == fixed[i];
        FixedForMore(universe, services, kept, p, fixed[i]);
      } else {
        FixedForOne(universe, services, kept + {p}, p, c);
      }
    }
    forall q | q in kept ensures exists i :: 0 <= i < |more| && Retains(universe[more[i]], services[q]) {
      var i :| 0 <= i < |fixed| && Retains(universe[fixed[i]], services[q]);
      assert more[i] == fixed[i];
    }
  }

  /** The candidates to hold fixed: every installed package but the one being changed. */
  method FixedCandidates(service: PackageService, universe: seq<Prepared>, root: string) returns (fixed: Option<seq<nat>>)
    requires KeyedByPackage(service.services)
    ensures fixed.Some? ==>
              FixedIsInstalled(universe, service.services, service.services.Keys - {root}, fixed.value)
    ensures fixed.None? ==>
              exists p :: p in service.services && p != root && NotRetained(universe, service.services[p])
  {
    hide Retains, FixedIsInstalled, NotRetained;
    var unseen, found: seq<nat> := service.services.Keys - {root}, [];
    ghost var kept: set<string> := {};
    NothingFixed(universe, service.services);
    while unseen != {}
      invariant kept + unseen == service.services.Keys - {root} && kept !! unseen
      invariant FixedIsInstalled(universe, service.services, kept, found)
      decreases |unseen|
    {
      var p :| p in unseen;
      assert p in kept + unseen;
      var index := FindRetained(universe, service.services[p]);
      if index.None? {
        return None;
      }
      FixedExtends(universe, service.services, kept, found, p, index.value);
      found, unseen, kept := found + [index.value], unseen - {p}, kept + {p};
    }
    assert kept == service.services.Keys - {root};
    return Some(found);
  }

  /**
   * Prepares the candidates that have to be installed, in plan order. An installed dependency is
   * skipped after its ownership is checked.
   */
  method PrepareEntries(service: PackageService, universe: seq<Prepared>, root: string, order: seq<nat>)
    returns (status: Status, entries: seq<PreparedEntry>)
    requires forall i :: 0 <= i < |order| ==> order[i] < |universe|
    requires Sound(Snapshot(service.services, service.binaries))
    modifies service`tick
    ensures old(service.tick) <= service.tick
    ensures old(service.Calm()) && status != Done ==> exists c: nat :: MissesIncoherent(universe, service.services, root, order, c)
    ensures status == Done ==> forall c: nat :: !MissesIncoherent(universe, service.services, root, order, c)
    ensures status != Refused
    ensures status == Done ==>
              var missing := Missing(universe, service.services, root, order);
              && |entries| == |missing|
              && forall k :: 0 <= k < |missing| ==>
                   missing[k] < |universe| && universe[missing[k]].Coherent() &&
                   entries[k] == EntryFor(universe[missing[k]], service.services)
  {
    hide Sound, MustMutate;
    entries := [];
    var i := 0;
    ghost var services, binaries := service.services, service.binaries;
    while i < |order|
      modifies service`tick
      invariant old(service.tick) <= service.tick
      invariant 0 <= i <= |order| && service.services == services && service.binaries == binaries
      invariant var missing := Missing(universe, services, root, order[..i]);
                && |entries| == |missing|
                && forall k :: 0 <= k < |missing| ==>
                     missing[k] < |universe| && universe[missing[k]].Coherent() &&
                     entries[k] == EntryFor(universe[missing[k]], services)
      invariant forall k :: 0 <= k < i ==> !MissesIncoherent(universe, services, root, order, order[k])
    {
      var candidate := universe[order[i]];
      assert order[..i + 1][..i] == order[..i];
      var package := candidate.receipt.package;
      if package != root && package in service.services {
        var binary;
        status, binary := service.InstalledReceipt(package);
        if status != Done {
          return;
        }
        SoundOwns(Snapshot(services, binaries), package);
        if binary.None? || !Matches(binary.value, service.services[package]) {
          assert false;
          return Failed, entries;
        }
      } else {
        var f := service.NextFault();
        if !f.NoFault? {
          return f.Status(), entries;
        }
        if candidate.payload.package != candidate.receipt.package || candidate.payload.version != candidate.receipt.version
           || candidate.payload.release != candidate.receipt.release {
          MissingHere(universe, services, root, order, order[i]);
          return Failed, entries;
        }
        entries := entries + [EntryFor(candidate, service.services)];
      }
      i := i + 1;
    }
    assert order[..i] == order;
    status := Done;
  }

  lemma MissingHere(universe: seq<Prepared>, services: map<string, ServiceReceipt>, root: string, order: seq<nat>, c: nat)
    requires MissesIncoherent(universe, services, root, order, c)
    ensures exists k: nat :: MissesIncoherent(universe, services, root, order, k)
  {
  }

  /**
   * The candidate is the record the installed package came from: the authority that signs for it may be
   * another, and a package from source may have come out of its build differently.
   */
  ghost predicate SameRecord(installed: ServiceReceipt, candidate: ServiceReceipt) {
    var a, b := installed.provenance, candidate.provenance;
    && (candidate.package, candidate.version, candidate.release) == (installed.package, installed.version, installed.release)
    && (b.packageSequence, b.metadata) == (a.packageSequence, a.metadata)
    && b.origin.(authority := a.origin.authority) == a.origin
    && (b.origin.Native? ==> candidate.artifact == installed.artifact)
  }

  /** The comparison field by field. */
  method CandidateRecordMatches(candidate: ServiceReceipt, receipt: ServiceReceipt) returns (same: bool)
    ensures same <==> SameRecord(receipt, candidate)
  {
    var theirs, ours := candidate.provenance, receipt.provenance;
    if candidate.package != receipt.package || candidate.version != receipt.version || candidate.release != receipt.release
       || theirs.packageSequence != ours.packageSequence || theirs.metadata != ours.metadata {
      return false;
    }
    if theirs.origin.Native? && ours.origin.Native? {
      return candidate.artifact == receipt.artifact && theirs.origin.metadataDigest == ours.origin.metadataDigest
             && theirs.origin.sourceLock == ours.origin.sourceLock;
    }
    if theirs.origin.Source? && ours.origin.Source? {
      return theirs.origin.ecosystem == ours.origin.ecosystem && theirs.origin.ingressLock == ours.origin.ingressLock
             && theirs.origin.targetPolicy == ours.origin.targetPolicy && theirs.origin.recipe == ours.origin.recipe
             && theirs.origin.sourceLock == ours.origin.sourceLock;
    }
    return false;
  }

  /** Updates keep provider, channel and route; no signed counter goes back, and what it counts changes only with it. */
  ghost predicate MeetsFloor(installed: ServiceReceipt, candidate: ServiceReceipt) {
    var a, b := installed.provenance, candidate.provenance;
    && b.provider == a.provider && b.channel == a.channel && b.origin.Native? == a.origin.Native?
    && b.serviceGeneration >= a.serviceGeneration && b.providerGeneration >= a.providerGeneration
    && b.packageSequence >= a.packageSequence
    && (b.serviceGeneration == a.serviceGeneration ==> b.serviceConfig == a.serviceConfig)
    && (b.packageSequence == a.packageSequence ==> SameRecord(installed, candidate))
    && (b.providerGeneration == a.providerGeneration ==> b.origin.authority == a.origin.authority)
  }

  /** The checks of an update, in turn. */
  method EnforceUpdateFloor(installed: ServiceReceipt, candidate: ServiceReceipt) returns (ok: bool)
    ensures ok <==> MeetsFloor(installed, candidate)
  {
    var was, now := installed.provenance, candidate.provenance;
    if now.provider != was.provider || now.channel != was.channel || now.origin.Native? != was.origin.Native? {
      return false;
    }
    if now.serviceGeneration < was.serviceGeneration || now.providerGeneration < was.providerGeneration
       || now.packageSequence < was.packageSequence {
      return false;
    }
    if now.serviceGeneration == was.serviceGeneration && was.serviceConfig != now.serviceConfig {
      return false;
    }
    if now.packageSequence == was.packageSequence {
      var same := CandidateRecordMatches(candidate, installed);
      if !same {
        return false;
      }
    }
    if now.providerGeneration == was.providerGeneration && now.origin.authority != was.origin.authority {
      return false;
    }
    return true;
  }

  /** None of the counters of `later` is behind those of `sooner`. */
  predicate NotBehind(sooner: ServiceReceipt, later: ServiceReceipt) {
    && sooner.provenance.packageSequence <= later.provenance.packageSequence
    && sooner.provenance.providerGeneration <= later.provenance.providerGeneration
    && sooner.provenance.serviceGeneration <= later.provenance.serviceGeneration
    && sooner.provenance.provider == later.provenance.provider && sooner.provenance.channel == later.provenance.channel
  }

  /** With its counters raised nothing but the plan can stand against the update of an installed package. */
  lemma RaisedIsOnlyTurnedDownForThePlan(universe: seq<Prepared>, services: map<string, ServiceReceipt>)
    requires 0 < |universe| && universe[0].receipt.package in services
    requires var was, now := services[universe[0].receipt.package], universe[0].receipt;
             && NotBehind(was, now) && was.provenance.origin.Native? == now.provenance.origin.Native?
             && was.provenance.packageSequence < now.provenance.packageSequence
             && was.provenance.providerGeneration < now.provenance.providerGeneration
             && was.provenance.serviceGeneration < now.provenance.serviceGeneration
    ensures TurnedDown(universe, services, true) <==> CannotPlan(universe, services) || Incoherent(universe, services)
  {
    hide CannotPlan, Incoherent;
  }

  /** With its counters as they were an update is the very record that is installed. */
  lemma UnraisedIsTheSameRecord(installed: ServiceReceipt, candidate: ServiceReceipt)
    requires MeetsFloor(installed, candidate)
    ensures NotBehind(installed, candidate)
    ensures candidate.provenance.provider == installed.provenance.provider
    ensures candidate.provenance.channel == installed.provenance.channel
    ensures candidate.provenance.packageSequence >= installed.provenance.packageSequence
    ensures candidate.provenance.providerGeneration >= installed.provenance.providerGeneration
    ensures candidate.provenance.serviceGeneration >= installed.provenance.serviceGeneration
    ensures candidate.provenance.packageSequence == installed.provenance.packageSequence ==>
              && candidate.version == installed.version && candidate.release == installed.release
              && candidate.provenance.metadata == installed.provenance.metadata
              && candidate.provenance.origin.sourceLock == installed.provenance.origin.sourceLock
              && (candidate.provenance.origin.Native? ==> candidate.artifact == installed.artifact)
  {
  }

  /** `fixed` stands for what is installed, and `order` is the least selection that keeps it. */
  ghost predicate PlansLeast(universe: seq<Prepared>, before: map<string, ServiceReceipt>, fixed: seq<nat>,
                             order: seq<nat>) {
    && 0 < |universe|
    && FixedIsInstalled(universe, before, before.Keys - {universe[0].receipt.package}, fixed)
    && LeastSelection(Candidates(universe), 0, fixed, Elements(order))
  }

  /** What was installed before, but for the root, keeps both its receipts. */
  ghost predicate KeepsOthers(before: Snapshot, after: Snapshot, root: string) {
    forall p :: p in before.services && p != root ==>
      Slot(after.services, p) == Slot(before.services, p) && Slot(after.binaries, p) == Slot(before.binaries, p)
  }

  /** Afterwards exactly the least selection is installed, and what was installed before is kept. */
  ghost predicate InstalledLeast(universe: seq<Prepared>, before: Snapshot, after: Snapshot, fixed: seq<nat>, order: seq<nat>) {
    && PlansLeast(universe, before.services, fixed, order)
    && Realizes(after.services, Candidates(universe), Elements(order))
    && Slot(after.services, universe[0].receipt.package) == Some(universe[0].receipt)
    && KeepsOthers(before, after, universe[0].receipt.package)
  }


  /** Either an installed package is no longer offered, or nothing can be planned around what is installed. */
  ghost predicate CannotPlan(universe: seq<Prepared>, services: map<string, ServiceReceipt>)
    requires 0 < |universe|
  {
    || (exists p :: p in services && p != universe[0].receipt.package && NotRetained(universe, services[p]))
    || (exists fixed :: FixedIsInstalled(universe, services, services.Keys - {universe[0].receipt.package}, fixed) &&
                        Unplannable(Candidates(universe), 0, fixed))
  }

  /** Something that has to be installed is not the payload it says it is. */
  ghost predicate Incoherent(universe: seq<Prepared>, services: map<string, ServiceReceipt>)
    requires 0 < |universe|
  {
    exists fixed, order, c: nat :: PlansLeast(universe, services, fixed, order) &&
      MissesIncoherent(universe, services, universe[0].receipt.package, order, c)
  }

  ghost predicate MissesIncoherent(universe: seq<Prepared>, services: map<string, ServiceReceipt>, root: string,
                                   order: seq<nat>, c: nat) {
    c in order && c < |universe| && !Skips(universe[c], services, root) && !universe[c].Coherent()
  }

  /** Why an install or update is turned down. */
  ghost predicate TurnedDown(universe: seq<Prepared>, services: map<string, ServiceReceipt>, update: bool)
    requires 0 < |universe|
  {
    var root := universe[0].receipt;
    || update != (root.package in services)
    || (update && root.package in services && !MeetsFloor(services[root.package], root))
    || CannotPlan(universe, services)
    || Incoherent(universe, services)
  }

  /** Chooses what to install, dependencies first. */
  method ResolvePlan(service: PackageService, universe: seq<Prepared>)
    returns (status: Status, order: seq<nat>, ghost fixed: seq<nat>)
    requires 0 < |universe| && KeyedByPackage(service.services)
    modifies service`tick
    ensures old(service.tick) <= service.tick
    ensures old(service.Calm()) && status != Done ==> CannotPlan(universe, service.services)
    ensures status == Done ==> !CannotPlan(universe, service.services) && AllApart(Candidates(universe))
    ensures status != Refused
    ensures forall i :: 0 <= i < |order| ==> order[i] < |universe|
    ensures status == Done ==> PlansLeast(universe, service.services, fixed, order) && Distinct(order) && |order| <= MAX_ENTRIES
  {
    hide LeastSelection, FixedIsInstalled, Acyclic, ChosenGraph, SortedByKey, ValidSelection, CyclicSelection, Fits, ValidCandidates;
    order, fixed := [], [];
    var f := service.NextFault();
    if !f.NoFault? {
      return f.Status(), order, fixed;
    }
    var found := FixedCandidates(service, universe, universe[0].receipt.package);
    if found.None? {
      return Failed, order, fixed;
    }
    fixed := found.value;
    var plan := SolveDependencyGraph(Candidates(universe), 0, found.value);
    if plan.Err? {
      ErrorsMean(Candidates(universe), 0, fixed, plan.error);
      return Failed, order, fixed;
    }
    order := plan.value.order;
    PlannedCanBe(universe, service.services, fixed);
    PlanOrder(Candidates(universe), 0, fixed, plan.value);
    status := Done;
  }

  /** What can be planned around one list of the installed packages can be planned around any. */
  lemma PlannedCanBe(universe: seq<Prepared>, services: map<string, ServiceReceipt>, fixed: seq<nat>)
    requires 0 < |universe| && !Unplannable(Candidates(universe), 0, fixed)
    requires FixedIsInstalled(universe, services, services.Keys - {universe[0].receipt.package}, fixed)
    ensures !CannotPlan(universe, services) && AllApart(Candidates(universe))
  {
    hide LeastSelection, ValidSelection, CyclicSelection, Fits, Retains, FixedFor;
    var kept := services.Keys - {universe[0].receipt.package};
    assert AllApart(Candidates(universe));
    hide Unplannable, AllApart;
    forall g | FixedIsInstalled(universe, services, kept, g) ensures !Unplannable(Candidates(universe), 0, g) {
      FixedAlike(universe, services, kept, fixed, g);
      PlansAlike(Candidates(universe), 0, fixed, g);
    }
  }

  /** There is only one least selection to go by. */
  lemma PlannedOnce(universe: seq<Prepared>, services: map<string, ServiceReceipt>, f: seq<nat>, order: seq<nat>,
                    g: seq<nat>, other: seq<nat>)
    requires PlansLeast(universe, services, f, order) && PlansLeast(universe, services, g, other)
    requires AllApart(Candidates(universe))
    ensures Elements(order) == Elements(other)
  {
    hide LeastSelection, FixedIsInstalled, AllApart;
    FixedAlike(universe, services, services.Keys - {universe[0].receipt.package}, f, g);
    FixedDistinct(universe, services, services.Keys - {universe[0].receipt.package}, f);
    FixedDistinct(universe, services, services.Keys - {universe[0].receipt.package}, g);
    PlansAlike(Candidates(universe), 0, f, g);
    LeastUnique(Candidates(universe), 0, f, Elements(order), Elements(other));
  }

  lemma FixedDistinct(universe: seq<Prepared>, services: map<string, ServiceReceipt>, kept: set<string>, f: seq<nat>)
    requires FixedIsInstalled(universe, services, kept, f)
    ensures Distinct(f)
  {
  }

  lemma PreparedIsCoherent(universe: seq<Prepared>, services: map<string, ServiceReceipt>, fixed: seq<nat>, order: seq<nat>)
    requires 0 < |universe| && PlansLeast(universe, services, fixed, order) && AllApart(Candidates(universe))
    requires forall c: nat :: !MissesIncoherent(universe, services, universe[0].receipt.package, order, c)
    ensures !Incoherent(universe, services)
  {
    hide PlansLeast, AllApart, Skips;
    var root := universe[0].receipt.package;
    forall g, other, c: nat | PlansLeast(universe, services, g, other)
      ensures !MissesIncoherent(universe, services, root, other, c)
    {
      PlannedOnce(universe, services, fixed, order, g, other);
      assert c in other ==> c in Elements(order);
      assert !MissesIncoherent(universe, services, root, order, c);
    }
  }

  lemma ErrorsMean(cands: seq<ResolutionCandidate>, required: nat, fixed: seq<nat>, error: DependencyError)
    requires error == Invalid || error == Capacity ==> !(Admissible(cands, required, fixed) && Fits(cands, required, fixed))
    requires error == DependencyError.Unsatisfiable ==> forall s :: !ValidSelection(cands, required, fixed, s)
    requires error.Cycle? ==> CyclicSelection(cands, required, fixed, error.names)
    ensures Unplannable(cands, required, fixed)
  {
    hide Admissible, Fits, ValidSelection, CyclicSelection;
    match error {
      case Invalid =>
      case Capacity =>
      case Unsatisfiable =>
      case Cycle(names) =>
    }
  }

  /** The order of a plan holds the selected candidates, once each. */
  lemma PlanOrder(cands: seq<ResolutionCandidate>, required: nat, fixed: seq<nat>, plan: DependencyPlan)
    requires GoodPlan(cands, required, fixed, plan) && |cands| <= MAX_ENTRIES
    ensures Elements(plan.order) == Elements(plan.selected) && Distinct(plan.order) && |plan.order| <= MAX_ENTRIES
    ensures forall i :: 0 <= i < |plan.order| ==> plan.order[i] < |cands|
  {
    hide LeastSelection, Acyclic, ChosenGraph, SortedByKey;
    SameElements(plan.selected, plan.order);
    assert Elements(plan.order) == Elements(plan.selected);
    DistinctFits(plan.order, Below(|cands|));
    BelowSize(|cands|);
  }

  method RootPosition(entries: seq<PreparedEntry>, root: string) returns (at: Option<nat>)
    ensures at.Some? ==> at.value < |entries| && entries[at.value].receipt.package == root
    ensures at.None? ==> forall i :: 0 <= i < |entries| ==> entries[i].receipt.package != root
  {
    for i := 0 to |entries|
      invariant forall k :: 0 <= k < i ==> entries[k].receipt.package != root
    {
      if entries[i].receipt.package == root {
        return Some(i);
      }
    }
    return None;
  }

  /** Plans and prepares the graph transaction for the first package of the universe. */
  method PlanGraph(service: PackageService, universe: seq<Prepared>, action: JournalAction)
    returns (status: Status, plan: Plan, ghost fixed: seq<nat>, ghost order: seq<nat>)
    requires 0 < |universe| && Sound(Snapshot(service.services, service.binaries))
    requires action == Install || action == Update
    requires action == Update <==> universe[0].receipt.package in service.services
    modifies service`tick
    ensures old(service.tick) <= service.tick
    ensures old(service.Calm()) && status != Done ==>
              CannotPlan(universe, service.services) || Incoherent(universe, service.services)
    ensures status == Done ==>
              !CannotPlan(universe, service.services) && !Incoherent(universe, service.services)
    ensures status != Refused
    ensures status == Done ==>
              && plan.before == Snapshot(service.services, service.binaries) && plan.action == action
              && OfGraph(plan).Valid()
              && InstalledLeast(universe, plan.before, plan.After(), fixed, order)
              && plan.root == universe[0].receipt.package
  {
    hide Sound, Realizes, Plan.Valid, InstalledLeast, PlansLeast, MustMutate, Planned, CannotPlan, Incoherent, MissesIncoherent;
    SoundIsKeyed(Snapshot(service.services, service.binaries));
    var root := universe[0].receipt.package;
    ghost var before := Snapshot(service.services, service.binaries);
    plan := Plan(action, root, [], Snapshot(service.services, service.binaries));
    var steps;
    status, steps, fixed := ResolvePlan(service, universe);
    order := steps;
    if status != Done {
      return;
    }
    PlansAreSound(universe, before, action, fixed, order);
    var entries;
    status, entries := PrepareEntries(service, universe, root, steps);
    if status != Done {
      MissingIsIncoherent(universe, service.services, fixed, order);
      return;
    }
    PreparedIsCoherent(universe, service.services, fixed, order);
    RootIsMissing(universe, fixed, before, action, order);
    var at := RootPosition(entries, root);
    if at.None? {
      assert false;
      return Failed, plan, fixed, order;
    }
    PlanStands(universe, fixed, before, action, order, at.value, entries);
    entries := entries[..at.value] + entries[at.value + 1..] + [entries[at.value]];
    plan := Plan(action, root, entries, Snapshot(service.services, service.binaries));
  }

  /** With the root moved last the prepared entries are a sound transaction to the least selection. */
  lemma PlanStands(universe: seq<Prepared>, fixed: seq<nat>, before: Snapshot, action: JournalAction, order: seq<nat>,
                   at: nat, prepared: seq<PreparedEntry>)
    requires Planned(universe, 0, fixed, before, action, order) && PlansLeast(universe, before.services, fixed, order)
    requires forall i :: 0 <= i < |order| ==> order[i] < |universe|
    requires at < |prepared| && prepared[at].receipt.package == universe[0].receipt.package
    requires var missing := Missing(universe, before.services, universe[0].receipt.package, order);
             && |prepared| == |missing|
             && forall k :: 0 <= k < |missing| ==>
                  missing[k] < |universe| && universe[missing[k]].Coherent() &&
                  prepared[k] == EntryFor(universe[missing[k]], before.services)
    ensures var entries := prepared[..at] + prepared[at + 1..] + [prepared[at]];
            var plan := Plan(action, universe[0].receipt.package, entries, before);
            OfGraph(plan).Valid() && InstalledLeast(universe, before, plan.After(), fixed, order)
  {
    hide Planned, PlansLeast, InstalledLeast, Transaction.Valid, MustMutate;
    var entries := prepared[..at] + prepared[at + 1..] + [prepared[at]];
    assert EntriesFor(universe, before.services, universe[0].receipt.package, order, at, entries);
    PlanIsSound(universe, 0, fixed, before, action, order, at, entries);
    PlanInstalls(universe, fixed, before, action, order, at, entries);
  }

  lemma SoundIsKeyed(s: Snapshot)
    requires Sound(s)
    ensures KeyedByPackage(s.services)
  {
  }

  lemma MissingIsIncoherent(universe: seq<Prepared>, services: map<string, ServiceReceipt>, fixed: seq<nat>, order: seq<nat>)
    requires PlansLeast(universe, services, fixed, order)
    ensures (exists c: nat :: MissesIncoherent(universe, services, universe[0].receipt.package, order, c)) ==>
              Incoherent(universe, services)
  {
  }

  lemma PlansAreSound(universe: seq<Prepared>, before: Snapshot, action: JournalAction, fixed: seq<nat>, order: seq<nat>)
    requires PlansLeast(universe, before.services, fixed, order) && Distinct(order) && |order| <= MAX_ENTRIES
    requires Sound(before) && (action == Install || action == Update)
    requires action == Update <==> universe[0].receipt.package in before.services
    ensures Planned(universe, 0, fixed, before, action, order)
  {
  }

  /** The root itself always has an entry. */
  lemma RootIsMissing(universe: seq<Prepared>, fixed: seq<nat>, before: Snapshot, action: JournalAction, order: seq<nat>)
    requires Planned(universe, 0, fixed, before, action, order)
    requires forall i :: 0 <= i < |order| ==> order[i] < |universe|
    ensures var m := Missing(universe, before.services, universe[0].receipt.package, order);
            exists k :: 0 <= k < |m| && m[k] == 0
  {
    MissingHolds(universe, before.services, universe[0].receipt.package, order);
    assert 0 in Elements(order);
  }

  lemma PlanInstalls(universe: seq<Prepared>, fixed: seq<nat>, before: Snapshot, action: JournalAction, order: seq<nat>,
                     at: nat, entries: seq<PreparedEntry>)
    requires Planned(universe, 0, fixed, before, action, order) && PlansLeast(universe, before.services, fixed, order)
    requires forall i :: 0 <= i < |order| ==> order[i] < |universe|
    requires EntriesFor(universe, before.services, universe[0].receipt.package, order, at, entries)
    ensures InstalledLeast(universe, before, Plan(action, universe[0].receipt.package, entries, before).After(), fixed, order)
  {
    hide ValidSelection, LeastSelection, RequirementClosed, NoConflicts, Realizes, MustMutate;
    var root := universe[0].receipt.package;
    PlanRealizesSelection(universe, 0, fixed, before, action, order, at, entries);
    var picks := PicksAre(universe, 0, fixed, before, action, order, at, entries);
    ServicesAt(before.services, entries, |entries| - 1);
    PicksRootLast(universe, fixed, before, action, order, at, entries);
    forall p | p in before.services && p != root
      ensures Slot(WithServices(before.services, entries), p) == Slot(before.services, p)
      ensures Slot(WithBinaries(before.binaries, entries), p) == Slot(before.binaries, p)
    {
      forall i | 0 <= i < |entries| ensures entries[i].receipt.package != p {
        assert picks[i] in picks;
      }
      ServicesElsewhere(before.services, entries, p);
      BinariesElsewhere(before.binaries, entries, p);
    }
  }

  lemma PicksRootLast(universe: seq<Prepared>, fixed: seq<nat>, before: Snapshot, action: JournalAction, order: seq<nat>,
                      at: nat, entries: seq<PreparedEntry>)
    requires Planned(universe, 0, fixed, before, action, order)
    requires forall i :: 0 <= i < |order| ==> order[i] < |universe|
    requires EntriesFor(universe, before.services, universe[0].receipt.package, order, at, entries)
    ensures entries[|entries| - 1].receipt == universe[0].receipt
  {
    hide RequirementClosed, NoConflicts, MustMutate;
    var picks := PicksAre(universe, 0, fixed, before, action, order, at, entries);
    var cands := Candidates(universe);
    var last := picks[|picks| - 1];
    assert last in Elements(order) && 0 in Elements(order);
    assert cands[last].package == cands[0].package;
  }

  /** Nothing to write when every entry is installed as it is. */
  lemma UnchangedPlan(plan: Plan)
    requires plan.Valid() && forall i :: 0 <= i < |plan.entries| ==> plan.entries[i].prior == Some(plan.entries[i].receipt)
    ensures plan.After() == plan.before
  {
    forall p ensures Slot(plan.After().services, p) == Slot(plan.before.services, p)
             ensures Slot(plan.After().binaries, p) == Slot(plan.before.binaries, p)
    {
      if i :| 0 <= i < |plan.entries| && plan.entries[i].receipt.package == p {
        EntrySlots(plan, i);
        assert plan.EntryFits(i);
      } else {
        SlotsElsewhere(plan, p);
      }
    }
    SameSlots(plan.After().services, plan.before.services);
    SameSlots(plan.After().binaries, plan.before.binaries);
  }

  /** The transaction installs or updates the first package of `universe`. */
  ghost predicate Changes(t: Transaction, universe: seq<Prepared>, update: bool) {
    && 0 < |universe| && t.OfGraph?
    && t.plan.action == (if update then Update else Install) && t.plan.root == universe[0].receipt.package
    && (update <==> t.plan.root in t.Before().services)
    && (update ==> MeetsFloor(t.Before().services[t.plan.root], universe[0].receipt))
    && exists fixed, order :: InstalledLeast(universe, t.Before(), t.After(), fixed, order)
  }

  /** The new transaction starts from the receipts the old one left: those on disk if no journal is pending. */
  ghost predicate Continues(t: Transaction, st: State, next: Transaction) {
    && (next.Before() == t.Before() || next.Before() == t.After())
    && (st.journal.None? && st.graph.None? ==> next.Before() == Snapshot(st.services, st.binaries))
  }

  /** Nothing new was begun: with no journal pending, nothing happened. */
  ghost predicate Stays(t: Transaction, st: State, next: Transaction, now: State) {
    next == t && (st.journal.None? && st.graph.None? ==> now == st)
  }

  /**
   * Installs or updates the first package of `universe`, starting from the receipts there are. Done
   * leaves exactly the least selection installed; otherwise the receipts end as they were or
   * recoverable, unless the graph was stranded.
   */
  method InstallOrUpdate(service: PackageService, universe: seq<Prepared>, update: bool, ghost t: Transaction)
    returns (status: Status, ghost stranded: bool, ghost next: Transaction)
    requires 0 < |universe| && t.Valid() && t.Settles(service.Now())
    modifies service
    ensures old(service.tick) <= service.tick
    ensures old(service.Calm() && service.journal.None? && service.graph.None?) ==>
              (status == Done <==> !TurnedDown(universe, old(service.services), update))
    ensures status != Refused && next.Valid() && (next.Settles(service.Now()) <==> !stranded)
    ensures stranded ==> status != Done && next.OfGraph? && exists k: nat :: Stranded(service.faults, k, next.plan)
    ensures || Stays(t, old(service.Now()), next, service.Now())
            || (Changes(next, universe, update) && Continues(t, old(service.Now()), next))
    ensures status == Done ==>
              && Changes(next, universe, update) && Continues(t, old(service.Now()), next)
              && Quiet(service.Now(), next.After())
  {
    hide Sound, Between, Pending, InstalledLeast, Plan.Valid, MustMutate, Stranded, CannotPlan, Incoherent;
    stranded, next := false, t;
    status := RecoverPending(service, t);
    if status != Done {
      return;
    }
    var ready := CheckRoot(service, universe[0].receipt, update);
    if ready != Done {
      return ready, stranded, next;
    }
    var plan;
    ghost var fixed, order;
    status, plan, fixed, order := PlanGraph(service, universe, if update then Update else Install);
    if status != Done {
      return;
    }
    next := OfGraph(plan);
    assert InstalledLeast(universe, next.Before(), next.After(), fixed, order);
    status, stranded := CommitPlan(service, plan);
  }

  /** Commits a planned graph, unless every receipt is there already. */
  method CommitPlan(service: PackageService, plan: Plan) returns (status: Status, ghost stranded: bool)
    requires plan.Valid() && Quiet(service.Now(), plan.before)
    modifies service
    ensures old(service.tick) <= service.tick && (old(service.Calm()) ==> status == Done)
    ensures status != Refused && (Settled(plan, service.Now()) <==> !stranded)
    ensures stranded ==> status != Done && exists k: nat :: Stranded(service.faults, k, plan)
    ensures status == Done ==> Quiet(service.Now(), plan.After())
  {
    hide Pending, Plan.Valid, Stranded;
    if forall i :: 0 <= i < |plan.entries| ==> plan.entries[i].prior == Some(plan.entries[i].receipt) {
      UnchangedPlan(plan);
      return Done, false;
    }
    ghost var at := service.tick;
    ghost var blind;
    status, blind := service.CommitGraph(plan);
    stranded := Stranded(service.faults, at, plan);
  }

  /** Whether the root may be installed or updated at all. */
  method CheckRoot(service: PackageService, root: ServiceReceipt, update: bool) returns (status: Status)
    requires Sound(Snapshot(service.services, service.binaries))
    modifies service`tick
    ensures old(service.tick) <= service.tick
    ensures old(service.Calm()) && status != Done ==>
              update != (root.package in service.services) ||
              (update && !MeetsFloor(service.services[root.package], root))
    ensures status != Refused
    ensures status == Done ==> (update <==> root.package in service.services)
    ensures status == Done && update ==> MeetsFloor(service.services[root.package], root)
  {
    hide RequirementClosed, NoConflicts;
    var f := service.NextFault();
    if !f.NoFault? {
      return f.Status();
    }
    if update != (root.package in service.services) {
      return Failed;
    }
    var binary;
    status, binary := service.InstalledReceipt(root.package);
    if status != Done {
      return;
    }
    if binary.Some? != update || (update && !Matches(binary.value, service.services[root.package])) {
      assert false;
      return Failed;
    }
    if update {
      var current := EnforceUpdateFloor(service.services[root.package], root);
      if !current {
        return Failed;
      }
    }
  }

  // ----- whole runs -----

  datatype Request = Change(root: Prepared, others: seq<Prepared>, update: bool) | Drop(package: string) | Retry

  /** The transaction is one that the request asks for. */
  ghost predicate Answers(t: Transaction, request: Request) {
    match request
    case Change(root, others, update) => Changes(t, [root] + others, update)
    case Drop(package) => RemovesOne(t, package)
    case Retry => false
  }

  /** A request carries on from the transaction before it, or leaves it at that. */
  ghost predicate Step(t: Transaction, st: State, request: Request, answer: Status, next: Transaction, now: State) {
    && (Stays(t, st, next, now) || (Answers(next, request) && Continues(t, st, next)))
    && (answer == Done && !request.Retry? ==>
          Answers(next, request) && Continues(t, st, next) && Quiet(now, next.After()))
    && (answer == Done && request.Retry? ==> Quiet(now, next.Before()) || Quiet(now, next.After()))
  }

  /** What a run went through: after each request the transaction its receipts belong to, and what was on disk. */
  datatype Moment = Moment(t: Transaction, st: State)

  ghost predicate History(start: Snapshot, requests: seq<Request>, answers: seq<Status>, past: seq<Moment>) {
    && |past| == |requests| + 1 == |answers| + 1
    && past[0] == Moment(AtRest(start), State(None, None, start.services, start.binaries))
    && (forall i :: 0 <= i < |past| ==> past[i].t.Valid() && past[i].t.Settles(past[i].st))
    && forall i :: 0 <= i < |requests| ==>
         Step(past[i].t, past[i].st, requests[i], answers[i], past[i + 1].t, past[i + 1].st)
  }

  /** No graph meets a schedule that strands it. */
  ghost predicate Sighted(faults: nat -> Fault) {
    forall k: nat, plan :: !Stranded(faults, k, plan)
  }

  /** It is enough that a read right after a failed write that took effect does not fail as well. */
  lemma SightedWhenReadable(faults: nat -> Fault)
    requires forall k: nat :: faults(k).FailsAfter? ==> faults(k + 1).Status() != Failed
    ensures Sighted(faults)
  {
    forall k: nat, plan: Plan ensures !Stranded(faults, k, plan) {
      NothingIsLostFrom(faults, k + 1, plan.entries);
    }
  }

  lemma {:induction false} NothingIsLostFrom(faults: nat -> Fault, t: nat, entries: seq<PreparedEntry>)
    requires forall k: nat :: faults(k).FailsAfter? ==> faults(k + 1).Status() != Failed
    ensures LossFrom(faults, t, entries) == None
    decreases |entries|
  {
    if entries == [] {
    } else {
      NothingIsLostFrom(faults, t + 1, entries[1..]);
      NothingIsLostFrom(faults, t + 2, entries[1..]);
      NothingIsLostFrom(faults, t + 3, entries[1..]);
      assert faults(t + 1).FailsAfter? ==> faults(t + 1 + 1).Status() != Failed;
    }
  }

  /** Answers one request. */
  method Answer(service: PackageService, request: Request, ghost t: Transaction)
    returns (answer: Status, ghost next: Transaction)
    requires t.Valid() && t.Settles(service.Now()) && Sighted(service.faults)
    modifies service
    ensures old(service.tick) <= service.tick && answer != Refused
    ensures next.Valid() && next.Settles(service.Now())
    ensures Step(t, old(service.Now()), request, answer, next, service.Now())
  {
    hide Sound, Between, Pending, SinglePending, Stranded, Plan.Valid, Single.Valid, Corresponds, Changes, RemovesOne,
      TurnedDown, RequirementClosed;
    match request {
      case Change(root, others, update) =>
        ghost var stranded;
        answer, stranded, next := InstallOrUpdate(service, [root] + others, update, t);
      case Drop(package) =>
        answer, next := Remove(service, package, t);
      case Retry =>
        next := t;
        answer := RecoverPending(service, t);
    }
  }

  /**
   * Any run of requests, each met by whatever faults the environment has ready. Every request starts
   * from the receipts the one before it left, old or new, and makes the change it was asked for or
   * none; a last recovery that completes leaves the old or the new receipts of the last change, with
   * no journal. Any number of interrupted recoveries may come in between.
   */
  method Run(service: PackageService, requests: seq<Request>, ghost start: Snapshot)
    returns (status: Status, answers: seq<Status>, ghost past: seq<Moment>)
    requires Sound(start) && Quiet(service.Now(), start) && Sighted(service.faults)
    modifies service
    ensures History(start, requests, answers, past)
    ensures var t := past[|requests|].t;
            && status != Refused && t.Settles(service.Now())
            && (status == Done ==> Quiet(service.Now(), t.Before()) || Quiet(service.Now(), t.After()))
            && (past[|requests|].st.journal.None? && past[|requests|].st.graph.None? ==> service.Now() == past[|requests|].st)
    ensures old(service.tick) <= service.tick && (old(service.Calm()) ==> status == Done)
  {
    hide Sound, Between, Pending, SinglePending, Plan.Valid, Single.Valid, Corresponds, Step, Sighted;
    answers, past := [], [Moment(AtRest(start), service.Now())];
    ghost var t := AtRest(start);
    for i := 0 to |requests|
      modifies service
      invariant old(service.tick) <= service.tick
      invariant History(start, requests[..i], answers, past) && past[i] == Moment(t, service.Now())
    {
      ghost var was := past;
      var answer;
      answer, t := Answer(service, requests[i], t);
      HistoryGrows(start, requests, i, answers, past, answer, Moment(t, service.Now()));
      answers, past := answers + [answer], past + [Moment(t, service.Now())];
    }
    assert requests[..|requests|] == requests;
    status := RecoverPending(service, t);
  }

  lemma HistoryGrows(start: Snapshot, requests: seq<Request>, i: nat, answers: seq<Status>, past: seq<Moment>,
                     answer: Status, m: Moment)
    requires i < |requests| && History(start, requests[..i], answers, past)
    requires m.t.Valid() && m.t.Settles(m.st) && Step(past[i].t, past[i].st, requests[i], answer, m.t, m.st)
    ensures History(start, requests[..i + 1], answers + [answer], past + [m])
  {
    hide Step, Transaction.Valid, Transaction.Settles;
    var more, said, asked := past + [m], answers + [answer], requests[..i + 1];
    forall k | 0 <= k < |asked| ensures Step(more[k].t, more[k].st, asked[k], said[k], more[k + 1].t, more[k + 1].st) {
      if k < i {
        assert asked[k] == requests[..i][k];
      }
    }
  }

  // ----- what no request names -----

  predicate Names(request: Request, p: string) {
    match request
    case Change(root, others, update) => root.receipt.package == p
    case Drop(package) => package == p
    case Retry => false
  }

  ghost predicate HasReceiptsOf(s: Snapshot, p: string, from: Snapshot) {
    Slot(s.services, p) == Slot(from.services, p) && Slot(s.binaries, p) == Slot(from.binaries, p)
  }

  /** A package that no request names keeps both its receipts through every run. */
  lemma {:induction false} UnnamedStays(start: Snapshot, requests: seq<Request>, answers: seq<Status>, past: seq<Moment>,
                                        p: string, i: nat)
    requires History(start, requests, answers, past) && i <= |requests|
    requires p in start.services && forall k :: 0 <= k < |requests| ==> !Names(requests[k], p)
    ensures HasReceiptsOf(past[i].t.Before(), p, start) && HasReceiptsOf(past[i].t.After(), p, start)
    ensures HasReceiptsOf(Snapshot(past[i].st.services, past[i].st.binaries), p, start)
  {
    hide Transaction.Valid, Plan.After;
    if i > 0 {
      UnnamedStays(start, requests, answers, past, p, i - 1);
      var t, next := past[i - 1].t, past[i].t;
      assert Step(t, past[i - 1].st, requests[i - 1], answers[i - 1], next, past[i].st);
      if next != t {
        AnswerKeeps(next, requests[i - 1], p);
      }
    }
    SettledKeeps(past[i].t, past[i].st, p, start);
  }

  lemma AnswerKeeps(t: Transaction, request: Request, p: string)
    requires Answers(t, request) && !Names(request, p) && p in t.Before().services
    ensures HasReceiptsOf(t.After(), p, t.Before())
  {
    hide PlansLeast, Realizes, Plan.After;
  }

  // ----- counters over a run -----

  /** The package is installed at or above the counters of `sooner`. */
  ghost predicate HasReached(services: map<string, ServiceReceipt>, p: string, sooner: ServiceReceipt) {
    p in services && NotBehind(sooner, services[p])
  }

  /** On disk, and unless nothing is pending, also before and after the transaction under way. */
  ghost predicate HasReachedFor(m: Moment, p: string, sooner: ServiceReceipt) {
    && HasReached(m.st.services, p, sooner)
    && ((m.st.journal.None? && m.st.graph.None?) ||
        (HasReached(m.t.Before().services, p, sooner) && HasReached(m.t.After().services, p, sooner)))
  }

  /**
   * From a moment at rest on, the counters of a package that is not dropped never go back, whatever is
   * installed and updated, fails, stops or is recovered.
   */
  lemma {:induction false} CountersNeverGoBack(start: Snapshot, requests: seq<Request>, answers: seq<Status>,
                                               past: seq<Moment>, p: string, i: nat, j: nat)
    requires History(start, requests, answers, past) && i <= j <= |requests|
    requires past[i].st.journal.None? && past[i].st.graph.None? && p in past[i].st.services
    requires forall k :: 0 <= k < |requests| ==> requests[k] != Drop(p)
    ensures HasReachedFor(past[j], p, past[i].st.services[p])
    decreases j
  {
    hide Transaction.Valid, Plan.After, NotBehind, Step, Transaction.Settles;
    var sooner := past[i].st.services[p];
    if j == i {
      ReachedSelf(sooner);
    } else {
      CountersNeverGoBack(start, requests, answers, past, p, i, j - 1);
      assert Step(past[j - 1].t, past[j - 1].st, requests[j - 1], answers[j - 1], past[j].t, past[j].st);
      StepReaches(past[j - 1], requests[j - 1], answers[j - 1], past[j], p, sooner);
    }
  }

  lemma ReachedSelf(r: ServiceReceipt)
    ensures NotBehind(r, r)
  {
  }

  lemma StepReaches(m: Moment, request: Request, answer: Status, next: Moment, p: string, sooner: ServiceReceipt)
    requires HasReachedFor(m, p, sooner) && Step(m.t, m.st, request, answer, next.t, next.st)
    requires next.t.Settles(next.st) && request != Drop(p)
    ensures HasReachedFor(next, p, sooner)
  {
    hide Transaction.Valid, Plan.After, NotBehind, Changes, Transaction.Settles, HasReached;
    if !Stays(m.t, m.st, next.t, next.st) {
      AnswerReaches(next.t, request, p, sooner);
    }
    if next.st != m.st || !(m.st.journal.None? && m.st.graph.None?) {
      SettledReaches(next.t, next.st, p, sooner);
    }
  }

  lemma AnswerReaches(t: Transaction, request: Request, p: string, sooner: ServiceReceipt)
    requires Answers(t, request) && request != Drop(p) && HasReached(t.Before().services, p, sooner)
    ensures HasReached(t.After().services, p, sooner)
  {
    hide PlansLeast, Realizes, Plan.After, SameRecord;
  }

  lemma SettledReaches(t: Transaction, st: State, p: string, sooner: ServiceReceipt)
    requires t.Settles(st)
    requires HasReached(t.Before().services, p, sooner) && HasReached(t.After().services, p, sooner)
    ensures HasReached(st.services, p, sooner)
  {
    hide Plan.After;
    assert Slot(st.services, p) == Slot(t.Before().services, p) || Slot(st.services, p) == Slot(t.After().services, p);
  }

  lemma SettledKeeps(t: Transaction, st: State, p: string, start: Snapshot)
    requires t.Settles(st) && HasReceiptsOf(t.Before(), p, start) && HasReceiptsOf(t.After(), p, start)
    ensures HasReceiptsOf(Snapshot(st.services, st.binaries), p, start)
  {
    hide Plan.After;
  }
}
