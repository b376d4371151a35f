/** Receipts, journals and what it means for a package transaction to be half done. */
module ServiceState {
  import Cnf
  import opened Dependency
  import opened Results

  /** A graph journal holds no more entries than the planner takes candidates. */
  const MAX_ENTRIES: nat := Cnf.MAX_PACKAGES

  /** Where a build comes from: its signed authority and what identifies the record there. */
  datatype Origin =
    | Native(authority: string, metadataDigest: string, sourceLock: string)
    | Source(authority: string, ecosystem: string, ingressLock: string, targetPolicy: string, recipe: string,
             sourceLock: string)

  datatype Provenance = Provenance(
    provider: string, channel: string, serviceGeneration: nat, serviceConfig: string, providerGeneration: nat,
    packageSequence: nat, origin: Origin, metadata: DependencyMetadata)

  datatype ServiceReceipt = ServiceReceipt(
    package: string, version: string, release: nat, artifact: string, provenance: Provenance)

  datatype InstalledFile = InstalledFile(path: string, mode: nat, sha256: string)

  datatype BinaryReceipt = BinaryReceipt(
    package: string, version: string, release: nat, artifact: string, files: seq<InstalledFile>)

  datatype Payload = Payload(package: string, version: string, release: nat, files: seq<InstalledFile>)

  /** The ownership receipt names the same build as the service receipt. */
  predicate Matches(binary: BinaryReceipt, service: ServiceReceipt) {
    && binary.package == service.package && binary.version == service.version
    && binary.release == service.release && binary.artifact == service.artifact
  }

  datatype JournalAction = Install | Update | Remove

  datatype Journal = Journal(
    action: JournalAction, package: string, prior: Option<ServiceReceipt>, next: Option<ServiceReceipt>)

  datatype GraphEntry = GraphEntry(package: string, prior: Option<ServiceReceipt>, next: ServiceReceipt)

  datatype GraphJournal = GraphJournal(action: JournalAction, root: string, entries: seq<GraphEntry>)

  /** What is on disk. */
  datatype State = State(
    journal: Option<Journal>, graph: Option<GraphJournal>,
    services: map<string, ServiceReceipt>, binaries: map<string, BinaryReceipt>)

  /** Both receipt maps. */
  datatype Snapshot = Snapshot(services: map<string, ServiceReceipt>, binaries: map<string, BinaryReceipt>)

  function Slot<T>(m: map<string, T>, p: string): Option<T> {
    if p in m then Some(m[p]) else None
  }

  /** Every package has one receipt of each kind, and they agree. */
  ghost predicate Corresponds(s: Snapshot) {
    && s.services.Keys == s.binaries.Keys
    && forall p :: p in s.services ==> s.services[p].package == p && Matches(s.binaries[p], s.services[p])
  }

  /** No journal, and the receipts are exactly `s`. */
  ghost predicate Quiet(st: State, s: Snapshot) {
    st == State(None, None, s.services, s.binaries)
  }

  /** Each slot of `m` is as in `a` or as in `b`. */
  ghost predicate Between<T(!new)>(m: map<string, T>, a: map<string, T>, b: map<string, T>) {
    forall p :: Slot(m, p) == Slot(a, p) || Slot(m, p) == Slot(b, p)
  }

  lemma SameSlots<T(!new)>(m: map<string, T>, n: map<string, T>)
    requires forall p :: Slot(m, p) == Slot(n, p)
    ensures m == n
  {
    forall p ensures p in m <==> p in n {
      assert Slot(m, p) == Slot(n, p);
    }
    forall p | p in m ensures m[p] == n[p] {
      assert Slot(m, p) == Slot(n, p);
    }
  }

  // ----- a package graph -----

  datatype PreparedEntry = PreparedEntry(
    prior: Option<ServiceReceipt>, receipt: ServiceReceipt, payload: Payload, mutate: bool)
  {
    function Binary(): BinaryReceipt {
      BinaryReceipt(payload.package, payload.version, payload.release, receipt.artifact, payload.files)
    }

    function Journaled(): GraphEntry {
      GraphEntry(receipt.package, prior, receipt)
    }
  }

  /** An install has to touch the files of a package that is new or whose build changes. */
  predicate MustMutate(prior: Option<ServiceReceipt>, receipt: ServiceReceipt) {
    prior.None? || prior.value.package != receipt.package || prior.value.version != receipt.version
    || prior.value.release != receipt.release || prior.value.artifact != receipt.artifact
  }

  function Journaled(entries: seq<PreparedEntry>): (js: seq<GraphEntry>)
    ensures |js| == |entries| && forall i :: 0 <= i < |js| ==> js[i] == entries[i].Journaled()
  {
    seq(|entries|, i requires 0 <= i < |entries| => entries[i].Journaled())
  }

  function WithServices(m: map<string, ServiceReceipt>, entries: seq<PreparedEntry>): map<string, ServiceReceipt> {
    if entries == [] then m
    else
      var last := entries[|entries| - 1];
      WithServices(m, entries[..|entries| - 1])[last.receipt.package := last.receipt]
  }

  function WithBinaries(m: map<string, BinaryReceipt>, entries: seq<PreparedEntry>): map<string, BinaryReceipt> {
    if entries == [] then m
    else
      var last := entries[|entries| - 1];
      var rest := WithBinaries(m, entries[..|entries| - 1]);
      if last.mutate then rest[last.receipt.package := last.Binary()] else rest
  }

  /** The graph transaction from `before`: the entries to apply, the root last. */
  datatype Plan = Plan(action: JournalAction, root: string, entries: seq<PreparedEntry>, before: Snapshot) {
    function After(): Snapshot {
      Snapshot(WithServices(before.services, entries), WithBinaries(before.binaries, entries))
    }

    function Record(): GraphJournal {
      GraphJournal(action, root, Journaled(entries))
    }

    ghost predicate EntryFits(i: nat)
      requires i < |entries|
    {
      var e := entries[i];
      var last := i + 1 == |entries|;
      && e.prior == Slot(before.services, e.receipt.package)
      && e.payload.package == e.receipt.package && e.payload.version == e.receipt.version
      && e.payload.release == e.receipt.release
      && e.mutate == MustMutate(e.prior, e.receipt)
      && (if action == Install then e.prior.None? else last == e.prior.Some?)
    }

    ghost predicate Valid() {
      && Corresponds(before)
      && (action == Install || action == Update)
      && 0 < |entries| <= MAX_ENTRIES && entries[|entries| - 1].receipt.package == root
      && (forall i :: 0 <= i < |entries| ==> EntryFits(i))
      && forall i, j :: 0 <= i < j < |entries| ==> entries[i].receipt.package != entries[j].receipt.package
    }
  }

  lemma {:induction false} ServicesElsewhere(m: map<string, ServiceReceipt>, entries: seq<PreparedEntry>, p: string)
    requires forall i :: 0 <= i < |entries| ==> entries[i].receipt.package != p
    ensures Slot(WithServices(m, entries), p) == Slot(m, p)
  {
    if entries == [] {
    } else {
      ServicesElsewhere(m, entries[..|entries| - 1], p);
    }
  }

  lemma {:induction false} BinariesElsewhere(m: map<string, BinaryReceipt>, entries: seq<PreparedEntry>, p: string)
    requires forall i :: 0 <= i < |entries| ==> entries[i].receipt.package != p || !entries[i].mutate
    ensures Slot(WithBinaries(m, entries), p) == Slot(m, p)
  {
    if entries == [] {
    } else {
      BinariesElsewhere(m, entries[..|entries| - 1], p);
    }
  }

  lemma {:induction false} ServicesAt(m: map<string, ServiceReceipt>, entries: seq<PreparedEntry>, i: nat)
    requires i < |entries|
    requires forall i, j :: 0 <= i < j < |entries| ==> entries[i].receipt.package != entries[j].receipt.package
    ensures Slot(WithServices(m, entries), entries[i].receipt.package) == Some(entries[i].receipt)
  {
    if i >= |entries| - 1 {
    } else {
      assert entries[..|entries| - 1][i] == entries[i];
      ServicesAt(m, entries[..|entries| - 1], i);
    }
  }

  lemma {:induction false} BinariesAt(m: map<string, BinaryReceipt>, entries: seq<PreparedEntry>, i: nat)
    requires i < |entries|
    requires forall i, j :: 0 <= i < j < |entries| ==> entries[i].receipt.package != entries[j].receipt.package
    ensures Slot(WithBinaries(m, entries), entries[i].receipt.package)
            == if entries[i].mutate then Some(entries[i].Binary()) else Slot(m, entries[i].receipt.package)
  {
    var front := entries[..|entries| - 1];
    if i < |entries| - 1 {
      assert front[i] == entries[i];
      BinariesAt(m, front, i);
    } else {
      BinariesElsewhere(m, front, entries[i].receipt.package);
    }
  }

  /** A graph transaction under way: the journal is written and every slot is old or new. */
  ghost predicate UnderWay(plan: Plan, st: State) {
    && st.journal.None? && st.graph == Some(plan.Record())
    && Between(st.services, plan.before.services, plan.After().services)
    && Between(st.binaries, plan.before.binaries, plan.After().binaries)
  }

  /** An updated root is new only when everything is. */
  ghost predicate RootIsLast(plan: Plan, binaries: map<string, BinaryReceipt>) {
    plan.action == Update ==>
      Slot(binaries, plan.root) == Slot(plan.before.binaries, plan.root) || binaries == plan.After().binaries
  }

  /** Under way, and so that recovery can finish it one way or the other. */
  ghost predicate Pending(plan: Plan, st: State) {
    UnderWay(plan, st) && RootIsLast(plan, st.binaries)
  }

  /** Old, new, or recoverable. */
  ghost predicate Settled(plan: Plan, st: State) {
    Pending(plan, st) || Quiet(st, plan.before) || Quiet(st, plan.After())
  }

  /** The slots of one entry, before and after. */
  lemma EntrySlots(plan: Plan, i: nat)
    requires plan.Valid() && i < |plan.entries|
    ensures var e := plan.entries[i];
            var p := e.receipt.package;
            && Slot(plan.After().services, p) == Some(e.receipt)
            && Slot(plan.After().binaries, p) == (if e.mutate then Some(e.Binary()) else Slot(plan.before.binaries, p))
            && Slot(plan.before.services, p) == e.prior
            && (e.prior.None? <==> Slot(plan.before.binaries, p).None?)
            && (e.prior.Some? ==> Matches(plan.before.binaries[p], e.prior.value))
            && Matches(e.Binary(), e.receipt)
            && (e.prior.None? ==> e.mutate)
  {
    ServicesAt(plan.before.services, plan.entries, i);
    BinariesAt(plan.before.binaries, plan.entries, i);
    assert plan.EntryFits(i);
  }

  lemma SlotsElsewhere(plan: Plan, p: string)
    requires plan.Valid() && forall i :: 0 <= i < |plan.entries| ==> plan.entries[i].receipt.package != p
    ensures Slot(plan.After().services, p) == Slot(plan.before.services, p)
    ensures Slot(plan.After().binaries, p) == Slot(plan.before.binaries, p)
  {
    ServicesElsewhere(plan.before.services, plan.entries, p);
    BinariesElsewhere(plan.before.binaries, plan.entries, p);
  }

  /** While a graph is pending, an entry's ownership matches the new build exactly when its slot is the new one. */
  lemma MatchTellsNew(plan: Plan, st: State, i: nat)
    requires plan.Valid() && i < |plan.entries| && Between(st.binaries, plan.before.binaries, plan.After().binaries)
    ensures var e := plan.entries[i];
            var slot := Slot(st.binaries, e.receipt.package);
            (slot.Some? && Matches(slot.value, e.receipt)) <==> slot == Slot(plan.After().binaries, e.receipt.package)
  {
    EntrySlots(plan, i);
    assert plan.EntryFits(i);
    var p := plan.entries[i].receipt.package;
    assert Slot(st.binaries, p) == Slot(plan.before.binaries, p) || Slot(st.binaries, p) == Slot(plan.After().binaries, p);
  }

  /** All entries new means the whole ownership map is new. */
  lemma AllNew(plan: Plan, st: State)
    requires plan.Valid() && Between(st.binaries, plan.before.binaries, plan.After().binaries)
    requires forall i :: 0 <= i < |plan.entries| ==>
      Slot(st.binaries, plan.entries[i].receipt.package) == Slot(plan.After().binaries, plan.entries[i].receipt.package)
    ensures st.binaries == plan.After().binaries
  {
    forall p ensures Slot(st.binaries, p) == Slot(plan.After().binaries, p) {
      if forall i :: 0 <= i < |plan.entries| ==> plan.entries[i].receipt.package != p {
        SlotsElsewhere(plan, p);
        assert Slot(st.binaries, p) == Slot(plan.before.binaries, p) || Slot(st.binaries, p) == Slot(plan.After().binaries, p);
      }
    }
    SameSlots(st.binaries, plan.After().binaries);
  }

  lemma AllOld(plan: Plan, binaries: map<string, BinaryReceipt>)
    requires plan.Valid() && Between(binaries, plan.before.binaries, plan.After().binaries)
    requires forall i :: 0 <= i < |plan.entries| ==>
      Slot(binaries, plan.entries[i].receipt.package) == Slot(plan.before.binaries, plan.entries[i].receipt.package)
    ensures binaries == plan.before.binaries
  {
    forall p ensures Slot(binaries, p) == Slot(plan.before.binaries, p) {
      if forall i :: 0 <= i < |plan.entries| ==> plan.entries[i].receipt.package != p {
        SlotsElsewhere(plan, p);
        assert Slot(binaries, p) == Slot(plan.before.binaries, p) || Slot(binaries, p) == Slot(plan.After().binaries, p);
      }
    }
    SameSlots(binaries, plan.before.binaries);
  }

  /** Services are all new, or all old, once every entry's slot is. */
  lemma ServicesAllNew(plan: Plan, services: map<string, ServiceReceipt>)
    requires plan.Valid() && Between(services, plan.before.services, plan.After().services)
    requires forall i :: 0 <= i < |plan.entries| ==>
      Slot(services, plan.entries[i].receipt.package) == Some(plan.entries[i].receipt)
    ensures services == plan.After().services
  {
    forall p ensures Slot(services, p) == Slot(plan.After().services, p) {
      if forall i :: 0 <= i < |plan.entries| ==> plan.entries[i].receipt.package != p {
        SlotsElsewhere(plan, p);
        assert Slot(services, p) == Slot(plan.before.services, p) || Slot(services, p) == Slot(plan.After().services, p);
      } else {
        var i :| 0 <= i < |plan.entries| && plan.entries[i].receipt.package == p;
        EntrySlots(plan, i);
      }
    }
    SameSlots(services, plan.After().services);
  }

  lemma ServicesAllOld(plan: Plan, services: map<string, ServiceReceipt>)
    requires plan.Valid() && Between(services, plan.before.services, plan.After().services)
    requires forall i :: 0 <= i < |plan.entries| ==>
      Slot(services, plan.entries[i].receipt.package) == plan.entries[i].prior
    ensures services == plan.before.services
  {
    forall p ensures Slot(services, p) == Slot(plan.before.services, p) {
      if forall i :: 0 <= i < |plan.entries| ==> plan.entries[i].receipt.package != p {
        SlotsElsewhere(plan, p);
        assert Slot(services, p) == Slot(plan.before.services, p) || Slot(services, p) == Slot(plan.After().services, p);
      } else {
        var i :| 0 <= i < |plan.entries| && plan.entries[i].receipt.package == p;
        EntrySlots(plan, i);
      }
    }
    SameSlots(services, plan.before.services);
  }

  /** Setting a slot to its old or new value keeps a map between the two. */
  lemma BetweenSet<T(!new)>(m: map<string, T>, a: map<string, T>, b: map<string, T>, p: string, v: T)
    requires Between(m, a, b) && (Slot(a, p) == Some(v) || Slot(b, p) == Some(v))
    ensures Between(m[p := v], a, b)
  {
    forall q ensures Slot(m[p := v], q) == Slot(a, q) || Slot(m[p := v], q) == Slot(b, q) {
      assert Slot(m, q) == Slot(a, q) || Slot(m, q) == Slot(b, q);
    }
  }

  lemma BetweenDrop<T(!new)>(m: map<string, T>, a: map<string, T>, b: map<string, T>, p: string)
    requires Between(m, a, b) && (Slot(a, p).None? || Slot(b, p).None?)
    ensures Between(m - {p}, a, b)
  {
    forall q ensures Slot(m - {p}, q) == Slot(a, q) || Slot(m - {p}, q) == Slot(b, q) {
      assert Slot(m, q) == Slot(a, q) || Slot(m, q) == Slot(b, q);
    }
  }

  // ----- a single package -----

  /**
   * The single-package transaction: one package goes from `prior` to `next`. Ownership that already
   * names the next build is not touched.
   */
  datatype Single = Single(record: Journal, before: Snapshot, after: Snapshot) {
    ghost predicate Valid() {
      && Corresponds(before) && Corresponds(after)
      && Slot(before.services, record.package) == record.prior
      && Slot(after.services, record.package) == record.next
      && (match record.action
          case Install => record.prior.None? && record.next.Some?
          case Update => record.prior.Some? && record.next.Some?
          case Remove => record.prior.Some? && record.next.None?)
      && (record.action == Update && Matches(before.binaries[record.package], record.next.value) ==>
            before.binaries == after.binaries)
      && forall p :: p != record.package ==>
           Slot(before.services, p) == Slot(after.services, p) && Slot(before.binaries, p) == Slot(after.binaries, p)
    }
  }

  ghost predicate SinglePending(s: Single, st: State) {
    && st.journal == Some(s.record) && st.graph.None?
    && Between(st.services, s.before.services, s.after.services)
    && Between(st.binaries, s.before.binaries, s.after.binaries)
  }

  ghost predicate SingleSettled(s: Single, st: State) {
    SinglePending(s, st) || Quiet(st, s.before) || Quiet(st, s.after)
  }

  /** A map between two that differ at one package only is one of them, as that package's slot says. */
  lemma OneSlotDecides<T(!new)>(m: map<string, T>, a: map<string, T>, b: map<string, T>, p: string)
    requires Between(m, a, b) && forall q :: q != p ==> Slot(a, q) == Slot(b, q)
    ensures Slot(m, p) == Slot(a, p) ==> m == a
    ensures Slot(m, p) == Slot(b, p) ==> m == b
  {
    forall q | q != p ensures Slot(m, q) == Slot(a, q) == Slot(b, q) {
    }
    if Slot(m, p) == Slot(a, p) {
      SameSlots(m, a);
    }
    if Slot(m, p) == Slot(b, p) {
      SameSlots(m, b);
    }
  }

  // ----- the installed set -----

  function CandidateOf(r: ServiceReceipt): ResolutionCandidate {
    ResolutionCandidate(r.package, r.version, r.provenance.packageSequence, r.provenance.metadata)
  }

  ghost predicate MetBy(services: map<string, ServiceReceipt>, r: PackageRequirement) {
    exists p :: p in services && Meets(CandidateOf(services[p]), r)
  }

  /** Every requirement of every installed package is met by an installed package. */
  ghost predicate RequirementClosed(services: map<string, ServiceReceipt>) {
    forall p, k :: p in services && 0 <= k < |services[p].provenance.metadata.requirements| ==>
      MetBy(services, services[p].provenance.metadata.requirements[k])
  }

  /** No installed package conflicts with another. */
  ghost predicate NoConflicts(services: map<string, ServiceReceipt>) {
    forall p, q, k :: p in services && q in services && p != q &&
                      0 <= k < |services[p].provenance.metadata.conflicts| ==>
      !CandidateSatisfies(CandidateOf(services[q]), services[p].provenance.metadata.conflicts[k])
  }

  /** The receipts are those of the candidates in `s`, one each. */
  ghost predicate Realizes(services: map<string, ServiceReceipt>, cands: seq<ResolutionCandidate>, s: set<nat>) {
    && (forall c :: c in s ==> c < |cands|)
    && (forall c :: c in s ==> cands[c].package in services && CandidateOf(services[cands[c].package]) == cands[c])
    && (forall p :: p in services ==> exists c :: c in s && cands[c].package == p)
  }

  /** Receipts that realize a valid selection are closed and free of conflicts. */
  lemma RealizedIsConsistent(services: map<string, ServiceReceipt>, cands: seq<ResolutionCandidate>, required: nat,
                             fixed: seq<nat>, s: set<nat>)
    requires Realizes(services, cands, s) && ValidSelection(cands, required, fixed, s)
    ensures RequirementClosed(services) && NoConflicts(services)
  {
    hide Meets, CandidateSatisfies;
    forall p, k | p in services && 0 <= k < |services[p].provenance.metadata.requirements|
      ensures MetBy(services, services[p].provenance.metadata.requirements[k])
    {
      var c :| c in s && cands[c].package == p;
      assert RequirementMet(cands, s, cands[c].metadata.requirements[k]);
      var o :| o in s && Meets(cands[o], cands[c].metadata.requirements[k]);
      assert cands[o].package in services;
    }
    forall p, q, k | p in services && q in services && p != q && 0 <= k < |services[p].provenance.metadata.conflicts|
      ensures !CandidateSatisfies(CandidateOf(services[q]), services[p].provenance.metadata.conflicts[k])
    {
      var c :| c in s && cands[c].package == p;
      var o :| o in s && cands[o].package == q;
    }
  }

  /** Dropping a package from a conflict-free set leaves it conflict-free. */
  lemma DropKeepsConflictFree(services: map<string, ServiceReceipt>, p: string)
    requires NoConflicts(services)
    ensures NoConflicts(services - {p})
  {
    hide CandidateSatisfies;
  }
}
