/** What an install, update or removal sets out to do, before any receipt changes. */
module Transactions {
  import opened Counting
  import opened Dependency
  import opened Results
  import opened ServiceState

  // ----- transactions -----

  datatype Transaction = AtRest(at: Snapshot) | OfGraph(plan: Plan) | OfOne(one: Single) {
    function Before(): Snapshot {
      match this
      case AtRest(at) => at
      case OfGraph(plan) => plan.before
      case OfOne(one) => one.before
    }

    function After(): Snapshot {
      match this
      case AtRest(at) => at
      case OfGraph(plan) => plan.After()
      case OfOne(one) => one.after
    }

    ghost predicate Pends(st: State) {
      match this
      case AtRest(_) => false
      case OfGraph(plan) => Pending(plan, st)
      case OfOne(one) => SinglePending(one, st)
    }

    ghost predicate Settles(st: State) {
      Pends(st) || Quiet(st, Before()) || Quiet(st, After())
    }

    /** It goes from one sound installed set to another. */
    ghost predicate Valid() {
      && (OfGraph? ==> plan.Valid()) && (OfOne? ==> one.Valid())
      && Sound(Before()) && Sound(After())
    }
  }

  /** Receipts correspond, every requirement is met, and nothing conflicts. */
  ghost predicate Sound(s: Snapshot) {
    Corresponds(s) && RequirementClosed(s.services) && NoConflicts(s.services)
  }

  /** A graph transaction keeps the two kinds of receipt in step. */
  lemma AfterCorresponds(plan: Plan)
    requires plan.Valid()
    ensures Corresponds(plan.After())
  {
    forall p ensures p in plan.After().services <==> p in plan.After().binaries
             ensures p in plan.After().services ==>
               plan.After().services[p].package == p && p in plan.After().binaries &&
               Matches(plan.After().binaries[p], plan.After().services[p])
    {
      if i :| 0 <= i < |plan.entries| && plan.entries[i].receipt.package == p {
        EntrySlots(plan, i);
        assert plan.EntryFits(i);
      } else {
        SlotsElsewhere(plan, p);
        assert Slot(plan.After().services, p) == Slot(plan.before.services, p);
        assert Slot(plan.After().binaries, p) == Slot(plan.before.binaries, p);
      }
    }
  }

  // ----- removal -----

  function Removal(before: Snapshot, p: string): Single
    requires p in before.services
  {
    Single(Journal(Remove, p, Some(before.services[p]), None), before,
           Snapshot(before.services - {p}, before.binaries - {p}))
  }

  lemma RemovalIsValid(before: Snapshot, p: string)
    requires Sound(before) && p in before.services && RequirementClosed(before.services - {p})
    ensures OfOne(Removal(before, p)).Valid()
  {
    hide RequirementClosed, NoConflicts;
    DropKeepsConflictFree(before.services, p);
  }

  // ----- installing and updating -----

  /** What preparing a candidate yields. */
  datatype Prepared = Prepared(receipt: ServiceReceipt, payload: Payload) {
    predicate Coherent() {
      && payload.package == receipt.package && payload.version == receipt.version
      && payload.release == receipt.release
    }
  }

  function Candidates(universe: seq<Prepared>): (cands: seq<ResolutionCandidate>)
    ensures |cands| == |universe|
    ensures forall i :: 0 <= i < |cands| ==> cands[i] == CandidateOf(universe[i].receipt)
  {
    seq(|universe|, i requires 0 <= i < |universe| => CandidateOf(universe[i].receipt))
  }

  /** The universe still holds the installed package as its provider signed it. */
  predicate Retains(candidate: Prepared, receipt: ServiceReceipt) {
    && CandidateOf(candidate.receipt) == CandidateOf(receipt)
    && candidate.receipt.release == receipt.release
    && candidate.receipt.provenance.provider == receipt.provenance.provider
    && candidate.receipt.provenance.channel == receipt.provenance.channel
    && candidate.receipt.provenance.origin.Native? == receipt.provenance.origin.Native?
  }

  /** The candidate stands for one of the packages kept. */
  ghost predicate FixedFor(universe: seq<Prepared>, services: map<string, ServiceReceipt>, kept: set<string>, c: nat)
    requires c < |universe|
  {
    exists p :: p in kept && p in services && Retains(universe[c], services[p])
  }

  /** The fixed candidates are the installed packages, less a root that is being updated. */
  ghost predicate FixedIsInstalled(universe: seq<Prepared>, services: map<string, ServiceReceipt>, kept: set<string>,
                                   fixed: seq<nat>) {
    && Distinct(fixed)
    && (forall i :: 0 <= i < |fixed| ==> fixed[i] < |universe| && FixedFor(universe, services, kept, fixed[i]))
    && forall p :: p in kept ==> p in services && exists i :: 0 <= i < |fixed| && Retains(universe[fixed[i]], services[p])
  }

  predicate Skips(candidate: Prepared, services: map<string, ServiceReceipt>, root: string) {
    candidate.receipt.package != root && candidate.receipt.package in services
  }

  function EntryFor(candidate: Prepared, services: map<string, ServiceReceipt>): PreparedEntry {
    var prior := Slot(services, candidate.receipt.package);
    PreparedEntry(prior, candidate.receipt, candidate.payload, MustMutate(prior, candidate.receipt))
  }

  /** The candidates of `order` that are the root or not installed yet, in that order. */
  function Missing(universe: seq<Prepared>, services: map<string, ServiceReceipt>, root: string, order: seq<nat>): seq<nat>
    requires forall i :: 0 <= i < |order| ==> order[i] < |universe|
  {
    if order == [] then []
    else
      var last := order[|order| - 1];
      var rest := Missing(universe, services, root, order[..|order| - 1]);
      if Skips(universe[last], services, root) then rest else rest + [last]
  }

  lemma {:induction false} MissingHolds(universe: seq<Prepared>, services: map<string, ServiceReceipt>, root: string,
                                        order: seq<nat>)
    requires Distinct(order) && forall i :: 0 <= i < |order| ==> order[i] < |universe|
    ensures var m := Missing(universe, services, root, order);
            && Distinct(m) && |m| <= |order|
            && forall c :: c in m <==> c in order && !Skips(universe[c], services, root)
  {
    if order == [] {
    } else {
      var front, last := order[..|order| - 1], order[|order| - 1];
      assert order == front + [last];
      assert last !in front;
      MissingHolds(universe, services, root, front);
    }
  }

  function MovedLast(s: seq<nat>, k: nat): seq<nat>
    requires k < |s|
  {
    s[..k] + s[k + 1..] + [s[k]]
  }

  lemma MovedLastKeeps(s: seq<nat>, k: nat)
    requires k < |s|
    ensures multiset(MovedLast(s, k)) == multiset(s)
  {
    assert s == s[..k] + [s[k]] + s[k + 1..];
  }

  /** The entries of the graph: what is missing, in order, with the root moved last. */
  ghost predicate EntriesFor(universe: seq<Prepared>, services: map<string, ServiceReceipt>, root: string, order: seq<nat>,
                             at: nat, entries: seq<PreparedEntry>)
    requires forall i :: 0 <= i < |order| ==> order[i] < |universe|
  {
    var missing := Missing(universe, services, root, order);
    && at < |missing| == |entries|
    && entries[|entries| - 1].receipt.package == root
    && var picks := MovedLast(missing, at);
       forall k :: 0 <= k < |picks| ==>
         picks[k] < |universe| && universe[picks[k]].Coherent() && entries[k] == EntryFor(universe[picks[k]], services)
  }

  /** What planning tells about the candidates that will be installed. */
  ghost predicate Planned(universe: seq<Prepared>, required: nat, fixed: seq<nat>, before: Snapshot, action: JournalAction,
                          order: seq<nat>) {
    && required < |universe|
    && Sound(before) && (action == Install || action == Update)
    && Distinct(order) && |order| <= MAX_ENTRIES
    && ValidSelection(Candidates(universe), required, fixed, Elements(order))
    && (action == Update <==> universe[required].receipt.package in before.services)
    && FixedIsInstalled(universe, before.services, before.services.Keys - {universe[required].receipt.package}, fixed)
  }

  /** The candidates of the entries: those selected that are the root or not installed. */
  lemma PicksAre(universe: seq<Prepared>, required: nat, fixed: seq<nat>, before: Snapshot, action: JournalAction,
                 order: seq<nat>, at: nat, entries: seq<PreparedEntry>) returns (picks: seq<nat>)
    requires Planned(universe, required, fixed, before, action, order)
    requires forall i :: 0 <= i < |order| ==> order[i] < |universe|
    requires EntriesFor(universe, before.services, universe[required].receipt.package, order, at, entries)
    ensures |picks| == |entries| <= |order|
    ensures forall k :: 0 <= k < |picks| ==>
              picks[k] in order && universe[picks[k]].Coherent() &&
              entries[k] == EntryFor(universe[picks[k]], before.services)
    ensures forall c :: c in picks <==>
              c in order && !Skips(universe[c], before.services, universe[required].receipt.package)
    ensures forall i, j :: 0 <= i < j < |entries| ==> entries[i].receipt.package != entries[j].receipt.package
  {
    hide Skips;
    var m := Missing(universe, before.services, universe[required].receipt.package, order);
    MissingHolds(universe, before.services, universe[required].receipt.package, order);
    picks := MovedLast(m, at);
    MovedLastKeeps(m, at);
    SameElements(m, picks);
    forall i, j | 0 <= i < j < |entries| ensures entries[i].receipt.package != entries[j].receipt.package {
      assert picks[i] != picks[j] && picks[i] in picks && picks[j] in picks;
      var cands := Candidates(universe);
      assert picks[i] in Elements(order) && picks[j] in Elements(order);
      assert cands[picks[i]].package != cands[picks[j]].package;
    }
  }

  /** The planned entries form a graph transaction. */
  lemma PlanIsValid(universe: seq<Prepared>, required: nat, fixed: seq<nat>, before: Snapshot, action: JournalAction,
                    order: seq<nat>, at: nat, entries: seq<PreparedEntry>)
    requires Planned(universe, required, fixed, before, action, order)
    requires forall i :: 0 <= i < |order| ==> order[i] < |universe|
    requires EntriesFor(universe, before.services, universe[required].receipt.package, order, at, entries)
    ensures Plan(action, universe[required].receipt.package, entries, before).Valid()
  {
    hide ValidSelection, RequirementClosed, NoConflicts;
    var plan := Plan(action, universe[required].receipt.package, entries, before);
    var picks := PicksAre(universe, required, fixed, before, action, order, at, entries);
    forall i | 0 <= i < |entries| ensures plan.EntryFits(i) {
      assert picks[i] in picks;
      assert entries[i].receipt.package == plan.root ==> i + 1 == |entries|;
    }
  }

  /** Afterwards a selected candidate is installed. */
  lemma SelectedIsInstalled(universe: seq<Prepared>, required: nat, fixed: seq<nat>, before: Snapshot,
                            action: JournalAction, order: seq<nat>, at: nat, entries: seq<PreparedEntry>, c: nat)
    requires Planned(universe, required, fixed, before, action, order)
    requires forall i :: 0 <= i < |order| ==> order[i] < |universe|
    requires EntriesFor(universe, before.services, universe[required].receipt.package, order, at, entries)
    requires c in order
    ensures var services := WithServices(before.services, entries);
            var p := universe[c].receipt.package;
            p in services && CandidateOf(services[p]) == CandidateOf(universe[c].receipt)
  {
    hide RequirementClosed, NoConflicts, Skips, MustMutate;
    var cands := Candidates(universe);
    var picks := PicksAre(universe, required, fixed, before, action, order, at, entries);
    if c in picks {
      var k :| 0 <= k < |picks| && picks[k] == c;
      ServicesAt(before.services, entries, k);
    } else {
      KeptIsFixed(universe, required, fixed, before, action, order, c);
      forall k | 0 <= k < |entries| ensures entries[k].receipt.package != cands[c].package {
        assert picks[k] in picks && picks[k] in Elements(order) && c in Elements(order);
        assert cands[picks[k]].package == entries[k].receipt.package;
      }
      ServicesElsewhere(before.services, entries, cands[c].package);
    }
  }

  /** Afterwards an installed package is a selected candidate. */
  lemma InstalledIsSelected(universe: seq<Prepared>, required: nat, fixed: seq<nat>, before: Snapshot,
                            action: JournalAction, order: seq<nat>, at: nat, entries: seq<PreparedEntry>, p: string)
    requires Planned(universe, required, fixed, before, action, order)
    requires forall i :: 0 <= i < |order| ==> order[i] < |universe|
    requires EntriesFor(universe, before.services, universe[required].receipt.package, order, at, entries)
    requires p in WithServices(before.services, entries)
    ensures exists c :: c in Elements(order) && Candidates(universe)[c].package == p
  {
    hide Sound, ValidSelection, FixedIsInstalled, Skips, MustMutate;
    if k :| 0 <= k < |entries| && entries[k].receipt.package == p {
      var picks := PicksAre(universe, required, fixed, before, action, order, at, entries);
      assert picks[k] in Elements(order) && Candidates(universe)[picks[k]].package == p;
    } else {
      ServicesElsewhere(before.services, entries, p);
      assert entries[|entries| - 1].receipt.package != p;
      KeptIsSelected(universe, required, fixed, before, action, order, p);
    }
  }

  /** An installed package other than the root is selected. */
  lemma KeptIsSelected(universe: seq<Prepared>, required: nat, fixed: seq<nat>, before: Snapshot, action: JournalAction,
                       order: seq<nat>, p: string)
    requires Planned(universe, required, fixed, before, action, order)
    requires p in before.services && p != universe[required].receipt.package
    ensures exists c :: c in Elements(order) && c < |universe| && Candidates(universe)[c].package == p
  {
    hide RequirementClosed, NoConflicts, OnePerPackage, RequirementsMet, ConflictFree;
    var i :| 0 <= i < |fixed| && Retains(universe[fixed[i]], before.services[p]);
    assert before.services[p].package == p;
    assert fixed[i] in Elements(order) && Candidates(universe)[fixed[i]].package == p;
  }

  /** What a planned transaction leaves installed is exactly the selection. */
  lemma PlanRealizesSelection(universe: seq<Prepared>, required: nat, fixed: seq<nat>, before: Snapshot,
                              action: JournalAction, order: seq<nat>, at: nat, entries: seq<PreparedEntry>)
    requires Planned(universe, required, fixed, before, action, order)
    requires forall i :: 0 <= i < |order| ==> order[i] < |universe|
    requires EntriesFor(universe, before.services, universe[required].receipt.package, order, at, entries)
    ensures Realizes(WithServices(before.services, entries), Candidates(universe), Elements(order))
  {
    hide EntriesFor, Planned, MustMutate;
    var cands := Candidates(universe);
    var after := WithServices(before.services, entries);
    forall c | c in Elements(order) ensures cands[c].package in after && CandidateOf(after[cands[c].package]) == cands[c] {
      SelectedIsInstalled(universe, required, fixed, before, action, order, at, entries, c);
    }
    forall p | p in after ensures exists c :: c in Elements(order) && cands[c].package == p {
      InstalledIsSelected(universe, required, fixed, before, action, order, at, entries, p);
    }
  }

  /** A selected package that is already installed was selected as it is installed. */
  lemma KeptIsFixed(universe: seq<Prepared>, required: nat, fixed: seq<nat>, before: Snapshot, action: JournalAction,
                    order: seq<nat>, c: nat)
    requires Planned(universe, required, fixed, before, action, order)
    requires c in order && c < |universe| && Skips(universe[c], before.services, universe[required].receipt.package)
    ensures Slot(before.services, universe[c].receipt.package).Some?
    ensures CandidateOf(before.services[universe[c].receipt.package]) == CandidateOf(universe[c].receipt)
  {
    hide RequirementClosed, NoConflicts;
    var cands, p := Candidates(universe), universe[c].receipt.package;
    assert p in before.services.Keys - {universe[required].receipt.package};
    var i :| 0 <= i < |fixed| && Retains(universe[fixed[i]], before.services[p]);
    assert before.services[p].package == p;
    assert c in Elements(order) && fixed[i] in Elements(order);
    assert cands[fixed[i]].package == cands[c].package;
  }

  /** Planning takes a sound installed set to a sound installed set. */
  lemma PlanIsSound(universe: seq<Prepared>, required: nat, fixed: seq<nat>, before: Snapshot, action: JournalAction,
                    order: seq<nat>, at: nat, entries: seq<PreparedEntry>)
    requires Planned(universe, required, fixed, before, action, order)
    requires forall i :: 0 <= i < |order| ==> order[i] < |universe|
    requires EntriesFor(universe, before.services, universe[required].receipt.package, order, at, entries)
    ensures OfGraph(Plan(action, universe[required].receipt.package, entries, before)).Valid()
  {
    hide EntriesFor, RequirementClosed, NoConflicts, Plan.Valid, ValidSelection, Corresponds, Realizes;
    var plan := Plan(action, universe[required].receipt.package, entries, before);
    PlanIsValid(universe, required, fixed, before, action, order, at, entries);
    AfterCorresponds(plan);
    PlanRealizesSelection(universe, required, fixed, before, action, order, at, entries);
    RealizedIsConsistent(plan.After().services, Candidates(universe), required, fixed, Elements(order));
  }
}
