/**
 * The package ledger of src/pkg.rs: transactions are admitted by the exact authority they started
 * from, and the last few images can be restored. The state digest is any function of the image.
 */
module Ledger {
  import opened PackageImages
  import opened PackageTransactions
  import opened Results

  datatype LedgerCheckpoint = LedgerCheckpoint(
    packages: seq<ResolvedPackage>, count: nat, generation: u64, stateDigest: u64)
  {
    function Held(): seq<ResolvedPackage> {
      if count <= |packages| then packages[..count] else []
    }
  }

  // ----- the undo history -----

  /** At most the last four elements. */
  function Recent<T>(s: seq<T>): seq<T> {
    if |s| <= MAX_ROLLBACK_DEPTH then s else s[|s| - MAX_ROLLBACK_DEPTH..]
  }

  /** The ledger as its callers see it. */
  datatype LedgerView = LedgerView(installed: seq<ResolvedPackage>, generation: nat, undo: seq<seq<ResolvedPackage>>) {
    /** Publishing a different image. */
    function Committed(image: seq<ResolvedPackage>): LedgerView {
      LedgerView(image, generation + 1, Recent(undo + [installed]))
    }

    /** Going back one image, under a new generation. */
    function RolledBack(): LedgerView
      requires undo != []
    {
      LedgerView(undo[|undo| - 1], generation + 1, undo[..|undo| - 1])
    }
  }

  /** Commits of the images in turn. */
  function CommitAll(v: LedgerView, images: seq<seq<ResolvedPackage>>): LedgerView {
    if images == [] then v else CommitAll(v, images[..|images| - 1]).Committed(images[|images| - 1])
  }

  /** `k` rollbacks, as far as the history reaches. */
  function RollbackAll(v: LedgerView, k: nat): LedgerView
    decreases k
  {
    if k == 0 || v.undo == [] then v else RollbackAll(v.RolledBack(), k - 1)
  }

  /** What was installed after each of the commits but the last, the starting image first. */
  function Trail(v: LedgerView, images: seq<seq<ResolvedPackage>>): seq<seq<ResolvedPackage>> {
    if images == [] then [] else [v.installed] + images[..|images| - 1]
  }

  lemma {:induction false} CommitsPush(v: LedgerView, images: seq<seq<ResolvedPackage>>)
    ensures var w := CommitAll(v, images);
            && w.undo == Recent(v.undo + Trail(v, images))
            && w.generation == v.generation + |images|
            && w.installed == if images == [] then v.installed else images[|images| - 1]
    requires |v.undo| <= MAX_ROLLBACK_DEPTH
  {
    if images == [] {
      assert v.undo + [] == v.undo;
    } else {
      var front, last := images[..|images| - 1], images[|images| - 1];
      CommitsPush(v, front);
      var was := CommitAll(v, front);
      assert Trail(v, images) == Trail(v, front) + [was.installed];
      assert v.undo + Trail(v, images) == (v.undo + Trail(v, front)) + [was.installed];
      RecentPush(v.undo + Trail(v, front), was.installed);
    }
  }

  lemma RecentPush<T>(s: seq<T>, x: T)
    ensures Recent(Recent(s) + [x]) == Recent(s + [x])
  {
  }

  lemma {:induction false} RollbacksPop(v: LedgerView, k: nat)
    requires k <= |v.undo|
    ensures var w := RollbackAll(v, k);
            && w.generation == v.generation + k && w.undo == v.undo[..|v.undo| - k]
            && w.installed == if k == 0 then v.installed else v.undo[|v.undo| - k]
    decreases k
  {
    if k == 0 {
    } else {
      RollbacksPop(v.RolledBack(), k - 1);
    }
  }

  /** Up to four commits are undone by as many rollbacks, under a larger generation. */
  lemma RollbacksUndoCommits(v: LedgerView, images: seq<seq<ResolvedPackage>>)
    requires |v.undo| <= MAX_ROLLBACK_DEPTH && 0 < |images| <= MAX_ROLLBACK_DEPTH
    ensures var w := RollbackAll(CommitAll(v, images), |images|);
            && w.installed == v.installed
            && w.generation == v.generation + 2 * |images|
            && w.undo <= CommitAll(v, images).undo && |w.undo| == |CommitAll(v, images).undo| - |images|
  {
    CommitsPush(v, images);
    RollbacksPop(CommitAll(v, images), |images|);
  }

  /** Five rollbacks after five commits do not reach the start: the fifth one has no history left. */
  lemma FiveCommitsForgetTheFirst(v: LedgerView, images: seq<seq<ResolvedPackage>>)
    requires |v.undo| <= MAX_ROLLBACK_DEPTH && |images| == MAX_ROLLBACK_DEPTH + 1
    ensures var w := RollbackAll(CommitAll(v, images), |images|);
            w.installed == images[0] && w.generation == v.generation + 2 * |images| - 1 && w.undo == []
  {
    CommitsPush(v, images);
    var u := CommitAll(v, images);
    RollbacksPop(u, MAX_ROLLBACK_DEPTH);
    RollbackPastEnd(u, MAX_ROLLBACK_DEPTH);
  }

  lemma {:induction false} RollbackPastEnd(v: LedgerView, k: nat)
    requires k == |v.undo|
    ensures RollbackAll(v, k + 1) == RollbackAll(v, k)
    decreases k
  {
    if k == 0 {
    } else {
      RollbackPastEnd(v.RolledBack(), k - 1);
    }
  }

  // ----- the bounded history against an unbounded one -----

  datatype Step = Publish(image: seq<ResolvedPackage>) | Undo

  function Apply(v: LedgerView, s: Step): LedgerView {
    match s
    case Publish(image) => v.Committed(image)
    case Undo => if v.undo == [] then v else v.RolledBack()
  }

  /** The same step with a history that forgets nothing; an undo the ledger refuses leaves it alone. */
  function ApplyUnbounded(v: LedgerView, full: seq<seq<ResolvedPackage>>, s: Step): seq<seq<ResolvedPackage>> {
    match s
    case Publish(_) => full + [v.installed]
    case Undo => if v.undo == [] || full == [] then full else full[..|full| - 1]
  }

  function ApplyAll(v: LedgerView, steps: seq<Step>): LedgerView {
    if steps == [] then v else Apply(ApplyAll(v, steps[..|steps| - 1]), steps[|steps| - 1])
  }

  function FullHistory(v: LedgerView, steps: seq<Step>): seq<seq<ResolvedPackage>> {
    if steps == [] then v.undo
    else
      var before := steps[..|steps| - 1];
      ApplyUnbounded(ApplyAll(v, before), FullHistory(v, before), steps[|steps| - 1])
  }

  ghost predicate IsSuffix<T>(s: seq<T>, t: seq<T>) {
    |s| <= |t| && s == t[|t| - |s|..]
  }

  /** How many images can be gone back to: one more after each publication, up to four, one less after each undo. */
  function Depth(n: nat, steps: seq<Step>): nat {
    if steps == [] then n
    else
      var d := Depth(n, steps[..|steps| - 1]);
      if steps[|steps| - 1].Undo? then if d == 0 then 0 else d - 1
      else if d < MAX_ROLLBACK_DEPTH then d + 1
      else d
  }

  /** After any steps the four slots hold the top of the unbounded undo stack, as deep as the steps leave it. */
  lemma {:induction false} SlotsAreTopOfStack(v: LedgerView, steps: seq<Step>)
    requires |v.undo| <= MAX_ROLLBACK_DEPTH
    ensures IsSuffix(ApplyAll(v, steps).undo, FullHistory(v, steps))
    ensures |ApplyAll(v, steps).undo| == Depth(|v.undo|, steps) <= MAX_ROLLBACK_DEPTH
    ensures ApplyAll(v, steps).generation >= v.generation
  {
    if steps == [] {
    } else {
      var front := steps[..|steps| - 1];
      SlotsAreTopOfStack(v, front);
      StepKeepsTop(ApplyAll(v, front), FullHistory(v, front), steps[|steps| - 1]);
    }
  }

  lemma StepKeepsTop(v: LedgerView, full: seq<seq<ResolvedPackage>>, s: Step)
    requires |v.undo| <= MAX_ROLLBACK_DEPTH && IsSuffix(v.undo, full)
    ensures IsSuffix(Apply(v, s).undo, ApplyUnbounded(v, full, s)) && |Apply(v, s).undo| <= MAX_ROLLBACK_DEPTH
    ensures Apply(v, s).generation >= v.generation
  {
  }

  class PackageLedger {
    const digest: seq<ResolvedPackage> -> u64
    const packages: array<ResolvedPackage>
    var count: nat
    var generation: u64
    const rollback: array<LedgerCheckpoint>
    var rollbackCount: nat
    /** The generation the ledger was opened at, and every image since. */
    ghost const first: nat
    ghost var past: seq<seq<ResolvedPackage>>

    ghost predicate Valid()
      reads this, packages, rollback
    {
      && Holds(packages[..], count) && (generation == 0 ==> count == 0)
      && rollback.Length == MAX_ROLLBACK_DEPTH && rollbackCount <= MAX_ROLLBACK_DEPTH
      && AllHold(rollback[..rollbackCount], digest, generation)
      && past != [] && past[|past| - 1] == packages[..count]
      && generation == first + |past| - 1
    }

    function Installed(): seq<ResolvedPackage>
      requires count <= packages.Length
      reads this`count, packages
    {
      packages[..count]
    }

    ghost function View(): LedgerView
      requires Valid()
      reads this, packages, rollback
    {
      LedgerView(Installed(), generation, Slots(rollback[..rollbackCount]))
    }

    function Authority(): TransactionAuthority
      requires count <= packages.Length
      reads this`count, this`generation, packages
    {
      TransactionAuthority(generation, digest(Installed()))
    }

    constructor (digest: seq<ResolvedPackage> -> u64)
      ensures Valid() && fresh(packages) && fresh(rollback) && this.digest == digest
      ensures View() == LedgerView([], 0, []) && past == [[]]
    {
      this.digest, count, generation, rollbackCount, first, past := digest, 0, 0, 0, 0, [[]];
      packages := new ResolvedPackage[MAX_INSTALLED_PACKAGES](_ => NO_PACKAGE);
      rollback := new LedgerCheckpoint[MAX_ROLLBACK_DEPTH](_ => LedgerCheckpoint([], 0, 0, 0));
      new;
      assert packages[..count] == [];
      assert rollback[..rollbackCount] == [];
    }

    constructor Reopen(digest: seq<ResolvedPackage> -> u64, generation: u64, s: seq<ResolvedPackage>)
      requires Restorable(generation, s)
      ensures Valid() && fresh(packages) && fresh(rollback) && this.digest == digest
      ensures View() == LedgerView(s, generation, []) && past == [s] && first == generation
    {
      this.digest, count, this.generation, rollbackCount := digest, |s|, generation, 0;
      first, past := generation, [s];
      packages := new ResolvedPackage[MAX_INSTALLED_PACKAGES](k requires 0 <= k => if k < |s| then s[k] else NO_PACKAGE);
      rollback := new LedgerCheckpoint[MAX_ROLLBACK_DEPTH](_ => LedgerCheckpoint([], 0, 0, 0));
      new;
      assert packages[..count] == s;
      assert rollback[..rollbackCount] == [];
    }

    /** Opens a durable image, without history. */
    static method Restore(digest: seq<ResolvedPackage> -> u64, generation: u64, s: seq<ResolvedPackage>)
      returns (r: Result<PackageLedger, PackageError>)
      ensures r.Ok? <==> Restorable(generation, s)
      ensures r.Err? ==> r.error == InvalidPersistentState
      ensures r.Ok? ==> fresh(r.value) && r.value.Valid() && r.value.digest == digest
      ensures r.Ok? ==> r.value.View() == LedgerView(s, generation, [])
    {
      var canonical := IsCanonical(s);
      if |s| > MAX_INSTALLED_PACKAGES || (generation == 0 && s != []) || !canonical {
        return Err(InvalidPersistentState);
      }
      var ledger := new PackageLedger.Reopen(digest, generation, s);
      return Ok(ledger);
    }

    method VersionOf(n: u64) returns (version: Option<u16>)
      requires Valid()
      ensures version == Lookup(Image(Installed()), n)
    {
      var found, index := FindName(Installed(), n);
      return if found then Some(packages[index].versionIdx) else None;
    }

    /** A transaction starts from the exact current state or not at all. */
    method Begin(authority: TransactionAuthority) returns (t: Option<PackageTransaction>)
      requires Valid()
      ensures t.Some? <==> authority == Authority()
      ensures t.Some? ==> fresh(t.value) && fresh(t.value.packages) && fresh(t.value.touchedNames) && t.value.Valid()
      ensures t.Some? ==> t.value.View() == Candidate(Image(Installed()), {}, false) && t.value.Installed() == Installed()
      ensures t.Some? ==> t.value.seen == past && t.value.base == authority && Begun(t.value)
    {
      if authority != TransactionAuthority(generation, digest(Installed())) {
        return None;
      }
      var begun := new PackageTransaction(authority, packages[..], count, past);
      return Some(begun);
    }

    /** The transaction began on this ledger. */
    ghost predicate Begun(t: PackageTransaction)
      reads this`past
    {
      && t.seen != [] && t.seen <= past
      && t.base.generation == first + |t.seen| - 1 && t.base.stateDigest == digest(t.Base())
    }

    /**
     * Publishes a candidate. It is refused only for a stale base or for want of a generation; a
     * transaction of this ledger is stale exactly when the state changed since it began.
     */
    method Commit(t: PackageTransaction) returns (r: Result<TransactionReceipt, PackageError>)
      requires Valid() && t.Valid() && t.packages != packages
      modifies this, packages, rollback
      ensures Valid()
      ensures r == Err(StaleAuthority) <==> t.base != old(Authority())
      ensures old(Begun(t)) ==> (r == Err(StaleAuthority) <==> old(past) != t.seen)
      ensures r == Err(GenerationExhausted) <==>
              t.base == old(Authority()) && t.Installed() != old(Installed()) && old(generation) == MAX_U64
      ensures r.Err? ==> (r.error == StaleAuthority || r.error == GenerationExhausted)
      ensures r.Err? ==> View() == old(View()) && past == old(past)
      ensures r.Ok? ==> View() == (if t.Installed() == old(Installed()) then old(View()) else old(View()).Committed(t.Installed()))
      ensures r.Ok? ==> past == (if t.Installed() == old(Installed()) then old(past) else old(past) + [t.Installed()])
      ensures r.Ok? ==> IsReceipt(r.value, old(Authority()), Authority(), old(Image(Installed())), Image(Installed()))
    {
      hide Canonical, Image, Added, Changed, Recent;
      var previous := TransactionAuthority(generation, digest(Installed()));
      if t.base != previous {
        return Err(StaleAuthority);
      }
      var canonical := IsCanonical(t.Installed());
      if !canonical {
        assert false;
        return Err(ContradictorySelection);
      }
      var installed, removed, upgraded := Delta(Installed(), t.Installed());
      NoCountIsEqual(Installed(), t.Installed());
      if installed == 0 && removed == 0 && upgraded == 0 {
        return Ok(TransactionReceipt(previous, previous, 0, 0, 0));
      }
      if generation == MAX_U64 {
        return Err(GenerationExhausted);
      }
      PushCheckpoint(previous);
      Replace(t.packages[..], t.count);
      return Ok(TransactionReceipt(previous, TransactionAuthority(generation, digest(Installed())), installed, removed, upgraded));
    }

    /** Puts another image in place under the next generation. */
    method Replace(s: seq<ResolvedPackage>, n: nat)
      requires Holds(s, n) && packages.Length == MAX_INSTALLED_PACKAGES && generation < MAX_U64
      modifies this`count, this`generation, this`past, packages
      ensures packages[..] == s && count == n && generation == old(generation) + 1 && past == old(past) + [s[..n]]
    {
      forall k | 0 <= k < packages.Length {
        packages[k] := s[k];
      }
      assert packages[..] == s;
      count, generation, past := n, generation + 1, past + [s[..n]];
    }

    /** Keeps the current image, dropping the oldest when all four slots are taken. */
    method PushCheckpoint(authority: TransactionAuthority)
      requires Valid() && authority == Authority()
      modifies this`rollbackCount, rollback
      ensures rollbackCount <= MAX_ROLLBACK_DEPTH
      ensures AllHold(rollback[..rollbackCount], digest, generation + 1)
      ensures Slots(rollback[..rollbackCount]) == Recent(old(Slots(rollback[..rollbackCount])) + [Installed()])
    {
      hide Holds, Slots, AllHold, CheckpointHolds;
      ghost var was := rollback[..rollbackCount];
      var checkpoint := LedgerCheckpoint(packages[..], count, authority.generation, authority.stateDigest);
      CheckpointFits(checkpoint, digest);
      SlotsRecent(was, checkpoint);
      AllHoldRecent(was, checkpoint, digest, generation);
      ghost var full := was + [checkpoint];
      if rollbackCount == MAX_ROLLBACK_DEPTH {
        DropOldest();
        assert rollback[..rollbackCount] == was[1..];
      }
      StoreCheckpoint(checkpoint);
      assert rollback[..rollbackCount] == Recent(full);
    }

    method DropOldest()
      requires rollback.Length == MAX_ROLLBACK_DEPTH && rollbackCount == MAX_ROLLBACK_DEPTH
      modifies this`rollbackCount, rollback
      ensures rollbackCount == MAX_ROLLBACK_DEPTH - 1 && rollback[..rollbackCount] == old(rollback[1..])
    {
      forall k | 0 <= k < rollback.Length - 1 {
        rollback[k] := rollback[k + 1];
      }
      rollbackCount := rollbackCount - 1;
    }

    method StoreCheckpoint(c: LedgerCheckpoint)
      requires rollbackCount < rollback.Length
      modifies this`rollbackCount, rollback
      ensures rollbackCount == old(rollbackCount) + 1 && rollback[..rollbackCount] == old(rollback[..rollbackCount]) + [c]
    {
      rollback[rollbackCount] := c;
      rollbackCount := rollbackCount + 1;
    }

    /**
     * Restores the most recent image under a new generation. With the current authority it fails only
     * for want of history or of a generation: the stored checkpoint itself is never found unfit.
     */
    method Rollback(authority: TransactionAuthority) returns (r: Result<TransactionReceipt, PackageError>)
      requires Valid()
      modifies this, packages
      ensures Valid()
      ensures r == Err(StaleAuthority) <==> authority != old(Authority())
      ensures r == Err(RollbackUnavailable) <==> authority == old(Authority()) && old(View()).undo == []
      ensures r == Err(GenerationExhausted) <==>
              authority == old(Authority()) && old(View()).undo != [] && old(generation) == MAX_U64
      ensures r.Err? ==> View() == old(View()) && past == old(past)
      ensures r.Ok? ==> View() == old(View()).RolledBack() && past == old(past) + [Installed()]
      ensures r.Ok? ==> IsReceipt(r.value, old(Authority()), Authority(), old(Image(Installed())), Image(Installed()))
    {
      hide Canonical, Image, Added, Changed, Recent;
      if authority != TransactionAuthority(generation, digest(Installed())) {
        return Err(StaleAuthority);
      }
      if rollbackCount == 0 {
        return Err(RollbackUnavailable);
      }
      var checkpoint := rollback[rollbackCount - 1];
      assert checkpoint in rollback[..rollbackCount];
      if checkpoint.generation >= generation
         || checkpoint.stateDigest != digest(checkpoint.packages[..checkpoint.count]) {
        assert false;
        return Err(RollbackUnavailable);
      }
      var installed, removed, upgraded := Delta(Installed(), checkpoint.packages[..checkpoint.count]);
      if generation == MAX_U64 {
        return Err(GenerationExhausted);
      }
      ghost var slots := Slots(rollback[..rollbackCount]);
      Replace(checkpoint.packages, checkpoint.count);
      rollbackCount := rollbackCount - 1;
      assert Slots(rollback[..rollbackCount]) == slots[..|slots| - 1];
      return Ok(TransactionReceipt(authority, TransactionAuthority(generation, digest(Installed())), installed, removed, upgraded));
    }
  }

  /** A checkpoint stores a proper image and its digest. */
  ghost predicate CheckpointHolds(c: LedgerCheckpoint, digest: seq<ResolvedPackage> -> u64) {
    Holds(c.packages, c.count) && c.stateDigest == digest(c.packages[..c.count])
  }

  ghost predicate Restorable(generation: u64, s: seq<ResolvedPackage>) {
    |s| <= MAX_INSTALLED_PACKAGES && (generation == 0 ==> s == []) && Canonical(s)
  }

  /** The images the checkpoints hold. */
  ghost function Slots(cs: seq<LedgerCheckpoint>): (s: seq<seq<ResolvedPackage>>)
    ensures |s| == |cs| && forall k :: 0 <= k < |s| ==> s[k] == cs[k].Held()
  {
    seq(|cs|, k requires 0 <= k < |cs| => cs[k].Held())
  }

  /** Every checkpoint is sound and older than `generation`. */
  ghost predicate AllHold(cs: seq<LedgerCheckpoint>, digest: seq<ResolvedPackage> -> u64, generation: nat) {
    forall c :: c in cs ==> CheckpointHolds(c, digest) && c.generation < generation
  }

  lemma CheckpointFits(c: LedgerCheckpoint, digest: seq<ResolvedPackage> -> u64)
    requires Holds(c.packages, c.count) && c.stateDigest == digest(c.packages[..c.count])
    ensures CheckpointHolds(c, digest) && c.Held() == c.packages[..c.count]
  {
  }

  lemma AllHoldRecent(cs: seq<LedgerCheckpoint>, c: LedgerCheckpoint, digest: seq<ResolvedPackage> -> u64, generation: nat)
    requires AllHold(cs, digest, generation) && CheckpointHolds(c, digest) && c.generation == generation
    ensures AllHold(Recent(cs + [c]), digest, generation + 1)
  {
    hide CheckpointHolds;
  }

  lemma SlotsRecent(cs: seq<LedgerCheckpoint>, c: LedgerCheckpoint)
    ensures Slots(Recent(cs + [c])) == Recent(Slots(cs) + [c.Held()])
  {
  }

  /** A receipt counts the names added, dropped and changed between the two authorities. */
  ghost predicate IsReceipt(r: TransactionReceipt, previous: TransactionAuthority, current: TransactionAuthority,
                            before: map<u64, u16>, after: map<u64, u16>) {
    && r.previous == previous && r.current == current
    && r.installed == |Added(before, after)| && r.removed == |Added(after, before)|
    && r.upgraded == |Changed(before, after)|
  }

  lemma NoCountIsEqual(b: seq<ResolvedPackage>, a: seq<ResolvedPackage>)
    requires Canonical(b) && Canonical(a)
    ensures b == a <==> |Added(Image(b), Image(a))| == 0 && |Added(Image(a), Image(b))| == 0 && |Changed(Image(b), Image(a))| == 0
  {
    NoChangeIsEqual(b, a);
  }
}
